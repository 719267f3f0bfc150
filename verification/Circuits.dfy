/** When schematics that match both ways round are the same circuit
    (libs/polygon/doc/tutorial/compare_schematics.hpp). */
module Circuits {
  import opened Schematics
  import opened Matcher
  import opened MatchLaws
  import opened Permutations

  // ---- The same connectivity ----

  // Where terminal j of a device is when source and drain may have changed places.
  function Turned(j: nat, swap: bool): nat {
    if swap && j <= 2 then 2 - j else j
  }

  ghost predicate SameTerminals(rd: Device, xd: Device, rho: string -> string, swap: bool)
    requires WellFormedDevice(rd) && WellFormedDevice(xd) && rd.typ == xd.typ != PIN
  {
    forall j :: 0 <= j < 3 ==> xd.terminals[Turned(j, swap)] == rho(rd.terminals[j])
  }

  // Pins keep their nets; the nets of a transistor are renamed, and its source and drain may be exchanged.
  ghost predicate SameDevice(rd: Device, xd: Device, rho: string -> string)
    requires WellFormedDevice(rd) && WellFormedDevice(xd) && rd.typ == xd.typ
  {
    if rd.typ == PIN then rd == xd && rho(rd.terminals[0]) == rd.terminals[0]
    else SameTerminals(rd, xd, rho, false) || SameTerminals(rd, xd, rho, true)
  }

  // A one-to-one correspondence of devices of the same type.
  ghost predicate Pairing(r: seq<Device>, x: seq<Device>, f: DeviceMap) {
    |f| == |r| == |x| && Permutation(f) && forall i {:trigger f[i]} :: 0 <= i < |f| ==> r[i].typ == x[f[i]].typ
  }

  ghost predicate OneToOne(names: set<string>, rho: string -> string) {
    forall m, n :: m in names && n in names && rho(m) == rho(n) ==> m == n
  }

  // The second list is the first with its devices permuted and its nets renamed one to one.
  ghost predicate SameCircuit(r: seq<Device>, x: seq<Device>, f: DeviceMap, rho: string -> string)
    requires WellFormed(r) && WellFormed(x)
  {
    && Pairing(r, x, f) && OneToOne(NetNames(r), rho)
    && forall i {:trigger f[i]} :: 0 <= i < |f| ==> SameDevice(r[i], x[f[i]], rho)
  }

  ghost predicate IsSameCircuit(r: seq<Device>, x: seq<Device>)
    requires WellFormed(r) && WellFormed(x)
  {
    exists f, rho :: SameCircuit(r, x, f, rho)
  }

  ghost predicate MatchBothWays(r: seq<Device>, x: seq<Device>)
    requires WellFormed(r) && WellFormed(x)
  {
    Embeds(Indexed(r), Indexed(x)) && Embeds(Indexed(x), Indexed(r))
  }

  lemma TerminalIsUsed(r: seq<Device>, i: nat, j: nat)
    requires i < |r| && j < |r[i].terminals|
    ensures r[i].terminals[j] in NetNames(r)
  {
  }

  lemma UsedIsTerminal(r: seq<Device>, n: string) returns (i: nat, j: nat)
    requires n in NetNames(r)
    ensures i < |r| && j < |r[i].terminals| && r[i].terminals[j] == n
  {
    i, j :| 0 <= i < |r| && 0 <= j < |r[i].terminals| && r[i].terminals[j] == n;
  }

  // Every net of the second list is the new name of a net of the first.
  lemma RenamedFrom(r: seq<Device>, x: seq<Device>, f: DeviceMap, rho: string -> string, m: string)
    returns (n: string)
    requires WellFormed(r) && WellFormed(x) && SameCircuit(r, x, f, rho) && m in NetNames(x)
    ensures n in NetNames(r) && rho(n) == m
  {
    var d, h := UsedIsTerminal(x, m);
    var g := Inverse(f);
    var i := g[d];
    assert SameDevice(r[i], x[f[i]], rho);
    if r[i].typ == PIN {
      n := m;
      TerminalIsUsed(r, i, 0);
    } else {
      var swap := !SameTerminals(r[i], x[f[i]], rho, false);
      n := r[i].terminals[Turned(h, swap)];
      TerminalIsUsed(r, i, Turned(h, swap));
      assert x[f[i]].terminals[Turned(Turned(h, swap), swap)] == rho(n);
    }
  }

  ghost function OldName(names: set<string>, rho: string -> string, m: string): string {
    if n :| n in names && rho(n) == m then n else m
  }

  lemma OldNameOf(names: set<string>, rho: string -> string, n: string)
    requires OneToOne(names, rho) && n in names
    ensures OldName(names, rho, rho(n)) == n
  {
    var k := OldName(names, rho, rho(n));
    assert n in names && rho(n) == rho(n);
    assert k in names && rho(k) == rho(n);
  }

  // The relation can be read from either side.
  lemma SameCircuitInverse(r: seq<Device>, x: seq<Device>, f: DeviceMap, rho: string -> string)
    returns (g: DeviceMap, sigma: string -> string)
    requires WellFormed(r) && WellFormed(x) && SameCircuit(r, x, f, rho)
    ensures SameCircuit(x, r, g, sigma)
  {
    g := Inverse(f);
    var names := NetNames(r);
    sigma := OldNames(names, rho);
    forall d | 0 <= d < |g|
      ensures x[d].typ == r[g[d]].typ && SameDevice(x[d], r[g[d]], sigma)
    {
      assert SameDevice(r[g[d]], x[f[g[d]]], rho);
      SameDeviceInverse(r, g[d], x[d], rho, sigma);
    }
    forall m, n | m in NetNames(x) && n in NetNames(x) && sigma(m) == sigma(n)
      ensures m == n
    {
      var m' := RenamedFrom(r, x, f, rho, m);
      var n' := RenamedFrom(r, x, f, rho, n);
      OldNameOf(names, rho, m');
      OldNameOf(names, rho, n');
    }
  }

  ghost function OldNames(names: set<string>, rho: string -> string): (sigma: string -> string)
    requires OneToOne(names, rho)
    ensures forall n :: n in names ==> sigma(rho(n)) == n
  {
    assert forall n :: n in names ==> OldName(names, rho, rho(n)) == n by {
      forall n | n in names
        ensures OldName(names, rho, rho(n)) == n
      {
        OldNameOf(names, rho, n);
      }
    }
    m => OldName(names, rho, m)
  }

  lemma SameDeviceInverse(r: seq<Device>, i: nat, xd: Device, rho: string -> string, sigma: string -> string)
    requires WellFormed(r) && i < |r| && WellFormedDevice(xd) && r[i].typ == xd.typ && SameDevice(r[i], xd, rho)
    requires forall n :: n in NetNames(r) ==> sigma(rho(n)) == n
    ensures SameDevice(xd, r[i], sigma)
  {
    var rd := r[i];
    forall j | 0 <= j < |rd.terminals|
      ensures sigma(rho(rd.terminals[j])) == rd.terminals[j]
    {
      TerminalIsUsed(r, i, j);
    }
    if rd.typ != PIN {
      var swap := !SameTerminals(rd, xd, rho, false);
      forall h | 0 <= h < 3
        ensures rd.terminals[Turned(h, swap)] == sigma(xd.terminals[h])
      {
        assert xd.terminals[Turned(Turned(h, swap), swap)] == rho(rd.terminals[Turned(h, swap)]);
      }
      assert SameTerminals(xd, rd, sigma, swap);
    }
  }

  // ---- The same circuit matches ----

  lemma SameCircuitEmbeds(r: seq<Device>, x: seq<Device>, f: DeviceMap, rho: string -> string)
    requires WellFormed(r) && WellFormed(x) && SameCircuit(r, x, f, rho)
    ensures IsEmbedding(Indexed(r), Indexed(x), f)
  {
    forall n
      ensures NetInto(Indexed(r), Indexed(x), f, n, rho(n))
    {
      forall i | i in DevicesOn(r, n)
        ensures f[i] in DevicesOn(x, rho(n))
      {
        RenamedOn(r[i], x[f[i]], rho, n);
      }
    }
    forall i | 0 <= i < |f|
      ensures Corresponds(Indexed(r), Indexed(x), f, r[i], x[f[i]])
    {
      if r[i].typ != PIN {
        var swap := !SameTerminals(r[i], x[f[i]], rho, false);
        assert x[f[i]].terminals[Turned(0, swap)] == rho(r[i].terminals[0]);
        assert x[f[i]].terminals[Turned(1, swap)] == rho(r[i].terminals[1]);
        assert x[f[i]].terminals[Turned(2, swap)] == rho(r[i].terminals[2]);
      }
    }
  }

  lemma GateRenamed(r: seq<Device>, x: seq<Device>, f: DeviceMap, rho: string -> string, i: nat)
    requires WellFormed(r) && WellFormed(x) && SameCircuit(r, x, f, rho) && i < |r| && r[i].typ != PIN
    ensures x[f[i]].terminals[1] == rho(r[i].terminals[1])
  {
    var swap := !SameTerminals(r[i], x[f[i]], rho, false);
    assert SameDevice(r[i], x[f[i]], rho);
    assert x[f[i]].terminals[Turned(1, swap)] == rho(r[i].terminals[1]);
  }

  lemma RenamedOn(rd: Device, xd: Device, rho: string -> string, n: string)
    requires WellFormedDevice(rd) && WellFormedDevice(xd) && rd.typ == xd.typ && SameDevice(rd, xd, rho)
    requires n in rd.terminals
    ensures rho(n) in xd.terminals
  {
    var j :| 0 <= j < |rd.terminals| && rd.terminals[j] == n;
    if rd.typ != PIN {
      var swap := !SameTerminals(rd, xd, rho, false);
      assert xd.terminals[Turned(j, swap)] == rho(n);
    }
  }

  // The same circuit matches both ways round.
  lemma SameCircuitMatches(r: seq<Device>, x: seq<Device>)
    requires WellFormed(r) && WellFormed(x) && IsSameCircuit(r, x)
    ensures MatchBothWays(r, x) && IsSameCircuit(x, r)
  {
    var f, rho :| SameCircuit(r, x, f, rho);
    var g, sigma := SameCircuitInverse(r, x, f, rho);
    SameCircuitEmbeds(r, x, f, rho);
    SameCircuitEmbeds(x, r, g, sigma);
  }

  // ---- Nets with exactly corresponding devices ----

  ghost predicate SameDevices(r: seq<Device>, x: seq<Device>, f: DeviceMap, n: string, m: string)
    requires Pairing(r, x, f)
  {
    forall i {:trigger f[i]} :: 0 <= i < |f| ==> (n in r[i].terminals <==> m in x[f[i]].terminals)
  }

  ghost predicate ExactTerminals(r: seq<Device>, x: seq<Device>, f: DeviceMap, i: nat, swap: bool)
    requires WellFormed(r) && WellFormed(x) && Pairing(r, x, f) && i < |f| && r[i].typ != PIN
  {
    forall j :: 0 <= j < 3 ==> SameDevices(r, x, f, r[i].terminals[j], x[f[i]].terminals[Turned(j, swap)])
  }

  ghost predicate ExactDevice(r: seq<Device>, x: seq<Device>, f: DeviceMap, i: nat)
    requires WellFormed(r) && WellFormed(x) && Pairing(r, x, f) && i < |f|
  {
    if r[i].typ == PIN then r[i] == x[f[i]]
    else ExactTerminals(r, x, f, i, false) || ExactTerminals(r, x, f, i, true)
  }

  ghost predicate Exact(r: seq<Device>, x: seq<Device>, f: DeviceMap)
    requires WellFormed(r) && WellFormed(x)
  {
    Pairing(r, x, f) && forall i {:trigger f[i]} :: 0 <= i < |f| ==> ExactDevice(r, x, f, i)
  }

  // Nets in use can be told apart by the devices on them.
  ghost predicate DistinctNets(r: seq<Device>) {
    forall m, n :: m in NetNames(r) && n in NetNames(r) && DevicesOn(r, m) == DevicesOn(r, n) ==> m == n
  }

  // Nets that correspond to the same net, or that have the same corresponding net, have the same devices.
  lemma SameDevicesDetermine(r: seq<Device>, x: seq<Device>, f: DeviceMap, n: string, m: string, n': string, m': string)
    requires Pairing(r, x, f) && SameDevices(r, x, f, n, m) && SameDevices(r, x, f, n', m')
    ensures DevicesOn(r, n) == DevicesOn(r, n') <==> DevicesOn(x, m) == DevicesOn(x, m')
  {
    var g := Inverse(f);
    if DevicesOn(r, n) == DevicesOn(r, n') {
      forall d: nat | d < |x|
        ensures d in DevicesOn(x, m) <==> d in DevicesOn(x, m')
      {
        assert f[g[d]] == d;
        assert g[d] in DevicesOn(r, n) <==> g[d] in DevicesOn(r, n');
      }
    }
    if DevicesOn(x, m) == DevicesOn(x, m') {
      forall i: nat | i < |r|
        ensures i in DevicesOn(r, n) <==> i in DevicesOn(r, n')
      {
        assert f[i] in DevicesOn(x, m) <==> f[i] in DevicesOn(x, m');
      }
    }
  }

  ghost predicate Partner(r: seq<Device>, x: seq<Device>, f: DeviceMap, n: string, m: string)
    requires Pairing(r, x, f)
  {
    m in NetNames(x) && SameDevices(r, x, f, n, m)
  }

  // The net with the same devices, if there is one.
  ghost function NewName(r: seq<Device>, x: seq<Device>, f: DeviceMap, n: string): string
    requires Pairing(r, x, f)
  {
    if m :| Partner(r, x, f, n, m) then m else n
  }

  lemma NewNameIs(r: seq<Device>, x: seq<Device>, f: DeviceMap, n: string, m: string)
    requires Pairing(r, x, f) && DistinctNets(x) && Partner(r, x, f, n, m)
    ensures NewName(r, x, f, n) == m
  {
    var k := NewName(r, x, f, n);
    assert Partner(r, x, f, n, k);
    SameDevicesDetermine(r, x, f, n, m, n, k);
  }

  // A net with a pin keeps its name.
  lemma PinNetKept(r: seq<Device>, x: seq<Device>, f: DeviceMap, i: nat)
    requires WellFormed(r) && WellFormed(x) && Exact(r, x, f) && i < |r| && r[i].typ == PIN
    ensures NewName(r, x, f, r[i].terminals[0]) == r[i].terminals[0]
    ensures forall n :: Partner(r, x, f, n, r[i].terminals[0]) ==> n == r[i].terminals[0]
  {
    var p := r[i].terminals[0];
    assert ExactDevice(r, x, f, i);
    assert x[f[i]].terminals == [p] == r[i].terminals;
    forall m | Partner(r, x, f, p, m)
      ensures m == p
    {
      assert m in x[f[i]].terminals;
    }
    forall n | Partner(r, x, f, n, p)
      ensures n == p
    {
      assert n in r[i].terminals;
    }
  }

  // A net without a partner is on pins only.
  lemma OnlyPins(r: seq<Device>, x: seq<Device>, f: DeviceMap, n: string) returns (i: nat)
    requires WellFormed(r) && WellFormed(x) && Exact(r, x, f) && n in NetNames(r)
    requires forall m :: !Partner(r, x, f, n, m)
    ensures i < |r| && r[i].typ == PIN && r[i].terminals[0] == n
  {
    var j;
    i, j := UsedIsTerminal(r, n);
    assert ExactDevice(r, x, f, i);
    if r[i].typ != PIN {
      var swap := !ExactTerminals(r, x, f, i, false);
      TerminalIsUsed(x, f[i], Turned(j, swap));
      assert Partner(r, x, f, n, x[f[i]].terminals[Turned(j, swap)]);
    }
  }

  lemma NewNameInjective(r: seq<Device>, x: seq<Device>, f: DeviceMap, n: string, k: string)
    requires WellFormed(r) && WellFormed(x) && Exact(r, x, f) && DistinctNets(r)
    requires n in NetNames(r) && k in NetNames(r) && NewName(r, x, f, n) == NewName(r, x, f, k)
    ensures n == k
  {
    var m := NewName(r, x, f, n);
    if !Partner(r, x, f, n, m) {
      var i := OnlyPins(r, x, f, n);
      PinNetKept(r, x, f, i);
    } else if !Partner(r, x, f, k, m) {
      var i := OnlyPins(r, x, f, k);
      PinNetKept(r, x, f, i);
    } else {
      SameDevicesDetermine(r, x, f, n, m, k, m);
    }
  }

  // If devices and their nets correspond exactly, and nets can be told apart, the circuits are the same.
  lemma ExactIsSame(r: seq<Device>, x: seq<Device>, f: DeviceMap)
    requires WellFormed(r) && WellFormed(x) && Exact(r, x, f) && DistinctNets(r) && DistinctNets(x)
    ensures IsSameCircuit(r, x)
  {
    var rho := (n: string) => NewName(r, x, f, n);
    forall m, n | m in NetNames(r) && n in NetNames(r) && rho(m) == rho(n)
      ensures m == n
    {
      NewNameInjective(r, x, f, m, n);
    }
    forall i | 0 <= i < |f|
      ensures SameDevice(r[i], x[f[i]], rho)
    {
      assert ExactDevice(r, x, f, i);
      if r[i].typ == PIN {
        PinNetKept(r, x, f, i);
      } else {
        var swap := !ExactTerminals(r, x, f, i, false);
        forall j | 0 <= j < 3
          ensures x[f[i]].terminals[Turned(j, swap)] == rho(r[i].terminals[j])
        {
          TerminalIsUsed(x, f[i], Turned(j, swap));
          NewNameIs(r, x, f, r[i].terminals[j], x[f[i]].terminals[Turned(j, swap)]);
        }
        assert SameTerminals(r[i], x[f[i]], rho, swap);
      }
    }
    assert SameCircuit(r, x, f, rho);
  }

  // ---- What a match both ways round shows ----

  // The inverse correspondences of a match both ways round.
  ghost predicate Mutual(r: seq<Device>, x: seq<Device>, f: DeviceMap, g: DeviceMap)
    requires WellFormed(r) && WellFormed(x)
  {
    Equivalence(Indexed(r), Indexed(x), f, g) && Pairing(r, x, f)
  }

  lemma MutualMatch(r: seq<Device>, x: seq<Device>) returns (f: DeviceMap, g: DeviceMap)
    requires WellFormed(r) && WellFormed(x) && MatchBothWays(r, x)
    ensures Mutual(r, x, f, g)
  {
    MutualMatchIsEquivalence(Indexed(r), Indexed(x));
    f, g :| Equivalence(Indexed(r), Indexed(x), f, g);
  }

  lemma IntoAndBack(r: seq<Device>, x: seq<Device>, f: DeviceMap, g: DeviceMap, n: string, m: string, n': string)
    requires WellFormed(r) && WellFormed(x) && Mutual(r, x, f, g)
    requires NetInto(Indexed(r), Indexed(x), f, n, m) && NetInto(Indexed(x), Indexed(r), g, m, n')
    ensures DevicesOn(r, n) <= DevicesOn(r, n')
    ensures n == n' ==> SameDevices(r, x, f, n, m)
  {
    forall i: nat | i in DevicesOn(r, n)
      ensures f[i] in DevicesOn(x, m)
    {
      assert f[i] in Image(f, NodesOf(Indexed(r).nets, n));
    }
    forall d: nat | d in DevicesOn(x, m)
      ensures g[d] in DevicesOn(r, n')
    {
      assert g[d] in Image(g, NodesOf(Indexed(x).nets, m));
    }
    assert forall i :: 0 <= i < |f| ==> g[f[i]] == i;
  }

  // Gate nets correspond exactly.
  lemma GateIsExact(r: seq<Device>, x: seq<Device>, f: DeviceMap, g: DeviceMap, i: nat)
    requires WellFormed(r) && WellFormed(x) && Mutual(r, x, f, g) && i < |r| && r[i].typ != PIN
    ensures SameDevices(r, x, f, r[i].terminals[1], x[f[i]].terminals[1])
  {
    assert Corresponds(Indexed(r), Indexed(x), f, r[i], x[f[i]]);
    assert Corresponds(Indexed(x), Indexed(r), g, x[f[i]], r[g[f[i]]]);
    IntoAndBack(r, x, f, g, r[i].terminals[1], x[f[i]].terminals[1], r[i].terminals[1]);
  }

  // The other terminal of source and drain.
  ghost predicate IsOuter(r: seq<Device>, i: nat, k: nat) {
    i < |r| && WellFormedDevice(r[i]) && r[i].typ != PIN && (k == 0 || k == 2)
  }

  // The devices on this outer net are not all on the other outer net of the transistor.
  ghost predicate Maximal(r: seq<Device>, i: nat, k: nat)
    requires IsOuter(r, i, k)
  {
    !(DevicesOn(r, r[i].terminals[k]) <= DevicesOn(r, r[i].terminals[2 - k]))
  }

  // Such an outer net corresponds exactly to an outer net.
  lemma MaximalIsExact(r: seq<Device>, x: seq<Device>, f: DeviceMap, g: DeviceMap, i: nat, k: nat) returns (l: nat)
    requires WellFormed(r) && WellFormed(x) && Mutual(r, x, f, g) && IsOuter(r, i, k)
    requires Maximal(r, i, k) || r[i].terminals[k] == r[i].terminals[2 - k]
    ensures (l == 0 || l == 2) && SameDevices(r, x, f, r[i].terminals[k], x[f[i]].terminals[l])
  {
    var n := r[i].terminals[k];
    assert Corresponds(Indexed(r), Indexed(x), f, r[i], x[f[i]]);
    assert Corresponds(Indexed(x), Indexed(r), g, x[f[i]], r[g[f[i]]]);
    l := if NetInto(Indexed(r), Indexed(x), f, n, x[f[i]].terminals[0]) then 0 else 2;
    var m := x[f[i]].terminals[l];
    if NetInto(Indexed(x), Indexed(r), g, m, n) {
      IntoAndBack(r, x, f, g, n, m, n);
    } else {
      IntoAndBack(r, x, f, g, n, m, r[i].terminals[2 - k]);
    }
  }

  ghost predicate OuterExact(r: seq<Device>, x: seq<Device>, f: DeviceMap, i: nat, k: nat, l: nat)
    requires WellFormed(x) && Pairing(r, x, f) && IsOuter(r, i, k)
  {
    (l == 0 || l == 2) && SameDevices(r, x, f, r[i].terminals[k], x[f[i]].terminals[l])
  }

  ghost predicate OuterTight(r: seq<Device>, x: seq<Device>, f: DeviceMap, i: nat, k: nat)
    requires WellFormed(x) && Pairing(r, x, f) && IsOuter(r, i, k)
  {
    Maximal(r, i, k) || r[i].terminals[k] == r[i].terminals[2 - k] ==> exists l: nat :: OuterExact(r, x, f, i, k, l)
  }

  // What a match both ways round shows about a device: its pin, or its gate and the outer nets that are not hidden.
  ghost predicate Tight(r: seq<Device>, x: seq<Device>, f: DeviceMap, i: nat)
    requires WellFormed(r) && WellFormed(x) && Pairing(r, x, f) && i < |f|
  {
    if r[i].typ == PIN then r[i] == x[f[i]]
    else
      && SameDevices(r, x, f, r[i].terminals[1], x[f[i]].terminals[1])
      && OuterTight(r, x, f, i, 0) && OuterTight(r, x, f, i, 2)
  }

  ghost predicate AllTight(r: seq<Device>, x: seq<Device>, f: DeviceMap)
    requires WellFormed(r) && WellFormed(x)
  {
    Pairing(r, x, f) && forall i :: 0 <= i < |f| ==> Tight(r, x, f, i)
  }

  lemma OuterIsTight(r: seq<Device>, x: seq<Device>, f: DeviceMap, g: DeviceMap, i: nat, k: nat)
    requires WellFormed(r) && WellFormed(x) && Mutual(r, x, f, g) && IsOuter(r, i, k)
    ensures OuterTight(r, x, f, i, k)
  {
    if Maximal(r, i, k) || r[i].terminals[k] == r[i].terminals[2 - k] {
      var l := MaximalIsExact(r, x, f, g, i, k);
      assert OuterExact(r, x, f, i, k, l);
    }
  }

  lemma MutualIsTight(r: seq<Device>, x: seq<Device>, f: DeviceMap, g: DeviceMap)
    requires WellFormed(r) && WellFormed(x) && Mutual(r, x, f, g)
    ensures AllTight(r, x, f)
  {
    forall i | 0 <= i < |f|
      ensures Tight(r, x, f, i)
    {
      assert Corresponds(Indexed(r), Indexed(x), f, r[i], x[f[i]]);
      if r[i].typ == PIN {
        assert r[i].terminals == x[f[i]].terminals;
      } else {
        GateIsExact(r, x, f, g, i);
        OuterIsTight(r, x, f, g, i, 0);
        OuterIsTight(r, x, f, g, i, 2);
      }
    }
  }

  // If both outer nets of a transistor correspond exactly, and to different ones, the transistor does.
  lemma OutersMakeExact(r: seq<Device>, x: seq<Device>, f: DeviceMap, i: nat, k: nat, l: nat)
    requires WellFormed(r) && WellFormed(x) && Pairing(r, x, f) && IsOuter(r, i, 0) && IsOuter(r, i, 2)
    requires SameDevices(r, x, f, r[i].terminals[1], x[f[i]].terminals[1])
    requires OuterExact(r, x, f, i, 0, k) && OuterExact(r, x, f, i, 2, l) && k != l
    ensures ExactDevice(r, x, f, i)
  {
    var swap := k == 2;
    forall j | 0 <= j < 3
      ensures SameDevices(r, x, f, r[i].terminals[j], x[f[i]].terminals[Turned(j, swap)])
    {
      assert j == 0 || j == 1 || j == 2;
    }
    assert ExactTerminals(r, x, f, i, swap);
  }
}
