/** Which schematics are determined, up to the names of their nets, by what matches them both ways round
    (libs/polygon/doc/tutorial/compare_schematics.hpp). */
module CircuitLaws {
  import opened Schematics
  import opened Matcher
  import opened MatchLaws
  import opened Permutations
  import opened Circuits

  // ---- The condition ----

  // A gate is on the net, or it is an outer net whose devices are not all on the other outer net.
  ghost predicate ShowsAt(r: seq<Device>, n: string, i: nat)
    requires WellFormed(r)
  {
    && i < |r| && r[i].typ != PIN
    && (r[i].terminals[1] == n || exists k: nat :: IsOuter(r, i, k) && r[i].terminals[k] == n && Maximal(r, i, k))
  }

  ghost predicate Shows(r: seq<Device>, n: string)
    requires WellFormed(r)
  {
    exists i: nat :: ShowsAt(r, n, i)
  }

  // Source and drain are not joined, and an outer net that could be hidden behind the other
  // is not the gate net and shows elsewhere.
  ghost predicate OuterFixed(r: seq<Device>, i: nat, k: nat)
    requires WellFormed(r) && IsOuter(r, i, k)
  {
    var n := r[i].terminals[k];
    && n != r[i].terminals[2 - k]
    && (!Maximal(r, i, k) ==> n != r[i].terminals[1] && Shows(r, n))
  }

  ghost predicate OutersFixed(r: seq<Device>)
    requires WellFormed(r)
  {
    forall i: nat, k: nat :: IsOuter(r, i, k) ==> OuterFixed(r, i, k)
  }

  // The net is on exactly one terminal of the device.
  ghost predicate OnceOn(d: Device, n: string) {
    exists j :: 0 <= j < |d.terminals| && d.terminals[j] == n && OnlyAt(d, n, j)
  }

  ghost predicate OnlyAt(d: Device, n: string, j: nat) {
    forall h :: 0 <= h < |d.terminals| && d.terminals[h] == n ==> h == j
  }

  ghost predicate OnceSomewhere(r: seq<Device>, n: string) {
    exists i :: 0 <= i < |r| && OnceOn(r[i], n)
  }

  ghost predicate OnceEach(r: seq<Device>) {
    forall n :: n in NetNames(r) ==> OnceSomewhere(r, n)
  }

  ghost predicate Determined(r: seq<Device>)
    requires WellFormed(r)
  {
    DistinctNets(r) && OutersFixed(r) && OnceEach(r)
  }

  // A match both ways round decides whether another list is the same circuit.
  ghost predicate MatchDecides(r: seq<Device>)
    requires WellFormed(r)
  {
    forall x :: WellFormed(x) ==> (MatchBothWays(r, x) <==> IsSameCircuit(r, x))
  }

  // ---- The condition suffices ----

  lemma ShownIsExact(r: seq<Device>, x: seq<Device>, f: DeviceMap, n: string) returns (m: string)
    requires WellFormed(r) && WellFormed(x) && AllTight(r, x, f) && Shows(r, n)
    ensures SameDevices(r, x, f, n, m)
  {
    var i: nat :| ShowsAt(r, n, i);
    assert Tight(r, x, f, i);
    if r[i].terminals[1] == n {
      m := x[f[i]].terminals[1];
    } else {
      var k: nat :| IsOuter(r, i, k) && r[i].terminals[k] == n && Maximal(r, i, k);
      var l: nat :| OuterExact(r, x, f, i, k, l);
      m := x[f[i]].terminals[l];
    }
  }

  // Different nets of a device do not correspond to the same net.
  lemma OtherPartner(r: seq<Device>, x: seq<Device>, f: DeviceMap, n: string, n': string, m: string, m': string,
                     i: nat, j: nat, j': nat)
    requires Pairing(r, x, f) && DistinctNets(r) && SameDevices(r, x, f, n, m) && SameDevices(r, x, f, n', m')
    requires i < |r| && j < |r[i].terminals| && j' < |r[i].terminals|
    requires n == r[i].terminals[j] && n' == r[i].terminals[j'] && n != n'
    ensures m != m'
  {
    TerminalIsUsed(r, i, j);
    TerminalIsUsed(r, i, j');
    SameDevicesDetermine(r, x, f, n, m, n', m');
  }

  // An outer net that is hidden behind the other corresponds exactly to the outer net that is left for it.
  lemma HiddenIsExact(r: seq<Device>, x: seq<Device>, f: DeviceMap, m: string, i: nat, k: nat, l: nat)
    requires WellFormed(x) && Pairing(r, x, f) && DistinctNets(r) && IsOuter(r, i, k) && IsOuter(r, i, 2 - k)
    requires r[i].terminals[k] != r[i].terminals[2 - k] && r[i].terminals[k] != r[i].terminals[1]
    requires SameDevices(r, x, f, r[i].terminals[k], m)
    requires SameDevices(r, x, f, r[i].terminals[1], x[f[i]].terminals[1])
    requires OuterExact(r, x, f, i, 2 - k, l)
    ensures OuterExact(r, x, f, i, k, 2 - l)
  {
    var n := r[i].terminals[k];
    OtherPartner(r, x, f, n, r[i].terminals[1], m, x[f[i]].terminals[1], i, k, 1);
    OtherPartner(r, x, f, n, r[i].terminals[2 - k], m, x[f[i]].terminals[l], i, k, 2 - k);
    assert m in x[f[i]].terminals;
  }

  // Of two outer nets that differ, at least one is not hidden behind the other.
  lemma OneIsMaximal(r: seq<Device>, i: nat, k: nat)
    requires DistinctNets(r) && IsOuter(r, i, k) && r[i].terminals[k] != r[i].terminals[2 - k]
    ensures Maximal(r, i, k) || Maximal(r, i, 2 - k)
  {
    TerminalIsUsed(r, i, k);
    TerminalIsUsed(r, i, 2 - k);
  }

  // Whether it is hidden or not, an outer net that is fixed corresponds exactly to an outer net.
  lemma OuterIsExact(r: seq<Device>, x: seq<Device>, f: DeviceMap, i: nat, k: nat) returns (l: nat)
    requires WellFormed(r) && WellFormed(x) && AllTight(r, x, f) && DistinctNets(r)
    requires IsOuter(r, i, k) && OuterFixed(r, i, k)
    ensures OuterExact(r, x, f, i, k, l)
  {
    assert Tight(r, x, f, i);
    if Maximal(r, i, k) {
      l :| OuterExact(r, x, f, i, k, l);
    } else {
      OneIsMaximal(r, i, k);
      var h: nat :| OuterExact(r, x, f, i, 2 - k, h);
      var m := ShownIsExact(r, x, f, r[i].terminals[k]);
      HiddenIsExact(r, x, f, m, i, k, h);
      l := 2 - h;
    }
  }

  lemma FixedIsExact(r: seq<Device>, x: seq<Device>, f: DeviceMap, i: nat)
    requires WellFormed(r) && WellFormed(x) && AllTight(r, x, f) && DistinctNets(r) && OutersFixed(r) && i < |r|
    ensures ExactDevice(r, x, f, i)
  {
    assert Tight(r, x, f, i);
    if r[i].typ != PIN {
      assert IsOuter(r, i, 0) && IsOuter(r, i, 2);
      assert OuterFixed(r, i, 0) && OuterFixed(r, i, 2);
      var k := OuterIsExact(r, x, f, i, 0);
      var l := OuterIsExact(r, x, f, i, 2);
      OtherPartner(r, x, f, r[i].terminals[0], r[i].terminals[2], x[f[i]].terminals[k], x[f[i]].terminals[l], i, 0, 2);
      OutersMakeExact(r, x, f, i, k, l);
    }
  }

  // Where a terminal of an exactly corresponding device comes from.
  lemma ComesFrom(r: seq<Device>, x: seq<Device>, f: DeviceMap, i: nat, h: nat) returns (j: nat)
    requires WellFormed(r) && WellFormed(x) && Exact(r, x, f) && i < |f|
    requires r[i].typ != PIN && h < 3
    ensures j < 3 && SameDevices(r, x, f, r[i].terminals[j], x[f[i]].terminals[h])
    ensures j == Turned(h, !ExactTerminals(r, x, f, i, false))
  {
    assert ExactDevice(r, x, f, i);
    var swap := !ExactTerminals(r, x, f, i, false);
    j := Turned(h, swap);
    assert Turned(j, swap) == h;
  }

  // If nets are used once somewhere, nets that correspond to them can be told apart as well.
  lemma DistinctOnBothSides(r: seq<Device>, x: seq<Device>, f: DeviceMap)
    requires WellFormed(r) && WellFormed(x) && Exact(r, x, f) && DistinctNets(r) && OnceEach(r)
    ensures DistinctNets(x)
  {
    forall m, n | m in NetNames(x) && n in NetNames(x) && DevicesOn(x, m) == DevicesOn(x, n)
      ensures m == n
    {
      if m != n {
        var d, h := UsedIsTerminal(x, m);
        assert d in DevicesOn(x, m) && d in DevicesOn(x, n);
        assert |x[d].terminals| == 3;
        var h' :| 0 <= h' < 3 && x[d].terminals[h'] == n;
        var t := OneSource(r, x, f, d, h, h');
        TwiceEverywhere(r, x, f, t, m, n);
        assert false;
      }
    }
  }

  lemma OneSource(r: seq<Device>, x: seq<Device>, f: DeviceMap, d: nat, h: nat, h': nat) returns (t: string)
    requires WellFormed(r) && WellFormed(x) && Exact(r, x, f) && DistinctNets(r)
    requires d < |x| && x[d].typ != PIN && h < 3 && h' < 3
    requires DevicesOn(x, x[d].terminals[h]) == DevicesOn(x, x[d].terminals[h'])
    ensures t in NetNames(r)
    ensures SameDevices(r, x, f, t, x[d].terminals[h]) && SameDevices(r, x, f, t, x[d].terminals[h'])
  {
    var g := Inverse(f);
    var i := g[d];
    assert r[i].typ == x[f[i]].typ;
    var j := ComesFrom(r, x, f, i, h);
    var j' := ComesFrom(r, x, f, i, h');
    TerminalIsUsed(r, i, j);
    TerminalIsUsed(r, i, j');
    SameDevicesDetermine(r, x, f, r[i].terminals[j], x[d].terminals[h], r[i].terminals[j'], x[d].terminals[h']);
    t := r[i].terminals[j];
  }

  lemma TwiceEverywhere(r: seq<Device>, x: seq<Device>, f: DeviceMap, t: string, m: string, n: string)
    requires WellFormed(r) && WellFormed(x) && Exact(r, x, f) && DistinctNets(r) && t in NetNames(r) && m != n
    requires SameDevices(r, x, f, t, m) && SameDevices(r, x, f, t, n)
    ensures !OnceSomewhere(r, t)
  {
    forall i | 0 <= i < |r|
      ensures !OnceOn(r[i], t)
    {
      if t in r[i].terminals {
        assert m in x[f[i]].terminals && n in x[f[i]].terminals;
        TwiceOn(r, x, f, t, m, n, i);
      }
    }
  }

  lemma TwiceOn(r: seq<Device>, x: seq<Device>, f: DeviceMap, t: string, m: string, n: string, i: nat)
    requires WellFormed(r) && WellFormed(x) && Exact(r, x, f) && DistinctNets(r) && t in NetNames(r) && m != n
    requires SameDevices(r, x, f, t, m) && SameDevices(r, x, f, t, n)
    requires i < |r| && m in x[f[i]].terminals && n in x[f[i]].terminals
    ensures !OnceOn(r[i], t)
  {
    var xd := x[f[i]];
    assert |xd.terminals| == 3 && r[i].typ != PIN;
    var h :| 0 <= h < 3 && xd.terminals[h] == m;
    var h' :| 0 <= h' < 3 && xd.terminals[h'] == n;
    SourceIs(r, x, f, t, i, h);
    SourceIs(r, x, f, t, i, h');
    var swap := !ExactTerminals(r, x, f, i, false);
    TwoPlaces(r[i], t, Turned(h, swap), Turned(h', swap));
  }

  lemma TwoPlaces(d: Device, n: string, j: nat, j': nat)
    requires j < |d.terminals| && j' < |d.terminals| && j != j' && d.terminals[j] == d.terminals[j'] == n
    ensures !OnceOn(d, n)
  {
  }

  lemma SourceIs(r: seq<Device>, x: seq<Device>, f: DeviceMap, t: string, i: nat, h: nat)
    requires WellFormed(r) && WellFormed(x) && Exact(r, x, f) && DistinctNets(r) && t in NetNames(r)
    requires i < |r| && r[i].typ != PIN && h < 3 && SameDevices(r, x, f, t, x[f[i]].terminals[h])
    ensures r[i].terminals[Turned(h, !ExactTerminals(r, x, f, i, false))] == t
  {
    var j := ComesFrom(r, x, f, i, h);
    TerminalIsUsed(r, i, j);
    SameDevicesDetermine(r, x, f, t, x[f[i]].terminals[h], r[i].terminals[j], x[f[i]].terminals[h]);
  }

  lemma DeterminedSuffices(r: seq<Device>, x: seq<Device>)
    requires WellFormed(r) && WellFormed(x) && Determined(r) && MatchBothWays(r, x)
    ensures IsSameCircuit(r, x)
  {
    var f, g := MutualMatch(r, x);
    MutualIsTight(r, x, f, g);
    forall i | 0 <= i < |f|
      ensures ExactDevice(r, x, f, i)
    {
      FixedIsExact(r, x, f, i);
    }
    DistinctOnBothSides(r, x, f);
    ExactIsSame(r, x, f);
  }

  // ---- The condition is necessary ----

  lemma {:induction false} RenamedCount(names: set<string>, rho: string -> string)
    requires OneToOne(names, rho)
    ensures |set n | n in names :: rho(n)| == |names|
  {
    if names != {} {
      var m :| m in names;
      var rest := names - {m};
      RenamedCount(rest, rho);
      var smaller := set n | n in rest :: rho(n);
      assert rho(m) !in smaller;
      assert (set n | n in names :: rho(n)) == smaller + {rho(m)};
    }
  }

  // The same circuit has as many nets.
  lemma SameNetCount(r: seq<Device>, x: seq<Device>)
    requires WellFormed(r) && WellFormed(x) && IsSameCircuit(r, x)
    ensures |NetNames(r)| == |NetNames(x)|
  {
    var f, rho :| SameCircuit(r, x, f, rho);
    var image := set n | n in NetNames(r) :: rho(n);
    RenamedCount(NetNames(r), rho);
    forall m | m in NetNames(x)
      ensures m in image
    {
      var n := RenamedFrom(r, x, f, rho, m);
    }
    forall n | n in NetNames(r)
      ensures rho(n) in NetNames(x)
    {
      var i, j := UsedIsTerminal(r, n);
      assert SameDevice(r[i], x[f[i]], rho);
      RenamedOn(r[i], x[f[i]], rho, n);
      var h :| 0 <= h < |x[f[i]].terminals| && x[f[i]].terminals[h] == rho(n);
      TerminalIsUsed(x, f[i], h);
    }
    assert image == NetNames(x);
  }

  // ---- Schematics that differ only in their wires ----

  // Each device is still connected to whatever its nets connect it to, and possibly to more.
  ghost predicate StillConnected(r: seq<Device>, x: seq<Device>, i: nat)
    requires WellFormed(r) && WellFormed(x) && i < |r| == |x|
  {
    && r[i].typ == x[i].typ
    && (r[i].typ == PIN ==> r[i] == x[i])
    && (r[i].typ != PIN ==>
          && DevicesOn(r, r[i].terminals[1]) <= DevicesOn(x, x[i].terminals[1])
          && StillOn(r, x, i, 0) && StillOn(r, x, i, 2))
  }

  ghost predicate StillOn(r: seq<Device>, x: seq<Device>, i: nat, k: nat)
    requires i < |r| == |x| && |x[i].terminals| == 3 && k < |r[i].terminals|
  {
    || DevicesOn(r, r[i].terminals[k]) <= DevicesOn(x, x[i].terminals[0])
    || DevicesOn(r, r[i].terminals[k]) <= DevicesOn(x, x[i].terminals[2])
  }

  ghost predicate AllConnected(r: seq<Device>, x: seq<Device>)
    requires WellFormed(r) && WellFormed(x)
  {
    |r| == |x| && forall i :: 0 <= i < |r| ==> StillConnected(r, x, i)
  }

  lemma ConnectedEmbeds(r: seq<Device>, x: seq<Device>)
    requires WellFormed(r) && WellFormed(x) && AllConnected(r, x)
    ensures Embeds(Indexed(r), Indexed(x))
  {
    var id := Identity(|r|);
    forall n, m | DevicesOn(r, n) <= DevicesOn(x, m)
      ensures NetInto(Indexed(r), Indexed(x), id, n, m)
    {
    }
    forall i | 0 <= i < |id|
      ensures r[i].typ == x[id[i]].typ && Corresponds(Indexed(r), Indexed(x), id, r[i], x[id[i]])
    {
      assert StillConnected(r, x, i);
    }
    assert IsEmbedding(Indexed(r), Indexed(x), id);
  }

  // A schematic that matches both ways round but has fewer or more nets.
  ghost predicate Rival(r: seq<Device>, x: seq<Device>)
    requires WellFormed(r)
  {
    WellFormed(x) && AllConnected(r, x) && AllConnected(x, r) && |NetNames(r)| != |NetNames(x)|
  }

  lemma RivalRefutes(r: seq<Device>, x: seq<Device>)
    requires WellFormed(r) && Rival(r, x)
    ensures WellFormed(x) && MatchBothWays(r, x) && !IsSameCircuit(r, x)
  {
    ConnectedEmbeds(r, x);
    ConnectedEmbeds(x, r);
    if IsSameCircuit(r, x) {
      SameNetCount(r, x);
    }
  }

  lemma {:induction false} LongestName(names: set<string>) returns (n: nat)
    ensures forall name :: name in names ==> |name| <= n
  {
    n := 0;
    if names != {} {
      var name :| name in names;
      n := LongestName(names - {name});
      n := if |name| > n then |name| else n;
    }
  }

  lemma NewNet(r: seq<Device>) returns (s: string)
    ensures s !in NetNames(r)
  {
    var n := LongestName(NetNames(r));
    s := seq(n + 1, _ => 'x');
  }

  // A net of a device renamed.
  function RenameNet(d: Device, n: string, m: string): Device {
    Device(d.typ, seq(|d.terminals|, j requires 0 <= j < |d.terminals| =>
                    if d.terminals[j] == n then m else d.terminals[j]))
  }

  // The device is on the same nets except for one.
  ghost predicate LosesNet(rd: Device, xd: Device, n: string) {
    forall k :: k in xd.terminals <==> k != n && k in rd.terminals
  }

  lemma RenamedNet(d: Device, n: string, m: string)
    requires WellFormedDevice(d) && m != n && (n in d.terminals <==> m in d.terminals)
    ensures LosesNet(d, RenameNet(d, n, m), n) && WellFormedDevice(RenameNet(d, n, m))
    ensures d.typ == PIN ==> RenameNet(d, n, m) == d
  {
    var xd := RenameNet(d, n, m);
    forall k | k in d.terminals && k != n
      ensures k in xd.terminals
    {
      var j :| 0 <= j < |d.terminals| && d.terminals[j] == k;
      assert xd.terminals[j] == k;
    }
    if d.typ == PIN {
      assert xd.terminals == d.terminals;
    }
  }

  lemma LostNet(r: seq<Device>, x: seq<Device>, n: string)
    requires |r| == |x| && forall i :: 0 <= i < |r| ==> LosesNet(r[i], x[i], n)
    ensures forall k :: DevicesOn(x, k) == if k == n then {} else DevicesOn(r, k)
  {
  }

  // Two nets with the same devices can be joined.
  lemma JoinNets(r: seq<Device>, m: string, n: string) returns (x: seq<Device>)
    requires WellFormed(r) && m in NetNames(r) && n in NetNames(r) && m != n && DevicesOn(r, m) == DevicesOn(r, n)
    ensures Rival(r, x)
  {
    x := seq(|r|, i requires 0 <= i < |r| => RenameNet(r[i], n, m));
    forall i | 0 <= i < |r|
      ensures LosesNet(r[i], x[i], n) && WellFormedDevice(x[i]) && (r[i].typ == PIN ==> x[i] == r[i])
    {
      assert i in DevicesOn(r, m) <==> i in DevicesOn(r, n);
      RenamedNet(r[i], n, m);
    }
    SmallerNetCount(r, x, n);
    LostNet(r, x, n);
    forall i | 0 <= i < |r|
      ensures StillConnected(r, x, i) && StillConnected(x, r, i)
    {
      JoinedConnected(r, x, m, n, i);
    }
  }

  lemma JoinedConnected(r: seq<Device>, x: seq<Device>, m: string, n: string, i: nat)
    requires WellFormed(r) && WellFormed(x) && i < |r| == |x| && m != n && DevicesOn(r, m) == DevicesOn(r, n)
    requires x[i] == RenameNet(r[i], n, m) && (r[i].typ == PIN ==> x[i] == r[i])
    requires forall k :: DevicesOn(x, k) == if k == n then {} else DevicesOn(r, k)
    ensures StillConnected(r, x, i) && StillConnected(x, r, i)
  {
    assert forall j :: 0 <= j < |r[i].terminals| ==>
      DevicesOn(x, x[i].terminals[j]) == DevicesOn(r, r[i].terminals[j]);
  }

  lemma SmallerNetCount(r: seq<Device>, x: seq<Device>, n: string)
    requires |r| == |x| && n in NetNames(r)
    requires forall i :: 0 <= i < |r| ==> LosesNet(r[i], x[i], n)
    ensures |NetNames(x)| < |NetNames(r)|
  {
    forall k | k in NetNames(x)
      ensures k in NetNames(r) - {n}
    {
      var i, j := UsedIsTerminal(x, k);
      assert LosesNet(r[i], x[i], n) && k in x[i].terminals;
      var h :| 0 <= h < |r[i].terminals| && r[i].terminals[h] == k;
      TerminalIsUsed(r, i, h);
    }
    SubsetCount(NetNames(x), NetNames(r) - {n});
  }

  lemma LargerNetCount(r: seq<Device>, x: seq<Device>, s: string, d: nat)
    requires |r| == |x| && s !in NetNames(r) && d < |x| && s in x[d].terminals
    requires forall i, k :: 0 <= i < |r| && k in r[i].terminals ==> k in x[i].terminals
    ensures |NetNames(r)| < |NetNames(x)|
  {
    forall k | k in NetNames(r) + {s}
      ensures k in NetNames(x)
    {
      if k == s {
        var h :| 0 <= h < |x[d].terminals| && x[d].terminals[h] == s;
        TerminalIsUsed(x, d, h);
      } else {
        var i, j := UsedIsTerminal(r, k);
        assert k in r[i].terminals;
        var h :| 0 <= h < |x[i].terminals| && x[i].terminals[h] == k;
        TerminalIsUsed(x, i, h);
      }
    }
    SubsetCount(NetNames(r) + {s}, NetNames(x));
  }

  // An outer terminal on another net.
  function MoveOuter(d: Device, k: nat, s: string): Device {
    if |d.terminals| != 3 then d
    else if k == 0 then Device(d.typ, [s, d.terminals[1], d.terminals[2]])
    else Device(d.typ, [d.terminals[0], d.terminals[1], s])
  }

  lemma MovedOuter(d: Device, k: nat, s: string)
    requires WellFormedDevice(d) && d.typ != PIN && (k == 0 || k == 2)
    requires d.terminals[k] == d.terminals[2 - k] || d.terminals[k] == d.terminals[1]
    ensures forall m :: m in MoveOuter(d, k, s).terminals <==> m in d.terminals || m == s
  {
    var xd := MoveOuter(d, k, s);
    assert forall m :: m in d.terminals <==> m == d.terminals[0] || m == d.terminals[1] || m == d.terminals[2];
    assert forall m :: m in xd.terminals <==> m == xd.terminals[0] || m == xd.terminals[1] || m == xd.terminals[2];
  }

  // An outer terminal can be disconnected if its net is also on another terminal of the transistor
  // and has no devices that are not on the other outer net.
  lemma CutOuter(r: seq<Device>, d: nat, k: nat) returns (x: seq<Device>)
    requires WellFormed(r) && IsOuter(r, d, k) && !Maximal(r, d, k)
    requires r[d].terminals[k] == r[d].terminals[2 - k] || r[d].terminals[k] == r[d].terminals[1]
    ensures Rival(r, x)
  {
    var s := NewNet(r);
    x := r[d := MoveOuter(r[d], k, s)];
    MovedOuter(r[d], k, s);
    LargerNetCount(r, x, s, d);
    CutConnected(r, x, d, k, s);
  }

  lemma CutConnected(r: seq<Device>, x: seq<Device>, d: nat, k: nat, s: string)
    requires WellFormed(r) && WellFormed(x) && IsOuter(r, d, k) && !Maximal(r, d, k) && s !in NetNames(r)
    requires x == r[d := MoveOuter(r[d], k, s)]
    requires forall m :: m in x[d].terminals <==> m in r[d].terminals || m == s
    ensures AllConnected(r, x) && AllConnected(x, r)
  {
    NewIsUnused(r, s);
    assert forall m :: m != s ==> DevicesOn(x, m) == DevicesOn(r, m);
    assert DevicesOn(x, s) == {d};
    assert x[d].terminals[2 - k] == r[d].terminals[2 - k];
    forall i | 0 <= i < |r|
      ensures StillConnected(r, x, i) && StillConnected(x, r, i)
    {
      assert i != d ==> x[i] == r[i];
    }
  }

  // Outer terminals taken off a net, and joined to the other outer terminal.
  function Bypass(d: Device, n: string): Device {
    if d.typ == PIN || |d.terminals| != 3 then d
    else
      Device(d.typ, [if d.terminals[0] == n then d.terminals[2] else d.terminals[0], d.terminals[1],
                     if d.terminals[2] == n then d.terminals[0] else d.terminals[2]])
  }

  lemma Bypassed(d: Device, n: string)
    requires WellFormedDevice(d) && if d.typ == PIN then n !in d.terminals else n != d.terminals[1]
    requires d.typ != PIN ==> d.terminals[0] != d.terminals[2]
    ensures LosesNet(d, Bypass(d, n), n)
  {
    var xd := Bypass(d, n);
    if d.typ != PIN {
      assert forall m :: m in d.terminals <==> m == d.terminals[0] || m == d.terminals[1] || m == d.terminals[2];
      assert forall m :: m in xd.terminals <==> m == xd.terminals[0] || m == xd.terminals[1] || m == xd.terminals[2];
    }
  }

  // A net that does not show can be dropped: its transistors are joined to themselves instead.
  lemma DropNet(r: seq<Device>, n: string, d: nat, k: nat) returns (x: seq<Device>)
    requires WellFormed(r) && !Shows(r, n) && IsOuter(r, d, k) && r[d].terminals[k] == n
    requires forall i: nat :: IsOuter(r, i, 0) ==> r[i].terminals[0] != r[i].terminals[2]
    ensures Rival(r, x)
  {
    x := seq(|r|, i requires 0 <= i < |r| => Bypass(r[i], n));
    assert IsOuter(r, d, 0);
    forall i | 0 <= i < |r|
      ensures LosesNet(r[i], x[i], n)
    {
      NotOnPinOrGate(r, n, d, k, i);
      assert r[i].typ != PIN ==> IsOuter(r, i, 0);
      Bypassed(r[i], n);
    }
    TerminalIsUsed(r, d, k);
    SmallerNetCount(r, x, n);
    LostNet(r, x, n);
    forall i | 0 <= i < |r|
      ensures StillConnected(r, x, i) && StillConnected(x, r, i)
    {
      NotOnPinOrGate(r, n, d, k, i);
      DroppedConnected(r, x, n, i);
    }
  }

  lemma DroppedConnected(r: seq<Device>, x: seq<Device>, n: string, i: nat)
    requires WellFormed(r) && WellFormed(x) && i < |r| == |x| && !Shows(r, n) && x[i] == Bypass(r[i], n)
    requires r[i].typ != PIN ==> r[i].terminals[0] != r[i].terminals[2] && n != r[i].terminals[1]
    requires forall k :: DevicesOn(x, k) == if k == n then {} else DevicesOn(r, k)
    ensures StillConnected(r, x, i) && StillConnected(x, r, i)
  {
    if IsOuter(r, i, 0) && IsOuter(r, i, 2) {
      if r[i].terminals[0] == n {
        HiddenAt(r, n, i, 0);
      }
      if r[i].terminals[2] == n {
        HiddenAt(r, n, i, 2);
      }
    }
  }

  lemma NotOnPinOrGate(r: seq<Device>, n: string, d: nat, k: nat, i: nat)
    requires WellFormed(r) && !Shows(r, n) && IsOuter(r, d, k) && r[d].terminals[k] == n != r[d].terminals[2 - k]
    requires i < |r|
    ensures if r[i].typ == PIN then n !in r[i].terminals else n != r[i].terminals[1]
  {
    HiddenAt(r, n, d, k);
    assert !ShowsAt(r, n, i);
    assert i in DevicesOn(r, n) <==> n in r[i].terminals;
  }

  lemma HiddenAt(r: seq<Device>, n: string, i: nat, k: nat)
    requires WellFormed(r) && !Shows(r, n) && IsOuter(r, i, k) && r[i].terminals[k] == n
    ensures DevicesOn(r, n) <= DevicesOn(r, r[i].terminals[2 - k])
  {
    assert !ShowsAt(r, n, i);
  }

  // The gate of a device moved from one net to another.
  function MoveGate(d: Device, n: string, s: string): Device {
    if d.typ == PIN || |d.terminals| != 3 || d.terminals[1] != n then d
    else Device(d.typ, [d.terminals[0], s, d.terminals[2]])
  }

  // A net that is on two terminals of every device it is on can be split.
  lemma SplitNet(r: seq<Device>, n: string) returns (x: seq<Device>)
    requires WellFormed(r) && n in NetNames(r) && !OnceSomewhere(r, n)
    requires forall i: nat :: IsOuter(r, i, 0) ==> r[i].terminals[0] != r[i].terminals[2]
    ensures Rival(r, x)
  {
    var s := NewNet(r);
    x := seq(|r|, i requires 0 <= i < |r| => MoveGate(r[i], n, s));
    forall i | 0 <= i < |r|
      ensures GainsNet(r[i], x[i], n, s)
    {
      OnGateAndOuter(r, n, i);
      MovedGate(r[i], n, s);
    }
    MoreNets(r, x, n, s);
    SplitConnected(r, x, n, s);
  }

  lemma MoreNets(r: seq<Device>, x: seq<Device>, n: string, s: string)
    requires |r| == |x| && n in NetNames(r) && s !in NetNames(r)
    requires forall i :: 0 <= i < |r| ==> GainsNet(r[i], x[i], n, s)
    ensures |NetNames(r)| < |NetNames(x)|
  {
    var d, h := UsedIsTerminal(r, n);
    assert GainsNet(r[d], x[d], n, s);
    forall i, k | 0 <= i < |r| && k in r[i].terminals
      ensures k in x[i].terminals
    {
      assert GainsNet(r[i], x[i], n, s);
    }
    LargerNetCount(r, x, s, d);
  }

  // The device is on the same nets, and on the new net if it was on the old one.
  ghost predicate GainsNet(rd: Device, xd: Device, n: string, s: string) {
    forall m :: m in xd.terminals <==> m in rd.terminals || (m == s && n in rd.terminals)
  }

  lemma MovedGate(rd: Device, n: string, s: string)
    requires WellFormedDevice(rd)
    requires n in rd.terminals ==>
               rd.typ != PIN && rd.terminals[1] == n && (n == rd.terminals[0] || n == rd.terminals[2])
    ensures GainsNet(rd, MoveGate(rd, n, s), n, s)
  {
    var xd := MoveGate(rd, n, s);
    if rd.typ != PIN {
      assert forall m :: m in rd.terminals <==> m == rd.terminals[0] || m == rd.terminals[1] || m == rd.terminals[2];
      assert forall m :: m in xd.terminals <==> m == xd.terminals[0] || m == xd.terminals[1] || m == xd.terminals[2];
    }
  }

  lemma SplitConnected(r: seq<Device>, x: seq<Device>, n: string, s: string)
    requires WellFormed(r) && WellFormed(x) && |r| == |x| && s !in NetNames(r)
    requires forall i :: 0 <= i < |r| ==> x[i] == MoveGate(r[i], n, s) && GainsNet(r[i], x[i], n, s)
    ensures AllConnected(r, x) && AllConnected(x, r)
  {
    NewIsUnused(r, s);
    assert forall m :: m != s ==> DevicesOn(x, m) == DevicesOn(r, m);
    assert DevicesOn(x, s) == DevicesOn(r, n);
    forall i | 0 <= i < |r|
      ensures StillConnected(r, x, i) && StillConnected(x, r, i)
    {
      assert x[i] == MoveGate(r[i], n, s);
    }
  }

  lemma NewIsUnused(r: seq<Device>, s: string)
    requires s !in NetNames(r)
    ensures forall i :: 0 <= i < |r| ==> s !in r[i].terminals
  {
  }

  lemma OnGateAndOuter(r: seq<Device>, n: string, i: nat)
    requires WellFormed(r) && i < |r| && !OnceSomewhere(r, n)
    requires IsOuter(r, i, 0) ==> r[i].terminals[0] != r[i].terminals[2]
    ensures n in r[i].terminals ==>
              r[i].typ != PIN && r[i].terminals[1] == n && (n == r[i].terminals[0] || n == r[i].terminals[2])
  {
    assert !OnceOn(r[i], n);
    if j :| 0 <= j < |r[i].terminals| && r[i].terminals[j] == n {
      assert !OnlyAt(r[i], n, j);
    }
  }

  // If the condition fails, some other circuit cannot be told apart.
  lemma DeterminedIsNecessary(r: seq<Device>) returns (x: seq<Device>)
    requires WellFormed(r) && !Determined(r)
    ensures WellFormed(x) && MatchBothWays(r, x) && !IsSameCircuit(r, x)
  {
    if !DistinctNets(r) {
      var m, n :| m in NetNames(r) && n in NetNames(r) && DevicesOn(r, m) == DevicesOn(r, n) && m != n;
      x := JoinNets(r, m, n);
    } else if i: nat, k: nat :| IsOuter(r, i, k) && !OuterFixed(r, i, k) && CanCut(r, i, k) {
      x := CutOuter(r, i, k);
    } else if i: nat, k: nat :| IsOuter(r, i, k) && !OuterFixed(r, i, k) {
      assert !CanCut(r, i, k);
      OutersAreApart(r);
      x := DropNet(r, r[i].terminals[k], i, k);
    } else {
      var n :| n in NetNames(r) && !OnceSomewhere(r, n);
      OutersAreApart(r);
      x := SplitNet(r, n);
    }
    RivalRefutes(r, x);
  }

  ghost predicate CanCut(r: seq<Device>, i: nat, k: nat)
    requires IsOuter(r, i, k)
  {
    !Maximal(r, i, k) && (r[i].terminals[k] == r[i].terminals[2 - k] || r[i].terminals[k] == r[i].terminals[1])
  }

  lemma OutersAreApart(r: seq<Device>)
    requires WellFormed(r)
    requires forall i: nat, k: nat :: IsOuter(r, i, k) ==> OuterFixed(r, i, k) || !CanCut(r, i, k)
    ensures forall i: nat :: IsOuter(r, i, 0) ==> r[i].terminals[0] != r[i].terminals[2]
  {
    forall i: nat | IsOuter(r, i, 0)
      ensures r[i].terminals[0] != r[i].terminals[2]
    {
      assert OuterFixed(r, i, 0) || !CanCut(r, i, 0);
    }
  }

  // Comparing both ways round decides whether circuits are the same exactly for the schematics
  // with the condition, which only looks at the schematic itself.
  lemma MatchDecidesIffDetermined(r: seq<Device>)
    requires WellFormed(r)
    ensures MatchDecides(r) <==> Determined(r)
  {
    if Determined(r) {
      forall x | WellFormed(x)
        ensures MatchBothWays(r, x) <==> IsSameCircuit(r, x)
      {
        if MatchBothWays(r, x) {
          DeterminedSuffices(r, x);
        }
        if IsSameCircuit(r, x) {
          SameCircuitMatches(r, x);
        }
      }
    } else {
      var x := DeterminedIsNecessary(r);
    }
  }

  // ---- A condition on both schematics ----

  // The outer nets of each transistor are joined, or neither is hidden behind the other.
  ghost predicate NothingHidden(r: seq<Device>) {
    forall i: nat, k: nat :: IsOuter(r, i, k) ==> Maximal(r, i, k) || r[i].terminals[k] == r[i].terminals[2 - k]
  }

  lemma MutualInverse(r: seq<Device>, x: seq<Device>, f: DeviceMap, g: DeviceMap)
    requires WellFormed(r) && WellFormed(x) && Mutual(r, x, f, g)
    ensures Mutual(x, r, g, f)
  {
    forall i, j | 0 <= i < j < |g|
      ensures g[i] != g[j]
    {
      assert f[g[i]] == i && f[g[j]] == j;
    }
    forall d | 0 <= d < |g|
      ensures x[d].typ == r[g[d]].typ
    {
      assert r[g[d]].typ == x[f[g[d]]].typ;
    }
  }

  lemma SameDevicesInverse(r: seq<Device>, x: seq<Device>, f: DeviceMap, g: DeviceMap, n: string, m: string)
    requires Pairing(r, x, f) && Pairing(x, r, g) && Inverses(f, g) && SameDevices(r, x, f, n, m)
    ensures SameDevices(x, r, g, m, n)
  {
    forall d | 0 <= d < |g|
      ensures m in x[d].terminals <==> n in r[g[d]].terminals
    {
      assert f[g[d]] == d;
    }
  }

  // Outer nets that are joined correspond to outer nets that are joined.
  lemma JoinedOuters(r: seq<Device>, x: seq<Device>, f: DeviceMap, g: DeviceMap, i: nat, l: nat)
    requires WellFormed(r) && WellFormed(x) && AllTight(x, r, g) && Pairing(r, x, f) && Inverses(f, g)
    requires DistinctNets(x) && NothingHidden(x)
    requires IsOuter(r, i, 0) && r[i].terminals[0] == r[i].terminals[2] && OuterExact(r, x, f, i, 0, l)
    ensures x[f[i]].terminals[0] == x[f[i]].terminals[2]
  {
    var d := f[i];
    assert IsOuter(x, d, l) && IsOuter(x, d, 2 - l);
    assert Tight(x, r, g, d) && g[d] == i;
    var h: nat :| OuterExact(x, r, g, d, 2 - l, h);
    SameDevicesInverse(r, x, f, g, r[i].terminals[0], x[d].terminals[l]);
    assert r[i].terminals[h] == r[i].terminals[0];
    TerminalIsUsed(x, d, l);
    TerminalIsUsed(x, d, 2 - l);
    SameDevicesDetermine(x, r, g, x[d].terminals[l], r[i].terminals[0], x[d].terminals[2 - l], r[i].terminals[0]);
  }

  lemma NothingHiddenIsExact(r: seq<Device>, x: seq<Device>, f: DeviceMap, g: DeviceMap, i: nat)
    requires WellFormed(r) && DistinctNets(r) && NothingHidden(r)
    requires WellFormed(x) && DistinctNets(x) && NothingHidden(x)
    requires AllTight(r, x, f) && AllTight(x, r, g) && Inverses(f, g) && i < |f|
    ensures ExactDevice(r, x, f, i)
  {
    assert Tight(r, x, f, i);
    if r[i].typ != PIN {
      assert IsOuter(r, i, 0) && IsOuter(r, i, 2);
      var k: nat :| OuterExact(r, x, f, i, 0, k);
      if r[i].terminals[0] == r[i].terminals[2] {
        JoinedOuters(r, x, f, g, i, k);
        assert OuterExact(r, x, f, i, 2, 2 - k);
        OutersMakeExact(r, x, f, i, k, 2 - k);
      } else {
        var l: nat :| OuterExact(r, x, f, i, 2, l);
        OtherPartner(r, x, f, r[i].terminals[0], r[i].terminals[2], x[f[i]].terminals[k], x[f[i]].terminals[l],
                     i, 0, 2);
        OutersMakeExact(r, x, f, i, k, l);
      }
    }
  }

  // Between schematics that may join source and drain, but hide nothing, the match both ways round decides too.
  lemma MatchDecidesBetween(r: seq<Device>, x: seq<Device>)
    requires WellFormed(r) && DistinctNets(r) && NothingHidden(r)
    requires WellFormed(x) && DistinctNets(x) && NothingHidden(x)
    ensures MatchBothWays(r, x) <==> IsSameCircuit(r, x)
  {
    if IsSameCircuit(r, x) {
      SameCircuitMatches(r, x);
    }
    if MatchBothWays(r, x) {
      var f, g := MutualMatch(r, x);
      MutualInverse(r, x, f, g);
      MutualIsTight(r, x, f, g);
      MutualIsTight(x, r, g, f);
      forall i | 0 <= i < |f|
        ensures ExactDevice(r, x, f, i)
      {
        NothingHiddenIsExact(r, x, f, g, i);
      }
      ExactIsSame(r, x, f);
    }
  }

  // ---- Examples ----

  // One comparison decides for no reference whatsoever: another pin goes unnoticed.
  lemma OneWayNeverDecides(r: seq<Device>) returns (x: seq<Device>)
    requires WellFormed(r)
    ensures WellFormed(x) && Embeds(Indexed(r), Indexed(x)) && !IsSameCircuit(r, x)
  {
    x := r + [Device(PIN, ["another"])];
    Reflexive(Indexed(r));
    ShortsAndExtrasPass(Indexed(r), r, x, (n: string) => n);
  }

  // ---- One comparison between lists of the same length ----

  // One comparison decides whether a list of the same length is the same circuit.
  ghost predicate OneWayDecides(r: seq<Device>)
    requires WellFormed(r)
  {
    forall x :: WellFormed(x) && |x| == |r| ==> (Embeds(Indexed(r), Indexed(x)) <==> IsSameCircuit(r, x))
  }

  ghost predicate HasPin(r: seq<Device>, n: string) {
    exists p :: 0 <= p < |r| && r[p].typ == PIN && n in r[p].terminals
  }

  // Every net has a pin, and no source is joined to its drain.
  ghost predicate AllPinned(r: seq<Device>) {
    && (forall n :: n in NetNames(r) ==> HasPin(r, n))
    && (forall i: nat :: IsOuter(r, i, 0) ==> r[i].terminals[0] != r[i].terminals[2])
  }

  // A net with a pin can only go into the net of the same name.
  lemma PinnedNetStays(r: seq<Device>, x: seq<Device>, f: DeviceMap, n: string, m: string)
    requires WellFormed(r) && WellFormed(x) && IsEmbedding(Indexed(r), Indexed(x), f) && HasPin(r, n)
    requires NetInto(Indexed(r), Indexed(x), f, n, m)
    ensures m == n
  {
    var p :| 0 <= p < |r| && r[p].typ == PIN && n in r[p].terminals;
    assert Corresponds(Indexed(r), Indexed(x), f, r[p], x[f[p]]);
    assert f[p] in Image(f, NodesOf(Indexed(r).nets, n));
    assert x[f[p]].terminals == [n];
  }

  lemma PinnedDeviceStays(r: seq<Device>, x: seq<Device>, f: DeviceMap, i: nat)
    requires WellFormed(r) && WellFormed(x) && IsEmbedding(Indexed(r), Indexed(x), f) && AllPinned(r) && i < |r|
    ensures SameDevice(r[i], x[f[i]], (n: string) => n)
  {
    var rd, xd := r[i], x[f[i]];
    assert Corresponds(Indexed(r), Indexed(x), f, rd, xd);
    if rd.typ == PIN {
      assert rd.terminals == xd.terminals;
    } else {
      forall j, h | 0 <= j < 3 && 0 <= h < 3 &&
                    NetInto(Indexed(r), Indexed(x), f, rd.terminals[j], xd.terminals[h])
        ensures xd.terminals[h] == rd.terminals[j]
      {
        TerminalIsUsed(r, i, j);
        PinnedNetStays(r, x, f, rd.terminals[j], xd.terminals[h]);
      }
      assert IsOuter(r, i, 0);
      TurnedEitherWay(rd, xd);
    }
  }

  lemma TurnedEitherWay(rd: Device, xd: Device)
    requires WellFormedDevice(rd) && WellFormedDevice(xd) && rd.typ == xd.typ != PIN
    requires xd.terminals[1] == rd.terminals[1] && rd.terminals[0] != rd.terminals[2]
    requires xd.terminals[0] == rd.terminals[0] || xd.terminals[2] == rd.terminals[0]
    requires xd.terminals[0] == rd.terminals[2] || xd.terminals[2] == rd.terminals[2]
    ensures SameDevice(rd, xd, (n: string) => n)
  {
    var id, swap := (n: string) => n, xd.terminals[0] != rd.terminals[0];
    forall j | 0 <= j < 3
      ensures xd.terminals[Turned(j, swap)] == id(rd.terminals[j])
    {
      assert j == 0 || j == 1 || j == 2;
    }
    assert SameTerminals(rd, xd, id, swap);
  }

  lemma PinnedSuffices(r: seq<Device>, x: seq<Device>)
    requires WellFormed(r) && WellFormed(x) && |r| == |x| && AllPinned(r) && Embeds(Indexed(r), Indexed(x))
    ensures IsSameCircuit(r, x)
  {
    var f :| IsEmbedding(Indexed(r), Indexed(x), f);
    forall i | 0 <= i < |f|
      ensures r[i].typ == x[f[i]].typ && SameDevice(r[i], x[f[i]], (n: string) => n)
    {
      PinnedDeviceStays(r, x, f, i);
    }
    assert SameCircuit(r, x, f, (n: string) => n);
  }

  // A net without a pin can be joined to any other.
  lemma JoinUnpinned(r: seq<Device>, m: string, n: string) returns (x: seq<Device>)
    requires WellFormed(r) && m in NetNames(r) && n in NetNames(r) && m != n && !HasPin(r, n)
    ensures WellFormed(x) && |x| == |r| && Embeds(Indexed(r), Indexed(x)) && !IsSameCircuit(r, x)
  {
    x := seq(|r|, i requires 0 <= i < |r| => RenameNet(r[i], n, m));
    Reflexive(Indexed(r));
    ShortsAndExtrasPass(Indexed(r), r, x, (k: string) => if k == n then m else k);
    FewerNets(r, x, m, n);
    if IsSameCircuit(r, x) {
      SameNetCount(r, x);
    }
  }

  lemma FewerNets(r: seq<Device>, x: seq<Device>, m: string, n: string)
    requires |x| == |r| && (forall i :: 0 <= i < |r| ==> x[i] == RenameNet(r[i], n, m))
    requires m in NetNames(r) && n in NetNames(r) && m != n
    ensures |NetNames(x)| < |NetNames(r)|
  {
    forall k | k in NetNames(x)
      ensures k in NetNames(r) - {n}
    {
      var i, j := UsedIsTerminal(x, k);
      TerminalIsUsed(r, i, j);
    }
    SubsetCount(NetNames(x), NetNames(r) - {n});
  }

  // One comparison decides between lists of the same length exactly if every net of the reference has a pin
  // and no source is joined to its drain.
  lemma OneWayDecidesIffPinned(r: seq<Device>)
    requires WellFormed(r)
    ensures OneWayDecides(r) <==> AllPinned(r)
  {
    if AllPinned(r) {
      forall x | WellFormed(x) && |x| == |r|
        ensures Embeds(Indexed(r), Indexed(x)) <==> IsSameCircuit(r, x)
      {
        if Embeds(Indexed(r), Indexed(x)) {
          PinnedSuffices(r, x);
        }
        if IsSameCircuit(r, x) {
          SameCircuitMatches(r, x);
        }
      }
    } else if i: nat :| IsOuter(r, i, 0) && r[i].terminals[0] == r[i].terminals[2] {
      var x := CutOuter(r, i, 0);
      RivalRefutes(r, x);
    } else {
      var n :| n in NetNames(r) && !HasPin(r, n);
      var m := AnotherNet(r, n);
      var x := JoinUnpinned(r, m, n);
    }
  }

  // A net without a pin is not the only one, if sources and drains are apart.
  lemma AnotherNet(r: seq<Device>, n: string) returns (m: string)
    requires WellFormed(r) && n in NetNames(r) && !HasPin(r, n)
    requires forall i: nat :: IsOuter(r, i, 0) ==> r[i].terminals[0] != r[i].terminals[2]
    ensures m in NetNames(r) && m != n
  {
    var i, j := UsedIsTerminal(r, n);
    assert r[i].typ != PIN && IsOuter(r, i, 0);
    TerminalIsUsed(r, i, 0);
    TerminalIsUsed(r, i, 2);
    m := if r[i].terminals[0] != n then r[i].terminals[0] else r[i].terminals[2];
  }

  // Two gates on one net, and two gates that are each on an outer net of the other transistor.
  const TIED_GATES := [Device("NTRANS", ["c", "g", "b"]), Device("NTRANS", ["c", "g", "d"])]
  const CROSS_COUPLED := [Device("NTRANS", ["k", "h", "b"]), Device("NTRANS", ["h", "k", "d"])]

  lemma TiedGatesMatchCrossCoupled()
    ensures WellFormed(TIED_GATES) && WellFormed(CROSS_COUPLED)
    ensures MatchBothWays(TIED_GATES, CROSS_COUPLED) && !IsSameCircuit(TIED_GATES, CROSS_COUPLED)
  {
    CrossCoupledConnected();
    ConnectedEmbeds(TIED_GATES, CROSS_COUPLED);
    ConnectedEmbeds(CROSS_COUPLED, TIED_GATES);
    forall f, rho
      ensures !SameCircuit(TIED_GATES, CROSS_COUPLED, f, rho)
    {
      CrossCoupledDiffers(f, rho);
    }
  }

  lemma CrossCoupledConnected()
    ensures WellFormed(TIED_GATES) && WellFormed(CROSS_COUPLED)
    ensures AllConnected(TIED_GATES, CROSS_COUPLED) && AllConnected(CROSS_COUPLED, TIED_GATES)
  {
    var a, b := TIED_GATES, CROSS_COUPLED;
    OnBoth(a, 0, 0, 1, 0);
    OnBoth(a, 0, 1, 1, 1);
    OnBoth(b, 0, 0, 1, 1);
    OnBoth(b, 0, 1, 1, 0);
    assert DevicesOn(a, "b") == DevicesOn(b, "b");
    assert DevicesOn(a, "d") == DevicesOn(b, "d");
    assert StillConnected(a, b, 0) && StillConnected(b, a, 0);
    assert StillConnected(a, b, 1) && StillConnected(b, a, 1);
  }

  // A net with a terminal of each of two devices.
  lemma OnBoth(r: seq<Device>, i: nat, j: nat, i': nat, j': nat)
    requires |r| == 2 && i < 2 && i' < 2 && i != i' && j < |r[i].terminals| && j' < |r[i'].terminals|
    requires r[i].terminals[j] == r[i'].terminals[j']
    ensures DevicesOn(r, r[i].terminals[j]) == {0, 1}
  {
    assert i in DevicesOn(r, r[i].terminals[j]) && i' in DevicesOn(r, r[i].terminals[j]);
  }

  // The two gates cannot be renamed to the same net.
  lemma CrossCoupledDiffers(f: DeviceMap, rho: string -> string)
    requires WellFormed(TIED_GATES) && WellFormed(CROSS_COUPLED)
    ensures !SameCircuit(TIED_GATES, CROSS_COUPLED, f, rho)
  {
    var b := CROSS_COUPLED;
    if SameCircuit(TIED_GATES, b, f, rho) {
      GateRenamed(TIED_GATES, b, f, rho, 0);
      GateRenamed(TIED_GATES, b, f, rho, 1);
    }
  }

  // A transistor whose source is joined to its drain, and one whose source is on a net of its own.
  const SOURCE_ON_DRAIN := [Device("NTRANS", ["d", "g", "d"]), Device("NTRANS", ["d", "p", "e"])]
  const OWN_SOURCE := [Device("NTRANS", ["s", "g", "d"]), Device("NTRANS", ["d", "p", "e"])]

  lemma SourceOnDrainMatches()
    ensures WellFormed(SOURCE_ON_DRAIN) && WellFormed(OWN_SOURCE)
    ensures MatchBothWays(SOURCE_ON_DRAIN, OWN_SOURCE) && !IsSameCircuit(SOURCE_ON_DRAIN, OWN_SOURCE)
  {
    var r, x := SOURCE_ON_DRAIN, OWN_SOURCE;
    assert WellFormed(r) && IsOuter(r, 0, 0);
    assert x[0] == MoveOuter(r[0], 0, "s");
    assert x == r[0 := MoveOuter(r[0], 0, "s")];
    MovedOuter(r[0], 0, "s");
    LargerNetCount(r, x, "s", 0);
    CutConnected(r, x, 0, 0, "s");
    RivalRefutes(r, x);
  }

  // The reference of the tutorial.
  const NAND := [
    Device("PIN", ["OUTPUT"]), Device("PIN", ["INPUT1"]), Device("PIN", ["INPUT2"]),
    Device("PIN", ["VDD"]), Device("PIN", ["GND"]),
    Device("PTRANS", ["VDD", "INPUT1", "OUTPUT"]), Device("PTRANS", ["VDD", "INPUT2", "OUTPUT"]),
    Device("NTRANS", ["GND", "INPUT1", "NET1"]), Device("NTRANS", ["NET1", "INPUT2", "OUTPUT"])]

  // A net with a pin can be told from any other.
  lemma PinTells(r: seq<Device>, p: nat, n: string)
    requires WellFormed(r) && p < |r| && r[p].typ == PIN && n != r[p].terminals[0]
    ensures p in DevicesOn(r, r[p].terminals[0]) && p !in DevicesOn(r, n)
    ensures OnceSomewhere(r, r[p].terminals[0])
  {
    assert OnlyAt(r[p], r[p].terminals[0], 0);
    assert OnceOn(r[p], r[p].terminals[0]);
  }

  // The pin of a net of the reference, other than the inner net.
  function NandPin(n: string): nat {
    if n == "OUTPUT" then 0 else if n == "INPUT1" then 1 else if n == "INPUT2" then 2 else if n == "VDD" then 3 else 4
  }

  lemma NandNet(n: string)
    requires n in NetNames(NAND) && n != "NET1"
    ensures NAND[NandPin(n)].typ == PIN && NAND[NandPin(n)].terminals == [n]
  {
    var i, j := UsedIsTerminal(NAND, n);
    assert i == 0 || i == 1 || i == 2 || i == 3 || i == 4 || i == 5 || i == 6 || i == 7 || i == 8;
    assert j == 0 || j == 1 || j == 2;
  }

  lemma NandDistinct()
    requires WellFormed(NAND)
    ensures DistinctNets(NAND)
  {
    forall m, n | m in NetNames(NAND) && n in NetNames(NAND) && m != n
      ensures DevicesOn(NAND, m) != DevicesOn(NAND, n)
    {
      var p, other := if m != "NET1" then m else n, if m != "NET1" then n else m;
      NandNet(p);
      PinTells(NAND, NandPin(p), other);
    }
  }

  lemma NandOuter(i: nat, k: nat)
    requires WellFormed(NAND) && IsOuter(NAND, i, k)
    ensures NAND[i].terminals[k] != NAND[i].terminals[2 - k] && Maximal(NAND, i, k)
  {
    var n, other := NAND[i].terminals[k], NAND[i].terminals[2 - k];
    assert i == 5 || i == 6 || i == 7 || i == 8;
    TerminalIsUsed(NAND, i, k);
    if n != "NET1" {
      NandNet(n);
      PinTells(NAND, NandPin(n), other);
    } else {
      assert NAND[7].terminals[2] == n && NAND[8].terminals[0] == n;
      assert 7 in DevicesOn(NAND, n) && 8 in DevicesOn(NAND, n);
      assert i == 7 ==> 8 !in DevicesOn(NAND, other);
      assert i == 8 ==> 7 !in DevicesOn(NAND, other);
    }
  }

  lemma NandOnce(n: string)
    requires WellFormed(NAND) && n in NetNames(NAND)
    ensures OnceSomewhere(NAND, n)
  {
    if n != "NET1" {
      NandNet(n);
      PinTells(NAND, NandPin(n), "NET1");
    } else {
      assert OnlyAt(NAND[7], n, 2) && OnceOn(NAND[7], n);
    }
  }

  // For that reference the comparison both ways round decides.
  lemma NandIsDetermined()
    ensures WellFormed(NAND) && MatchDecides(NAND)
  {
    assert WellFormed(NAND);
    NandDistinct();
    forall i: nat, k: nat | IsOuter(NAND, i, k)
      ensures OuterFixed(NAND, i, k)
    {
      NandOuter(i, k);
    }
    forall n | n in NetNames(NAND)
      ensures OnceSomewhere(NAND, n)
    {
      NandOnce(n);
    }
    MatchDecidesIffDetermined(NAND);
  }

  // One comparison with a layout of as many devices does not: the inner net has no pin.
  lemma NandNeedsBothWays()
    ensures WellFormed(NAND) && !OneWayDecides(NAND)
  {
    assert WellFormed(NAND);
    assert NAND[7].terminals[2] == "NET1";
    TerminalIsUsed(NAND, 7, 2);
    assert !HasPin(NAND, "NET1");
    OneWayDecidesIffPinned(NAND);
  }
}
