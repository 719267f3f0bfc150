/** Laws of the relation that the comparison decides. */
module MatchLaws {
  import opened Schematics
  import opened Matcher
  import opened Permutations

  // ---- A preorder ----

  lemma IdentityEmbeds(a: Schematic, b: Schematic)
    requires WellFormed(a.devices) && WellFormed(b.devices)
    requires |a.devices| <= |b.devices|
    requires forall i :: 0 <= i < |a.devices| ==>
               a.devices[i].typ == b.devices[i].typ &&
               (a.devices[i].typ == PIN ==> a.devices[i] == b.devices[i])
    requires forall i, j :: 0 <= i < |a.devices| && 0 <= j < |a.devices[i].terminals| && a.devices[i].typ != PIN ==>
               NodesOf(a.nets, a.devices[i].terminals[j]) <= NodesOf(b.nets, b.devices[i].terminals[j])
    ensures IsEmbedding(a, b, Identity(|a.devices|))
  {
    var id := Identity(|a.devices|);
    forall i | 0 <= i < |id|
      ensures Corresponds(a, b, id, a.devices[i], b.devices[id[i]])
    {
      if a.devices[i].typ != PIN {
        forall j | 0 <= j < 3
          ensures NetInto(a, b, id, a.devices[i].terminals[j], b.devices[i].terminals[j])
        {
          assert NodesOf(a.nets, a.devices[i].terminals[j]) <= NodesOf(b.nets, b.devices[i].terminals[j]);
        }
      }
    }
  }

  lemma Reflexive(a: Schematic)
    requires WellFormed(a.devices)
    ensures Embeds(a, a)
  {
    IdentityEmbeds(a, a);
  }

  lemma NetIntoThen(a: Schematic, b: Schematic, c: Schematic, f: DeviceMap, g: DeviceMap,
                    an: string, bn: string, cn: string)
    requires forall i :: 0 <= i < |f| ==> f[i] < |g|
    requires NetInto(a, b, f, an, bn) && NetInto(b, c, g, bn, cn)
    ensures NetInto(a, c, Then(f, g), an, cn)
  {
    var h := Then(f, g);
    forall d | d in NodesOf(a.nets, an) && d < |h|
      ensures h[d] in NodesOf(c.nets, cn)
    {
      assert f[d] in Image(f, NodesOf(a.nets, an));
      assert g[f[d]] in Image(g, NodesOf(b.nets, bn));
    }
  }

  lemma CorrespondsThen(a: Schematic, b: Schematic, c: Schematic, f: DeviceMap, g: DeviceMap,
                        ad: Device, bd: Device, cd: Device)
    requires WellFormedDevice(ad) && WellFormedDevice(bd) && WellFormedDevice(cd)
    requires ad.typ == bd.typ == cd.typ
    requires forall i :: 0 <= i < |f| ==> f[i] < |g|
    requires Corresponds(a, b, f, ad, bd) && Corresponds(b, c, g, bd, cd)
    ensures Corresponds(a, c, Then(f, g), ad, cd)
  {
    if ad.typ != PIN {
      NetIntoThen(a, b, c, f, g, ad.terminals[1], bd.terminals[1], cd.terminals[1]);
      forall j, k, l | j in {0, 2} && k in {0, 2} && l in {0, 2} &&
                       NetInto(a, b, f, ad.terminals[j], bd.terminals[k]) &&
                       NetInto(b, c, g, bd.terminals[k], cd.terminals[l])
        ensures NetInto(a, c, Then(f, g), ad.terminals[j], cd.terminals[l])
      {
        NetIntoThen(a, b, c, f, g, ad.terminals[j], bd.terminals[k], cd.terminals[l]);
      }
    }
  }

  lemma EmbeddingThen(a: Schematic, b: Schematic, c: Schematic, f: DeviceMap, g: DeviceMap)
    requires WellFormed(a.devices) && WellFormed(b.devices) && WellFormed(c.devices)
    requires IsEmbedding(a, b, f) && IsEmbedding(b, c, g)
    ensures IsEmbedding(a, c, Then(f, g))
  {
    var h := Then(f, g);
    forall i | 0 <= i < |h|
      ensures h[i] < |c.devices| && a.devices[i].typ == c.devices[h[i]].typ
      ensures Corresponds(a, c, h, a.devices[i], c.devices[h[i]])
    {
      CorrespondsThen(a, b, c, f, g, a.devices[i], b.devices[f[i]], c.devices[h[i]]);
    }
    forall i, j | 0 <= i < j < |h|
      ensures h[i] != h[j]
    {
      assert f[i] != f[j];
      if f[i] < f[j] { assert g[f[i]] != g[f[j]]; } else { assert g[f[j]] != g[f[i]]; }
    }
  }

  lemma Transitive(a: Schematic, b: Schematic, c: Schematic)
    requires WellFormed(a.devices) && WellFormed(b.devices) && WellFormed(c.devices)
    requires Embeds(a, b) && Embeds(b, c)
    ensures Embeds(a, c)
  {
    var f :| IsEmbedding(a, b, f);
    var g :| IsEmbedding(b, c, g);
    EmbeddingThen(a, b, c, f, g);
  }

  // ---- Rearranging a device list ----

  // The same transistor, possibly with source and drain exchanged.
  ghost predicate SameUpToSwap(d: Device, e: Device)
    requires WellFormedDevice(d)
  {
    d == e || (d.typ != PIN && e == Device(d.typ, [d.terminals[2], d.terminals[1], d.terminals[0]]))
  }

  // y lists the devices of x in the order p, with any transistors turned around.
  ghost predicate RearrangedBy(x: seq<Device>, y: seq<Device>, p: seq<nat>)
    requires WellFormed(x)
  {
    |x| == |y| == |p| && Permutation(p) && forall i {:trigger p[i]} :: 0 <= i < |p| ==> SameUpToSwap(x[p[i]], y[i])
  }

  ghost predicate Rearranged(x: seq<Device>, y: seq<Device>)
    requires WellFormed(x)
  {
    exists p :: RearrangedBy(x, y, p)
  }

  lemma RearrangedNets(x: seq<Device>, y: seq<Device>, p: seq<nat>, net: string)
    requires WellFormed(x) && RearrangedBy(x, y, p)
    ensures NetInto(Indexed(y), Indexed(x), p, net, net)
  {
    assert forall i :: 0 <= i < |p| && net in y[i].terminals ==> net in x[p[i]].terminals;
  }

  lemma RearrangedEmbeds(x: seq<Device>, y: seq<Device>, p: seq<nat>)
    requires WellFormed(x) && RearrangedBy(x, y, p)
    ensures WellFormed(y)
    ensures IsEmbedding(Indexed(y), Indexed(x), p)
  {
    forall i | 0 <= i < |p|
      ensures WellFormedDevice(y[i]) && y[i].typ == x[p[i]].typ
      ensures Corresponds(Indexed(y), Indexed(x), p, y[i], x[p[i]])
    {
      assert SameUpToSwap(x[p[i]], y[i]);
      if y[i].typ != PIN {
        RearrangedNets(x, y, p, y[i].terminals[0]);
        RearrangedNets(x, y, p, y[i].terminals[1]);
        RearrangedNets(x, y, p, y[i].terminals[2]);
      }
    }
  }

  lemma SwapBack(d: Device, e: Device)
    requires WellFormedDevice(d) && SameUpToSwap(d, e)
    ensures WellFormedDevice(e) && SameUpToSwap(e, d)
  {
    if d != e {
      assert d.terminals == [e.terminals[2], e.terminals[1], e.terminals[0]];
    }
  }

  lemma RearrangedInverse(x: seq<Device>, y: seq<Device>, p: seq<nat>) returns (q: seq<nat>)
    requires WellFormed(x) && RearrangedBy(x, y, p)
    ensures WellFormed(y) && RearrangedBy(y, x, q)
  {
    RearrangedEmbeds(x, y, p);
    q := Inverse(p);
    forall d | 0 <= d < |q|
      ensures SameUpToSwap(y[q[d]], x[d])
    {
      assert SameUpToSwap(x[p[q[d]]], y[q[d]]);
      SwapBack(x[d], y[q[d]]);
    }
  }

  // Permuting either device list and turning transistors around, with the index rebuilt,
  // does not change the answer.
  lemma RearrangementInvariance(x: seq<Device>, y: seq<Device>, other: Schematic)
    requires WellFormed(x) && WellFormed(y) && WellFormed(other.devices)
    requires Rearranged(x, y)
    ensures Embeds(other, Indexed(x)) <==> Embeds(other, Indexed(y))
    ensures Embeds(Indexed(x), other) <==> Embeds(Indexed(y), other)
  {
    var p :| RearrangedBy(x, y, p);
    var q := RearrangedInverse(x, y, p);
    RearrangedEmbeds(x, y, p);
    RearrangedEmbeds(y, x, q);
    assert Embeds(Indexed(y), Indexed(x)) && Embeds(Indexed(x), Indexed(y));
    if Embeds(other, Indexed(x)) { Transitive(other, Indexed(x), Indexed(y)); }
    if Embeds(other, Indexed(y)) { Transitive(other, Indexed(y), Indexed(x)); }
    if Embeds(Indexed(x), other) { Transitive(Indexed(y), Indexed(x), other); }
    if Embeds(Indexed(y), other) { Transitive(Indexed(x), Indexed(y), other); }
  }

  // ---- What one comparison does not see ----

  // y is x with nets renamed by rho, and possibly further devices after them.
  ghost predicate ShortedAndExtended(x: seq<Device>, y: seq<Device>, rho: string -> string)
    requires WellFormed(x)
  {
    && |x| <= |y|
    && forall i :: 0 <= i < |x| ==>
      && y[i].typ == x[i].typ && |y[i].terminals| == |x[i].terminals|
      && (forall j :: 0 <= j < |x[i].terminals| ==> y[i].terminals[j] == rho(x[i].terminals[j]))
      && (x[i].typ == PIN ==> rho(x[i].terminals[0]) == x[i].terminals[0])
  }

  // Joining nets that keeps every pin on its own net, and adding devices, is never noticed.
  lemma ShortsAndExtrasPass(r: Schematic, x: seq<Device>, y: seq<Device>, rho: string -> string)
    requires WellFormed(r.devices) && WellFormed(x) && WellFormed(y)
    requires ShortedAndExtended(x, y, rho)
    requires Embeds(r, Indexed(x))
    ensures Embeds(r, Indexed(y))
  {
    var a, b := Indexed(x), Indexed(y);
    forall i, j | 0 <= i < |x| && 0 <= j < |x[i].terminals| && x[i].typ != PIN
      ensures NodesOf(a.nets, x[i].terminals[j]) <= NodesOf(b.nets, y[i].terminals[j])
    {
      var net := x[i].terminals[j];
      forall d | d in DevicesOn(x, net)
        ensures d in DevicesOn(y, rho(net))
      {
        var h :| 0 <= h < |x[d].terminals| && x[d].terminals[h] == net;
        assert y[d].terminals[h] == rho(net);
      }
    }
    IdentityEmbeds(a, b);
    Transitive(r, a, b);
  }

  // ---- When two schematics match each other ----

  ghost predicate Inverses(f: DeviceMap, g: DeviceMap) {
    && |f| == |g|
    && (forall i :: 0 <= i < |f| ==> f[i] < |g| && g[f[i]] == i)
    && (forall i :: 0 <= i < |g| ==> g[i] < |f| && f[g[i]] == i)
  }

  // A one-to-one correspondence that is an embedding in both directions.
  ghost predicate Equivalence(a: Schematic, b: Schematic, f: DeviceMap, g: DeviceMap)
    requires WellFormed(a.devices) && WellFormed(b.devices)
  {
    IsEmbedding(a, b, f) && IsEmbedding(b, a, g) && Inverses(f, g)
  }

  lemma {:induction false} PowerEmbeds(a: Schematic, p: DeviceMap, k: nat)
    requires WellFormed(a.devices) && IsEmbedding(a, a, p)
    ensures IsEmbedding(a, a, Power(p, k))
  {
    if k == 0 {
      IdentityEmbeds(a, a);
    } else {
      PowerEmbeds(a, p, k - 1);
      EmbeddingThen(a, a, a, p, Power(p, k - 1));
    }
  }

  // Comparing both ways round decides whether there is such a correspondence.
  lemma MutualMatchIsEquivalence(a: Schematic, b: Schematic)
    requires WellFormed(a.devices) && WellFormed(b.devices)
    ensures Embeds(a, b) && Embeds(b, a) <==> exists f, g :: Equivalence(a, b, f, g)
  {
    if Embeds(a, b) && Embeds(b, a) {
      var f :| IsEmbedding(a, b, f);
      var h :| IsEmbedding(b, a, h);
      var g := InvertEmbedding(a, b, f, h);
    }
  }

  lemma InvertEmbedding(a: Schematic, b: Schematic, f: DeviceMap, h: DeviceMap) returns (g: DeviceMap)
    requires WellFormed(a.devices) && WellFormed(b.devices)
    requires IsEmbedding(a, b, f) && IsEmbedding(b, a, h)
    ensures Equivalence(a, b, f, g)
  {
    InjectionSize(f, |b.devices|);
    InjectionSize(h, |a.devices|);
    EmbeddingThen(a, b, a, f, h);
    var p := Then(f, h);
    var k := PowerIsIdentity(p);
    PowerEmbeds(a, p, k - 1);
    EmbeddingThen(b, a, a, h, Power(p, k - 1));
    g := Then(h, Power(p, k - 1));
    forall i | 0 <= i < |f|
      ensures g[f[i]] == i
    {
      assert Power(p, k)[i] == Power(p, k - 1)[p[i]];
    }
    forall d | 0 <= d < |g|
      ensures f[g[d]] == d
    {
      assert d in f;
      var i :| 0 <= i < |f| && f[i] == d;
    }
  }

  // Under an equivalence the devices on gate nets correspond exactly, and pins carry the same net.
  // The circuits need not be the same.
  lemma EquivalenceIsExact(a: seq<Device>, b: seq<Device>, f: DeviceMap, g: DeviceMap, i: nat)
    requires WellFormed(a) && WellFormed(b) && Equivalence(Indexed(a), Indexed(b), f, g)
    requires i < |a|
    ensures |a| == |b| && a[i].typ == b[f[i]].typ
    ensures a[i].typ == PIN ==> a[i] == b[f[i]]
    ensures a[i].typ != PIN ==>
              Image(f, DevicesOn(a, a[i].terminals[1])) == DevicesOn(b, b[f[i]].terminals[1])
  {
    var x, y := Indexed(a), Indexed(b);
    assert Corresponds(x, y, f, a[i], b[f[i]]);
    assert Corresponds(y, x, g, b[f[i]], a[g[f[i]]]);
    if a[i].typ != PIN {
      var an, bn := a[i].terminals[1], b[f[i]].terminals[1];
      forall d | d in DevicesOn(b, bn)
        ensures d in Image(f, DevicesOn(a, an))
      {
        assert g[d] in Image(g, NodesOf(y.nets, bn));
        assert f[g[d]] == d;
      }
    } else {
      assert a[i].terminals == b[f[i]].terminals;
    }
  }

  // Two transistors with separate gate nets, and the same two with the gates tied together.
  const APART := [Device("NTRANS", ["a", "g", "b"]), Device("NTRANS", ["c", "h", "d"])]
  const TIED := [Device("NTRANS", ["a", "g", "b"]), Device("NTRANS", ["c", "g", "d"])]

  function Tie(net: string): string {
    if net == "h" then "g" else net
  }

  lemma ApartIsTied()
    ensures WellFormed(APART) && WellFormed(TIED) && ShortedAndExtended(APART, TIED, Tie)
  {
  }

  // A single comparison accepts connectivity that is not the same.
  lemma OneWayMatchIsNotEquivalence()
    ensures WellFormed(APART) && WellFormed(TIED)
    ensures Embeds(Indexed(APART), Indexed(TIED))
    ensures !exists f, g :: Equivalence(Indexed(APART), Indexed(TIED), f, g)
  {
    ApartIsTied();
    Reflexive(Indexed(APART));
    ShortsAndExtrasPass(Indexed(APART), APART, TIED, Tie);
    forall f, g
      ensures !Equivalence(Indexed(APART), Indexed(TIED), f, g)
    {
      if Equivalence(Indexed(APART), Indexed(TIED), f, g) {
        EquivalenceIsExact(APART, TIED, f, g, 0);
        GatesTied(f);
        assert false;
      }
    }
  }

  lemma GatesTied(f: DeviceMap)
    requires |f| == 2 && f[0] < 2
    ensures Image(f, DevicesOn(APART, APART[0].terminals[1])) != DevicesOn(TIED, TIED[f[0]].terminals[1])
  {
    assert DevicesOn(APART, "g") == {0};
    assert TIED[f[0]].terminals[1] == "g";
    assert 0 in DevicesOn(TIED, "g") && 1 in DevicesOn(TIED, "g");
    assert Image(f, {0}) == {f[0]};
  }
}
