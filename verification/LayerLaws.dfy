/** What one layer connection means for shapes and nets. */
module LayerLaws {
  import opened Graphs
  import opened NetState
  import opened NetOwners
  import opened NetMerger
  import opened LayerInvariant
  import opened LayerTurns
  import opened LayerConnection

  // A finished connection.
  ghost predicate Finished(t: Task, k: Owners, suffix: nat, result: Connectivity) {
    Naming(t, k, suffix) && Components(t, k) && ExactNets(t, k, suffix, result)
  }

  // The node stands for a net that had the shape, or for a polygon that is the shape.
  ghost predicate NodeHas(t: Task, k: Owners, v: nat, layer: string, shape: Shape)
    requires ValidTask(t) && ValidOwners(t, k)
  {
    if v < t.offset then Has(k.base, k.names[v], layer, shape)
    else v < |t.graph| && layer == t.layer && shape == t.polygons[v - t.offset]
  }

  lemma OriginIsNode(t: Task, k: Owners, c: set<nat>, layer: string, shape: Shape) returns (v: nat)
    requires ValidTask(t) && ValidOwners(t, k) && Origin(t, k, c, layer, shape)
    ensures v < |t.graph| && k.comp[v] == c && NodeHas(t, k, v, layer, shape)
  {
    if w :| 0 <= w < t.offset && k.comp[w] == c && Has(k.base, k.names[w], layer, shape) {
      v := w;
    } else {
      var j :| 0 <= j < |t.polygons| && t.polygons[j] == shape && k.comp[t.offset + j] == c;
      v := t.offset + j;
    }
  }

  lemma NodeIsOrigin(t: Task, k: Owners, v: nat, layer: string, shape: Shape)
    requires ValidTask(t) && ValidOwners(t, k) && v < |t.graph| && NodeHas(t, k, v, layer, shape)
    ensures Origin(t, k, k.comp[v], layer, shape)
  {
    if v >= t.offset {
      var j := v - t.offset;
      assert t.polygons[j] == shape && k.comp[t.offset + j] == k.comp[v];
    }
  }

  // A traversal that starts with nothing coloured, from any database and under any names, puts every polygon
  // that can be reached on the net that is current at its end.
  lemma ReachablePolygonsOnNet(t: Task, slot: NetRef, v: nat, s: State, trace: seq<nat>, j: nat)
    requires ValidTask(t) && IsGraph(t.graph) && v < |t.graph|
    requires |s.ids| == t.offset && Aliased(slot, s) && Solid(s.conn)
    requires Nodes(trace) == Component(t.graph, v)
    requires j < |t.polygons| && Reaches(t.graph, v, t.offset + j)
    ensures var s' := VisitAll(t, slot, s, trace); Has(s'.conn, s'.net, t.layer, t.polygons[j])
  {
    ComponentIsReachable(t.graph, v, t.offset + j);
    assert t.offset + j in Nodes(trace);
    TraceInGraph(t, v, trace);
    TraceCovers(t, slot, s, trace);
    var s' := VisitAll(t, slot, s, trace);
    assert Covers(t, s, s', Nodes(trace));
    CoversPolygon(t, s, s', Nodes(trace), j);
  }

  lemma ComponentHasNet(t: Task, k: Owners, suffix: nat, result: Connectivity, v: nat) returns (net: string)
    requires Naming(t, k, suffix) && ExactNets(t, k, suffix, result) && v < |t.graph|
    ensures net in result && Belongs(k, net, k.comp[v])
  {
    if HasNetNode(t, k, k.comp[v]) {
      var w :| 0 <= w < t.offset && k.comp[w] == k.comp[v];
      assert SoleNet(k, result, k.comp[w]);
      net :| net in result && Belongs(k, net, k.comp[w]);
    } else {
      net := Fresh(t, suffix, v - t.offset);
      assert PolygonHasNet(t, k, suffix, result, v - t.offset);
    }
  }

  // The net of a component has what its nets had.
  lemma NetKeepsShapes(t: Task, k: Owners, suffix: nat, result: Connectivity, w: nat, net: string)
    requires Naming(t, k, suffix) && ExactNets(t, k, suffix, result) && w < t.offset
    requires net in result && Belongs(k, net, k.comp[w])
    ensures forall layer, shape :: Has(k.base, k.names[w], layer, shape) ==> Has(result, net, layer, shape)
  {
    assert NetIsComponent(t, k, suffix, result, net);
    forall layer, shape | Has(k.base, k.names[w], layer, shape)
      ensures Has(result, net, layer, shape)
    {
      assert NodeHas(t, k, w, layer, shape);
      NodeIsOrigin(t, k, w, layer, shape);
    }
  }

  // Two shapes are on one net after the call only if nodes that have them are connected:
  // shapes are on one net before the call exactly if one node has both.
  lemma OnlyConnectedShapesShareNets(t: Task, k: Owners, suffix: nat, result: Connectivity, net: string,
                                     layer1: string, shape1: Shape, layer2: string, shape2: Shape)
    returns (v: nat, w: nat)
    requires Finished(t, k, suffix, result)
    requires Has(result, net, layer1, shape1) && Has(result, net, layer2, shape2)
    ensures v < |t.graph| && NodeHas(t, k, v, layer1, shape1)
    ensures w < |t.graph| && NodeHas(t, k, w, layer2, shape2)
    ensures Reaches(t.graph, v, w)
  {
    assert NetIsComponent(t, k, suffix, result, net);
    v := OriginIsNode(t, k, k.owner[net], layer1, shape1);
    w := OriginIsNode(t, k, k.owner[net], layer2, shape2);
    assert Reaches(t.graph, v, w) <==> k.comp[v] == k.comp[w];
  }

  // Shapes of connected nodes share a net after the call.
  lemma ConnectedShapesShareNet(t: Task, k: Owners, suffix: nat, result: Connectivity, v: nat, w: nat,
                                layer1: string, shape1: Shape, layer2: string, shape2: Shape)
    returns (net: string)
    requires Finished(t, k, suffix, result) && v < |t.graph| && w < |t.graph| && Reaches(t.graph, v, w)
    requires NodeHas(t, k, v, layer1, shape1) && NodeHas(t, k, w, layer2, shape2)
    ensures Has(result, net, layer1, shape1) && Has(result, net, layer2, shape2)
  {
    assert Reaches(t.graph, v, w) <==> k.comp[v] == k.comp[w];
    net := ComponentHasNet(t, k, suffix, result, v);
    assert NetIsComponent(t, k, suffix, result, net);
    NodeIsOrigin(t, k, v, layer1, shape1);
    NodeIsOrigin(t, k, w, layer2, shape2);
  }

  // Nothing is lost, nothing is invented: the shapes on nets afterwards
  // are those on nets before and the polygons of the layer.
  lemma GeometryConserved(t: Task, k: Owners, suffix: nat, result: Connectivity, layer: string, shape: Shape)
    requires Naming(t, k, suffix) && ExactNets(t, k, suffix, result)
    ensures (exists net :: Has(result, net, layer, shape)) <==>
            (exists v :: 0 <= v < |t.graph| && NodeHas(t, k, v, layer, shape))
  {
    if net :| Has(result, net, layer, shape) {
      assert NetIsComponent(t, k, suffix, result, net);
      var v := OriginIsNode(t, k, k.owner[net], layer, shape);
    }
    if v :| 0 <= v < |t.graph| && NodeHas(t, k, v, layer, shape) {
      NodeKeepsShape(t, k, suffix, result, v, layer, shape);
    }
  }

  lemma NodeKeepsShape(t: Task, k: Owners, suffix: nat, result: Connectivity, v: nat, layer: string, shape: Shape)
    requires Naming(t, k, suffix) && ExactNets(t, k, suffix, result)
    requires v < |t.graph| && NodeHas(t, k, v, layer, shape)
    ensures exists net :: Has(result, net, layer, shape)
  {
    NodeIsOrigin(t, k, v, layer, shape);
    var net := ComponentHasNet(t, k, suffix, result, v);
    assert NetIsComponent(t, k, suffix, result, net);
    assert Has(result, net, layer, shape);
  }

  // ---- How many nets a component ends up with ----

  ghost function NetsOf(k: Owners, result: Connectivity, c: set<nat>): set<string> {
    set net | net in result && Belongs(k, net, c)
  }

  ghost function PolygonsOf(t: Task, k: Owners, c: set<nat>): set<nat>
    requires ValidTask(t) && ValidOwners(t, k)
  {
    set j | j in Permutations.Range(|t.polygons|) && k.comp[t.offset + j] == c
  }

  ghost function FreshFor(t: Task, suffix: nat, polygons: set<nat>): set<string> {
    set j | j in polygons :: Fresh(t, suffix, j)
  }

  lemma {:induction false} FreshCount(t: Task, suffix: nat, polygons: set<nat>)
    ensures |FreshFor(t, suffix, polygons)| == |polygons|
  {
    if polygons != {} {
      var j :| j in polygons;
      var rest := polygons - {j};
      FreshCount(t, suffix, rest);
      forall i | i in rest
        ensures Fresh(t, suffix, i) != Fresh(t, suffix, j)
      {
        FreshNameInjective(t.prefix, suffix + i, suffix + j);
      }
      assert FreshFor(t, suffix, polygons) == FreshFor(t, suffix, rest) + {Fresh(t, suffix, j)};
    }
  }

  // One net if some net node is in the component, and otherwise one for each of its polygons.
  lemma NetCount(t: Task, k: Owners, suffix: nat, result: Connectivity, v: nat)
    requires Naming(t, k, suffix) && ExactNets(t, k, suffix, result) && v < |t.graph|
    ensures |NetsOf(k, result, k.comp[v])| ==
            if HasNetNode(t, k, k.comp[v]) then 1 else |PolygonsOf(t, k, k.comp[v])|
  {
    var c := k.comp[v];
    if HasNetNode(t, k, c) {
      var w :| 0 <= w < t.offset && k.comp[w] == c;
      assert SoleNet(k, result, k.comp[w]);
      var net :| net in result && Belongs(k, net, c) && forall n :: n in result && Belongs(k, n, c) ==> n == net;
      assert NetsOf(k, result, c) == {net};
    } else {
      FloatingNetsAreFresh(t, k, suffix, result, c);
      FreshCount(t, suffix, PolygonsOf(t, k, c));
    }
  }

  lemma FloatingNetIsFresh(t: Task, k: Owners, suffix: nat, c: set<nat>, net: string)
    requires Naming(t, k, suffix) && Belongs(k, net, c) && IsFresh(t, suffix, net)
    ensures net in FreshFor(t, suffix, PolygonsOf(t, k, c))
  {
    var h :| 0 <= h < |t.polygons| && net == Fresh(t, suffix, h);
    assert Belongs(k, net, k.comp[t.offset + h]);
    assert h in PolygonsOf(t, k, c);
  }

  lemma FreshIsFloatingNet(t: Task, k: Owners, suffix: nat, result: Connectivity, c: set<nat>, j: nat)
    requires Naming(t, k, suffix) && ExactNets(t, k, suffix, result) && !HasNetNode(t, k, c)
    requires j in PolygonsOf(t, k, c)
    ensures Fresh(t, suffix, j) in NetsOf(k, result, c)
  {
    assert PolygonHasNet(t, k, suffix, result, j);
    assert k.comp[t.offset + j] == c;
    assert Belongs(k, Fresh(t, suffix, j), c);
  }

  lemma FloatingNetsAreFresh(t: Task, k: Owners, suffix: nat, result: Connectivity, c: set<nat>)
    requires Naming(t, k, suffix) && ExactNets(t, k, suffix, result) && !HasNetNode(t, k, c)
    ensures NetsOf(k, result, c) == FreshFor(t, suffix, PolygonsOf(t, k, c))
  {
    forall net | net in NetsOf(k, result, c)
      ensures net in FreshFor(t, suffix, PolygonsOf(t, k, c))
    {
      assert NetIsComponent(t, k, suffix, result, net);
      FloatingNetIsFresh(t, k, suffix, c, net);
    }
    forall net | net in FreshFor(t, suffix, PolygonsOf(t, k, c))
      ensures net in NetsOf(k, result, c)
    {
      var j: nat :| j in PolygonsOf(t, k, c) && net == Fresh(t, suffix, j);
      FreshIsFloatingNet(t, k, suffix, result, c, j);
    }
  }

  ghost predicate TouchesNoNet(t: Task, v: nat) {
    forall w :: 0 <= w < t.offset ==> !Reaches(t.graph, v, w)
  }

  // Two polygons that are connected to each other but to no net.
  ghost predicate FloatingPair(t: Task, i: nat, j: nat) {
    && i < j < |t.polygons|
    && Reaches(t.graph, t.offset + i, t.offset + j)
    && TouchesNoNet(t, t.offset + i)
  }

  lemma FloatingPairComponent(t: Task, k: Owners, suffix: nat, i: nat, j: nat)
    requires Naming(t, k, suffix) && Components(t, k) && i < j < |t.polygons|
    ensures FloatingPair(t, i, j) <==>
            k.comp[t.offset + i] == k.comp[t.offset + j] && !HasNetNode(t, k, k.comp[t.offset + i])
  {
    var v := t.offset + i;
    assert Reaches(t.graph, v, t.offset + j) <==> k.comp[v] == k.comp[t.offset + j];
    forall w | 0 <= w < t.offset
      ensures k.comp[w] == k.comp[v] <==> Reaches(t.graph, v, w)
    {
    }
  }

  ghost predicate OneNetEach(t: Task, k: Owners, result: Connectivity)
    requires ValidTask(t) && ValidOwners(t, k)
  {
    forall v :: 0 <= v < |t.graph| ==> |NetsOf(k, result, k.comp[v])| == 1
  }

  // Polygons that touch no net should get one internal net per connected piece. They do
  // exactly when no two polygons are connected to each other and to no net.
  lemma OneNetEachUnlessFloatingPair(t: Task, k: Owners, suffix: nat, result: Connectivity)
    requires Finished(t, k, suffix, result)
    ensures OneNetEach(t, k, result) <==> forall i: nat, j: nat :: !FloatingPair(t, i, j)
  {
    if i: nat, j: nat :| FloatingPair(t, i, j) {
      FloatingPairHasTwoNets(t, k, suffix, result, i, j);
    } else {
      forall v | 0 <= v < |t.graph|
        ensures |NetsOf(k, result, k.comp[v])| == 1
      {
        NetCount(t, k, suffix, result, v);
        if !HasNetNode(t, k, k.comp[v]) {
          LonelyPolygon(t, k, suffix, v);
        }
      }
    }
  }

  lemma PairInComponent(t: Task, k: Owners, i: nat, j: nat)
    requires ValidTask(t) && ValidOwners(t, k) && i < j < |t.polygons|
    requires k.comp[t.offset + i] == k.comp[t.offset + j]
    ensures |PolygonsOf(t, k, k.comp[t.offset + i])| >= 2
  {
    var s := PolygonsOf(t, k, k.comp[t.offset + i]);
    assert i in s && j in s;
    TwoMembers(s, i, j);
  }

  lemma FloatingPairHasTwoNets(t: Task, k: Owners, suffix: nat, result: Connectivity, i: nat, j: nat)
    requires Finished(t, k, suffix, result) && FloatingPair(t, i, j)
    ensures |NetsOf(k, result, k.comp[t.offset + i])| >= 2
  {
    FloatingPairComponent(t, k, suffix, i, j);
    PairInComponent(t, k, i, j);
    NetCount(t, k, suffix, result, t.offset + i);
  }

  lemma LonelyPolygon(t: Task, k: Owners, suffix: nat, v: nat)
    requires Naming(t, k, suffix) && Components(t, k) && v < |t.graph|
    requires !HasNetNode(t, k, k.comp[v])
    requires forall i: nat, j: nat :: !FloatingPair(t, i, j)
    ensures |PolygonsOf(t, k, k.comp[v])| == 1
  {
    var j := v - t.offset;
    assert j in PolygonsOf(t, k, k.comp[v]);
    forall i | i in PolygonsOf(t, k, k.comp[v])
      ensures i == j
    {
      if i < j {
        FloatingPairComponent(t, k, suffix, i, j);
      } else if j < i {
        FloatingPairComponent(t, k, suffix, j, i);
      }
    }
    assert PolygonsOf(t, k, k.comp[v]) == {j};
  }

  lemma TwoMembers(s: set<nat>, i: nat, j: nat)
    requires i in s && j in s && i != j
    ensures |s| >= 2
  {
    assert |s - {i}| == |s| - 1;
    assert j in s - {i};
  }

  // The smallest case: two polygons that touch each other, and no nets yet, make two nets.
  const TWO_TOUCHING := Task(0, [7, 8], [{1}, {0}], "__internal_net_", "METAL1")

  lemma TwoTouchingPolygonsMakeTwoNets(k: Owners, suffix: nat, result: Connectivity)
    requires Finished(TWO_TOUCHING, k, suffix, result)
    ensures |NetsOf(k, result, k.comp[0])| >= 2
    ensures !OneNetEach(TWO_TOUCHING, k, result)
  {
    assert IsPath(TWO_TOUCHING.graph, [0, 1]);
    assert [0, 1][0] == 0 && [0, 1][|[0, 1]| - 1] == 1;
    assert FloatingPair(TWO_TOUCHING, 0, 1);
    FloatingPairHasTwoNets(TWO_TOUCHING, k, suffix, result, 0, 1);
  }

  // A geometry in which two shapes touch each other, and nothing else does.
  function Touching(nodes: seq<set<Shape>>): (g: Graph)
    ensures |g| == |nodes|
  {
    if |nodes| == 2 then [{1}, {0}] else seq(|nodes|, _ => {})
  }

  // Connecting the two to an empty database gives two nets, and both of them have both polygons.
  method ConnectTwoTouching() returns (nets: Connectivity)
    ensures |nets| >= 2
    ensures forall net :: net in nets ==> Has(nets, net, "METAL1", 7) && Has(nets, net, "METAL1", 8)
  {
    var db := new ConnectivityDatabase();
    ghost var before := db.nets;
    var newSuffix;
    ghost var t, k;
    TouchingIsExtractor();
    newSuffix, t, k := ConnectLayoutToLayer(db, [7, 8], "METAL1", "METAL1", "__internal_net_", 0, Touching);
    nets := db.nets;
    assert t == TWO_TOUCHING by {
      assert Connected(before, [7, 8], "METAL1", "METAL1", "__internal_net_", Touching, t, k);
      NoNames(before, k.names);
      assert |NodeShapes(k.base, k.names, "METAL1", [7, 8])| == 2;
    }
    TwoTouchingPolygonsMakeTwoNets(k, 0, nets);
    NetsAreAll(k, nets);
    forall net | net in nets
      ensures Has(nets, net, "METAL1", 7) && Has(nets, net, "METAL1", 8)
    {
      BothOnNet(k, nets, net);
    }
  }

  lemma NoNames(c: Connectivity, names: seq<string>)
    requires forall n :: n in names ==> n in c
    ensures c == map[] ==> names == []
  {
    if names != [] {
      assert names[0] in c;
    }
  }

  lemma TouchingIsExtractor()
    ensures IsExtractor(Touching)
  {
    forall nodes
      ensures |Touching(nodes)| == |nodes| && IsGraph(Touching(nodes)) && Symmetric(Touching(nodes))
    {
    }
  }

  lemma NetsAreAll(k: Owners, nets: Connectivity)
    requires ValidTask(TWO_TOUCHING) && ValidOwners(TWO_TOUCHING, k)
    ensures |NetsOf(k, nets, k.comp[0])| <= |nets|
  {
    Permutations.SubsetCount(NetsOf(k, nets, k.comp[0]), nets.Keys);
  }

  lemma BothOnNet(k: Owners, nets: Connectivity, net: string)
    requires Finished(TWO_TOUCHING, k, 0, nets) && net in nets
    ensures Has(nets, net, "METAL1", 7) && Has(nets, net, "METAL1", 8)
  {
    var t := TWO_TOUCHING;
    assert NetIsComponent(t, k, 0, nets, net);
    assert IsPath(t.graph, [0, 1]) && [0, 1][|[0, 1]| - 1] == 1;
    assert Reaches(t.graph, 0, 1) <==> k.comp[0] == k.comp[1];
    assert t.polygons[0] == 7 && t.polygons[1] == 8;
    assert Origin(t, k, k.comp[0], "METAL1", 7) && Origin(t, k, k.comp[0], "METAL1", 8);
  }

  // ---- When a net has a name that is still to be generated ----

  // Whatever the nets are called, shapes share a net only if nodes that have them are linked by edges
  // and name clashes.
  lemma OnlyLinkedShapesShareNets(t: Task, k: Owners, suffix: nat, result: Connectivity, net: string,
                                  layer1: string, shape1: Shape, layer2: string, shape2: Shape)
    returns (v: nat, w: nat)
    requires ValidTask(t) && ValidOwners(t, k) && IsGraph(t.graph) && Classes(t, k, suffix) && Sound(t, k, result)
    requires Has(result, net, layer1, shape1) && Has(result, net, layer2, shape2)
    ensures v < |t.graph| && NodeHas(t, k, v, layer1, shape1)
    ensures w < |t.graph| && NodeHas(t, k, w, layer2, shape2)
    ensures Reaches(ClashGraph(t.graph, k.names + FreshNames(t.prefix, suffix, |t.polygons|)), v, w)
  {
    v := OriginIsNode(t, k, k.owner[net], layer1, shape1);
    w := OriginIsNode(t, k, k.owner[net], layer2, shape2);
    var clash := ClashGraph(t.graph, k.names + FreshNames(t.prefix, suffix, |t.polygons|));
    assert Reaches(clash, v, w) <==> k.comp[v] == k.comp[w];
  }
}
