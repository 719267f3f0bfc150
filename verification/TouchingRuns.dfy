/** What the whole extraction means for shapes that touch
    (libs/polygon/doc/tutorial/connectivity_database.hpp). */
module TouchingRuns {
  import opened Graphs
  import opened NetState
  import opened LayerConnection
  import opened NetMerger
  import opened NameClashes
  import opened TouchingShapes
  import opened ConnectivityRun

  // The scene of a stage.
  function SceneOf(before: Connectivity, s: Stage): Scene {
    Scene(before, s.polygons, s.layoutLayer, s.layer)
  }

  // Whatever the nets are called, what is chained in one stage is on one net when the extraction ends.
  lemma ChainedInRun(run: seq<Connectivity>, stages: seq<Stage>, extract: seq<set<Shape>> -> Graph, touch: Touch,
                     i: nat, l1: string, x1: Shape, l2: string, x2: Shape)
    requires IsLooseRun(run, stages, extract) && JoinsTouching(extract, touch) && i < |stages|
    requires Chained(SceneOf(run[i], stages[i]), touch, l1, x1, l2, x2)
    ensures Together(run[|run| - 1], l1, x1, l2, x2)
  {
    var s := stages[i];
    assert IsLooseStage(run[i], run[i + 1], s, extract);
    ChainedShare(run[i + 1], INTERNAL, s.suffix, extract, touch, SceneOf(run[i], s), s.t, s.k, l1, x1, l2, x2);
    var net :| Has(run[i + 1], net, l1, x1) && Has(run[i + 1], net, l2, x2);
    var last := LooseRunCarries(run, stages, extract, i + 1, net);
    assert Has(run[|run| - 1], last, l1, x1) && Has(run[|run| - 1], last, l2, x2);
  }

  // Pieces that touch do so by shapes of one side.
  ghost predicate TouchingAgree(scene: Scene, touch: Touch, side: (string, Shape) -> bool) {
    forall p, q, x, y :: CanTouch(scene, p, x) && CanTouch(scene, q, y) && touch(x, y) ==>
                           side(TouchLayer(scene, p), x) == side(TouchLayer(scene, q), y)
  }

  lemma {:induction false} ChainOneSide(scene: Scene, touch: Touch, side: (string, Shape) -> bool, chain: seq<Piece>,
                                        l1: string, x1: Shape, l2: string, x2: Shape)
    requires Pure(scene.nets, side) && TouchingAgree(scene, touch, side) && IsChain(scene, touch, chain)
    requires Holds(scene, chain[0], l1, x1) && Holds(scene, chain[|chain| - 1], l2, x2)
    ensures side(l1, x1) == side(l2, x2)
  {
    if |chain| == 1 {
      PieceOneSide(scene, side, chain[0], l1, x1, l2, x2);
    } else {
      assert PiecesTouch(scene, touch, chain[0], chain[0 + 1]);
      var x, y :| CanTouch(scene, chain[0], x) && CanTouch(scene, chain[1], y) && touch(x, y);
      PieceOneSide(scene, side, chain[0], l1, x1, TouchLayer(scene, chain[0]), x);
      ChainTail(scene, touch, chain);
      ChainOneSide(scene, touch, side, chain[1..], TouchLayer(scene, chain[1]), y, l2, x2);
    }
  }

  lemma PieceOneSide(scene: Scene, side: (string, Shape) -> bool, p: Piece, l1: string, x1: Shape,
                     l2: string, x2: Shape)
    requires Pure(scene.nets, side) && Holds(scene, p, l1, x1) && Holds(scene, p, l2, x2)
    ensures side(l1, x1) == side(l2, x2)
  {
    if p.OfNet? {
      assert Has(scene.nets, p.name, l1, x1) && Has(scene.nets, p.name, l2, x2);
    }
  }

  lemma TouchingStageKeepsPure(before: Connectivity, after: Connectivity, s: Stage, extract: seq<set<Shape>> -> Graph,
                               touch: Touch, side: (string, Shape) -> bool)
    requires IsStage(before, after, s, extract) && JoinsTouching(extract, touch) && Pure(before, side)
    requires TouchingAgree(SceneOf(before, s), touch, side)
    ensures Pure(after, side)
  {
    var scene := SceneOf(before, s);
    forall net, l1, x1, l2, x2 | Has(after, net, l1, x1) && Has(after, net, l2, x2)
      ensures side(l1, x1) == side(l2, x2)
    {
      OnlyChainedShare(after, INTERNAL, s.suffix, extract, touch, scene, s.t, s.k, l1, x1, l2, x2);
      var chain :| IsChain(scene, touch, chain) && Holds(scene, chain[0], l1, x1) &&
        Holds(scene, chain[|chain| - 1], l2, x2);
      ChainOneSide(scene, touch, side, chain, l1, x1, l2, x2);
    }
  }

  // If touching shapes are of one side in every stage, and the pins of every net are, then no net has shapes of both
  // sides when the extraction ends.
  lemma {:induction false} TouchingKeepsPure(run: seq<Connectivity>, stages: seq<Stage>,
                                             extract: seq<set<Shape>> -> Graph, touch: Touch,
                                             side: (string, Shape) -> bool)
    requires IsRun(run, stages, extract) && JoinsTouching(extract, touch) && Pure(run[0], side)
    requires forall i :: 0 <= i < |stages| ==> TouchingAgree(SceneOf(run[i], stages[i]), touch, side)
    ensures Pure(run[|run| - 1], side)
  {
    if stages != [] {
      var i := |stages| - 1;
      assert IsStage(run[i], run[i + 1], stages[i], extract) && TouchingAgree(SceneOf(run[i], stages[i]), touch, side);
      RunFront(run, stages, extract, i);
      TouchingKeepsPure(run[..i + 1], stages[..i], extract, touch, side);
      TouchingStageKeepsPure(run[i], run[i + 1], stages[i], extract, touch, side);
    }
  }

  // ---- A layout that hangs together ----

  // Every polygon touches the net on the layer that is looked at.
  ghost predicate TouchesNet(c: Connectivity, pin: string, s: Stage, touch: Touch) {
    forall y {:trigger TouchesShape(c, pin, s.layer, touch, y)} :: y in s.polygons ==>
      TouchesShape(c, pin, s.layer, touch, y)
  }

  ghost predicate TouchesShape(c: Connectivity, net: string, layer: string, touch: Touch, y: Shape) {
    exists x :: Has(c, net, layer, x) && touch(x, y)
  }

  // There is one net, and it has a shape and a name that is not internal.
  ghost predicate OnlyPin(c: Connectivity, pin: string) {
    c.Keys == {pin} && !(INTERNAL <= pin) && exists l, x :: Has(c, pin, l, x)
  }

  lemma PinScene(c: Connectivity, s: Stage, touch: Touch, pin: string)
    requires OnlyPin(c, pin) && TouchesNet(c, pin, s, touch)
    ensures AllOnPin(SceneOf(c, s), touch, INTERNAL, pin)
  {
    var scene := SceneOf(c, s);
    forall p | IsPiece(scene, p)
      ensures ChainTo(scene, touch, OfNet(pin), p)
    {
      var chain := [OfNet(pin)];
      if p.OfPolygon? {
        chain := [OfNet(pin), p];
        assert TouchesShape(c, pin, s.layer, touch, s.polygons[p.index]);
        var x :| Has(c, pin, s.layer, x) && touch(x, s.polygons[p.index]);
        assert CanTouch(scene, OfNet(pin), x) && CanTouch(scene, p, s.polygons[p.index]);
      }
      assert IsChain(scene, touch, chain) && chain[0] == OfNet(pin) && chain[|chain| - 1] == p;
    }
  }

  // Then the stage puts its polygons on the net, and makes no other.
  lemma PinStage(before: Connectivity, after: Connectivity, s: Stage, extract: seq<set<Shape>> -> Graph, touch: Touch,
                 pin: string)
    requires IsStage(before, after, s, extract) && JoinsTouching(extract, touch)
    requires OnlyPin(before, pin) && TouchesNet(before, pin, s, touch)
    ensures OnlyPin(after, pin)
    ensures forall l, x :: Has(after, pin, l, x) <==>
                           Has(before, pin, l, x) || (l == s.layoutLayer && x in s.polygons)
  {
    var scene := SceneOf(before, s);
    PinScene(before, s, touch, pin);
    EverythingOnPin(after, INTERNAL, s.suffix, extract, touch, scene, s.t, s.k, pin);
    forall l, x
      ensures SomeHolds(scene, l, x) <==> Has(before, pin, l, x) || (l == s.layoutLayer && x in s.polygons)
    {
      PinOrPolygon(before, s, pin, l, x);
    }
    var l, x :| Has(before, pin, l, x);
    assert Has(after, pin, l, x);
  }

  lemma PinOrPolygon(c: Connectivity, s: Stage, pin: string, l: string, x: Shape)
    requires c.Keys == {pin}
    ensures SomeHolds(SceneOf(c, s), l, x) <==> Has(c, pin, l, x) || (l == s.layoutLayer && x in s.polygons)
  {
    if Has(c, pin, l, x) {
      assert Holds(SceneOf(c, s), OfNet(pin), l, x);
    }
    if l == s.layoutLayer && x in s.polygons {
      var j :| 0 <= j < |s.polygons| && s.polygons[j] == x;
      assert Holds(SceneOf(c, s), OfPolygon(j), l, x);
    }
  }

  // The net has exactly these shapes on these layers.
  ghost predicate Consists(c: Connectivity, net: string, items: set<(string, Shape)>) {
    forall l, x: Shape :: Has(c, net, l, x) <==> (l, x) in items
  }

  // One pin, and on every layer a polygon next to one of the layer that it is connected to.
  method PopulateOnePin() returns (nets: Connectivity)
    ensures nets.Keys == {"VDD"}
    ensures Consists(nets, "VDD",
                     {("METAL1", 10), ("METAL1", 11), ("VIA0", 12), ("POLY", 13), ("DIFF", 14), ("GATE", 12)})
  {
    var db := new ConnectivityDatabase();
    ghost var before := db.nets;
    var pins, layout := [Pin("VDD", "METAL1", 10)], Layout([11], [12], [13], [14], [12]);
    LineGraphJoinsTouching();
    PlainPinsAreFree(pins);
    var suffix;
    ghost var run, stages;
    suffix, run, stages := PopulateConnectivityDatabase(db, pins, layout, LineGraph);
    nets := db.nets;
    OnePinStarts(run[0], pins);
    OnePinShown(run, stages, "METAL1", "VIA0", "POLY", "DIFF", "GATE");
  }

  lemma OnePinStarts(c: Connectivity, pins: seq<Pin>)
    requires c == WithPins(map[], pins) && pins == [Pin("VDD", "METAL1", 10)]
    ensures OnlyPin(c, "VDD") && Consists(c, "VDD", {("METAL1", 10)})
  {
    forall l, x
      ensures Has(c, "VDD", l, x) <==> l == "METAL1" && x == 10
    {
      PinsAreOnTheirNets(map[], pins, "VDD", l, x);
    }
    assert Has(c, "VDD", "METAL1", 10) && WithPins(map[], pins[..0]) == map[];
  }

  // A run whose last database has one net with these shapes.
  ghost predicate RunsTo(run: seq<Connectivity>, stages: seq<Stage>, i: nat, items: set<(string, Shape)>) {
    IsRun(run, stages, LineGraph) && i < |run| && OnlyPin(run[i], "VDD") && Consists(run[i], "VDD", items)
  }

  lemma OnePinShown(run: seq<Connectivity>, stages: seq<Stage>, metal: string, via: string, poly: string,
                    diff: string, gate: string)
    requires |stages| == 5 && RunsTo(run, stages, 0, {(metal, 10)})
    requires IsOf(stages[0], [11], metal, metal) && IsOf(stages[1], [12], via, metal)
    requires IsOf(stages[2], [13], poly, via) && IsOf(stages[3], [14], diff, poly) && IsOf(stages[4], [12], gate, poly)
    ensures RunsTo(run, stages, 5, {(metal, 10), (metal, 11), (via, 12), (poly, 13), (diff, 14), (gate, 12)})
  {
    var items := {(metal, 10)};
    items := OnePolygonMore(run, stages, 0, 1, metal, metal, items, 10, 11);
    items := OnePolygonMore(run, stages, 1, 2, via, metal, items, 11, 12);
    items := OnePolygonMore(run, stages, 2, 3, poly, via, items, 12, 13);
    items := OnePolygonMore(run, stages, 3, 4, diff, poly, items, 13, 14);
    items := OnePolygonMore(run, stages, 4, 5, gate, poly, items, 13, 12);
    SixItems((metal, 10), (metal, 11), (via, 12), (poly, 13), (diff, 14), (gate, 12));
  }

  lemma SixItems<T>(a: T, b: T, c: T, d: T, e: T, f: T)
    ensures {a} + {b} + {c} + {d} + {e} + {f} == {a, b, c, d, e, f}
  {
  }

  lemma OnePolygonMore(run: seq<Connectivity>, stages: seq<Stage>, i: nat, next: nat, layoutLayer: string,
                       layer: string, items: set<(string, Shape)>, x: Shape, y: Shape)
    returns (more: set<(string, Shape)>)
    requires RunsTo(run, stages, i, items) && next == i + 1 <= |stages|
    requires IsOf(stages[i], [y], layoutLayer, layer) && Near(x, y) && (layer, x) in items
    ensures more == items + {(layoutLayer, y)} && RunsTo(run, stages, next, more)
  {
    more := items + {(layoutLayer, y)};
    assert IsStage(run[i], run[i + 1], stages[i], LineGraph);
    LineGraphJoinsTouching();
    assert Has(run[i], "VDD", layer, x);
    PinStage(run[i], run[i + 1], stages[i], LineGraph, Near, "VDD");
  }
}
