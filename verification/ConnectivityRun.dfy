/** Building the whole connectivity database: the pins, then five layer connections
    (libs/polygon/doc/tutorial/connectivity_database.hpp). */
module ConnectivityRun {
  import opened Graphs
  import opened NetState
  import opened NetOwners
  import opened NetMerger
  import opened LayerInvariant
  import opened LayerKept
  import opened LayerConnection
  import opened LayerLaws

  const INTERNAL := "__internal_net_"

  datatype Pin = Pin(net: string, layer: string, shape: Shape)

  // The polygons to connect, after the gates have been cut out of poly and diffusion.
  datatype Layout = Layout(metal1: seq<Shape>, via0: seq<Shape>, polyNotGate: seq<Shape>,
                           diffNotGate: seq<Shape>, gate: seq<Shape>)

  function WithPins(c: Connectivity, pins: seq<Pin>): Connectivity {
    if pins == [] then c
    else
      var p := pins[|pins| - 1];
      AddShapes(WithPins(c, pins[..|pins| - 1]), p.net, p.layer, {p.shape})
  }

  // No net has an internal name with this number or a later one.
  ghost predicate FreeFrom(c: Connectivity, number: nat) {
    forall n {:trigger FreshName(INTERNAL, n)} :: n >= number ==> FreshName(INTERNAL, n) !in c
  }

  ghost predicate NeverFresh(name: string) {
    forall n {:trigger FreshName(INTERNAL, n)} :: n >= 0 ==> name != FreshName(INTERNAL, n)
  }

  ghost predicate PinNamesFree(pins: seq<Pin>) {
    forall i :: 0 <= i < |pins| ==> NeverFresh(pins[i].net)
  }

  // ---- A run of layer connections ----

  datatype Stage = Stage(polygons: seq<Shape>, layoutLayer: string, layer: string, suffix: nat, t: Task, k: Owners)

  ghost predicate IsStage(before: Connectivity, after: Connectivity, s: Stage, extract: seq<set<Shape>> -> Graph) {
    Connects(before, after, s.polygons, s.layoutLayer, s.layer, INTERNAL, s.suffix, extract, s.t, s.k)
  }

  ghost predicate IsRun(run: seq<Connectivity>, stages: seq<Stage>, extract: seq<set<Shape>> -> Graph) {
    |run| == |stages| + 1 && forall i :: 0 <= i < |stages| ==> IsStage(run[i], run[i + 1], stages[i], extract)
  }

  // A run in which names may clash.
  ghost predicate IsLooseStage(before: Connectivity, after: Connectivity, s: Stage,
                               extract: seq<set<Shape>> -> Graph) {
    Joins(before, after, s.polygons, s.layoutLayer, s.layer, INTERNAL, s.suffix, extract, s.t, s.k)
  }

  ghost predicate IsLooseRun(run: seq<Connectivity>, stages: seq<Stage>, extract: seq<set<Shape>> -> Graph) {
    |run| == |stages| + 1 && forall i :: 0 <= i < |stages| ==> IsLooseStage(run[i], run[i + 1], stages[i], extract)
  }

  // The layers in the order in which they are connected, and what each is connected to.
  ghost predicate LayersOfStages(stages: seq<Stage>, layout: Layout) {
    && |stages| == 5
    && IsOf(stages[0], layout.metal1, "METAL1", "METAL1")
    && IsOf(stages[1], layout.via0, "VIA0", "METAL1")
    && IsOf(stages[2], layout.polyNotGate, "POLY", "VIA0")
    && IsOf(stages[3], layout.diffNotGate, "DIFF", "POLY")
    && IsOf(stages[4], layout.gate, "GATE", "POLY")
  }

  ghost predicate IsOf(s: Stage, polygons: seq<Shape>, layoutLayer: string, layer: string) {
    s.polygons == polygons && s.layoutLayer == layoutLayer && s.layer == layer
  }

  method InsertPins(db: ConnectivityDatabase, pins: seq<Pin>)
    modifies db
    ensures db.nets == WithPins(old(db.nets), pins)
  {
    for i := 0 to |pins|
      invariant db.nets == WithPins(old(db.nets), pins[..i])
    {
      var p := pins[i];
      assert pins[..i + 1][..i] == pins[..i];
      db.nets := AddShapes(db.nets, p.net, p.layer, {p.shape});
    }
    assert pins[..|pins|] == pins;
  }

  lemma {:induction false} PinsLeaveNamesFree(c: Connectivity, pins: seq<Pin>, number: nat)
    requires FreeFrom(c, number) && PinNamesFree(pins)
    ensures FreeFrom(WithPins(c, pins), number)
  {
    if pins != [] {
      assert NeverFresh(pins[|pins| - 1].net);
      PinsLeaveNamesFree(c, pins[..|pins| - 1], number);
    }
  }

  // It is enough that no pin's net begins like an internal one.
  lemma PlainPinsAreFree(pins: seq<Pin>)
    requires forall i :: 0 <= i < |pins| ==> !("__internal_net_" <= pins[i].net)
    ensures PinNamesFree(pins)
  {
    forall i | 0 <= i < |pins|
      ensures NeverFresh(pins[i].net)
    {
      forall n | n >= 0
        ensures pins[i].net != FreshName(INTERNAL, n)
      {
        assert INTERNAL <= FreshName(INTERNAL, n);
      }
    }
  }

  // A shape is on a net afterwards if it was there before or is a pin of the net, and only then.
  lemma {:induction false} PinsAreOnTheirNets(c: Connectivity, pins: seq<Pin>, net: string, layer: string, shape: Shape)
    ensures Has(WithPins(c, pins), net, layer, shape) <==> Has(c, net, layer, shape) || Pin(net, layer, shape) in pins
  {
    if pins != [] {
      var front, p := pins[..|pins| - 1], pins[|pins| - 1];
      PinsAreOnTheirNets(c, front, net, layer, shape);
      assert pins == front + [p];
      assert Pin(net, layer, shape) in pins <==> Pin(net, layer, shape) in front || Pin(net, layer, shape) == p;
    }
  }

  lemma StageFreesNames(before: Connectivity, after: Connectivity, s: Stage, extract: seq<set<Shape>> -> Graph)
    requires IsStage(before, after, s, extract) && FreeFrom(before, s.suffix)
    ensures FreeFrom(after, s.suffix + |s.polygons|)
  {
    forall n | n >= s.suffix + |s.polygons|
      ensures FreshName(INTERNAL, n) !in after
    {
      var net := FreshName(INTERNAL, n);
      assert NetIsComponent(s.t, s.k, s.suffix, after, net);
      forall h: nat | h < |s.t.polygons|
        ensures net != Fresh(s.t, s.suffix, h)
      {
        FreshNameInjective(INTERNAL, n, s.suffix + h);
      }
    }
  }

  lemma FreeMeansNoClash(c: Connectivity, suffix: nat, count: nat)
    requires FreeFrom(c, suffix)
    ensures NoClash(c, INTERNAL, suffix, count)
  {
    forall name | name in FreshNames(INTERNAL, suffix, count)
      ensures name !in c
    {
      var h :| 0 <= h < count && FreshNames(INTERNAL, suffix, count)[h] == name;
      assert name == FreshName(INTERNAL, suffix + h);
    }
  }

  lemma RunExtended(run: seq<Connectivity>, stages: seq<Stage>, after: Connectivity, s: Stage,
                    extract: seq<set<Shape>> -> Graph)
    requires IsRun(run, stages, extract) && IsStage(run[|run| - 1], after, s, extract)
    ensures IsRun(run + [after], stages + [s], extract)
  {
    var run', stages' := run + [after], stages + [s];
    forall i | 0 <= i < |stages'|
      ensures IsStage(run'[i], run'[i + 1], stages'[i], extract)
    {
      if i < |stages| {
        assert IsStage(run[i], run[i + 1], stages[i], extract);
      }
    }
  }

  lemma LooseRunExtended(run: seq<Connectivity>, stages: seq<Stage>, after: Connectivity, s: Stage,
                         extract: seq<set<Shape>> -> Graph)
    requires IsLooseRun(run, stages, extract) && IsLooseStage(run[|run| - 1], after, s, extract)
    ensures IsLooseRun(run + [after], stages + [s], extract)
  {
    var run', stages' := run + [after], stages + [s];
    forall i | 0 <= i < |stages'|
      ensures IsLooseStage(run'[i], run'[i + 1], stages'[i], extract)
    {
      if i < |stages| {
        assert IsLooseStage(run[i], run[i + 1], stages[i], extract);
      }
    }
  }

  // A run that has led to the database.
  ghost predicate EndsWith(run: seq<Connectivity>, stages: seq<Stage>, extract: seq<set<Shape>> -> Graph,
                           c: Connectivity) {
    IsLooseRun(run, stages, extract) && run[|run| - 1] == c
  }

  // A run without clashes so far, and with none to come.
  ghost predicate FreeRun(run: seq<Connectivity>, stages: seq<Stage>, extract: seq<set<Shape>> -> Graph, suffix: nat) {
    IsRun(run, stages, extract) && FreeFrom(run[|run| - 1], suffix)
  }

  // One more layer connection in a run. If no net has an internal name that is still to be generated,
  // it is exact, and that remains so.
  method ConnectStage(db: ConnectivityDatabase, polygons: seq<Shape>, layoutLayer: string, layer: string, suffix: nat,
                      extract: seq<set<Shape>> -> Graph, ghost run: seq<Connectivity>, ghost stages: seq<Stage>)
    returns (newSuffix: nat, ghost newRun: seq<Connectivity>, ghost newStages: seq<Stage>)
    requires IsExtractor(extract) && layoutLayer != ""
    requires EndsWith(run, stages, extract, db.nets)
    modifies db
    ensures newSuffix == suffix + |polygons|
    ensures newRun == run + [db.nets] && EndsWith(newRun, newStages, extract, db.nets)
    ensures FreeRun(run, stages, extract, suffix) ==> FreeRun(newRun, newStages, extract, newSuffix)
    ensures |newStages| == |stages| + 1 && newStages[..|stages|] == stages
    ensures IsOf(newStages[|stages|], polygons, layoutLayer, layer) && newStages[|stages|].suffix == suffix
  {
    ghost var t, k;
    newSuffix, t, k := ConnectLayoutToLayer(db, polygons, layoutLayer, layer, INTERNAL, suffix, extract);
    ghost var s := Stage(polygons, layoutLayer, layer, suffix, t, k);
    LooseRunExtended(run, stages, db.nets, s, extract);
    if FreeRun(run, stages, extract, suffix) {
      FreeMeansNoClash(run[|run| - 1], suffix, |polygons|);
      StageFreesNames(run[|run| - 1], db.nets, s, extract);
      RunExtended(run, stages, db.nets, s, extract);
    }
    newRun, newStages := run + [db.nets], stages + [s];
  }

  // The pins, and then layer after layer. One internal name is used up for each polygon.
  method PopulateConnectivityDatabase(db: ConnectivityDatabase, pins: seq<Pin>, layout: Layout,
                                      extract: seq<set<Shape>> -> Graph)
    returns (suffix: nat, ghost run: seq<Connectivity>, ghost stages: seq<Stage>)
    requires IsExtractor(extract)
    modifies db
    ensures IsLooseRun(run, stages, extract) && LayersOfStages(stages, layout)
    ensures FreeFrom(old(db.nets), 0) && PinNamesFree(pins) ==> IsRun(run, stages, extract)
    ensures run[0] == WithPins(old(db.nets), pins) && run[|run| - 1] == db.nets
    ensures suffix == |layout.metal1| + |layout.via0| + |layout.polyNotGate| + |layout.diffNotGate| + |layout.gate|
  {
    if FreeFrom(db.nets, 0) && PinNamesFree(pins) {
      PinsLeaveNamesFree(db.nets, pins, 0);
    }
    InsertPins(db, pins);
    suffix, run, stages := ConnectMetal(db, layout, extract);
    suffix, run, stages := ConnectDevices(db, layout, extract, suffix, run, stages);
  }

  // From metal down to the vias.
  method ConnectMetal(db: ConnectivityDatabase, layout: Layout, extract: seq<set<Shape>> -> Graph)
    returns (suffix: nat, ghost run: seq<Connectivity>, ghost stages: seq<Stage>)
    requires IsExtractor(extract)
    modifies db
    ensures EndsWith(run, stages, extract, db.nets) && run[0] == old(db.nets)
    ensures FreeFrom(old(db.nets), 0) ==> FreeRun(run, stages, extract, suffix)
    ensures |stages| == 2 && IsOf(stages[0], layout.metal1, "METAL1", "METAL1")
    ensures IsOf(stages[1], layout.via0, "VIA0", "METAL1")
    ensures suffix == |layout.metal1| + |layout.via0|
  {
    ghost var first: seq<Connectivity>, none: seq<Stage> := [db.nets], [];
    assert EndsWith(first, none, extract, db.nets);
    assert FreeFrom(db.nets, 0) ==> FreeRun(first, none, extract, 0);
    suffix, run, stages := ConnectStage(db, layout.metal1, "METAL1", "METAL1", 0, extract, first, none);
    suffix, run, stages := ConnectStage(db, layout.via0, "VIA0", "METAL1", suffix, extract, run, stages);
  }

  // From the vias down to the transistors.
  method ConnectDevices(db: ConnectivityDatabase, layout: Layout, extract: seq<set<Shape>> -> Graph, suffix: nat,
                        ghost run: seq<Connectivity>, ghost stages: seq<Stage>)
    returns (newSuffix: nat, ghost newRun: seq<Connectivity>, ghost newStages: seq<Stage>)
    requires IsExtractor(extract) && EndsWith(run, stages, extract, db.nets) && |stages| == 2
    modifies db
    ensures EndsWith(newRun, newStages, extract, db.nets) && newRun[0] == run[0]
    ensures FreeRun(run, stages, extract, suffix) ==> FreeRun(newRun, newStages, extract, newSuffix)
    ensures |newStages| == 5 && newStages[0] == stages[0] && newStages[1] == stages[1]
    ensures IsOf(newStages[2], layout.polyNotGate, "POLY", "VIA0")
    ensures IsOf(newStages[3], layout.diffNotGate, "DIFF", "POLY")
    ensures IsOf(newStages[4], layout.gate, "GATE", "POLY")
    ensures newSuffix == suffix + |layout.polyNotGate| + |layout.diffNotGate| + |layout.gate|
  {
    newSuffix, newRun, newStages := ConnectStage(db, layout.polyNotGate, "POLY", "VIA0", suffix, extract, run, stages);
    newSuffix, newRun, newStages :=
      ConnectStage(db, layout.diffNotGate, "DIFF", "POLY", newSuffix, extract, newRun, newStages);
    newSuffix, newRun, newStages :=
      ConnectStage(db, layout.gate, "GATE", "POLY", newSuffix, extract, newRun, newStages);
  }

  // ---- What a run keeps whatever the nets are called ----

  // Everything on one net of the first database is on one net of the second.
  ghost predicate CarriesShapes(before: Connectivity, net: string, after: Connectivity, net': string) {
    net' in after && forall layer, shape :: Has(before, net, layer, shape) ==> Has(after, net', layer, shape)
  }

  lemma LooseStageCarries(before: Connectivity, after: Connectivity, s: Stage, extract: seq<set<Shape>> -> Graph,
                          net: string)
    returns (net': string)
    requires IsLooseStage(before, after, s, extract) && net in before
    ensures CarriesShapes(before, net, after, net')
  {
    assert KeptNet(s.k.base, net, after);
    net' :| net' in after && Within(s.k.base, net, after, net');
    forall layer, shape | Has(before, net, layer, shape)
      ensures Has(after, net', layer, shape)
    {
      assert Has(s.k.base, net, layer, shape);
    }
  }

  // Shapes that share a net go on sharing one over the whole run.
  lemma {:induction false} LooseRunCarries(run: seq<Connectivity>, stages: seq<Stage>,
                                           extract: seq<set<Shape>> -> Graph, i: nat, net: string)
    returns (net': string)
    requires IsLooseRun(run, stages, extract) && i < |run| && net in run[i]
    ensures CarriesShapes(run[i], net, run[|run| - 1], net')
    decreases |run| - i
  {
    if i == |stages| {
      net' := net;
    } else {
      assert IsLooseStage(run[i], run[i + 1], stages[i], extract);
      var next := LooseStageCarries(run[i], run[i + 1], stages[i], extract, net);
      net' := LooseRunCarries(run, stages, extract, i + 1, next);
    }
  }

  // Every polygon of every layer is on a net at the end.
  lemma LooseRunPlaces(run: seq<Connectivity>, stages: seq<Stage>, extract: seq<set<Shape>> -> Graph, i: nat, h: nat)
    returns (net: string)
    requires IsLooseRun(run, stages, extract) && i < |stages| && h < |stages[i].polygons|
    ensures Has(run[|run| - 1], net, stages[i].layoutLayer, stages[i].polygons[h])
  {
    assert IsLooseStage(run[i], run[i + 1], stages[i], extract);
    assert OnSomeNet(stages[i].t, run[i + 1], h);
    var first :| Has(run[i + 1], first, stages[i].t.layer, stages[i].t.polygons[h]);
    net := LooseRunCarries(run, stages, extract, i + 1, first);
  }

  // ---- What a run keeps ----

  // Everything on one net of the first database is on one net of the second.
  // If the first name is not internal, neither is the second, and it is not new.
  ghost predicate Carries(before: Connectivity, net: string, after: Connectivity, net': string) {
    && net' in after
    && (forall layer, shape :: Has(before, net, layer, shape) ==> Has(after, net', layer, shape))
    && (!(INTERNAL <= net) ==> !(INTERNAL <= net') && net' in before)
  }

  // Only internal names are invented.
  lemma StageKeepsNames(before: Connectivity, after: Connectivity, s: Stage, extract: seq<set<Shape>> -> Graph,
                        net: string)
    requires IsStage(before, after, s, extract) && net in after
    ensures net in before || INTERNAL <= net
  {
    assert NetIsComponent(s.t, s.k, s.suffix, after, net);
    if IsFresh(s.t, s.suffix, net) {
      var h :| 0 <= h < |s.t.polygons| && net == Fresh(s.t, s.suffix, h);
      assert INTERNAL <= net;
    }
  }

  lemma StageCarries(before: Connectivity, after: Connectivity, s: Stage, extract: seq<set<Shape>> -> Graph,
                     net: string)
    returns (net': string)
    requires IsStage(before, after, s, extract) && net in before
    ensures Carries(before, net, after, net')
  {
    var w :| 0 <= w < |s.k.names| && s.k.names[w] == net;
    net' := ComponentHasNet(s.t, s.k, s.suffix, after, w);
    StageKeepsNames(before, after, s, extract, net');
    PinNamesStay(s.t, s.k, s.suffix, after, w, net');
    NetKeepsShapes(s.t, s.k, s.suffix, after, w, net');
    assert forall layer, shape :: Has(before, net, layer, shape) ==> Has(s.k.base, net, layer, shape);
  }

  lemma PinNamesStay(t: Task, k: Owners, suffix: nat, result: Connectivity, w: nat, net: string)
    requires Naming(t, k, suffix) && ExactNets(t, k, suffix, result) && w < t.offset
    requires net in result && Belongs(k, net, k.comp[w])
    ensures !(t.prefix <= k.names[w]) ==> !(t.prefix <= net)
  {
    assert NetIsComponent(t, k, suffix, result, net);
  }

  // Over the whole run, shapes that share a net go on sharing one,
  // and what is on a pin's net is on a net with the name of a pin's net at the end.
  lemma {:induction false} RunCarries(run: seq<Connectivity>, stages: seq<Stage>, extract: seq<set<Shape>> -> Graph,
                                      net: string)
    returns (net': string)
    requires IsRun(run, stages, extract) && net in run[0]
    ensures Carries(run[0], net, run[|run| - 1], net')
  {
    if stages == [] {
      net' := net;
    } else {
      assert IsStage(run[0], run[1], stages[0], extract);
      var next := StageCarries(run[0], run[1], stages[0], extract, net);
      assert IsRun(run[1..], stages[1..], extract) by {
        forall i | 0 <= i < |stages| - 1
          ensures IsStage(run[1..][i], run[1..][i + 1], stages[1..][i], extract)
        {
          assert IsStage(run[i + 1], run[i + 2], stages[i + 1], extract);
        }
      }
      net' := RunCarries(run[1..], stages[1..], extract, next);
      if net' in run[1] {
        StageKeepsNames(run[0], run[1], stages[0], extract, net');
      }
    }
  }

  // ---- What a run never joins ----

  // Every net has shapes of one side only.
  ghost predicate Pure(c: Connectivity, side: (string, Shape) -> bool) {
    forall net, l1, x1, l2, x2 :: Has(c, net, l1, x1) && Has(c, net, l2, x2) ==> side(l1, x1) == side(l2, x2)
  }

  // The graph of a stage joins no nodes of different sides.
  ghost predicate Separates(s: Stage, side: (string, Shape) -> bool, sides: seq<bool>)
    requires ValidTask(s.t) && ValidOwners(s.t, s.k)
  {
    && |sides| == |s.t.graph|
    && (forall v, u :: 0 <= v < |sides| && u in s.t.graph[v] && u < |sides| ==> sides[u] == sides[v])
    && (forall v, layer, shape :: 0 <= v < |sides| && NodeHas(s.t, s.k, v, layer, shape) ==>
                                    side(layer, shape) == sides[v])
  }

  // Connected nodes have shapes of one side.
  lemma ReachesOneSide(s: Stage, side: (string, Shape) -> bool, sides: seq<bool>, v: nat, w: nat,
                       l1: string, x1: Shape, l2: string, x2: Shape)
    requires ValidTask(s.t) && ValidOwners(s.t, s.k) && Separates(s, side, sides)
    requires v < |s.t.graph| && w < |s.t.graph| && Reaches(s.t.graph, v, w)
    requires NodeHas(s.t, s.k, v, l1, x1) && NodeHas(s.t, s.k, w, l2, x2)
    ensures side(l1, x1) == side(l2, x2)
  {
    var p :| IsPath(s.t.graph, p) && p[0] == v && p[|p| - 1] == w;
    PathKeepsLabel(s.t.graph, sides, p);
  }

  lemma StageKeepsPure(before: Connectivity, after: Connectivity, s: Stage, extract: seq<set<Shape>> -> Graph,
                       side: (string, Shape) -> bool, sides: seq<bool>)
    requires IsStage(before, after, s, extract) && Separates(s, side, sides)
    ensures Pure(after, side)
  {
    forall net, l1, x1, l2, x2 | Has(after, net, l1, x1) && Has(after, net, l2, x2)
      ensures side(l1, x1) == side(l2, x2)
    {
      var v, w := OnlyConnectedShapesShareNets(s.t, s.k, s.suffix, after, net, l1, x1, l2, x2);
      ReachesOneSide(s, side, sides, v, w, l1, x1, l2, x2);
    }
  }

  // What the graph of a stage is made from: polygons, and nets by their shapes on one layer.
  // Nodes of different sides are not joined, and a net without shapes on that layer is joined to nothing.
  ghost predicate SeparatesVisible(s: Stage, side: (string, Shape) -> bool, sides: seq<bool>)
    requires ValidTask(s.t) && ValidOwners(s.t, s.k)
  {
    && |sides| == |s.t.graph|
    && (forall v, u :: 0 <= v < |sides| && u in s.t.graph[v] && u < |sides| ==> sides[u] == sides[v])
    && (forall j :: 0 <= j < |s.t.polygons| ==> side(s.t.layer, s.t.polygons[j]) == sides[s.t.offset + j])
    && (forall w, x :: 0 <= w < s.t.offset && Has(s.k.base, s.k.names[w], s.layer, x) ==> side(s.layer, x) == sides[w])
    && (forall w :: 0 <= w < s.t.offset && s.t.graph[w] != {} ==> exists x :: Has(s.k.base, s.k.names[w], s.layer, x))
  }

  // The side of a net's shapes.
  ghost function NetSide(c: Connectivity, net: string, side: (string, Shape) -> bool, default: bool): (b: bool)
    requires Pure(c, side)
    ensures forall layer, x :: Has(c, net, layer, x) ==> side(layer, x) == b
  {
    if layer, x :| Has(c, net, layer, x) then side(layer, x) else default
  }

  lemma VisibleSidesSuffice(s: Stage, side: (string, Shape) -> bool, visible: seq<bool>) returns (sides: seq<bool>)
    requires ValidTask(s.t) && ValidOwners(s.t, s.k) && IsGraph(s.t.graph) && Symmetric(s.t.graph)
    requires Pure(s.k.base, side) && SeparatesVisible(s, side, visible)
    ensures Separates(s, side, sides)
  {
    sides := seq(|visible|, v requires 0 <= v < |visible| =>
      if v < s.t.offset then NetSide(s.k.base, s.k.names[v], side, visible[v]) else visible[v]);
    forall v | 0 <= v < |visible| && s.t.graph[v] != {}
      ensures sides[v] == visible[v]
    {
      if v < s.t.offset {
        var x :| Has(s.k.base, s.k.names[v], s.layer, x);
      }
    }
    forall v, u | 0 <= v < |sides| && u in s.t.graph[v] && u < |sides|
      ensures sides[u] == sides[v]
    {
      assert v in s.t.graph[u];
    }
  }

  lemma WithLayerPure(c: Connectivity, layer: string, side: (string, Shape) -> bool)
    requires Pure(c, side)
    ensures Pure(WithLayer(c, layer), side)
  {
    forall net, l, x
      ensures Has(WithLayer(c, layer), net, l, x) ==> Has(c, net, l, x)
    {
    }
  }

  ghost predicate Separable(s: Stage, side: (string, Shape) -> bool) {
    ValidTask(s.t) && ValidOwners(s.t, s.k) && exists sides :: SeparatesVisible(s, side, sides)
  }

  lemma SeparableKeepsPure(before: Connectivity, after: Connectivity, s: Stage, extract: seq<set<Shape>> -> Graph,
                           side: (string, Shape) -> bool)
    requires IsExtractor(extract) && IsStage(before, after, s, extract) && Pure(before, side) && Separable(s, side)
    ensures Pure(after, side)
  {
    WithLayerPure(before, s.layer, side);
    var visible :| SeparatesVisible(s, side, visible);
    var sides := VisibleSidesSuffice(s, side, visible);
    StageKeepsPure(before, after, s, extract, side, sides);
  }

  lemma RunFront(run: seq<Connectivity>, stages: seq<Stage>, extract: seq<set<Shape>> -> Graph, i: nat)
    requires IsRun(run, stages, extract) && i <= |stages|
    ensures IsRun(run[..i + 1], stages[..i], extract)
  {
    forall h | 0 <= h < i
      ensures IsStage(run[..i + 1][h], run[..i + 1][h + 1], stages[..i][h], extract)
    {
      assert IsStage(run[h], run[h + 1], stages[h], extract);
    }
  }

  // If the pins and every layer's graph keep two sides apart, so do the nets at the end.
  lemma {:induction false} RunKeepsPure(run: seq<Connectivity>, stages: seq<Stage>, extract: seq<set<Shape>> -> Graph,
                                        side: (string, Shape) -> bool)
    requires IsExtractor(extract) && IsRun(run, stages, extract) && Pure(run[0], side)
    requires forall i :: 0 <= i < |stages| ==> Separable(stages[i], side)
    ensures Pure(run[|run| - 1], side)
  {
    if stages != [] {
      var i := |stages| - 1;
      assert IsStage(run[i], run[i + 1], stages[i], extract) && Separable(stages[i], side);
      RunFront(run, stages, extract, i);
      RunKeepsPure(run[..i + 1], stages[..i], extract, side);
      SeparableKeepsPure(run[i], run[i + 1], stages[i], extract, side);
    }
  }
}
