/** Connecting the polygons of one layer to the nets present on another
    (libs/polygon/doc/tutorial/connectivity_database.hpp). */
module LayerConnection {
  import opened Graphs
  import opened NetState
  import opened NetOwners
  import opened NetMerger
  import opened LayerInvariant
  import opened LayerKept
  import opened LayerTurns

  // The geometry engine: from the shapes of each node to a symmetric graph on the nodes.
  ghost predicate IsExtractor(extract: seq<set<Shape>> -> Graph) {
    forall nodes :: |extract(nodes)| == |nodes| && IsGraph(extract(nodes)) && Symmetric(extract(nodes))
  }

  // The shapes of the net nodes on a layer, then one node for each polygon.
  function NodeShapes(c: Connectivity, names: seq<string>, layer: string, polygons: seq<Shape>):
    (nodes: seq<set<Shape>>)
    ensures |nodes| == |names| + |polygons|
  {
    seq(|names|, w requires 0 <= w < |names| => ShapesOn(LayersOf(c, names[w]), layer)) +
    seq(|polygons|, j requires 0 <= j < |polygons| => {polygons[j]})
  }

  // Every net with an entry for the layer.
  function WithLayer(c: Connectivity, layer: string): Connectivity {
    map net | net in c :: AddLayer(c[net], layer, {})
  }

  // ---- Which component every name belongs to ----

  function IndexOf(names: seq<string>, name: string): (i: nat)
    requires name in names
    ensures i < |names| && names[i] == name
  {
    if names[0] == name then 0 else 1 + IndexOf(names[1..], name)
  }

  function FreshNames(prefix: string, suffix: nat, count: nat): (names: seq<string>)
    ensures |names| == count && forall h :: 0 <= h < count ==> names[h] == FreshName(prefix, suffix + h)
  {
    seq(count, h requires 0 <= h => FreshName(prefix, suffix + h))
  }

  ghost predicate SameName(all: seq<string>, v: nat, u: nat) {
    v < |all| && u < |all| && u != v && all[u] == all[v]
  }

  // The graph with edges between a polygon and a net that already has the polygon's fresh name.
  ghost function ClashGraph(g: Graph, all: seq<string>): (clash: Graph)
    requires IsGraph(g) && |all| == |g|
    ensures |clash| == |g|
    ensures forall v: nat, u: nat {:trigger u in clash[v]} :: v < |g| ==>
              (u in clash[v] <==> u in g[v] || SameName(all, v, u))
  {
    seq(|g|, v requires 0 <= v < |g| => g[v] + set u | u in Permutations.Range(|g|) && SameName(all, v, u))
  }

  // Nodes belong to one class if they are connected in that graph. Names belong to the classes of their nodes.
  ghost function OwnersOf(g: Graph, base: Connectivity, names: seq<string>, prefix: string, suffix: nat): Owners
    requires IsGraph(g) && |names| <= |g|
  {
    var all := names + FreshNames(prefix, suffix, |g| - |names|);
    var comp := seq(|g|, v requires 0 <= v < |g| => Component(ClashGraph(g, all), v));
    Owners(comp, map name | name in all :: comp[IndexOf(all, name)], base, names)
  }

  // Two nodes have the same class exactly when they are linked by edges and name clashes.
  ghost predicate Classes(t: Task, k: Owners, suffix: nat)
    requires ValidTask(t) && ValidOwners(t, k) && IsGraph(t.graph)
  {
    var clash := ClashGraph(t.graph, k.names + FreshNames(t.prefix, suffix, |t.polygons|));
    forall v, w {:trigger Reaches(clash, v, w)} :: 0 <= v < |t.graph| && 0 <= w < |t.graph| ==>
      (Reaches(clash, v, w) <==> k.comp[v] == k.comp[w])
  }

  ghost predicate Distinct(names: seq<string>) {
    forall i, j :: 0 <= i < j < |names| ==> names[i] != names[j]
  }

  ghost predicate NoClash(c: Connectivity, prefix: string, suffix: nat, count: nat) {
    forall name :: name in FreshNames(prefix, suffix, count) ==> name !in c
  }

  // Two nodes have the same component exactly when there is a path between them.
  ghost predicate Components(t: Task, k: Owners)
    requires ValidTask(t) && ValidOwners(t, k)
  {
    forall v, w {:trigger Reaches(t.graph, v, w)} :: 0 <= v < |t.graph| && 0 <= w < |t.graph| ==>
      (Reaches(t.graph, v, w) <==> k.comp[v] == k.comp[w])
  }

  lemma AllDistinct(names: seq<string>, prefix: string, suffix: nat, count: nat)
    requires Distinct(names)
    requires forall name :: name in FreshNames(prefix, suffix, count) ==> name !in names
    ensures Distinct(names + FreshNames(prefix, suffix, count))
  {
    var added := FreshNames(prefix, suffix, count);
    forall i, j | 0 <= i < j < count
      ensures added[i] != added[j]
    {
      FreshNameInjective(prefix, suffix + i, suffix + j);
    }
    assert forall h :: 0 <= h < count ==> added[h] in added;
  }

  // Every component is what a walk with fresh colours visits.
  ghost predicate FromWalks(t: Task, k: Owners)
    requires ValidTask(t) && ValidOwners(t, k) && IsGraph(t.graph)
  {
    forall v :: 0 <= v < |t.graph| ==> k.comp[v] == Component(t.graph, v)
  }

  lemma OwnersAreValid(t: Task, k: Owners, suffix: nat)
    requires ValidTask(t) && IsGraph(t.graph) && Symmetric(t.graph) && |k.names| == t.offset
    requires k == OwnersOf(t.graph, k.base, k.names, t.prefix, suffix)
    ensures ValidOwners(t, k) && EdgesKeepComponent(t, k) && Classes(t, k, suffix)
    ensures IndexedBy(k, k.names + FreshNames(t.prefix, suffix, |t.polygons|))
  {
    var all := k.names + FreshNames(t.prefix, suffix, |t.polygons|);
    var clash := ClashGraph(t.graph, all);
    forall v, u | 0 <= v < |t.graph| && u in clash[v]
      ensures k.comp[u] == k.comp[v]
    {
      NeighbourSameComponent(clash, v, u);
    }
    forall v, w | 0 <= v < |t.graph| && 0 <= w < |t.graph|
      ensures Reaches(clash, v, w) <==> k.comp[v] == k.comp[w]
    {
      SameComponent(clash, v, w);
    }
    forall v | 0 <= v < |all|
      ensures Belongs(k, all[v], k.comp[v])
    {
      var i := IndexOf(all, all[v]);
      assert i != v ==> SameName(all, v, i) && i in clash[v];
    }
  }

  // Without clashes the classes are the components of the graph.
  lemma NoClashNoEdge(g: Graph, all: seq<string>)
    requires IsGraph(g) && |all| == |g| && Distinct(all)
    ensures ClashGraph(g, all) == g
  {
    forall v, u
      ensures !SameName(all, v, u)
    {
    }
    forall v: nat | v < |g|
      ensures ClashGraph(g, all)[v] == g[v]
    {
      forall u
        ensures u in ClashGraph(g, all)[v] <==> u in g[v]
      {
      }
    }
  }

  lemma NoClashWalks(t: Task, k: Owners, suffix: nat)
    requires ValidTask(t) && IsGraph(t.graph) && |k.names| == t.offset
    requires k == OwnersOf(t.graph, k.base, k.names, t.prefix, suffix)
    requires Distinct(k.names + FreshNames(t.prefix, suffix, |t.polygons|))
    ensures ValidOwners(t, k) && FromWalks(t, k)
  {
    NoClashNoEdge(t.graph, k.names + FreshNames(t.prefix, suffix, |t.polygons|));
  }

  lemma WalksAreComponents(t: Task, k: Owners)
    requires ValidTask(t) && IsGraph(t.graph) && Symmetric(t.graph)
    requires ValidOwners(t, k) && FromWalks(t, k)
    ensures Components(t, k) && MembersAreEqual(t, k)
  {
    forall v, w | 0 <= v < |t.graph| && 0 <= w < |t.graph|
      ensures w in k.comp[v] <==> k.comp[v] == k.comp[w]
      ensures Reaches(t.graph, v, w) <==> k.comp[v] == k.comp[w]
    {
      SameComponent(t.graph, v, w);
    }
  }

  // The owner of the v-th name is the v-th component.
  ghost predicate IndexedBy(k: Owners, all: seq<string>) {
    |all| == |k.comp| && forall v :: 0 <= v < |all| ==> Belongs(k, all[v], k.comp[v])
  }

  lemma FreshNamesUnused(t: Task, c: Connectivity, suffix: nat, h: nat)
    requires NoClash(c, t.prefix, suffix, |t.polygons|) && h < |t.polygons|
    ensures Fresh(t, suffix, h) !in c
  {
    var added := FreshNames(t.prefix, suffix, |t.polygons|);
    assert Fresh(t, suffix, h) == added[h] && added[h] in added;
  }

  lemma OwnersOwnNodes(t: Task, k: Owners, suffix: nat)
    requires ValidTask(t) && ValidOwners(t, k)
    requires IndexedBy(k, k.names + FreshNames(t.prefix, suffix, |t.polygons|))
    ensures OwnsNodes(t, k, suffix)
  {
    var all := k.names + FreshNames(t.prefix, suffix, |t.polygons|);
    forall w | 0 <= w < t.offset
      ensures Belongs(k, k.names[w], k.comp[w])
    {
      assert Belongs(k, all[w], k.comp[w]);
    }
    forall h | 0 <= h < |t.polygons|
      ensures Belongs(k, Fresh(t, suffix, h), k.comp[t.offset + h])
    {
      assert Belongs(k, all[t.offset + h], k.comp[t.offset + h]);
    }
  }

  lemma OwnersNameNodes(t: Task, k: Owners, suffix: nat)
    requires ValidTask(t) && ValidOwners(t, k) && MembersAreEqual(t, k) && OwnsNodes(t, k, suffix)
    requires forall n :: n in k.names ==> n in k.base
    requires NoClash(k.base, t.prefix, suffix, |t.polygons|)
    ensures Naming(t, k, suffix)
  {
    forall h | 0 <= h < |t.polygons|
      ensures Fresh(t, suffix, h) !in k.names
    {
      FreshNamesUnused(t, k.base, suffix, h);
    }
  }

  // ---- The nets at the end ----

  // A net is exactly one component: the shapes of the component's net nodes, and its polygons.
  ghost predicate NetIsComponent(t: Task, k: Owners, suffix: nat, result: Connectivity, net: string)
    requires ValidTask(t) && ValidOwners(t, k)
  {
    net in result ==>
      && net in k.owner
      && (exists v :: 0 <= v < |t.graph| && k.comp[v] == k.owner[net])
      && (forall layer, shape :: Has(result, net, layer, shape) <==> Origin(t, k, k.owner[net], layer, shape))
      && (if HasNetNode(t, k, k.owner[net]) then InheritsName(t, k, net) else IsFresh(t, suffix, net))
  }

  // A polygon that reaches no net has made a net.
  ghost predicate PolygonHasNet(t: Task, k: Owners, suffix: nat, result: Connectivity, h: nat)
    requires ValidTask(t) && ValidOwners(t, k) && h < |t.polygons|
  {
    HasNetNode(t, k, k.comp[t.offset + h]) || Fresh(t, suffix, h) in result
  }

  // Every net is one component. A component with a net node has one net;
  // otherwise each of its polygons has made one.
  ghost predicate ExactNets(t: Task, k: Owners, suffix: nat, result: Connectivity)
    requires Naming(t, k, suffix)
  {
    && (forall net {:trigger NetIsComponent(t, k, suffix, result, net)} :: NetIsComponent(t, k, suffix, result, net))
    && (forall w :: 0 <= w < t.offset ==> SoleNet(k, result, k.comp[w]))
    && (forall h {:trigger PolygonHasNet(t, k, suffix, result, h)} ::
          0 <= h < |t.polygons| ==> PolygonHasNet(t, k, suffix, result, h))
  }

  ghost predicate IsFresh(t: Task, suffix: nat, net: string) {
    exists h :: 0 <= h < |t.polygons| && net == Fresh(t, suffix, h)
  }

  ghost predicate SoleNet(k: Owners, result: Connectivity, c: set<nat>) {
    exists net :: net in result && Belongs(k, net, c) && forall n :: n in result && Belongs(k, n, c) ==> n == net
  }

  // The net of a component with a net node has one of its nets' names, preferably not an internal one.
  ghost predicate InheritsName(t: Task, k: Owners, net: string)
    requires ValidTask(t) && ValidOwners(t, k) && net in k.owner
  {
    (exists w :: 0 <= w < t.offset && k.comp[w] == k.owner[net] && k.names[w] == net) &&
    PinNamesWin(t, k, k.owner[net], net)
  }

  lemma InvGivesSoleNets(t: Task, k: Owners, suffix: nat, result: Connectivity, ids: seq<string>, w: nat)
    requires Naming(t, k, suffix) && Inv(t, k, suffix, result, ids, t.offset, |t.polygons|) && w < t.offset
    ensures SoleNet(k, result, k.comp[w])
  {
    assert Gathered(t, k, result, k.comp[w]);
    var net :| GatheredOn(t, k, result, k.comp[w], net);
  }

  // What a net of a component holds.
  ghost predicate HoldsComponent(t: Task, k: Owners, result: Connectivity, c: set<nat>, net: string)
    requires ValidTask(t) && ValidOwners(t, k)
  {
    && HasPolygons(t, k, result, c, net)
    && forall w :: 0 <= w < t.offset && k.comp[w] == c ==> Within(k.base, k.names[w], result, net)
  }

  lemma InvGivesHolder(t: Task, k: Owners, suffix: nat, result: Connectivity, ids: seq<string>, net: string)
    requires Naming(t, k, suffix) && Inv(t, k, suffix, result, ids, t.offset, |t.polygons|)
    requires net in result && net in k.owner
    ensures HoldsComponent(t, k, result, k.owner[net], net)
  {
    var c := k.owner[net];
    if HasNetNode(t, k, c) {
      var w :| 0 <= w < t.offset && k.comp[w] == c;
      assert Gathered(t, k, result, k.comp[w]);
      var n :| GatheredOn(t, k, result, k.comp[w], n);
      assert n == net;
    } else {
      assert Explained(t, k, suffix, result, net, |t.polygons|);
      var h :| 0 <= h < |t.polygons| && net == Fresh(t, suffix, h);
      assert MadeNet(t, k, suffix, result, h);
      assert Belongs(k, net, k.comp[t.offset + h]);
    }
  }

  lemma HolderHas(t: Task, k: Owners, result: Connectivity, c: set<nat>, net: string, layer: string, shape: Shape)
    requires ValidTask(t) && ValidOwners(t, k) && HoldsComponent(t, k, result, c, net)
    requires (forall w :: 0 <= w < t.offset ==> k.names[w] in k.base) && Origin(t, k, c, layer, shape)
    ensures Has(result, net, layer, shape)
  {
    if w :| 0 <= w < t.offset && k.comp[w] == c && Has(k.base, k.names[w], layer, shape) {
      assert Within(k.base, k.names[w], result, net);
    } else {
      var j :| 0 <= j < |t.polygons| && t.polygons[j] == shape && k.comp[t.offset + j] == c;
    }
  }

  lemma InvGivesName(t: Task, k: Owners, suffix: nat, result: Connectivity, ids: seq<string>, net: string)
    requires Naming(t, k, suffix) && Inv(t, k, suffix, result, ids, t.offset, |t.polygons|)
    requires net in result && net in k.owner && HasNetNode(t, k, k.owner[net])
    ensures InheritsName(t, k, net)
  {
    var w :| 0 <= w < t.offset && k.comp[w] == k.owner[net];
    assert Gathered(t, k, result, k.comp[w]);
    var n :| GatheredOn(t, k, result, k.comp[w], n);
    assert n == net && net in k.names;
    var u :| 0 <= u < t.offset && k.names[u] == net;
    assert k.comp[u] == k.owner[net];
  }

  lemma InvGivesComponent(t: Task, k: Owners, suffix: nat, result: Connectivity, ids: seq<string>, net: string)
    requires Naming(t, k, suffix) && Inv(t, k, suffix, result, ids, t.offset, |t.polygons|)
    ensures NetIsComponent(t, k, suffix, result, net)
  {
    if net in result {
      if HasNetNode(t, k, k.owner[net]) {
        InvGivesName(t, k, suffix, result, ids, net);
      } else {
        assert Explained(t, k, suffix, result, net, |t.polygons|);
        var h :| 0 <= h < |t.polygons| && net == Fresh(t, suffix, h);
        assert Belongs(k, net, k.comp[t.offset + h]);
      }
      InvGivesHolder(t, k, suffix, result, ids, net);
      forall layer, shape | Origin(t, k, k.owner[net], layer, shape)
        ensures Has(result, net, layer, shape)
      {
        HolderHas(t, k, result, k.owner[net], net, layer, shape);
      }
    }
  }

  lemma InvGivesExactNets(t: Task, k: Owners, suffix: nat, result: Connectivity, ids: seq<string>)
    requires Naming(t, k, suffix) && Inv(t, k, suffix, result, ids, t.offset, |t.polygons|)
    ensures ExactNets(t, k, suffix, result)
  {
    forall net
      ensures NetIsComponent(t, k, suffix, result, net)
    {
      InvGivesComponent(t, k, suffix, result, ids, net);
    }
    forall w | 0 <= w < t.offset
      ensures SoleNet(k, result, k.comp[w])
    {
      InvGivesSoleNets(t, k, suffix, result, ids, w);
    }
    forall h: nat | h < |t.polygons|
      ensures PolygonHasNet(t, k, suffix, result, h)
    {
      assert MadeNet(t, k, suffix, result, h);
    }
  }

  // ---- The operation ----

  // The net ids and the geometry of the layer, with an entry for the layer in every net.
  method CollectNets(db: ConnectivityDatabase, layer: string) returns (netIds: seq<string>)
    modifies db
    ensures db.nets == WithLayer(old(db.nets), layer) && Solid(db.nets)
    ensures Distinct(netIds) && forall n :: n in db.nets <==> n in netIds
  {
    netIds := [];
    ghost var before := db.nets;
    var todo := db.nets.Keys;
    while todo != {}
      invariant db.nets.Keys == before.Keys && todo <= before.Keys
      invariant forall n :: n in netIds <==> n in before && n !in todo
      invariant Distinct(netIds)
      invariant forall n :: n in before ==>
                  db.nets[n] == if n in todo then before[n] else AddLayer(before[n], layer, {})
    {
      var net :| net in todo;
      netIds := netIds + [net];
      db.nets := AddShapes(db.nets, net, layer, {});
      todo := todo - {net};
    }
    assert db.nets == WithLayer(before, layer);
    forall n | n in db.nets
      ensures db.nets[n] != map[]
    {
      assert layer in db.nets[n];
    }
  }

  // What a connection starts from.
  ghost predicate Connected(before: Connectivity, polygons: seq<Shape>, layoutLayer: string, layer: string,
                            prefix: string, extract: seq<set<Shape>> -> Graph, t: Task, k: Owners)
  {
    && t.polygons == polygons && t.layer == layoutLayer && t.prefix == prefix && t.offset == |k.names|
    && k.base == WithLayer(before, layer) && Distinct(k.names) && (forall n :: n in before <==> n in k.names)
    && t.graph == extract(NodeShapes(k.base, k.names, layer, polygons))
  }

  // All the walks, from the state at the start to a database.
  ghost predicate LeadsTo(t: Task, k: Owners, suffix: nat, after: Connectivity)
    requires IsGraph(t.graph)
  {
    exists run :: IsWholeRun(t, k, suffix, run, after)
  }

  ghost predicate IsWholeRun(t: Task, k: Owners, suffix: nat, run: seq<Between>, after: Connectivity)
    requires IsGraph(t.graph)
  {
    && IsTurns(t, suffix, run) && |run| == |t.graph| + 1
    && run[0] == Between(k.base, k.names) && run[|t.graph|].conn == after
  }

  // What a connection guarantees in any case: it is a run of walks, no net has shapes of nodes that are not linked by
  // edges and name clashes, what was on one net is on one net, and every polygon is on a net.
  ghost predicate Joins(before: Connectivity, after: Connectivity, polygons: seq<Shape>, layoutLayer: string,
                        layer: string, prefix: string, suffix: nat,
                        extract: seq<set<Shape>> -> Graph, t: Task, k: Owners)
  {
    && Connected(before, polygons, layoutLayer, layer, prefix, extract, t, k)
    && ValidTask(t) && ValidOwners(t, k) && IsGraph(t.graph) && Symmetric(t.graph) && Classes(t, k, suffix)
    && LeadsTo(t, k, suffix, after)
    && Sound(t, k, after) && Kept(k.base, after) && Placed(t, after, |polygons|)
  }

  // What it guarantees if no net has a name that is still to be generated: the nets are exactly the components.
  ghost predicate Connects(before: Connectivity, after: Connectivity, polygons: seq<Shape>, layoutLayer: string,
                           layer: string, prefix: string, suffix: nat,
                           extract: seq<set<Shape>> -> Graph, t: Task, k: Owners)
  {
    && Connected(before, polygons, layoutLayer, layer, prefix, extract, t, k)
    && Naming(t, k, suffix) && Components(t, k) && ExactNets(t, k, suffix, after)
  }

  method ConnectLayoutToLayer(db: ConnectivityDatabase, polygons: seq<Shape>, layoutLayer: string, layer: string,
                              prefix: string, suffix: nat, extract: seq<set<Shape>> -> Graph)
    returns (newSuffix: nat, ghost t: Task, ghost k: Owners)
    requires IsExtractor(extract)
    modifies db
    ensures layoutLayer == "" ==> db.nets == old(db.nets) && newSuffix == suffix
    ensures layoutLayer != "" ==> newSuffix == suffix + |polygons|
    ensures layoutLayer != "" ==>
              Joins(old(db.nets), db.nets, polygons, layoutLayer, layer, prefix, suffix, extract, t, k)
    ensures layoutLayer != "" && NoClash(old(db.nets), prefix, suffix, |polygons|) ==>
              Connects(old(db.nets), db.nets, polygons, layoutLayer, layer, prefix, suffix, extract, t, k)
  {
    newSuffix := suffix;
    if layoutLayer == "" {
      t := Task(0, [], [], "", "");
      k := Owners([], map[], map[], []);
      return;
    }
    var netIds := CollectNets(db, layer);
    var task := Task(|netIds|, polygons, extract(NodeShapes(db.nets, netIds, layer, polygons)), prefix, layoutLayer);
    var x := new Extraction(task, netIds);
    t, k := task, OwnersOf(task.graph, db.nets, netIds, prefix, suffix);
    OwnersAreValid(t, k, suffix);
    OwnersOwnNodes(t, k, suffix);
    ghost var run;
    newSuffix, run := ConnectAll(db, x, suffix);
    assert IsWholeRun(t, k, suffix, run, db.nets);
    ResultIsLoose(t, k, suffix, run, db.nets);
    if NoClash(k.base, prefix, suffix, |polygons|) {
      NoClashNames(t, k, suffix);
      ResultIsExact(t, k, suffix, run, db.nets);
    }
  }

  lemma NoClashNames(t: Task, k: Owners, suffix: nat)
    requires ValidTask(t) && IsGraph(t.graph) && Symmetric(t.graph) && |k.names| == t.offset && Distinct(k.names)
    requires k == OwnersOf(t.graph, k.base, k.names, t.prefix, suffix) && ValidOwners(t, k) && OwnsNodes(t, k, suffix)
    requires forall n :: n in k.names <==> n in k.base
    requires NoClash(k.base, t.prefix, suffix, |t.polygons|)
    ensures Exactly(t, k, suffix) && Components(t, k)
  {
    AllDistinct(k.names, t.prefix, suffix, |t.polygons|);
    NoClashWalks(t, k, suffix);
    WalksAreComponents(t, k);
    OwnersNameNodes(t, k, suffix);
  }

  // ---- The loops ----

  ghost function Now(db: ConnectivityDatabase, x: Extraction): Between
    reads db, x, x.netIds
  {
    Between(db.nets, x.netIds[..])
  }

  ghost predicate Prepared(x: Extraction)
    reads x
  {
    ValidTask(x.task) && IsGraph(x.task.graph) && x.netIds.Length == x.task.offset
  }

  // The two loops.
  method ConnectAll(db: ConnectivityDatabase, x: Extraction, suffix: nat)
    returns (newSuffix: nat, ghost run: seq<Between>)
    requires Prepared(x)
    modifies db, x`localNet, x.netIds
    ensures newSuffix == suffix + |x.task.polygons|
    ensures IsTurns(x.task, suffix, run) && |run| == |x.task.graph| + 1
    ensures run[0] == old(Now(db, x)) && run[|x.task.graph|] == Now(db, x)
  {
    run := ConnectNets(db, x, suffix);
    newSuffix, run := ConnectPolygons(db, x, suffix, run);
  }

  // Every net in turn, with the net parameter referring to its entry of the id vector.
  method ConnectNets(db: ConnectivityDatabase, x: Extraction, ghost suffix: nat) returns (ghost run: seq<Between>)
    requires Prepared(x)
    modifies db, x`localNet, x.netIds
    ensures IsTurns(x.task, suffix, run) && |run| == x.task.offset + 1
    ensures run[0] == old(Now(db, x)) && run[x.task.offset] == Now(db, x)
  {
    var polygonColor := NoColors(|x.task.graph|);
    run := [Now(db, x)];
    for node := 0 to x.task.offset
      invariant IsTurns(x.task, suffix, run) && |run| == node + 1
      invariant run[0] == old(Now(db, x)) && run[node] == Now(db, x)
    {
      ConnectNode(db, x, polygonColor, node, Slot(node), suffix);
      TurnsExtended(x.task, suffix, run, Now(db, x));
      run := run + [Now(db, x)];
    }
  }

  // Every polygon that is uncoloured in the vector above, which is all of them, under a fresh name.
  method ConnectPolygons(db: ConnectivityDatabase, x: Extraction, suffix: nat, ghost run: seq<Between>)
    returns (newSuffix: nat, ghost newRun: seq<Between>)
    requires Prepared(x) && IsTurns(x.task, suffix, run) && |run| == x.task.offset + 1
    requires run[x.task.offset] == Now(db, x)
    modifies db, x`localNet, x.netIds
    ensures newSuffix == suffix + |x.task.polygons|
    ensures IsTurns(x.task, suffix, newRun) && |newRun| == |x.task.graph| + 1
    ensures newRun[0] == run[0] && newRun[|x.task.graph|] == Now(db, x)
  {
    var polygonColor := NoColors(|x.task.graph|);
    newSuffix, newRun := suffix, run;
    for i := 0 to |x.task.polygons|
      invariant newSuffix == suffix + i
      invariant IsTurns(x.task, suffix, newRun) && |newRun| == x.task.offset + i + 1
      invariant newRun[0] == run[0] && newRun[x.task.offset + i] == Now(db, x)
    {
      if polygonColor[i + x.task.offset] == 0 {
        x.localNet := FreshName(x.task.prefix, newSuffix);
        newSuffix := newSuffix + 1;
        ConnectNode(db, x, polygonColor, i + x.task.offset, Local, suffix);
        TurnsExtended(x.task, suffix, newRun, Now(db, x));
        newRun := newRun + [Now(db, x)];
      }
    }
  }

  // One turn of either loop.
  method ConnectNode(db: ConnectivityDatabase, x: Extraction, polygonColor: Colors, node: nat, slot: NetRef,
                     ghost suffix: nat)
    requires Prepared(x) && node < |x.task.graph| && polygonColor == NoColors(|x.task.graph|)
    requires slot == SlotOf(x.task, node)
    requires slot == Local ==> x.localNet == Fresh(x.task, suffix, node - x.task.offset)
    modifies db, x`localNet, x.netIds
    ensures IsTurn(x.task, suffix, old(Now(db, x)), Now(db, x), node)
  {
    ghost var before := Now(db, x);
    assert x.Snapshot(db, slot) == StartOf(x.task, suffix, before, node);
    ghost var trace := PopulateConnectedComponent(db, x, polygonColor, node, slot);
    assert TurnBy(x.task, suffix, before, Now(db, x), node, trace);
  }

  // ---- What the walks keep ----

  // Names do not clash, and classes are components.
  ghost predicate Exactly(t: Task, k: Owners, suffix: nat) {
    IsGraph(t.graph) && Naming(t, k, suffix) && FromWalks(t, k)
  }

  // What a walk needs to know about the state before it.
  ghost predicate Owned(t: Task, k: Owners, b: Between)
    requires ValidTask(t) && ValidOwners(t, k)
  {
    && Solid(b.conn) && Sound(t, k, b.conn)
    && |b.ids| == t.offset && forall w :: 0 <= w < |b.ids| ==> Belongs(k, b.ids[w], k.comp[w])
  }

  lemma NodeReady(t: Task, k: Owners, suffix: nat, b: Between, v: nat)
    requires ValidTask(t) && ValidOwners(t, k) && OwnsNodes(t, k, suffix) && v < |t.graph| && Owned(t, k, b)
    ensures Ready(t, k, SlotOf(t, v), k.comp[v], StartOf(t, suffix, b, v))
  {
    if v >= t.offset {
      assert Belongs(k, Fresh(t, suffix, v - t.offset), k.comp[t.offset + (v - t.offset)]);
    } else {
      assert Belongs(k, b.ids[v], k.comp[v]);
    }
  }

  // The polygons whose turn is over after n walks.
  function Turned(t: Task, n: nat): nat {
    if n <= t.offset then 0 else n - t.offset
  }

  // What holds after n turns, whatever the names.
  ghost predicate LooseAfter(t: Task, k: Owners, b: Between, n: nat) {
    ValidTask(t) && ValidOwners(t, k) && Loose(t, k, b.conn, b.ids, Turned(t, n))
  }

  lemma LooseGivesOwned(t: Task, k: Owners, b: Between, n: nat)
    requires LooseAfter(t, k, b, n)
    ensures Owned(t, k, b)
  {
  }

  lemma WalkIsLoose(t: Task, k: Owners, slot: NetRef, c: set<nat>, s: State, s': State, b: Between, b': Between,
                    v: nat, next: nat)
    requires LooseAfter(t, k, b, v) && IsGraph(t.graph) && next == v + 1 <= |t.graph| && v in Component(t.graph, v)
    requires b == Between(s.conn, s.ids) && b' == Between(s'.conn, s'.ids)
    requires Walked(t, k, slot, c, s, s', Component(t.graph, v))
    ensures LooseAfter(t, k, b', next)
  {
    LooseStep(t, k, slot, c, s, s', Component(t.graph, v), Turned(t, v), Turned(t, next));
  }

  lemma TurnIsLoose(t: Task, k: Owners, suffix: nat, b: Between, b': Between, v: nat, next: nat)
    requires IsGraph(t.graph) && ValidTask(t) && ValidOwners(t, k) && EdgesKeepComponent(t, k)
    requires OwnsNodes(t, k, suffix) && next == v + 1 <= |t.graph|
    requires LooseAfter(t, k, b, v) && IsTurn(t, suffix, b, b', v)
    ensures LooseAfter(t, k, b', next)
  {
    LooseGivesOwned(t, k, b, v);
    NodeReady(t, k, suffix, b, v);
    var s' := TurnWalked(t, k, suffix, b, b', v);
    WalkIsLoose(t, k, SlotOf(t, v), k.comp[v], StartOf(t, suffix, b, v), s', b, b', v, next);
  }

  // In any case nothing is lost and no classes are mixed.
  lemma RunIsLoose(t: Task, k: Owners, suffix: nat, run: seq<Between>, n: nat)
    requires ValidTask(t) && IsGraph(t.graph) && ValidOwners(t, k) && EdgesKeepComponent(t, k)
    requires OwnsNodes(t, k, suffix) && Solid(k.base) && (forall name :: name in k.base ==> name in k.names)
    requires IsTurns(t, suffix, run) && run[0] == Between(k.base, k.names) && n < |run|
    ensures LooseAfter(t, k, run[n], n)
  {
    LooseInitially(t, k, suffix);
    forall v: nat, b, b' | v < |t.graph| && LooseAfter(t, k, b, v) && IsTurn(t, suffix, b, b', v)
      ensures LooseAfter(t, k, b', v + 1)
    {
      TurnIsLoose(t, k, suffix, b, b', v, v + 1);
    }
    RunKeeps(t, suffix, run, (v: nat, b: Between) => LooseAfter(t, k, b, v), n);
  }

  lemma InvGivesOwned(t: Task, k: Owners, suffix: nat, b: Between, i: nat, j: nat)
    requires Naming(t, k, suffix) && Inv(t, k, suffix, b.conn, b.ids, i, j)
    ensures Owned(t, k, b)
  {
  }

  // A turn is a traversal of the whole component.
  lemma TurnSteps(t: Task, k: Owners, suffix: nat, b: Between, b': Between, v: nat) returns (s': State)
    requires ValidTask(t) && ValidOwners(t, k) && IsGraph(t.graph) && EdgesKeepComponent(t, k) && v < |t.graph|
    requires OwnsNodes(t, k, suffix) && Owned(t, k, b) && IsTurn(t, suffix, b, b', v)
    requires k.comp[v] == Component(t.graph, v)
    ensures b' == Between(s'.conn, s'.ids)
    ensures Step(t, k, SlotOf(t, v), k.comp[v], StartOf(t, suffix, b, v), s')
  {
    NodeReady(t, k, suffix, b, v);
    s' := TurnWalked(t, k, suffix, b, b', v);
    WalkedIsStep(t, k, SlotOf(t, v), k.comp[v], StartOf(t, suffix, b, v), s', Component(t.graph, v));
  }

  lemma WalkedIsStep(t: Task, k: Owners, slot: NetRef, c: set<nat>, s: State, s': State, nodes: set<nat>)
    requires ValidTask(t) && ValidOwners(t, k) && Walked(t, k, slot, c, s, s', nodes) && nodes == c
    ensures Step(t, k, slot, c, s, s')
  {
  }

  lemma InvAfterNet(t: Task, k: Owners, suffix: nat, b: Between, b': Between, s: State, s': State, v: nat, next: nat)
    requires Naming(t, k, suffix) && Inv(t, k, suffix, b.conn, b.ids, v, 0) && next == v + 1 <= t.offset
    requires s == StartOf(t, suffix, b, v) && b' == Between(s'.conn, s'.ids)
    requires Step(t, k, SlotOf(t, v), k.comp[v], s, s')
    ensures Inv(t, k, suffix, b'.conn, b'.ids, next, 0)
  {
    InvFromNet(t, k, suffix, s, s', v, next);
  }

  lemma InvAfterPolygon(t: Task, k: Owners, suffix: nat, b: Between, b': Between, s: State, s': State,
                        v: nat, j: nat, next: nat)
    requires Naming(t, k, suffix) && Inv(t, k, suffix, b.conn, b.ids, t.offset, j)
    requires s == StartOf(t, suffix, b, v) && b' == Between(s'.conn, s'.ids)
    requires next == j + 1 <= |t.polygons| && v == t.offset + j && Step(t, k, SlotOf(t, v), k.comp[v], s, s')
    ensures Inv(t, k, suffix, b'.conn, b'.ids, t.offset, next)
  {
    assert v - t.offset == j && SlotOf(t, v) == Local && s.net == Fresh(t, suffix, j);
    InvFromPolygon(t, k, suffix, s, s', v, j, next);
  }

  lemma NetTurnIsExact(t: Task, k: Owners, suffix: nat, b: Between, b': Between, v: nat, next: nat)
    requires Exactly(t, k, suffix) && EdgesKeepComponent(t, k) && OwnsNodes(t, k, suffix) && next == v + 1 <= t.offset
    requires Inv(t, k, suffix, b.conn, b.ids, v, 0) && IsTurn(t, suffix, b, b', v)
    ensures Inv(t, k, suffix, b'.conn, b'.ids, next, 0)
  {
    InvGivesOwned(t, k, suffix, b, v, 0);
    var s' := TurnSteps(t, k, suffix, b, b', v);
    InvAfterNet(t, k, suffix, b, b', StartOf(t, suffix, b, v), s', v, next);
  }

  lemma PolygonTurnIsExact(t: Task, k: Owners, suffix: nat, b: Between, b': Between, v: nat, j: nat, next: nat)
    requires Exactly(t, k, suffix) && EdgesKeepComponent(t, k) && OwnsNodes(t, k, suffix)
    requires v == t.offset + j && next == j + 1 <= |t.polygons|
    requires Inv(t, k, suffix, b.conn, b.ids, t.offset, j) && IsTurn(t, suffix, b, b', v)
    ensures Inv(t, k, suffix, b'.conn, b'.ids, t.offset, next)
  {
    InvGivesOwned(t, k, suffix, b, t.offset, j);
    var s' := TurnSteps(t, k, suffix, b, b', v);
    InvAfterPolygon(t, k, suffix, b, b', StartOf(t, suffix, b, v), s', v, j, next);
  }

  // The invariant after n turns of either loop.
  ghost predicate InvAfter(t: Task, k: Owners, suffix: nat, b: Between, n: nat) {
    Naming(t, k, suffix) && Inv(t, k, suffix, b.conn, b.ids, if n < t.offset then n else t.offset, Turned(t, n))
  }

  lemma TurnIsExact(t: Task, k: Owners, suffix: nat, b: Between, b': Between, v: nat)
    requires Exactly(t, k, suffix) && EdgesKeepComponent(t, k) && OwnsNodes(t, k, suffix) && v < |t.graph|
    requires InvAfter(t, k, suffix, b, v) && IsTurn(t, suffix, b, b', v)
    ensures InvAfter(t, k, suffix, b', v + 1)
  {
    if v < t.offset {
      NetTurnIsExact(t, k, suffix, b, b', v, v + 1);
    } else {
      PolygonTurnIsExact(t, k, suffix, b, b', v, Turned(t, v), Turned(t, v + 1));
    }
  }

  // Without clashes the invariant holds throughout both loops.
  lemma RunIsExact(t: Task, k: Owners, suffix: nat, run: seq<Between>, n: nat)
    requires Exactly(t, k, suffix) && EdgesKeepComponent(t, k) && OwnsNodes(t, k, suffix)
    requires Solid(k.base) && forall name :: name in k.base ==> name in k.names
    requires IsTurns(t, suffix, run) && run[0] == Between(k.base, k.names) && n < |run|
    ensures InvAfter(t, k, suffix, run[n], n)
  {
    InvInitially(t, k, suffix);
    forall v: nat, b, b' | v < |t.graph| && InvAfter(t, k, suffix, b, v) && IsTurn(t, suffix, b, b', v)
      ensures InvAfter(t, k, suffix, b', v + 1)
    {
      TurnIsExact(t, k, suffix, b, b', v);
    }
    RunKeeps(t, suffix, run, (v: nat, b: Between) => InvAfter(t, k, suffix, b, v), n);
  }

  lemma ResultIsLoose(t: Task, k: Owners, suffix: nat, run: seq<Between>, after: Connectivity)
    requires ValidTask(t) && IsGraph(t.graph) && ValidOwners(t, k) && EdgesKeepComponent(t, k)
    requires OwnsNodes(t, k, suffix) && Solid(k.base) && (forall name :: name in k.base ==> name in k.names)
    requires IsWholeRun(t, k, suffix, run, after)
    ensures Sound(t, k, after) && Kept(k.base, after) && Placed(t, after, |t.polygons|)
  {
    assert Turned(t, |t.graph|) == |t.polygons|;
    RunIsLoose(t, k, suffix, run, |t.graph|);
  }

  lemma ResultIsExact(t: Task, k: Owners, suffix: nat, run: seq<Between>, after: Connectivity)
    requires Exactly(t, k, suffix) && EdgesKeepComponent(t, k) && OwnsNodes(t, k, suffix)
    requires Solid(k.base) && forall name :: name in k.base ==> name in k.names
    requires IsWholeRun(t, k, suffix, run, after)
    ensures ExactNets(t, k, suffix, after)
  {
    var last := run[|t.graph|];
    RunIsExact(t, k, suffix, run, |t.graph|);
    InvGivesExactNets(t, k, suffix, after, last.ids);
  }
}
