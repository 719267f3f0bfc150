/** What happens when a net already has a name that one layer connection still generates
    (libs/polygon/doc/tutorial/connectivity_database.hpp). */
module NameClashes {
  import opened Graphs
  import opened NetState
  import opened NetOwners
  import opened NetMerger
  import opened LayerInvariant
  import opened LayerTurns
  import opened LayerConnection
  import opened LayerLaws

  // The net of node w has the name that polygon h will be given.
  ghost predicate Clash(t: Task, k: Owners, suffix: nat, w: nat, h: nat) {
    w < t.offset == |k.names| && h < |t.polygons| && k.names[w] == Fresh(t, suffix, h)
  }

  // The net is connected to no other net.
  ghost predicate Alone(t: Task, w: nat) {
    forall u: nat :: u < t.offset && Reaches(t.graph, w, u) ==> u == w
  }

  // The net is connected to a net whose name is not internal.
  ghost predicate Pinned(t: Task, k: Owners, w: nat) {
    exists u: nat :: u < t.offset == |k.names| && Reaches(t.graph, w, u) && !(t.prefix <= k.names[u])
  }

  // The net, or a polygon connected to it, has a shape.
  ghost predicate Shaped(t: Task, k: Owners, w: nat)
    requires ValidTask(t) && ValidOwners(t, k)
  {
    exists v: nat, layer, shape :: v < |t.graph| && Reaches(t.graph, w, v) && NodeHas(t, k, v, layer, shape)
  }

  // A clash that joins what is not connected.
  ghost predicate Harmful(t: Task, k: Owners, suffix: nat, w: nat, h: nat)
    requires ValidTask(t) && ValidOwners(t, k)
  {
    Clash(t, k, suffix, w, h) && Alone(t, w) && Shaped(t, k, w) && !Reaches(t.graph, w, t.offset + h)
  }

  // Clashing nets that are not connected to their polygons are connected to no other net, or to a net with a name that
  // is not internal. Otherwise which of several internal names is left depends on the order of the walks.
  ghost predicate Clear(t: Task, k: Owners, suffix: nat) {
    forall w: nat, h: nat :: Clash(t, k, suffix, w, h) && !Reaches(t.graph, w, t.offset + h) ==>
                               Alone(t, w) || Pinned(t, k, w)
  }

  ghost predicate OnlyConnectedShare(t: Task, k: Owners, result: Connectivity)
    requires ValidTask(t) && ValidOwners(t, k)
  {
    forall net, l1, x1, l2, x2 :: Has(result, net, l1, x1) && Has(result, net, l2, x2) ==> Linked(t, k, l1, x1, l2, x2)
  }

  // Nodes that have the shapes are connected, or are the same.
  ghost predicate Linked(t: Task, k: Owners, l1: string, x1: Shape, l2: string, x2: Shape)
    requires ValidTask(t) && ValidOwners(t, k)
  {
    exists v: nat, w: nat :: v < |t.graph| && w < |t.graph| && NodeHas(t, k, v, l1, x1) && NodeHas(t, k, w, l2, x2) &&
                             Reaches(t.graph, v, w)
  }

  // No shape is on two nodes.
  ghost predicate OwnShapes(t: Task, k: Owners)
    requires ValidTask(t) && ValidOwners(t, k)
  {
    forall v: nat, w: nat, layer, shape ::
      v < |t.graph| && w < |t.graph| && NodeHas(t, k, v, layer, shape) && NodeHas(t, k, w, layer, shape) ==> v == w
  }

  // What all of this is about: a connection and its result.
  ghost predicate Completed(t: Task, k: Owners, suffix: nat, run: seq<Between>, result: Connectivity) {
    && ValidTask(t) && ValidOwners(t, k) && IsGraph(t.graph) && Symmetric(t.graph)
    && Distinct(k.names) && (forall n :: n in k.base <==> n in k.names) && Solid(k.base)
    && IsWholeRun(t, k, suffix, run, result)
  }

  // ---- A net that stands under its clashing name ----

  // Node w, and no other, has the name as its id.
  ghost predicate Standing(t: Task, ids: seq<string>, w: nat, name: string) {
    w < t.offset == |ids| && ids[w] == name && forall u :: 0 <= u < |ids| && ids[u] == name ==> u == w
  }

  ghost predicate Grows(c: Connectivity, name: string, c': Connectivity) {
    name in c && name in c' && Within(c, name, c', name)
  }

  lemma GrowsThen(a: Connectivity, name: string, b: Connectivity, c: Connectivity)
    requires Grows(a, name, b) && Grows(b, name, c)
    ensures Grows(a, name, c)
  {
  }

  // Visits elsewhere leave the net alone.
  lemma VisitElsewhere(t: Task, slot: NetRef, s: State, node: nat, w: nat, name: string)
    requires Standing(t, s.ids, w, name) && name in s.conn && s.net != name && slot != Slot(w) && node != w
    ensures var s' := VisitNode(t, slot, s, node);
            Standing(t, s'.ids, w, name) && Grows(s.conn, name, s'.conn) && s'.net != name
  {
  }

  lemma {:induction false} TraceElsewhere(t: Task, slot: NetRef, s: State, trace: seq<nat>, w: nat, name: string)
    requires Standing(t, s.ids, w, name) && name in s.conn && s.net != name && slot != Slot(w) && w !in trace
    ensures var s' := VisitAll(t, slot, s, trace);
            Standing(t, s'.ids, w, name) && Grows(s.conn, name, s'.conn) && s'.net != name
  {
    if trace != [] {
      var front, last := trace[..|trace| - 1], trace[|trace| - 1];
      assert last in trace && w !in front;
      TraceElsewhere(t, slot, s, front, w, name);
      VisitElsewhere(t, slot, VisitAll(t, slot, s, front), last, w, name);
      GrowsThen(s.conn, name, VisitAll(t, slot, s, front).conn, VisitAll(t, slot, s, trace).conn);
    }
  }

  // Walks among its polygons, under its own name or a fresh one, end on the net.
  lemma VisitAround(t: Task, slot: NetRef, s: State, node: nat, w: nat, name: string)
    requires Standing(t, s.ids, w, name) && name in s.conn && t.prefix <= s.net && t.prefix <= name
    requires slot == Local || (slot == Slot(w) && s.net == name)
    requires node == w || t.offset <= node
    ensures var s' := VisitNode(t, slot, s, node);
            && Standing(t, s'.ids, w, name) && Grows(s.conn, name, s'.conn) && t.prefix <= s'.net
            && (slot == Slot(w) ==> s'.net == name)
  {
    if node == w && s.net != name {
      assert Rename(t, slot, s, node) == s.(net := name, conn := MoveNet(s.conn, s.net, name));
    }
  }

  lemma {:induction false} TraceAround(t: Task, slot: NetRef, s: State, trace: seq<nat>, w: nat, name: string)
    requires Standing(t, s.ids, w, name) && name in s.conn && t.prefix <= s.net && t.prefix <= name
    requires slot == Local || (slot == Slot(w) && s.net == name)
    requires forall v :: v in trace ==> v == w || t.offset <= v
    ensures var s' := VisitAll(t, slot, s, trace);
            && Standing(t, s'.ids, w, name) && Grows(s.conn, name, s'.conn) && t.prefix <= s'.net
            && (slot == Slot(w) ==> s'.net == name)
  {
    if trace != [] {
      var front, last := trace[..|trace| - 1], trace[|trace| - 1];
      assert last in trace && forall v :: v in front ==> v in trace;
      TraceAround(t, slot, s, front, w, name);
      VisitAround(t, slot, VisitAll(t, slot, s, front), last, w, name);
      GrowsThen(s.conn, name, VisitAll(t, slot, s, front).conn, VisitAll(t, slot, s, trace).conn);
    }
  }

  // Every turn but the polygon's own leaves a net that is connected to no other net standing.
  lemma TurnStands(t: Task, suffix: nat, b: Between, b': Between, v: nat, w: nat, h: nat)
    requires ValidTask(t) && IsGraph(t.graph) && Symmetric(t.graph) && v < |t.graph|
    requires IsTurn(t, suffix, b, b', v) && h < |t.polygons| && v != t.offset + h
    requires Standing(t, b.ids, w, Fresh(t, suffix, h)) && Fresh(t, suffix, h) in b.conn && Alone(t, w)
    ensures Standing(t, b'.ids, w, Fresh(t, suffix, h)) && Grows(b.conn, Fresh(t, suffix, h), b'.conn)
  {
    var name, slot, s := Fresh(t, suffix, h), SlotOf(t, v), StartOf(t, suffix, b, v);
    var trace :| TurnBy(t, suffix, b, b', v, trace);
    if v >= t.offset {
      FreshNameInjective(t.prefix, suffix + (v - t.offset), suffix + h);
    }
    if w in trace {
      forall u | u in trace
        ensures u == w || t.offset <= u
      {
        InOneComponent(t, v, w, u, trace);
      }
      InOneComponent(t, v, w, v, trace);
      TraceAround(t, slot, s, trace, w, name);
    } else {
      assert v != w by {
        TraceInGraph(t, v, trace);
      }
      TraceElsewhere(t, slot, s, trace, w, name);
    }
  }

  lemma InOneComponent(t: Task, v: nat, w: nat, u: nat, trace: seq<nat>)
    requires IsGraph(t.graph) && Symmetric(t.graph) && v < |t.graph| && Nodes(trace) == Component(t.graph, v)
    requires w in trace && (u in trace || u == v)
    ensures u < |t.graph| && w < |t.graph| && Reaches(t.graph, w, u)
  {
    assert w in Nodes(trace) && v in Nodes(trace) && u in Nodes(trace);
    SameComponent(t.graph, v, w);
    SameComponent(t.graph, v, u);
    SameComponent(t.graph, w, u);
  }

  // ---- A harmful clash joins ----

  lemma TurnCovers(t: Task, suffix: nat, b: Between, b': Between, v: nat) returns (s': State)
    requires ValidTask(t) && IsGraph(t.graph) && v < |t.graph| && IsTurn(t, suffix, b, b', v)
    requires |b.ids| == t.offset && Solid(b.conn)
    ensures b' == Between(s'.conn, s'.ids) && Progress(t, SlotOf(t, v), StartOf(t, suffix, b, v), s')
    ensures Covers(t, StartOf(t, suffix, b, v), s', Component(t.graph, v)) && v in Component(t.graph, v)
  {
    var trace :| TurnBy(t, suffix, b, b', v, trace);
    s' := VisitAll(t, SlotOf(t, v), StartOf(t, suffix, b, v), trace);
    TraceInGraph(t, v, trace);
    TraceCovers(t, SlotOf(t, v), StartOf(t, suffix, b, v), trace);
  }

  lemma {:induction false} RunSolid(t: Task, k: Owners, suffix: nat, run: seq<Between>, result: Connectivity, n: nat)
    requires Completed(t, k, suffix, run, result) && n < |run|
    ensures Solid(run[n].conn) && |run[n].ids| == t.offset
  {
    if n > 0 {
      RunSolid(t, k, suffix, run, result, n - 1);
      assert IsTurn(t, suffix, run[n - 1], run[n - 1 + 1], n - 1);
      var s' := TurnCovers(t, suffix, run[n - 1], run[n], n - 1);
    }
  }

  // The polygons that are connected to the net are on it.
  ghost predicate PolygonsOn(t: Task, w: nat, conn: Connectivity, name: string) {
    forall j :: 0 <= j < |t.polygons| && Reaches(t.graph, w, t.offset + j) ==> Has(conn, name, t.layer, t.polygons[j])
  }

  lemma PolygonsCovered(t: Task, w: nat, s: State, s': State)
    requires ValidTask(t) && IsGraph(t.graph) && w < |t.graph| && Covers(t, s, s', Component(t.graph, w))
    ensures PolygonsOn(t, w, s'.conn, s'.net)
  {
    forall j | 0 <= j < |t.polygons| && Reaches(t.graph, w, t.offset + j)
      ensures Has(s'.conn, s'.net, t.layer, t.polygons[j])
    {
      ComponentIsReachable(t.graph, w, t.offset + j);
      CoversPolygon(t, s, s', Component(t.graph, w), j);
    }
  }

  lemma OwnTurn(t: Task, suffix: nat, b: Between, b': Between, w: nat, name: string)
    requires ValidTask(t) && IsGraph(t.graph) && w < t.offset && IsTurn(t, suffix, b, b', w)
    requires |b.ids| == t.offset && Solid(b.conn) && |b'.ids| == t.offset && b'.ids[w] == name
    ensures PolygonsOn(t, w, b'.conn, name)
  {
    var s' := TurnCovers(t, suffix, b, b', w);
    PolygonsCovered(t, w, StartOf(t, suffix, b, w), s');
  }

  // Until the turn of the polygon, the net stands, with all the shapes of its component once its own turn is over.
  lemma {:induction false} RunStands(t: Task, k: Owners, suffix: nat, run: seq<Between>, result: Connectivity,
                                     w: nat, h: nat, n: nat)
    requires Completed(t, k, suffix, run, result) && Clash(t, k, suffix, w, h) && Alone(t, w) && n <= t.offset + h
    ensures Standing(t, run[n].ids, w, k.names[w]) && Grows(k.base, k.names[w], run[n].conn)
    ensures n > w ==> PolygonsOn(t, w, run[n].conn, k.names[w])
  {
    var name := k.names[w];
    if n == 0 {
      assert name in k.names;
    } else {
      var v := n - 1;
      RunStands(t, k, suffix, run, result, w, h, v);
      RunSolid(t, k, suffix, run, result, v);
      assert IsTurn(t, suffix, run[v], run[v + 1], v);
      TurnStands(t, suffix, run[v], run[n], v, w, h);
      GrowsThen(k.base, name, run[v].conn, run[n].conn);
      if v == w {
        OwnTurn(t, suffix, run[v], run[n], w, name);
      }
    }
  }

  lemma ShapeStands(t: Task, k: Owners, suffix: nat, run: seq<Between>, result: Connectivity, w: nat, h: nat,
                    v: nat, layer: string, shape: Shape)
    requires Completed(t, k, suffix, run, result) && Clash(t, k, suffix, w, h) && Alone(t, w)
    requires v < |t.graph| && Reaches(t.graph, w, v) && NodeHas(t, k, v, layer, shape)
    ensures Has(run[t.offset + h].conn, Fresh(t, suffix, h), layer, shape)
  {
    RunStands(t, k, suffix, run, result, w, h, t.offset + h);
    if v >= t.offset {
      assert t.offset + (v - t.offset) == v;
    }
  }

  ghost predicate Together(conn: Connectivity, l1: string, x1: Shape, l2: string, x2: Shape) {
    exists net :: Has(conn, net, l1, x1) && Has(conn, net, l2, x2)
  }

  // In the turn of the polygon whatever is on the net of its name comes to be on a net with it.
  lemma TurnJoins(t: Task, suffix: nat, b: Between, b': Between, h: nat, layer: string, shape: Shape)
    requires ValidTask(t) && IsGraph(t.graph) && h < |t.polygons| && IsTurn(t, suffix, b, b', t.offset + h)
    requires |b.ids| == t.offset && Solid(b.conn) && Has(b.conn, Fresh(t, suffix, h), layer, shape)
    ensures Together(b'.conn, layer, shape, t.layer, t.polygons[h])
  {
    var s' := TurnCovers(t, suffix, b, b', t.offset + h);
    CurrentNetKept(t, Local, StartOf(t, suffix, b, t.offset + h), s');
    CoversPolygon(t, StartOf(t, suffix, b, t.offset + h), s', Component(t.graph, t.offset + h), h);
    assert Has(s'.conn, s'.net, layer, shape) && Has(s'.conn, s'.net, t.layer, t.polygons[h]);
  }

  lemma StayTogether(s: State, s': State, l1: string, x1: Shape, l2: string, x2: Shape)
    requires Conserves(s, s') && Together(s.conn, l1, x1, l2, x2)
    ensures Together(s'.conn, l1, x1, l2, x2)
  {
    var net :| Has(s.conn, net, l1, x1) && Has(s.conn, net, l2, x2);
    var net' := if net in s'.conn && net != s'.net then net else s'.net;
    assert Has(s'.conn, net', l1, x1) && Has(s'.conn, net', l2, x2);
  }

  lemma {:induction false} RunTogether(t: Task, k: Owners, suffix: nat, run: seq<Between>, result: Connectivity,
                                       n: nat, l1: string, x1: Shape, l2: string, x2: Shape)
    requires Completed(t, k, suffix, run, result) && n < |run| && Together(run[n].conn, l1, x1, l2, x2)
    ensures Together(result, l1, x1, l2, x2)
    decreases |run| - n
  {
    if n < |t.graph| {
      RunSolid(t, k, suffix, run, result, n);
      assert IsTurn(t, suffix, run[n], run[n + 1], n);
      var s' := TurnCovers(t, suffix, run[n], run[n + 1], n);
      StayTogether(StartOf(t, suffix, run[n], n), s', l1, x1, l2, x2);
      RunTogether(t, k, suffix, run, result, n + 1, l1, x1, l2, x2);
    }
  }

  // If a net that is connected to no other net has the name of a polygon, all the shapes connected to the net
  // end on one net with the polygon.
  lemma ClashJoins(t: Task, k: Owners, suffix: nat, run: seq<Between>, result: Connectivity, w: nat, h: nat,
                   v: nat, layer: string, shape: Shape)
    requires Completed(t, k, suffix, run, result) && Clash(t, k, suffix, w, h) && Alone(t, w)
    requires v < |t.graph| && Reaches(t.graph, w, v) && NodeHas(t, k, v, layer, shape)
    ensures Together(result, layer, shape, t.layer, t.polygons[h])
  {
    var n := t.offset + h;
    ShapeStands(t, k, suffix, run, result, w, h, v, layer, shape);
    RunSolid(t, k, suffix, run, result, n);
    assert IsTurn(t, suffix, run[n], run[n + 1], n);
    TurnJoins(t, suffix, run[n], run[n + 1], h, layer, shape);
    RunTogether(t, k, suffix, run, result, n + 1, layer, shape, t.layer, t.polygons[h]);
  }

  // ---- Other clashes are harmless: the walks from the nets ----

  // Nodes belong to their components, and the names of nets to those of the nets.
  ghost predicate OwnedByNets(t: Task, k: Owners, o: Owners)
    requires IsGraph(t.graph)
  {
    && ValidTask(t) && ValidOwners(t, o) && o.base == k.base && o.names == k.names
    && (forall v :: 0 <= v < |t.graph| ==> o.comp[v] == Component(t.graph, v))
    && (forall w :: 0 <= w < t.offset ==> Belongs(o, o.names[w], o.comp[w]))
    && (forall name :: name in o.owner ==> name in o.names)
  }

  lemma NetsOwn(t: Task, k: Owners) returns (o: Owners)
    requires ValidTask(t) && IsGraph(t.graph) && |k.names| == t.offset && Distinct(k.names)
    ensures OwnedByNets(t, k, o)
  {
    o := Owners(seq(|t.graph|, v requires 0 <= v < |t.graph| => Component(t.graph, v)),
                map name | name in k.names :: Component(t.graph, IndexOf(k.names, name)), k.base, k.names);
    forall w | 0 <= w < t.offset
      ensures Belongs(o, k.names[w], Component(t.graph, w))
    {
      assert IndexOf(k.names, k.names[w]) == w;
    }
  }

  lemma ComponentsKeepEdges(t: Task, k: Owners, o: Owners)
    requires IsGraph(t.graph) && Symmetric(t.graph) && OwnedByNets(t, k, o)
    ensures EdgesKeepComponent(t, o)
  {
    forall v, u | 0 <= v < |t.graph| && u in t.graph[v] && u < |o.comp|
      ensures o.comp[u] == o.comp[v]
    {
      NeighbourSameComponent(t.graph, v, u);
    }
  }

  ghost predicate External(t: Task, names: seq<string>, ids: seq<string>) {
    |names| == |ids| && forall u :: 0 <= u < |ids| && !(t.prefix <= names[u]) ==> !(t.prefix <= ids[u])
  }

  ghost predicate KeysIn(c: Connectivity, ids: seq<string>) {
    forall n :: n in c ==> n in ids
  }

  ghost predicate PinnedDone(t: Task, k: Owners, ids: seq<string>, i: nat) {
    forall u :: 0 <= u < i && u < |ids| && Pinned(t, k, u) ==> !(t.prefix <= ids[u])
  }

  ghost predicate IdsBelong(t: Task, o: Owners, ids: seq<string>)
    requires ValidTask(t) && ValidOwners(t, o)
  {
    |ids| == t.offset && forall u :: 0 <= u < |ids| ==> Belongs(o, ids[u], o.comp[u])
  }

  // The state before a turn lets it be taken.
  lemma TurnReady(t: Task, o: Owners, suffix: nat, b: Between, v: nat)
    requires ValidTask(t) && ValidOwners(t, o) && v < |t.graph|
    requires Solid(b.conn) && Sound(t, o, b.conn) && IdsBelong(t, o, b.ids)
    requires v >= t.offset ==> Belongs(o, Fresh(t, suffix, v - t.offset), o.comp[v])
    ensures Ready(t, o, SlotOf(t, v), o.comp[v], StartOf(t, suffix, b, v))
  {
    assert v < t.offset ==> Belongs(o, b.ids[v], o.comp[v]);
  }

  // A turn keeps every net within its class.
  lemma TurnSound(t: Task, o: Owners, suffix: nat, b: Between, b': Between, v: nat) returns (s': State)
    requires ValidTask(t) && IsGraph(t.graph) && ValidOwners(t, o) && EdgesKeepComponent(t, o) && v < |t.graph|
    requires Solid(b.conn) && Sound(t, o, b.conn) && IdsBelong(t, o, b.ids) && IsTurn(t, suffix, b, b', v)
    requires v >= t.offset ==> Belongs(o, Fresh(t, suffix, v - t.offset), o.comp[v])
    ensures Solid(b'.conn) && Sound(t, o, b'.conn) && IdsBelong(t, o, b'.ids) && b' == Between(s'.conn, s'.ids)
    ensures Progress(t, SlotOf(t, v), StartOf(t, suffix, b, v), s')
    ensures Covers(t, StartOf(t, suffix, b, v), s', Component(t.graph, v))
  {
    TurnReady(t, o, suffix, b, v);
    s' := TurnWalked(t, o, suffix, b, b', v);
  }

  // After the walks from i nets.
  ghost predicate AfterNets(t: Task, o: Owners, b: Between, i: nat)
    requires ValidTask(t) && ValidOwners(t, o)
  {
    && Solid(b.conn) && Sound(t, o, b.conn) && IdsBelong(t, o, b.ids)
    && KeysIn(b.conn, b.ids) && External(t, o.names, b.ids) && PinnedDone(t, o, b.ids, i)
  }

  lemma KeysStayIn(t: Task, slot: NetRef, s: State, s': State)
    requires Progress(t, slot, s, s') && slot.Slot? && KeysIn(s.conn, s.ids)
    ensures KeysIn(s'.conn, s'.ids)
  {
    forall n | n in s'.conn
      ensures n in s'.ids
    {
      if n != s'.net {
        var u :| 0 <= u < |s.ids| && s.ids[u] == n;
        assert s'.ids[u] == n;
      } else {
        assert s'.ids[slot.index] == n;
      }
    }
  }

  // What a turn does to the ids.
  ghost predicate IdsTurned(t: Task, slot: NetRef, s: State, s': State) {
    RenamesIds(t, slot, s, s') && FollowsNet(t, s, s') && Aliased(slot, s) && Aliased(slot, s')
  }

  // In its own turn the id of a net becomes external, if the net is connected to one with such an id.
  lemma PinnedTurn(t: Task, k: Owners, suffix: nat, b: Between, s': State, v: nat)
    requires ValidTask(t) && IsGraph(t.graph) && v < t.offset == |b.ids| && External(t, k.names, b.ids)
    requires Aliased(Slot(v), s') && |s'.ids| == |b.ids|
    requires Covers(t, StartOf(t, suffix, b, v), s', Component(t.graph, v)) && Pinned(t, k, v)
    ensures !(t.prefix <= s'.ids[v])
  {
    var u: nat :| u < t.offset && Reaches(t.graph, v, u) && !(t.prefix <= k.names[u]);
    ComponentIsReachable(t.graph, v, u);
  }

  lemma NetTurn(t: Task, o: Owners, suffix: nat, b: Between, b': Between, v: nat, next: nat)
    requires ValidTask(t) && IsGraph(t.graph) && ValidOwners(t, o) && EdgesKeepComponent(t, o)
    requires next == v + 1 <= t.offset && IsTurn(t, suffix, b, b', v) && AfterNets(t, o, b, v)
    ensures AfterNets(t, o, b', next)
  {
    var s' := TurnSound(t, o, suffix, b, b', v);
    KeysStayIn(t, Slot(v), StartOf(t, suffix, b, v), s');
    NamesAfterTurn(t, o, suffix, b, s', v, next);
  }

  // Ids that are not internal stay so in a turn.
  lemma ExternalTurn(t: Task, slot: NetRef, s: State, s': State)
    requires IdsTurned(t, slot, s, s')
    ensures |s'.ids| == |s.ids|
    ensures forall u :: 0 <= u < |s.ids| && !(t.prefix <= s.ids[u]) ==> !(t.prefix <= s'.ids[u])
  {
  }

  lemma NamesAfterTurn(t: Task, k: Owners, suffix: nat, b: Between, s': State, v: nat, next: nat)
    requires ValidTask(t) && IsGraph(t.graph) && v < t.offset == |b.ids| && next == v + 1
    requires External(t, k.names, b.ids) && PinnedDone(t, k, b.ids, v)
    requires IdsTurned(t, Slot(v), StartOf(t, suffix, b, v), s')
    requires Covers(t, StartOf(t, suffix, b, v), s', Component(t.graph, v))
    ensures External(t, k.names, s'.ids) && PinnedDone(t, k, s'.ids, next)
  {
    ExternalTurn(t, Slot(v), StartOf(t, suffix, b, v), s');
    forall u | 0 <= u < next && Pinned(t, k, u)
      ensures !(t.prefix <= s'.ids[u])
    {
      if u == v {
        PinnedTurn(t, k, suffix, b, s', v);
      }
    }
  }

  lemma {:induction false} NetsRun(t: Task, k: Owners, suffix: nat, run: seq<Between>, result: Connectivity, o: Owners,
                                   n: nat)
    requires Completed(t, k, suffix, run, result) && OwnedByNets(t, k, o) && n <= t.offset
    ensures AfterNets(t, o, run[n], n)
  {
    if n == 0 {
      SoundInitially(t, o);
    } else {
      NetsRun(t, k, suffix, run, result, o, n - 1);
      assert IsTurn(t, suffix, run[n - 1], run[n - 1 + 1], n - 1);
      ComponentsKeepEdges(t, k, o);
      NetTurn(t, o, suffix, run[n - 1], run[n], n - 1, n);
    }
  }

  // ---- Other clashes are harmless: the walks from the polygons ----

  // A clashing net that is connected to nothing and has no shapes.
  ghost predicate Lonely(t: Task, k: Owners, suffix: nat, w: nat, h: nat)
    requires ValidTask(t) && ValidOwners(t, k)
  {
    Clash(t, k, suffix, w, h) && Alone(t, w) && !Shaped(t, k, w)
  }

  // Such a net goes with its polygon, every other node with its component.
  ghost function ClassOf(t: Task, k: Owners, suffix: nat, v: nat): set<nat>
    requires ValidTask(t) && IsGraph(t.graph) && ValidOwners(t, k) && v < |t.graph|
  {
    if h: nat :| Lonely(t, k, suffix, v, h) then Component(t.graph, t.offset + h) else Component(t.graph, v)
  }

  ghost predicate IsFreshName(t: Task, suffix: nat, name: string) {
    exists h: nat :: h < |t.polygons| && name == Fresh(t, suffix, h)
  }

  // Fresh names belong to the polygons, and other names to the nets.
  ghost predicate OwnedByPolygons(t: Task, k: Owners, suffix: nat, p: Owners)
    requires IsGraph(t.graph) && ValidTask(t) && ValidOwners(t, k)
  {
    && ValidOwners(t, p) && p.base == k.base && p.names == k.names
    && (forall v: nat :: v < |t.graph| ==> p.comp[v] == ClassOf(t, k, suffix, v))
    && (forall h: nat :: h < |t.polygons| ==> Belongs(p, Fresh(t, suffix, h), Component(t.graph, t.offset + h)))
    && (forall w: nat :: w < t.offset && !IsFreshName(t, suffix, k.names[w]) ==>
                           Belongs(p, k.names[w], Component(t.graph, w)))
  }

  ghost function NameClass(t: Task, k: Owners, suffix: nat, name: string): set<nat>
    requires ValidTask(t) && IsGraph(t.graph) && ValidOwners(t, k)
  {
    if h: nat :| h < |t.polygons| && name == Fresh(t, suffix, h) then Component(t.graph, t.offset + h)
    else if name in k.names then Component(t.graph, IndexOf(k.names, name))
    else {}
  }

  lemma FreshNameClass(t: Task, k: Owners, suffix: nat, h: nat)
    requires ValidTask(t) && IsGraph(t.graph) && ValidOwners(t, k) && h < |t.polygons|
    ensures NameClass(t, k, suffix, Fresh(t, suffix, h)) == Component(t.graph, t.offset + h)
  {
    OnlyFresh(t, suffix, h);
  }

  lemma OtherNameClass(t: Task, k: Owners, suffix: nat, w: nat)
    requires ValidTask(t) && IsGraph(t.graph) && ValidOwners(t, k) && Distinct(k.names)
    requires w < t.offset && !IsFreshName(t, suffix, k.names[w])
    ensures NameClass(t, k, suffix, k.names[w]) == Component(t.graph, w)
  {
    assert k.names[w] in k.names && IndexOf(k.names, k.names[w]) == w;
  }

  lemma FreshIsListed(t: Task, names: seq<string>, suffix: nat, h: nat)
    requires h < |t.polygons|
    ensures Fresh(t, suffix, h) in names + FreshNames(t.prefix, suffix, |t.polygons|)
  {
    assert FreshNames(t.prefix, suffix, |t.polygons|)[h] == Fresh(t, suffix, h);
  }

  ghost function OwnersBy(classes: seq<set<nat>>, all: seq<string>, classOf: string -> set<nat>, k: Owners): (p: Owners)
    ensures p.comp == classes && p.base == k.base && p.names == k.names
    ensures forall name :: name in all ==> Belongs(p, name, classOf(name))
  {
    Owners(classes, map name | name in all :: classOf(name), k.base, k.names)
  }

  lemma PolygonsOwn(t: Task, k: Owners, suffix: nat) returns (p: Owners)
    requires ValidTask(t) && IsGraph(t.graph) && ValidOwners(t, k) && Distinct(k.names)
    ensures OwnedByPolygons(t, k, suffix, p)
  {
    var all := k.names + FreshNames(t.prefix, suffix, |t.polygons|);
    p := OwnersBy(seq(|t.graph|, v requires 0 <= v < |t.graph| => ClassOf(t, k, suffix, v)), all,
                  (name: string) => NameClass(t, k, suffix, name), k);
    forall h: nat | h < |t.polygons|
      ensures Belongs(p, Fresh(t, suffix, h), Component(t.graph, t.offset + h))
    {
      FreshIsListed(t, k.names, suffix, h);
      FreshNameClass(t, k, suffix, h);
    }
    forall w: nat | w < t.offset && !IsFreshName(t, suffix, k.names[w])
      ensures Belongs(p, k.names[w], Component(t.graph, w))
    {
      assert k.names[w] in all;
      OtherNameClass(t, k, suffix, w);
    }
  }

  lemma OnlyFresh(t: Task, suffix: nat, h: nat)
    ensures forall g: nat :: Fresh(t, suffix, g) == Fresh(t, suffix, h) ==> g == h
  {
    forall g: nat | Fresh(t, suffix, g) == Fresh(t, suffix, h)
      ensures g == h
    {
      FreshNameInjective(t.prefix, suffix + g, suffix + h);
    }
  }

  lemma LonelyClass(t: Task, k: Owners, suffix: nat, w: nat, h: nat)
    requires ValidTask(t) && IsGraph(t.graph) && ValidOwners(t, k) && Lonely(t, k, suffix, w, h)
    ensures ClassOf(t, k, suffix, w) == Component(t.graph, t.offset + h)
  {
    OnlyFresh(t, suffix, h);
  }

  lemma ReachesItself(g: Graph, v: nat)
    requires v < |g|
    ensures Reaches(g, v, v)
  {
    assert IsPath(g, [v]);
  }

  // A lonely net reaches nothing but itself.
  lemma LonelyComponent(t: Task, k: Owners, suffix: nat, w: nat, h: nat, u: nat)
    requires ValidTask(t) && IsGraph(t.graph) && ValidOwners(t, k) && Lonely(t, k, suffix, w, h)
    requires Reaches(t.graph, w, u) && u < |t.graph|
    ensures u == w
  {
    if u >= t.offset {
      assert NodeHas(t, k, u, t.layer, t.polygons[u - t.offset]);
    }
  }

  // Nodes from which a shape is reached are not lonely.
  lemma ShapedClass(t: Task, k: Owners, suffix: nat, u: nat, v: nat, layer: string, shape: Shape)
    requires ValidTask(t) && IsGraph(t.graph) && ValidOwners(t, k) && u < |t.graph| && v < |t.graph|
    requires Reaches(t.graph, u, v) && NodeHas(t, k, v, layer, shape)
    ensures ClassOf(t, k, suffix, u) == Component(t.graph, u)
  {
  }

  lemma ClassesKeepEdges(t: Task, k: Owners, suffix: nat, p: Owners)
    requires ValidTask(t) && IsGraph(t.graph) && Symmetric(t.graph) && ValidOwners(t, k)
    requires OwnedByPolygons(t, k, suffix, p)
    ensures EdgesKeepComponent(t, p)
  {
    forall v, u | 0 <= v < |t.graph| && u in t.graph[v] && u < |t.graph|
      ensures ClassOf(t, k, suffix, u) == ClassOf(t, k, suffix, v)
    {
      NeighbourSameComponent(t.graph, v, u);
      SameComponent(t.graph, v, u);
      SameComponent(t.graph, u, v);
      if h: nat :| Lonely(t, k, suffix, v, h) {
        LonelyComponent(t, k, suffix, v, h, u);
      } else if h: nat :| Lonely(t, k, suffix, u, h) {
        LonelyComponent(t, k, suffix, u, h, v);
      }
    }
  }

  ghost predicate NoHarm(t: Task, k: Owners, suffix: nat)
    requires ValidTask(t) && ValidOwners(t, k)
  {
    forall w: nat, h: nat :: !Harmful(t, k, suffix, w, h)
  }

  // The net whose name is the id, when the walks from the nets are over.
  lemma NameOfId(t: Task, k: Owners, o: Owners, b: Between, u: nat) returns (w: nat)
    requires IsGraph(t.graph) && Symmetric(t.graph) && OwnedByNets(t, k, o) && IdsBelong(t, o, b.ids) && u < t.offset
    ensures w < t.offset && k.names[w] == b.ids[u]
    ensures Component(t.graph, w) == Component(t.graph, u) && Reaches(t.graph, u, w) && Reaches(t.graph, w, u)
  {
    assert Belongs(o, b.ids[u], o.comp[u]);
    w := IndexOf(k.names, b.ids[u]);
    assert Belongs(o, o.names[w], o.comp[w]);
    SameComponent(t.graph, w, u);
    SameComponent(t.graph, u, w);
  }

  lemma PinnedToo(t: Task, k: Owners, u: nat, w: nat)
    requires IsGraph(t.graph) && Reaches(t.graph, u, w) && Pinned(t, k, w)
    ensures Pinned(t, k, u)
  {
    var p: nat :| p < t.offset == |k.names| && Reaches(t.graph, w, p) && !(t.prefix <= k.names[p]);
    ReachesTransitive(t.graph, u, w, p);
  }

  // If the id of a net is a fresh name of a polygon that it is not connected to, the net is lonely.
  lemma UnreachedIsLonely(t: Task, k: Owners, suffix: nat, ids: seq<string>, u: nat, w: nat, h: nat)
    requires ValidTask(t) && IsGraph(t.graph) && ValidOwners(t, k)
    requires PinnedDone(t, k, ids, t.offset) && u < t.offset == |ids|
    requires Clear(t, k, suffix) && NoHarm(t, k, suffix)
    requires Clash(t, k, suffix, w, h) && !Reaches(t.graph, w, t.offset + h) && k.names[w] == ids[u]
    requires Reaches(t.graph, u, w) && Reaches(t.graph, w, u)
    ensures u == w && Lonely(t, k, suffix, w, h)
  {
    assert t.prefix <= Fresh(t, suffix, h);
    if Pinned(t, k, w) {
      PinnedToo(t, k, u, w);
    }
    assert !Harmful(t, k, suffix, w, h);
  }

  lemma LonelyOrNot(t: Task, k: Owners, suffix: nat, u: nat, w: nat, h: nat)
    requires ValidTask(t) && IsGraph(t.graph) && ValidOwners(t, k) && u < t.offset && Clash(t, k, suffix, w, h)
    requires Reaches(t.graph, u, w) && Component(t.graph, u) == Component(t.graph, t.offset + h)
    ensures ClassOf(t, k, suffix, u) == Component(t.graph, t.offset + h)
  {
    if g: nat :| Lonely(t, k, suffix, u, g) {
      LonelyComponent(t, k, suffix, u, g, w);
      OnlyFresh(t, suffix, h);
      LonelyClass(t, k, suffix, u, g);
    }
  }

  // The class of a net whose id is a fresh name is that of the polygon.
  lemma FreshIdClass(t: Task, k: Owners, suffix: nat, ids: seq<string>, u: nat, w: nat, h: nat)
    requires ValidTask(t) && IsGraph(t.graph) && Symmetric(t.graph) && ValidOwners(t, k)
    requires PinnedDone(t, k, ids, t.offset) && u < t.offset == |ids|
    requires Clear(t, k, suffix) && NoHarm(t, k, suffix) && Clash(t, k, suffix, w, h) && k.names[w] == ids[u]
    requires Reaches(t.graph, u, w) && Reaches(t.graph, w, u) && Component(t.graph, w) == Component(t.graph, u)
    ensures ClassOf(t, k, suffix, u) == Component(t.graph, t.offset + h)
  {
    if Reaches(t.graph, w, t.offset + h) {
      ReachedIdClass(t, k, suffix, u, w, h);
    } else {
      UnreachedIsLonely(t, k, suffix, ids, u, w, h);
      LonelyClass(t, k, suffix, u, h);
    }
  }

  lemma ReachedIdClass(t: Task, k: Owners, suffix: nat, u: nat, w: nat, h: nat)
    requires ValidTask(t) && IsGraph(t.graph) && Symmetric(t.graph) && ValidOwners(t, k)
    requires u < t.offset && Clash(t, k, suffix, w, h) && Reaches(t.graph, w, t.offset + h)
    requires Reaches(t.graph, u, w) && Component(t.graph, w) == Component(t.graph, u)
    ensures ClassOf(t, k, suffix, u) == Component(t.graph, t.offset + h)
  {
    SameComponent(t.graph, w, t.offset + h);
    LonelyOrNot(t, k, suffix, u, w, h);
  }

  // The class of a net whose id is no fresh name is its component.
  lemma OtherIdClass(t: Task, k: Owners, suffix: nat, u: nat, w: nat)
    requires ValidTask(t) && IsGraph(t.graph) && ValidOwners(t, k) && w < t.offset == |k.names| && u < t.offset
    requires !IsFreshName(t, suffix, k.names[w]) && Reaches(t.graph, u, w)
    ensures ClassOf(t, k, suffix, u) == Component(t.graph, u)
  {
    if g: nat :| Lonely(t, k, suffix, u, g) {
      LonelyComponent(t, k, suffix, u, g, w);
    }
  }

  lemma IdClass(t: Task, k: Owners, suffix: nat, o: Owners, p: Owners, b: Between, u: nat)
    requires IsGraph(t.graph) && Symmetric(t.graph) && OwnedByNets(t, k, o)
    requires ValidOwners(t, k) && OwnedByPolygons(t, k, suffix, p)
    requires IdsBelong(t, o, b.ids) && PinnedDone(t, k, b.ids, t.offset) && u < t.offset
    requires Clear(t, k, suffix) && NoHarm(t, k, suffix)
    ensures Belongs(p, b.ids[u], p.comp[u])
  {
    var w := NameOfId(t, k, o, b, u);
    if IsFreshName(t, suffix, b.ids[u]) {
      var h: nat :| h < |t.polygons| && b.ids[u] == Fresh(t, suffix, h);
      FreshIdClass(t, k, suffix, b.ids, u, w, h);
    } else {
      OtherIdClass(t, k, suffix, u, w);
    }
  }

  lemma ShapeKeepsClass(t: Task, k: Owners, suffix: nat, o: Owners, p: Owners, u: nat, layer: string, shape: Shape)
    requires IsGraph(t.graph) && Symmetric(t.graph) && OwnedByNets(t, k, o)
    requires ValidOwners(t, k) && OwnedByPolygons(t, k, suffix, p) && u < t.offset
    requires Origin(t, o, o.comp[u], layer, shape)
    ensures Origin(t, p, p.comp[u], layer, shape)
  {
    var v := OriginIsNode(t, o, o.comp[u], layer, shape);
    assert NodeHas(t, k, v, layer, shape);
    SameComponent(t.graph, u, v);
    ReachesItself(t.graph, v);
    ShapedClass(t, k, suffix, u, v, layer, shape);
    ShapedClass(t, k, suffix, v, v, layer, shape);
    NodeIsOrigin(t, p, v, layer, shape);
  }

  // Between the two loops every shape is on a net of its class, as the fresh names are now understood.
  lemma SoundAgain(t: Task, k: Owners, suffix: nat, o: Owners, p: Owners, b: Between)
    requires IsGraph(t.graph) && Symmetric(t.graph) && OwnedByNets(t, k, o)
    requires ValidOwners(t, k) && OwnedByPolygons(t, k, suffix, p) && AfterNets(t, o, b, t.offset)
    requires IdsBelong(t, p, b.ids)
    ensures Sound(t, p, b.conn)
  {
    forall net | net in b.conn
      ensures net in p.owner
      ensures forall layer, shape :: Has(b.conn, net, layer, shape) ==> Origin(t, p, p.owner[net], layer, shape)
    {
      var u: nat :| u < |b.ids| && b.ids[u] == net;
      assert Belongs(o, b.ids[u], o.comp[u]) && Belongs(p, b.ids[u], p.comp[u]);
      forall layer, shape | Has(b.conn, net, layer, shape)
        ensures Origin(t, p, p.owner[net], layer, shape)
      {
        ShapeKeepsClass(t, k, suffix, o, p, u, layer, shape);
      }
    }
  }

  lemma LoopsMeet(t: Task, k: Owners, suffix: nat, run: seq<Between>, result: Connectivity, p: Owners)
    requires Completed(t, k, suffix, run, result) && OwnedByPolygons(t, k, suffix, p)
    requires Clear(t, k, suffix) && NoHarm(t, k, suffix)
    ensures AfterPolygons(t, p, run[t.offset])
  {
    var o := NetsOwn(t, k);
    NetsRun(t, k, suffix, run, result, o, t.offset);
    forall u | 0 <= u < t.offset
      ensures Belongs(p, run[t.offset].ids[u], p.comp[u])
    {
      IdClass(t, k, suffix, o, p, run[t.offset], u);
    }
    SoundAgain(t, k, suffix, o, p, run[t.offset]);
  }

  // After the walks from some polygons.
  ghost predicate AfterPolygons(t: Task, o: Owners, b: Between)
    requires ValidTask(t) && ValidOwners(t, o)
  {
    Solid(b.conn) && Sound(t, o, b.conn) && IdsBelong(t, o, b.ids)
  }

  lemma PolygonClass(t: Task, k: Owners, suffix: nat, p: Owners, v: nat)
    requires ValidTask(t) && IsGraph(t.graph) && ValidOwners(t, k) && OwnedByPolygons(t, k, suffix, p)
    requires t.offset <= v < |t.graph|
    ensures Belongs(p, Fresh(t, suffix, v - t.offset), p.comp[v])
  {
    assert t.offset + (v - t.offset) == v;
  }

  lemma {:induction false} PolygonsRun(t: Task, k: Owners, suffix: nat, run: seq<Between>, result: Connectivity,
                                       p: Owners, n: nat)
    requires Completed(t, k, suffix, run, result) && OwnedByPolygons(t, k, suffix, p) && t.offset <= n < |run|
    requires Clear(t, k, suffix) && NoHarm(t, k, suffix)
    ensures AfterPolygons(t, p, run[n])
  {
    if n == t.offset {
      LoopsMeet(t, k, suffix, run, result, p);
    } else {
      var v := n - 1;
      PolygonsRun(t, k, suffix, run, result, p, v);
      assert IsTurn(t, suffix, run[v], run[v + 1], v);
      ClassesKeepEdges(t, k, suffix, p);
      PolygonClass(t, k, suffix, p, v);
      var s' := TurnSound(t, p, suffix, run[v], run[n], v);
    }
  }

  lemma ClassesLink(t: Task, k: Owners, suffix: nat, p: Owners, c: set<nat>,
                    l1: string, x1: Shape, l2: string, x2: Shape)
    requires ValidTask(t) && IsGraph(t.graph) && Symmetric(t.graph) && ValidOwners(t, k)
    requires OwnedByPolygons(t, k, suffix, p) && Origin(t, p, c, l1, x1) && Origin(t, p, c, l2, x2)
    ensures Linked(t, k, l1, x1, l2, x2)
  {
    var v := OriginIsNode(t, p, c, l1, x1);
    var w := OriginIsNode(t, p, c, l2, x2);
    assert NodeHas(t, k, v, l1, x1) && NodeHas(t, k, w, l2, x2);
    ReachesItself(t.graph, v);
    ReachesItself(t.graph, w);
    ShapedClass(t, k, suffix, v, v, l1, x1);
    ShapedClass(t, k, suffix, w, w, l2, x2);
    SameComponent(t.graph, v, w);
  }

  // Without a harmful clash only connected shapes share nets.
  lemma HarmlessIsSound(t: Task, k: Owners, suffix: nat, run: seq<Between>, result: Connectivity)
    requires Completed(t, k, suffix, run, result) && Clear(t, k, suffix) && NoHarm(t, k, suffix)
    ensures OnlyConnectedShare(t, k, result)
  {
    var p := PolygonsOwn(t, k, suffix);
    PolygonsRun(t, k, suffix, run, result, p, |t.graph|);
    forall net, l1, x1, l2, x2 | Has(result, net, l1, x1) && Has(result, net, l2, x2)
      ensures Linked(t, k, l1, x1, l2, x2)
    {
      ClassesLink(t, k, suffix, p, p.owner[net], l1, x1, l2, x2);
    }
  }

  // ---- The condition ----

  // A harmful clash puts shapes on one net that are not connected, if no shape is on two nodes.
  lemma HarmfulIsUnsound(t: Task, k: Owners, suffix: nat, run: seq<Between>, result: Connectivity, w: nat, h: nat)
    requires Completed(t, k, suffix, run, result) && OwnShapes(t, k) && Harmful(t, k, suffix, w, h)
    ensures !OnlyConnectedShare(t, k, result)
  {
    var v: nat, layer, shape :| v < |t.graph| && Reaches(t.graph, w, v) && NodeHas(t, k, v, layer, shape);
    ClashJoins(t, k, suffix, run, result, w, h, v, layer, shape);
    assert NodeHas(t, k, t.offset + h, t.layer, t.polygons[h]) by {
      assert t.polygons[t.offset + h - t.offset] == t.polygons[h];
    }
    if Linked(t, k, layer, shape, t.layer, t.polygons[h]) {
      var a: nat, b: nat :| a < |t.graph| && b < |t.graph| && NodeHas(t, k, a, layer, shape) &&
        NodeHas(t, k, b, t.layer, t.polygons[h]) && Reaches(t.graph, a, b);
      assert a == v && b == t.offset + h;
      ReachesTransitive(t.graph, w, v, t.offset + h);
    }
  }

  // Only connected shapes share nets exactly if every clashing net that has shapes, and is connected to no other
  // net, is connected to the polygon that is given its name.
  lemma OnlyConnectedIffHarmless(t: Task, k: Owners, suffix: nat, run: seq<Between>, result: Connectivity)
    requires Completed(t, k, suffix, run, result) && OwnShapes(t, k) && Clear(t, k, suffix)
    ensures OnlyConnectedShare(t, k, result) <==> NoHarm(t, k, suffix)
  {
    if NoHarm(t, k, suffix) {
      HarmlessIsSound(t, k, suffix, run, result);
    } else {
      var w: nat, h: nat :| Harmful(t, k, suffix, w, h);
      HarmfulIsUnsound(t, k, suffix, run, result, w, h);
    }
  }

  // ---- The smallest case ----

  // What every call guarantees is what the condition is about.
  lemma JoinsIsCompleted(before: Connectivity, after: Connectivity, polygons: seq<Shape>, layoutLayer: string,
                         layer: string, prefix: string, suffix: nat, extract: seq<set<Shape>> -> Graph,
                         t: Task, k: Owners)
    returns (run: seq<Between>)
    requires Joins(before, after, polygons, layoutLayer, layer, prefix, suffix, extract, t, k)
    ensures Completed(t, k, suffix, run, after)
  {
    run :| IsWholeRun(t, k, suffix, run, after);
    forall n | n in k.base
      ensures k.base[n] != map[]
    {
      assert layer in k.base[n];
    }
  }

  // A geometry in which nothing touches anything.
  function Apart(nodes: seq<set<Shape>>): (g: Graph)
    ensures |g| == |nodes| && forall v :: 0 <= v < |g| ==> g[v] == {}
  {
    seq(|nodes|, _ => {})
  }

  lemma ApartReaches(g: Graph, v: nat, w: nat)
    requires (forall u :: 0 <= u < |g| ==> g[u] == {}) && v < |g|
    ensures Reaches(g, v, w) <==> v == w
  {
    assert IsGraph(g);
    assert Component(g, v) == {v};
    ComponentIsReachable(g, v, w);
  }

  // A net with the first internal name, and a polygon that does not touch it: the call puts both on one net.
  method ConnectClash() returns (nets: Connectivity, ghost t: Task, ghost k: Owners)
    ensures ValidTask(t) && ValidOwners(t, k) && IsGraph(t.graph)
    ensures Together(nets, "METAL1", 1, "METAL1", 2)
    ensures Clear(t, k, 0) && !OnlyConnectedShare(t, k, nets)
  {
    var prefix := "__internal_net_";
    var db := new ConnectivityDatabase();
    db.nets := map[FreshName(prefix, 0) := map["METAL1" := {1}]];
    ghost var before := db.nets;
    var newSuffix;
    newSuffix, t, k := ConnectLayoutToLayer(db, [2], "METAL1", "METAL1", prefix, 0, Apart);
    nets := db.nets;
    ClashShown(before, nets, t, k);
  }

  lemma ClashShown(before: Connectivity, nets: Connectivity, t: Task, k: Owners)
    requires before == map[FreshName("__internal_net_", 0) := map["METAL1" := {1}]]
    requires Joins(before, nets, [2], "METAL1", "METAL1", "__internal_net_", 0, Apart, t, k)
    ensures Together(nets, "METAL1", 1, "METAL1", 2)
    ensures Clear(t, k, 0) && !OnlyConnectedShare(t, k, nets)
  {
    var name := FreshName("__internal_net_", 0);
    var run := JoinsIsCompleted(before, nets, [2], "METAL1", "METAL1", "__internal_net_", 0, Apart, t, k);
    OneName(before, k.names, name);
    SameLayer(before[name], "METAL1");
    assert k.base == before;
    ClashIsHarmful(t, k);
    ClashJoins(t, k, 0, run, nets, 0, 0, 0, "METAL1", 1);
    HarmfulIsUnsound(t, k, 0, run, nets, 0, 0);
  }

  lemma SameLayer(layers: Layers, layer: string)
    requires layer in layers
    ensures AddLayer(layers, layer, {}) == layers
  {
    assert ShapesOn(layers, layer) + {} == layers[layer];
  }

  lemma AllSame(names: seq<string>)
    requires forall i, j :: 0 <= i < |names| && 0 <= j < |names| ==> names[i] == names[j]
    ensures Distinct(names) <==> |names| <= 1
  {
    if |names| > 1 {
      assert names[0] == names[1];
    }
  }

  lemma OneName(c: Connectivity, names: seq<string>, name: string)
    requires Distinct(names) && (forall n :: n in names <==> n in c) && forall n :: n in c <==> n == name
    ensures names == [name]
  {
    assert name in names;
    assert forall i :: 0 <= i < |names| ==> names[i] in names;
    AllSame(names);
  }

  // The net, its polygon, and nothing between them.
  ghost predicate NetApart(t: Task, k: Owners) {
    && t.offset == 1 && t.polygons == [2] && t.layer == "METAL1" && |t.graph| == 2 && t.graph[0] == t.graph[1] == {}
    && |k.comp| == 2 && k.names == [Fresh(t, 0, 0)] && k.base == map[Fresh(t, 0, 0) := map["METAL1" := {1}]]
  }

  lemma ClashIsHarmful(t: Task, k: Owners)
    requires NetApart(t, k)
    ensures ValidTask(t) && ValidOwners(t, k) && IsGraph(t.graph)
    ensures Clear(t, k, 0) && OwnShapes(t, k) && Harmful(t, k, 0, 0, 0) && NodeHas(t, k, 0, "METAL1", 1)
    ensures Alone(t, 0) && Clash(t, k, 0, 0, 0) && Reaches(t.graph, 0, 0)
  {
    forall v: nat, w: nat | v < 2
      ensures Reaches(t.graph, v, w) <==> v == w
    {
      ApartReaches(t.graph, v, w);
    }
    assert NodeHas(t, k, 0, "METAL1", 1);
  }
}
