/** The recursive traversal that names, merges and erases nets
    (libs/polygon/doc/tutorial/connectivity_database.hpp). */
module NetMerger {
  import opened Graphs
  import opened NetState

  class ConnectivityDatabase {
    var nets: Connectivity

    constructor ()
      ensures nets == map[]
    {
      nets := map[];
    }
  }

  // One call of the layer connection: what it reads, its net id vector, and its local net variable.
  class Extraction {
    const task: Task
    const netIds: array<string>
    var localNet: string

    constructor (task: Task, ids: seq<string>)
      ensures this.task == task && fresh(netIds) && netIds[..] == ids
    {
      this.task := task;
      netIds := new string[|ids|](i requires 0 <= i < |ids| => ids[i]);
      localNet := "";
    }

    predicate ValidRef(slot: NetRef) {
      slot.Slot? ==> slot.index < netIds.Length
    }

    function Net(slot: NetRef): string
      requires ValidRef(slot)
      reads this, netIds
    {
      match slot
      case Slot(index) => netIds[index]
      case Local => localNet
    }

    method SetNet(slot: NetRef, net: string)
      requires ValidRef(slot)
      modifies this`localNet, netIds
      ensures netIds[..] == if slot.Slot? then old(netIds[..])[slot.index := net] else old(netIds[..])
      ensures localNet == if slot.Slot? then old(localNet) else net
    {
      match slot
      case Slot(index) => netIds[index] := net;
      case Local => localNet := net;
    }

    ghost function Snapshot(db: ConnectivityDatabase, slot: NetRef): State
      requires ValidRef(slot)
      reads this, netIds, db
    {
      State(db.nets, netIds[..], Net(slot))
    }
  }

  function Restrict(layers: Layers, names: set<string>): Layers {
    map layer | layer in layers && layer in names :: layers[layer]
  }

  // One net's polygons on some of its layers, inserted into another net.
  function MergedPart(before: Layers, layers: Layers, names: set<string>): Layers {
    Merged(before, Restrict(layers, names))
  }

  lemma MergeOneMore(before: Layers, layers: Layers, done: set<string>, layer: string)
    requires layer in layers && layer !in done
    ensures MergedPart(before, layers, done + {layer}) ==
            AddLayer(MergedPart(before, layers, done), layer, layers[layer])
  {
    var r, q := Restrict(layers, done), Restrict(layers, done + {layer});
    assert q == r[layer := layers[layer]];
    MergedOneMore(before, r, layer, layers[layer]);
  }

  lemma MergedOneMore(a: Layers, b: Layers, layer: string, shapes: set<Shape>)
    requires layer !in b
    ensures Merged(a, b[layer := shapes]) == AddLayer(Merged(a, b), layer, shapes)
  {
    var m, n := Merged(a, b[layer := shapes]), AddLayer(Merged(a, b), layer, shapes);
    assert m.Keys == n.Keys;
    forall l | l in m
      ensures m[l] == n[l]
    {
      assert l != layer ==> ShapesOn(b[layer := shapes], l) == ShapesOn(b, l);
    }
  }

  // The database after some of one net's layers have been inserted into another.
  function Inserted(c: Connectivity, to: string, layers: Layers, done: set<string>): Connectivity {
    if done == {} then c else c[to := MergedPart(LayersOf(c, to), layers, done)]
  }

  lemma InsertedOneMore(c: Connectivity, to: string, layers: Layers, done: set<string>, layer: string)
    requires layer in layers && layer !in done
    ensures Inserted(c, to, layers, done + {layer}) ==
            AddShapes(Inserted(c, to, layers, done), to, layer, layers[layer])
  {
    var before := LayersOf(c, to);
    MergeOneMore(before, layers, done, layer);
    assert layer in done + {layer};
    if done == {} {
      var none: Layers := Restrict(layers, done);
      assert none == map[];
      MergedNothing(before, none);
    }
  }

  lemma MergedNothing(a: Layers, b: Layers)
    requires b == map[]
    ensures Merged(a, b) == a
  {
    assert Merged(a, b).Keys == a.Keys;
    forall l | l in a
      ensures Merged(a, b)[l] == a[l]
    {
      assert ShapesOn(a, l) + ShapesOn(b, l) == a[l];
    }
  }

  lemma InsertedAll(c: Connectivity, from: string, to: string)
    requires from in c && from != to
    ensures Inserted(c, to, c[from], c[from].Keys) - {from} == MoveNet(c, from, to)
  {
    assert Restrict(c[from], c[from].Keys) == c[from];
    assert c[from].Keys == {} <==> c[from] == map[];
  }

  // Insert one net's polygons into another, layer by layer, and erase it.
  method MergeNets(db: ConnectivityDatabase, from: string, to: string)
    requires from != to
    modifies db
    ensures db.nets == MoveNet(old(db.nets), from, to)
  {
    if from in db.nets {
      var layers := db.nets[from];
      ghost var c, done: set<string> := db.nets, {};
      var todo := layers.Keys;
      while todo != {}
        invariant todo + done == layers.Keys && todo !! done
        invariant db.nets == Inserted(c, to, layers, done)
      {
        var layer :| layer in todo;
        InsertedOneMore(c, to, layers, done, layer);
        db.nets := AddShapes(db.nets, to, layer, layers[layer]);
        todo, done := todo - {layer}, done + {layer};
      }
      assert done == layers.Keys;
      InsertedAll(c, from, to);
      db.nets := db.nets - {from};
    }
  }

  // The part of the traversal that concerns the node itself.
  method VisitInPlace(db: ConnectivityDatabase, x: Extraction, slot: NetRef, node: nat)
    requires x.ValidRef(slot)
    requires x.netIds.Length == x.task.offset && node < x.task.offset + |x.task.polygons|
    modifies db, x`localNet, x.netIds
    ensures x.Snapshot(db, slot) == VisitNode(x.task, slot, old(x.Snapshot(db, slot)), node)
  {
    if node < x.task.offset && x.netIds[node] != x.Net(slot) {
      var net1, net2 := x.netIds[node], x.Net(slot);
      if x.task.prefix <= x.Net(slot) {
        x.SetNet(slot, net1);
        net1, net2 := net2, net1;
      } else {
        x.netIds[node] := x.Net(slot);
      }
      MergeNets(db, net1, net2);
    }
    if node >= x.task.offset {
      db.nets := AddShapes(db.nets, x.Net(slot), x.task.layer, {x.task.polygons[node - x.task.offset]});
    }
  }

  // The neighbours walked so far.
  ghost function VisitedFrom(g: Graph, from: set<nat>, color: Colors): (nodes: set<nat>)
    requires IsGraph(g) && |color| == |g| && forall u :: u in from ==> u < |g|
    ensures forall w :: w in nodes ==> w < |g|
  {
    set w | w in Permutations.Range(|g|) && exists u :: u in from && w in Visited(g, u, color)
  }

  lemma VisitedFromOneMore(g: Graph, from: set<nat>, u: nat, color: Colors)
    requires IsGraph(g) && |color| == |g| && u < |g| && forall v :: v in from ==> v < |g|
    ensures VisitedFrom(g, from + {u}, color) == VisitedFrom(g, from, color) + Visited(g, u, color)
  {
    var more := from + {u};
    forall w: nat
      ensures w in VisitedFrom(g, more, color) <==> w in VisitedFrom(g, from, color) || w in Visited(g, u, color)
    {
      if w in VisitedFrom(g, from, color) {
        var v :| v in from && w in Visited(g, v, color);
        assert v in more;
      } else if w in Visited(g, u, color) {
        assert u in more;
      }
    }
  }

  lemma VisitedUnfolds(g: Graph, v: nat, color: Colors)
    requires IsGraph(g) && |color| == |g| && v < |g| && color[v] != 1
    ensures Visited(g, v, color) == {v} + VisitedFrom(g, g[v], color[v := 1])
  {
  }

  // The traversal from a node. Colours are passed by value, the net by reference. It visits nodes one after
  // the other: those, and only those, that can be reached through uncoloured nodes.
  method PopulateConnectedComponent(db: ConnectivityDatabase, x: Extraction, color: Colors, node: nat, slot: NetRef)
    returns (ghost trace: seq<nat>)
    requires ValidTask(x.task) && IsGraph(x.task.graph)
    requires |color| == |x.task.graph| && node < |x.task.graph|
    requires x.ValidRef(slot) && x.netIds.Length == x.task.offset
    modifies db, x`localNet, x.netIds
    ensures x.Snapshot(db, slot) == VisitAll(x.task, slot, old(x.Snapshot(db, slot)), trace)
    ensures Nodes(trace) == Visited(x.task.graph, node, color)
    decreases |White(color)|, 0
  {
    if color[node] == 1 {
      return [];
    }
    ghost var t, start := x.task, x.Snapshot(db, slot);
    ColoringShrinks(color, node);
    VisitedUnfolds(t.graph, node, color);
    var mine := color[node := 1];
    VisitInPlace(db, x, slot, node);
    assert VisitAll(t, slot, start, [node]) == VisitNode(t, slot, start, node) by {
      assert [node][..0] == [];
    }
    ghost var rest := PopulateNeighbours(db, x, mine, node, slot);
    VisitAllThen(t, slot, start, [node], rest);
    trace := [node] + rest;
    assert Nodes(trace) == {node} + Nodes(rest);
  }

  // The loop over a node's neighbours, each walked with the same colours.
  method PopulateNeighbours(db: ConnectivityDatabase, x: Extraction, color: Colors, node: nat, slot: NetRef)
    returns (ghost trace: seq<nat>)
    requires ValidTask(x.task) && IsGraph(x.task.graph)
    requires |color| == |x.task.graph| && node < |x.task.graph|
    requires x.ValidRef(slot) && x.netIds.Length == x.task.offset
    modifies db, x`localNet, x.netIds
    ensures x.Snapshot(db, slot) == VisitAll(x.task, slot, old(x.Snapshot(db, slot)), trace)
    ensures Nodes(trace) == VisitedFrom(x.task.graph, x.task.graph[node], color)
    decreases |White(color)|, 1
  {
    ghost var g, done: set<nat> := x.task.graph, {};
    trace := [];
    var todo := x.task.graph[node];
    while todo != {}
      invariant todo + done == g[node]
      invariant x.Snapshot(db, slot) == VisitAll(x.task, slot, old(x.Snapshot(db, slot)), trace)
      invariant Nodes(trace) == VisitedFrom(g, done, color)
    {
      var u :| u in todo;
      ghost var more := PopulateConnectedComponent(db, x, color, u, slot);
      VisitAllThen(x.task, slot, old(x.Snapshot(db, slot)), trace, more);
      VisitedFromOneMore(g, done, u, color);
      assert Nodes(trace + more) == Nodes(trace) + Nodes(more);
      trace, todo, done := trace + more, todo - {u}, done + {u};
    }
    assert done == g[node];
  }
}
