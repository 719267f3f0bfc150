/** The connectivity database as a value, the effect of one traversal step on it,
    and what a whole traversal does (libs/polygon/doc/tutorial/connectivity_database.hpp). */
module NetState {
  import opened Graphs

  // Polygons are tokens, polygon sets are sets of them.
  type Shape = nat
  type Layers = map<string, set<Shape>>
  type Connectivity = map<string, Layers>

  // What stays fixed during one call of the layer connection.
  datatype Task = Task(offset: nat, polygons: seq<Shape>, graph: Graph, prefix: string, layer: string)

  // One graph node for each net, then one for each polygon.
  ghost predicate ValidTask(t: Task) {
    |t.graph| == t.offset + |t.polygons|
  }

  // The net parameter is a reference: to an entry of the net id vector, or to a local variable.
  datatype NetRef = Slot(index: nat) | Local

  // The database, the net ids, and the value of the net parameter.
  datatype State = State(conn: Connectivity, ids: seq<string>, net: string)

  ghost predicate Aliased(slot: NetRef, s: State) {
    slot.Slot? ==> slot.index < |s.ids| && s.ids[slot.index] == s.net
  }

  // ---- Contents ----

  function LayersOf(c: Connectivity, net: string): Layers {
    if net in c then c[net] else map[]
  }

  ghost predicate Has(c: Connectivity, net: string, layer: string, shape: Shape) {
    net in c && layer in c[net] && shape in c[net][layer]
  }

  // Every net has an entry for some layer.
  ghost predicate Solid(c: Connectivity) {
    forall net :: net in c ==> c[net] != map[]
  }

  // If the first net exists then so does the second, with at least the same shapes.
  ghost predicate Within(c: Connectivity, net: string, c': Connectivity, net': string) {
    net in c ==>
      net' in c' && forall layer :: layer in c[net] ==> layer in c'[net'] && c[net][layer] <= c'[net'][layer]
  }

  lemma WithinTransitive(a: Connectivity, x: string, b: Connectivity, y: string, c: Connectivity, z: string)
    requires Within(a, x, b, y) && Within(b, y, c, z)
    ensures Within(a, x, c, z)
  {
  }

  // ---- One step ----

  // Insert shapes into a net on a layer, creating entries that are missing.
  function AddShapes(c: Connectivity, net: string, layer: string, shapes: set<Shape>): Connectivity {
    c[net := AddLayer(LayersOf(c, net), layer, shapes)]
  }

  function ShapesOn(layers: Layers, layer: string): set<Shape> {
    if layer in layers then layers[layer] else {}
  }

  function AddLayer(layers: Layers, layer: string, shapes: set<Shape>): Layers {
    layers[layer := ShapesOn(layers, layer) + shapes]
  }

  function Merged(a: Layers, b: Layers): Layers {
    map layer | layer in a.Keys + b.Keys :: ShapesOn(a, layer) + ShapesOn(b, layer)
  }

  // Move everything on one net to another and erase the first.
  function MoveNet(c: Connectivity, from: string, to: string): Connectivity {
    if from !in c then c
    else if c[from] == map[] then c - {from}
    else c[to := Merged(LayersOf(c, to), c[from])] - {from}
  }

  // Assigning to the net parameter also changes the entry it refers to.
  function SetNet(slot: NetRef, s: State, net: string): State {
    if slot.Slot? && slot.index < |s.ids| then s.(ids := s.ids[slot.index := net], net := net) else s.(net := net)
  }

  function Rename(t: Task, slot: NetRef, s: State, node: nat): State {
    if node < t.offset && node < |s.ids| && s.ids[node] != s.net then
      if t.prefix <= s.net then
        SetNet(slot, s, s.ids[node]).(conn := MoveNet(s.conn, s.net, s.ids[node]))
      else
        s.(ids := s.ids[node := s.net], conn := MoveNet(s.conn, s.ids[node], s.net))
    else s
  }

  function VisitNode(t: Task, slot: NetRef, s: State, node: nat): State {
    var r := Rename(t, slot, s, node);
    if t.offset <= node < t.offset + |t.polygons| then
      r.(conn := AddShapes(r.conn, r.net, t.layer, {t.polygons[node - t.offset]}))
    else r
  }

  // Visit some nodes in turn.
  function VisitAll(t: Task, slot: NetRef, s: State, trace: seq<nat>): State {
    if trace == [] then s
    else VisitNode(t, slot, VisitAll(t, slot, s, trace[..|trace| - 1]), trace[|trace| - 1])
  }

  lemma {:induction false} VisitAllThen(t: Task, slot: NetRef, s: State, first: seq<nat>, second: seq<nat>)
    ensures VisitAll(t, slot, s, first + second) == VisitAll(t, slot, VisitAll(t, slot, s, first), second)
  {
    if second == [] {
      assert first + second == first;
    } else {
      var front, last := second[..|second| - 1], second[|second| - 1];
      assert (first + second)[..|first + second| - 1] == first + front;
      VisitAllThen(t, slot, s, first, front);
    }
  }

  ghost function Nodes(trace: seq<nat>): set<nat> {
    set v | v in trace
  }

  // ---- What any number of steps keeps ----

  ghost predicate InNames(s: State, net: string) {
    net == s.net || net in s.ids
  }

  // Everything on a net either stays where it is or ends up on the current net.
  ghost predicate Conserves(s: State, s': State) {
    && (forall n :: n in s'.conn && n != s'.net ==> n in s.conn && s'.conn[n] == s.conn[n])
    && (forall n :: n in s.conn ==> (n in s'.conn && n != s'.net) || Within(s.conn, n, s'.conn, s'.net))
  }

  // The current net's name only changes by moving the net.
  ghost predicate FollowsNet(t: Task, s: State, s': State) {
    && (s.net in s'.conn ==> s.net == s'.net)
    && (s'.net == s.net || s'.net in s'.ids)
    && (!(t.prefix <= s.net) ==> s'.net == s.net)
  }

  // A net id only changes to the current net, and its old name is gone.
  ghost predicate RenamesIds(t: Task, slot: NetRef, s: State, s': State) {
    && |s'.ids| == |s.ids|
    && forall w :: 0 <= w < |s.ids| && s'.ids[w] != s.ids[w] ==>
         && s'.ids[w] == s'.net
         && (s.ids[w] in s'.conn ==> s.ids[w] == s'.net)
         && (slot == Slot(w) || !(t.prefix <= s'.net))
  }

  // No name is invented, and only nets whose names are in use are erased or changed.
  ghost predicate UsesNames(s: State, s': State) {
    && (forall n :: InNames(s', n) ==> InNames(s, n))
    && (forall n :: n in s.conn && !InNames(s, n) ==> n in s'.conn && s'.conn[n] == s.conn[n])
  }

  ghost predicate Progress(t: Task, slot: NetRef, s: State, s': State) {
    && Conserves(s, s') && FollowsNet(t, s, s') && RenamesIds(t, slot, s, s') && UsesNames(s, s')
    && Aliased(slot, s) && Aliased(slot, s') && Solid(s.conn) && Solid(s'.conn)
  }

  // What a traversal achieves for the nodes it visits: their polygons are on the current net,
  // what was on their nets is too, no other net keeps their names, and a name that is not internal wins.
  ghost predicate Covers(t: Task, s: State, s': State, nodes: set<nat>) {
    && (forall w :: w in nodes && t.offset <= w < t.offset + |t.polygons| ==>
          Has(s'.conn, s'.net, t.layer, t.polygons[w - t.offset]))
    && (forall w :: w in nodes && w < t.offset && w < |s.ids| ==>
          && Within(s.conn, s.ids[w], s'.conn, s'.net)
          && (s.ids[w] in s'.conn ==> s.ids[w] == s'.net)
          && s'.net in s'.ids
          && (!(t.prefix <= s.ids[w]) ==> !(t.prefix <= s'.net)))
  }

  lemma CoversPolygon(t: Task, s: State, s': State, nodes: set<nat>, j: nat)
    requires Covers(t, s, s', nodes) && j < |t.polygons| && t.offset + j in nodes
    ensures Has(s'.conn, s'.net, t.layer, t.polygons[j])
  {
    assert t.polygons[t.offset + j - t.offset] == t.polygons[j];
  }

  lemma MoveNetContents(c: Connectivity, from: string, to: string)
    requires Solid(c) && from != to
    ensures Solid(MoveNet(c, from, to)) && from !in MoveNet(c, from, to)
    ensures Within(c, from, MoveNet(c, from, to), to) && Within(c, to, MoveNet(c, from, to), to)
  {
    var m := MoveNet(c, from, to);
    if from in c {
      var layer :| layer in c[from];
      assert layer in Merged(LayersOf(c, to), c[from]);
      assert to in m && m[to] == Merged(LayersOf(c, to), c[from]);
    }
  }

  lemma MoveNetElsewhere(c: Connectivity, from: string, to: string, n: string)
    requires n != from && n != to
    ensures n in c <==> n in MoveNet(c, from, to)
    ensures n in c ==> MoveNet(c, from, to)[n] == c[n]
  {
  }

  // Moving one net to another, where the second is the current net afterwards.
  lemma MoveConserves(s: State, s': State, from: string)
    requires Solid(s.conn) && from != s'.net && s'.conn == MoveNet(s.conn, from, s'.net)
    ensures Conserves(s, s') && Solid(s'.conn)
  {
    MoveNetContents(s.conn, from, s'.net);
    forall n | n != from && n != s'.net
      ensures n in s.conn <==> n in s'.conn
      ensures n in s.conn ==> s'.conn[n] == s.conn[n]
    {
      MoveNetElsewhere(s.conn, from, s'.net, n);
    }
  }

  lemma RenameProgress(t: Task, slot: NetRef, s: State, node: nat)
    requires |s.ids| == t.offset && Aliased(slot, s) && Solid(s.conn)
    ensures Progress(t, slot, s, Rename(t, slot, s, node))
    ensures node < t.offset ==> Covers(t, s, Rename(t, slot, s, node), {node})
  {
    if node < t.offset && s.ids[node] != s.net {
      if t.prefix <= s.net {
        RenameInternal(t, slot, s, node);
      } else {
        RenameExternal(t, slot, s, node);
      }
    }
  }

  // An internal net takes the name of the net it meets.
  lemma RenameInternal(t: Task, slot: NetRef, s: State, node: nat)
    requires |s.ids| == t.offset && Aliased(slot, s) && Solid(s.conn)
    requires node < t.offset && s.ids[node] != s.net && t.prefix <= s.net
    ensures Progress(t, slot, s, Rename(t, slot, s, node)) && Covers(t, s, Rename(t, slot, s, node), {node})
  {
    var r := Rename(t, slot, s, node);
    MoveConserves(s, r, s.net);
    MoveNetContents(s.conn, s.net, s.ids[node]);
    assert r.ids[node] == s.ids[node] == r.net;
  }

  // Any other net gives its name to the net it meets.
  lemma RenameExternal(t: Task, slot: NetRef, s: State, node: nat)
    requires |s.ids| == t.offset && Aliased(slot, s) && Solid(s.conn)
    requires node < t.offset && s.ids[node] != s.net && !(t.prefix <= s.net)
    ensures Progress(t, slot, s, Rename(t, slot, s, node)) && Covers(t, s, Rename(t, slot, s, node), {node})
  {
    var r := Rename(t, slot, s, node);
    MoveConserves(s, r, s.ids[node]);
    MoveNetContents(s.conn, s.ids[node], s.net);
    assert r.ids[node] == r.net;
  }

  lemma AddProgress(t: Task, slot: NetRef, s: State, layer: string, shapes: set<Shape>)
    requires Aliased(slot, s) && Solid(s.conn)
    ensures Progress(t, slot, s, s.(conn := AddShapes(s.conn, s.net, layer, shapes)))
    ensures forall x :: x in shapes ==> Has(AddShapes(s.conn, s.net, layer, shapes), s.net, layer, x)
  {
    var c := AddShapes(s.conn, s.net, layer, shapes);
    assert c[s.net] != map[] by { assert layer in c[s.net]; }
  }

  lemma VisitNodeCovers(t: Task, slot: NetRef, s: State, node: nat)
    requires |s.ids| == t.offset && Aliased(slot, s) && Solid(s.conn)
    requires node < t.offset + |t.polygons|
    ensures Progress(t, slot, s, VisitNode(t, slot, s, node))
    ensures Covers(t, s, VisitNode(t, slot, s, node), {node})
  {
    if node < t.offset {
      assert VisitNode(t, slot, s, node) == Rename(t, slot, s, node);
      RenameProgress(t, slot, s, node);
    } else {
      AddCovers(t, slot, s, node);
    }
  }

  lemma AddCovers(t: Task, slot: NetRef, s: State, node: nat)
    requires Aliased(slot, s) && Solid(s.conn) && t.offset <= node < t.offset + |t.polygons|
    ensures Progress(t, slot, s, VisitNode(t, slot, s, node))
    ensures Covers(t, s, VisitNode(t, slot, s, node), {node})
  {
    var shape := t.polygons[node - t.offset];
    assert VisitNode(t, slot, s, node) == s.(conn := AddShapes(s.conn, s.net, t.layer, {shape}));
    AddProgress(t, slot, s, t.layer, {shape});
  }

  // ---- Traversals compose ----

  lemma NoProgress(t: Task, slot: NetRef, s: State)
    requires Aliased(slot, s) && Solid(s.conn)
    ensures Progress(t, slot, s, s) && Covers(t, s, s, {})
  {
  }

  lemma ConservesThen(t: Task, slot: NetRef, a: State, b: State, c: State)
    requires Progress(t, slot, a, b) && Progress(t, slot, b, c)
    ensures Conserves(a, c)
  {
    forall n | n in c.conn && n != c.net
      ensures n in a.conn && c.conn[n] == a.conn[n]
    {
      assert n in b.conn && c.conn[n] == b.conn[n];
      assert n != b.net;
    }
    forall n | n in a.conn
      ensures (n in c.conn && n != c.net) || Within(a.conn, n, c.conn, c.net)
    {
      if n in b.conn && n != b.net {
        if !(n in c.conn && n != c.net) {
          assert Within(b.conn, n, c.conn, c.net);
          assert a.conn[n] == b.conn[n];
        }
      } else {
        CurrentNetKept(t, slot, b, c);
        WithinTransitive(a.conn, n, b.conn, b.net, c.conn, c.net);
      }
    }
  }

  lemma CurrentNetKept(t: Task, slot: NetRef, s: State, s': State)
    requires Progress(t, slot, s, s')
    ensures Within(s.conn, s.net, s'.conn, s'.net)
  {
  }

  lemma RenamesThen(t: Task, slot: NetRef, a: State, b: State, c: State)
    requires Progress(t, slot, a, b) && Progress(t, slot, b, c)
    ensures RenamesIds(t, slot, a, c)
  {
    forall w | 0 <= w < |a.ids| && c.ids[w] != a.ids[w]
      ensures c.ids[w] == c.net
      ensures a.ids[w] in c.conn ==> a.ids[w] == c.net
      ensures slot == Slot(w) || !(t.prefix <= c.net)
    {
    }
  }

  lemma ProgressThen(t: Task, slot: NetRef, a: State, b: State, c: State)
    requires Progress(t, slot, a, b) && Progress(t, slot, b, c)
    ensures Progress(t, slot, a, c)
  {
    ConservesThen(t, slot, a, b, c);
    RenamesThen(t, slot, a, b, c);
    CurrentNameStays(t, slot, a, b, c);
  }

  lemma CurrentNameStays(t: Task, slot: NetRef, a: State, b: State, c: State)
    requires Progress(t, slot, a, b) && Progress(t, slot, b, c)
    ensures FollowsNet(t, a, c)
    ensures b.net in b.ids ==> c.net in c.ids
  {
    if b.net in b.ids && c.net == b.net {
      var w :| 0 <= w < |b.ids| && b.ids[w] == b.net;
      assert c.ids[w] == c.net;
    }
  }

  lemma CoversThen(t: Task, slot: NetRef, a: State, b: State, c: State, first: set<nat>, second: set<nat>)
    requires Progress(t, slot, a, b) && Covers(t, a, b, first)
    requires Progress(t, slot, b, c) && Covers(t, b, c, second)
    ensures Covers(t, a, c, first + second)
  {
    CurrentNetKept(t, slot, b, c);
    CurrentNameStays(t, slot, a, b, c);
    forall w | w in first + second && w < t.offset && w < |a.ids|
      ensures Within(a.conn, a.ids[w], c.conn, c.net)
      ensures a.ids[w] in c.conn ==> a.ids[w] == c.net
      ensures c.net in c.ids
      ensures !(t.prefix <= a.ids[w]) ==> !(t.prefix <= c.net)
    {
      var n := a.ids[w];
      if w in first {
        WithinTransitive(a.conn, n, b.conn, b.net, c.conn, c.net);
      } else if b.ids[w] == n {
        if n in a.conn && !(n in b.conn && n != b.net) {
          WithinTransitive(a.conn, n, b.conn, b.net, c.conn, c.net);
        }
      } else {
        assert n in a.conn ==> Within(a.conn, n, b.conn, b.net);
      }
    }
  }

  // Whatever the nodes, their order, and however often they are visited.
  lemma {:induction false} TraceCovers(t: Task, slot: NetRef, s: State, trace: seq<nat>)
    requires |s.ids| == t.offset && Aliased(slot, s) && Solid(s.conn)
    requires forall v :: v in trace ==> v < t.offset + |t.polygons|
    ensures Progress(t, slot, s, VisitAll(t, slot, s, trace))
    ensures Covers(t, s, VisitAll(t, slot, s, trace), Nodes(trace))
  {
    if trace == [] {
      NoProgress(t, slot, s);
    } else {
      var front, last := trace[..|trace| - 1], trace[|trace| - 1];
      assert trace == front + [last];
      assert last in trace && forall v :: v in front ==> v in trace;
      var before := VisitAll(t, slot, s, front);
      TraceCovers(t, slot, s, front);
      VisitNodeCovers(t, slot, before, last);
      ProgressThen(t, slot, s, before, VisitNode(t, slot, before, last));
      CoversThen(t, slot, s, before, VisitNode(t, slot, before, last), Nodes(front), {last});
      assert Nodes(trace) == Nodes(front) + {last};
    }
  }
}
