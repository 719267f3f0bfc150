/** Which connected component each net name belongs to, and why shapes of different
    components are never put on one net. */
module NetOwners {
  import opened NetState

  // A component for every node and for every net name in use,
  // and the database and net names before the call.
  datatype Owners = Owners(comp: seq<set<nat>>, owner: map<string, set<nat>>, base: Connectivity, names: seq<string>)

  ghost predicate ValidOwners(t: Task, k: Owners) {
    |k.comp| == |t.graph| && |k.names| == t.offset
  }

  // Neighbours belong to the same component.
  ghost predicate EdgesKeepComponent(t: Task, k: Owners) {
    forall v, u :: 0 <= v < |t.graph| && u in t.graph[v] && v < |k.comp| && u < |k.comp| ==> k.comp[u] == k.comp[v]
  }

  // A net node of the component had the shape, or the shape is one of the component's polygons.
  ghost predicate Origin(t: Task, k: Owners, c: set<nat>, layer: string, shape: Shape)
    requires ValidTask(t) && ValidOwners(t, k)
  {
    || (exists w :: 0 <= w < t.offset && k.comp[w] == c && Has(k.base, k.names[w], layer, shape))
    || (layer == t.layer && exists j :: 0 <= j < |t.polygons| && t.polygons[j] == shape && k.comp[t.offset + j] == c)
  }

  // Net ids belong to their nodes' components, the current net to component c.
  ghost predicate Tagged(t: Task, k: Owners, s: State, c: set<nat>)
    requires ValidTask(t) && ValidOwners(t, k)
  {
    && |s.ids| == t.offset
    && (forall w :: 0 <= w < |s.ids| ==> s.ids[w] in k.owner && k.owner[s.ids[w]] == k.comp[w])
    && s.net in k.owner && k.owner[s.net] == c
  }

  // Every shape on a net originates in the net's component.
  ghost predicate Sound(t: Task, k: Owners, c: Connectivity)
    requires ValidTask(t) && ValidOwners(t, k)
  {
    && (forall net :: net in c ==> net in k.owner)
    && forall net, layer, shape :: Has(c, net, layer, shape) ==>
                                     net in k.owner && Origin(t, k, k.owner[net], layer, shape)
  }

  // Nets of other components are as before.
  ghost predicate Untouched(k: Owners, c: set<nat>, before: Connectivity, after: Connectivity) {
    forall net :: net in k.owner && k.owner[net] != c ==>
                    (net in before <==> net in after) && (net in before ==> before[net] == after[net])
  }

  lemma MoveNetSound(t: Task, k: Owners, c: Connectivity, from: string, to: string)
    requires ValidTask(t) && ValidOwners(t, k) && Sound(t, k, c) && from != to
    requires from in k.owner && to in k.owner && k.owner[from] == k.owner[to]
    ensures Sound(t, k, MoveNet(c, from, to))
    ensures Untouched(k, k.owner[to], c, MoveNet(c, from, to))
  {
    var m := MoveNet(c, from, to);
    forall net, layer, shape | Has(m, net, layer, shape)
      ensures net in k.owner && Origin(t, k, k.owner[net], layer, shape)
    {
      if net == to && from in c {
        assert Has(c, to, layer, shape) || Has(c, from, layer, shape);
      } else {
        assert Has(c, net, layer, shape);
      }
    }
  }

  lemma AddSound(t: Task, k: Owners, c: Connectivity, net: string, j: nat)
    requires ValidTask(t) && ValidOwners(t, k) && Sound(t, k, c)
    requires j < |t.polygons| && net in k.owner && k.owner[net] == k.comp[t.offset + j]
    ensures Sound(t, k, AddShapes(c, net, t.layer, {t.polygons[j]}))
    ensures Untouched(k, k.owner[net], c, AddShapes(c, net, t.layer, {t.polygons[j]}))
  {
    var m := AddShapes(c, net, t.layer, {t.polygons[j]});
    forall n, layer, shape | Has(m, n, layer, shape)
      ensures n in k.owner && Origin(t, k, k.owner[n], layer, shape)
    {
      assert Has(c, n, layer, shape) || (n == net && layer == t.layer && shape == t.polygons[j]);
    }
  }

  lemma VisitNodeTagged(t: Task, k: Owners, slot: NetRef, s: State, node: nat)
    requires ValidTask(t) && ValidOwners(t, k) && node < |t.graph|
    requires Tagged(t, k, s, k.comp[node]) && Sound(t, k, s.conn) && Aliased(slot, s)
    ensures var s' := VisitNode(t, slot, s, node);
            && Tagged(t, k, s', k.comp[node]) && Sound(t, k, s'.conn)
            && Untouched(k, k.comp[node], s.conn, s'.conn)
  {
    if node < t.offset {
      if s.ids[node] != s.net {
        if t.prefix <= s.net {
          MoveNetSound(t, k, s.conn, s.net, s.ids[node]);
        } else {
          MoveNetSound(t, k, s.conn, s.ids[node], s.net);
        }
      }
    } else {
      AddSound(t, k, s.conn, s.net, node - t.offset);
    }
  }

  // All that a traversal in component c guarantees about the nodes it covered.
  ghost predicate Walked(t: Task, k: Owners, slot: NetRef, c: set<nat>, s: State, s': State, covered: set<nat>)
    requires ValidTask(t) && ValidOwners(t, k)
  {
    && Progress(t, slot, s, s') && Covers(t, s, s', covered)
    && Sound(t, k, s'.conn) && Tagged(t, k, s', c) && Untouched(k, c, s.conn, s'.conn)
  }

  ghost predicate Ready(t: Task, k: Owners, slot: NetRef, c: set<nat>, s: State)
    requires ValidTask(t) && ValidOwners(t, k)
  {
    Solid(s.conn) && Sound(t, k, s.conn) && Tagged(t, k, s, c) && Aliased(slot, s)
  }

  // Visits keep every net and the current net within their components.
  lemma {:induction false} TraceTagged(t: Task, k: Owners, slot: NetRef, c: set<nat>, s: State, trace: seq<nat>)
    requires ValidTask(t) && ValidOwners(t, k) && Ready(t, k, slot, c, s)
    requires forall v :: v in trace ==> v < |t.graph| && k.comp[v] == c
    ensures var s' := VisitAll(t, slot, s, trace);
            Ready(t, k, slot, c, s') && Untouched(k, c, s.conn, s'.conn)
  {
    if trace != [] {
      var front, last := trace[..|trace| - 1], trace[|trace| - 1];
      assert last in trace && forall v :: v in front ==> v in trace;
      TraceTagged(t, k, slot, c, s, front);
      var before := VisitAll(t, slot, s, front);
      VisitNodeTagged(t, k, slot, before, last);
      VisitNodeCovers(t, slot, before, last);
    }
  }

  // Whatever the order in which nodes of a component are visited, and however often.
  lemma TraceWalked(t: Task, k: Owners, slot: NetRef, c: set<nat>, s: State, trace: seq<nat>)
    requires ValidTask(t) && ValidOwners(t, k) && Ready(t, k, slot, c, s)
    requires forall v :: v in trace ==> v < |t.graph| && k.comp[v] == c
    ensures Walked(t, k, slot, c, s, VisitAll(t, slot, s, trace), Nodes(trace))
  {
    TraceTagged(t, k, slot, c, s, trace);
    TraceCovers(t, slot, s, trace);
  }
}
