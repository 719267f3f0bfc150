/** One layer connection as a run of walks, one from every net and then one from every polygon
    (libs/polygon/doc/tutorial/connectivity_database.hpp). */
module LayerTurns {
  import opened Graphs
  import opened NetState
  import opened NetOwners
  import opened LayerInvariant

  // The database and the net ids between two walks.
  datatype Between = Between(conn: Connectivity, ids: seq<string>)

  // What the net parameter of the walk from a node refers to.
  function SlotOf(t: Task, v: nat): NetRef {
    if v < t.offset then Slot(v) else Local
  }

  function StartOf(t: Task, suffix: nat, b: Between, v: nat): State {
    State(b.conn, b.ids,
          if v < t.offset then (if v < |b.ids| then b.ids[v] else "") else Fresh(t, suffix, v - t.offset))
  }

  ghost predicate TurnBy(t: Task, suffix: nat, b: Between, b': Between, v: nat, trace: seq<nat>)
    requires IsGraph(t.graph) && v < |t.graph|
  {
    var s := VisitAll(t, SlotOf(t, v), StartOf(t, suffix, b, v), trace);
    Nodes(trace) == Component(t.graph, v) && b' == Between(s.conn, s.ids)
  }

  // A walk from the node, in any order.
  ghost predicate IsTurn(t: Task, suffix: nat, b: Between, b': Between, v: nat)
    requires IsGraph(t.graph) && v < |t.graph|
  {
    exists trace :: TurnBy(t, suffix, b, b', v, trace)
  }

  // Walks from the first nodes.
  ghost predicate IsTurns(t: Task, suffix: nat, run: seq<Between>)
    requires IsGraph(t.graph)
  {
    0 < |run| <= |t.graph| + 1 && forall v :: 0 <= v < |run| - 1 ==> IsTurn(t, suffix, run[v], run[v + 1], v)
  }

  lemma TurnsExtended(t: Task, suffix: nat, run: seq<Between>, b: Between)
    requires IsGraph(t.graph) && IsTurns(t, suffix, run) && |run| <= |t.graph|
    requires IsTurn(t, suffix, run[|run| - 1], b, |run| - 1)
    ensures IsTurns(t, suffix, run + [b])
  {
    var longer := run + [b];
    forall v | 0 <= v < |longer| - 1
      ensures IsTurn(t, suffix, longer[v], longer[v + 1], v)
    {
      if v < |run| - 1 {
        assert longer[v] == run[v] && longer[v + 1] == run[v + 1];
      } else {
        assert longer[v] == run[|run| - 1] && longer[v + 1] == b && v == |run| - 1;
      }
    }
  }

  // What holds at the start and after every turn holds throughout the run.
  lemma {:induction false} RunKeeps(t: Task, suffix: nat, run: seq<Between>, holds: (nat, Between) -> bool, n: nat)
    requires IsGraph(t.graph) && IsTurns(t, suffix, run) && n < |run| && holds(0, run[0])
    requires forall v: nat, b, b' {:trigger IsTurn(t, suffix, b, b', v)} ::
               v < |t.graph| && holds(v, b) && IsTurn(t, suffix, b, b', v) ==> holds(v + 1, b')
    ensures holds(n, run[n])
  {
    if n > 0 {
      RunKeeps(t, suffix, run, holds, n - 1);
      assert IsTurn(t, suffix, run[n - 1], run[n - 1 + 1], n - 1);
    }
  }

  lemma TraceInGraph(t: Task, v: nat, trace: seq<nat>)
    requires IsGraph(t.graph) && v < |t.graph| && Nodes(trace) == Component(t.graph, v)
    ensures v in trace && forall u :: u in trace ==> u < |t.graph|
  {
    assert v in Nodes(trace);
    assert forall u :: u in trace ==> u in Nodes(trace);
  }

  // Whatever is the same for neighbours is the same for a whole component.
  lemma ComponentKeepsClass(t: Task, k: Owners, v: nat, w: nat)
    requires ValidTask(t) && IsGraph(t.graph) && ValidOwners(t, k) && EdgesKeepComponent(t, k)
    requires v < |t.graph| && w in Component(t.graph, v)
    ensures k.comp[w] == k.comp[v]
  {
    var p := VisitedHasPath(t.graph, v, NoColors(|t.graph|), w);
    PathKeepsLabel(t.graph, k.comp, p);
  }

  // A walk within a class guarantees all that visits in the class guarantee.
  lemma TurnWalked(t: Task, k: Owners, suffix: nat, b: Between, b': Between, v: nat) returns (s': State)
    requires ValidTask(t) && IsGraph(t.graph) && ValidOwners(t, k) && EdgesKeepComponent(t, k) && v < |t.graph|
    requires IsTurn(t, suffix, b, b', v) && Ready(t, k, SlotOf(t, v), k.comp[v], StartOf(t, suffix, b, v))
    ensures s'.conn == b'.conn && s'.ids == b'.ids && v in Component(t.graph, v)
    ensures Walked(t, k, SlotOf(t, v), k.comp[v], StartOf(t, suffix, b, v), s', Component(t.graph, v))
  {
    var trace :| TurnBy(t, suffix, b, b', v, trace);
    forall w | w in trace
      ensures w < |t.graph| && k.comp[w] == k.comp[v]
    {
      assert w in Nodes(trace);
      ComponentKeepsClass(t, k, v, w);
    }
    s' := VisitAll(t, SlotOf(t, v), StartOf(t, suffix, b, v), trace);
    TraceWalked(t, k, SlotOf(t, v), k.comp[v], StartOf(t, suffix, b, v), trace);
  }
}
