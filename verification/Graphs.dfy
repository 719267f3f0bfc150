/** Graphs given by adjacency sets, and what a depth-first walk with a colour vector per path reaches. */
module Graphs {
  import opened Permutations

  type Graph = seq<set<nat>>

  ghost predicate IsGraph(g: Graph) {
    forall v :: 0 <= v < |g| ==> forall u :: u in g[v] ==> u < |g|
  }

  ghost predicate Symmetric(g: Graph)
    requires IsGraph(g)
  {
    forall v, u :: 0 <= v < |g| && u in g[v] ==> v in g[u]
  }

  ghost predicate IsPath(g: Graph, p: seq<nat>) {
    && p != []
    && (forall i :: 0 <= i < |p| ==> p[i] < |g|)
    && (forall i :: 0 < i < |p| ==> p[i] in g[p[i - 1]])
  }

  ghost predicate Reaches(g: Graph, v: nat, w: nat) {
    exists p :: IsPath(g, p) && p[0] == v && p[|p| - 1] == w
  }

  // ---- The walk ----

  type Colors = seq<int>

  ghost function White(color: Colors): set<nat> {
    set i: nat | i < |color| && color[i] != 1
  }

  lemma ColoringShrinks(color: Colors, v: nat)
    requires v < |color| && color[v] != 1
    ensures White(color[v := 1]) == White(color) - {v}
    ensures |White(color[v := 1])| < |White(color)|
  {
    assert v in White(color);
  }

  // The nodes that a walk from v visits when coloured nodes are not entered
  // and every branch continues with its own copy of the colours.
  ghost function Visited(g: Graph, v: nat, color: Colors): (nodes: set<nat>)
    requires IsGraph(g) && |color| == |g| && v < |g|
    ensures color[v] != 1 ==> v in nodes
    ensures forall w :: w in nodes ==> w < |g|
    decreases |White(color)|
  {
    if color[v] == 1 then {}
    else
      ColoringShrinks(color, v);
      {v} + set w | w in Range(|g|) && exists u :: u in g[v] && w in Visited(g, u, color[v := 1])
  }

  ghost predicate Avoids(p: seq<nat>, color: Colors) {
    forall i :: 0 <= i < |p| ==> p[i] < |color| && color[p[i]] != 1
  }

  ghost function LastIndex(p: seq<nat>, v: nat): (k: nat)
    requires v in p
    ensures k < |p| && p[k] == v && forall i :: k < i < |p| ==> p[i] != v
  {
    if p[|p| - 1] == v then |p| - 1
    else
      assert v in p[..|p| - 1];
      LastIndex(p[..|p| - 1], v)
  }

  // Whatever a path through uncoloured nodes leads to is visited, although each branch
  // colours its own copy: cut the path at its last return to the start.
  lemma {:induction false} PathIsVisited(g: Graph, p: seq<nat>, color: Colors)
    requires IsGraph(g) && |color| == |g| && IsPath(g, p) && Avoids(p, color)
    ensures p[|p| - 1] in Visited(g, p[0], color)
    decreases |White(color)|
  {
    var v := p[0];
    var k := LastIndex(p, v);
    if k < |p| - 1 {
      var tail := p[k + 1..];
      ColoringShrinks(color, v);
      PathIsVisited(g, tail, color[v := 1]);
      assert tail[0] in g[v];
    }
  }

  lemma {:induction false} VisitedHasPath(g: Graph, v: nat, color: Colors, w: nat) returns (p: seq<nat>)
    requires IsGraph(g) && |color| == |g| && v < |g|
    requires w in Visited(g, v, color)
    ensures IsPath(g, p) && p[0] == v && p[|p| - 1] == w
    decreases |White(color)|
  {
    ColoringShrinks(color, v);
    if w == v {
      p := [v];
    } else {
      var u :| u in g[v] && w in Visited(g, u, color[v := 1]);
      var tail := VisitedHasPath(g, u, color[v := 1], w);
      p := [v] + tail;
    }
  }

  // Whatever is the same for neighbours is the same along a path.
  lemma {:induction false} PathKeepsLabel<T>(g: Graph, labels: seq<T>, p: seq<nat>)
    requires IsPath(g, p) && |labels| == |g|
    requires forall v, u :: 0 <= v < |g| && u in g[v] && u < |labels| ==> labels[u] == labels[v]
    ensures labels[p[|p| - 1]] == labels[p[0]]
  {
    if |p| > 1 {
      PathKeepsLabel(g, labels, p[1..]);
      assert p[1] in g[p[0]];
    }
  }

  function NoColors(n: nat): (color: Colors)
    ensures |color| == n && forall i :: 0 <= i < n ==> color[i] == 0
  {
    seq(n, _ => 0)
  }

  // The connected component of a node.
  ghost function Component(g: Graph, v: nat): (nodes: set<nat>)
    requires IsGraph(g) && v < |g|
    ensures forall w :: w in nodes ==> w < |g|
  {
    Visited(g, v, NoColors(|g|))
  }

  lemma ComponentIsReachable(g: Graph, v: nat, w: nat)
    requires IsGraph(g) && v < |g|
    ensures w in Component(g, v) <==> Reaches(g, v, w)
  {
    if w in Component(g, v) {
      var p := VisitedHasPath(g, v, NoColors(|g|), w);
    }
    if Reaches(g, v, w) {
      var p :| IsPath(g, p) && p[0] == v && p[|p| - 1] == w;
      PathIsVisited(g, p, NoColors(|g|));
    }
  }

  lemma ReachesTransitive(g: Graph, u: nat, v: nat, w: nat)
    requires Reaches(g, u, v) && Reaches(g, v, w)
    ensures Reaches(g, u, w)
  {
    var p :| IsPath(g, p) && p[0] == u && p[|p| - 1] == v;
    var q :| IsPath(g, q) && q[0] == v && q[|q| - 1] == w;
    var r := p + q[1..];
    assert forall i :: |p| <= i < |r| ==> r[i] == q[i - |p| + 1];
    assert IsPath(g, r);
    assert r[|r| - 1] == w;
  }

  ghost function Reverse(p: seq<nat>): (r: seq<nat>)
    ensures |r| == |p| && forall i :: 0 <= i < |p| ==> r[i] == p[|p| - 1 - i]
  {
    seq(|p|, i requires 0 <= i < |p| => p[|p| - 1 - i])
  }

  lemma ReachesSymmetric(g: Graph, v: nat, w: nat)
    requires IsGraph(g) && Symmetric(g) && Reaches(g, v, w)
    ensures Reaches(g, w, v)
  {
    var p :| IsPath(g, p) && p[0] == v && p[|p| - 1] == w;
    var r := Reverse(p);
    forall i | 0 < i < |r|
      ensures r[i] in g[r[i - 1]]
    {
      assert p[|p| - i] in g[p[|p| - 1 - i]];
    }
    assert IsPath(g, r);
  }

  // Components of a symmetric graph are equal or disjoint.
  lemma SameComponent(g: Graph, v: nat, w: nat)
    requires IsGraph(g) && Symmetric(g) && v < |g| && w < |g|
    ensures Component(g, v) == Component(g, w) <==> Reaches(g, v, w)
    ensures Component(g, v) == Component(g, w) <==> w in Component(g, v)
  {
    ComponentIsReachable(g, v, w);
    assert IsPath(g, [w]);
    assert Reaches(g, w, w);
    ComponentIsReachable(g, w, w);
    if Reaches(g, v, w) {
      ReachesSymmetric(g, v, w);
      forall u
        ensures u in Component(g, v) <==> u in Component(g, w)
      {
        ComponentIsReachable(g, v, u);
        ComponentIsReachable(g, w, u);
        if Reaches(g, v, u) { ReachesTransitive(g, w, v, u); }
        if Reaches(g, w, u) { ReachesTransitive(g, v, w, u); }
      }
    }
  }

  lemma NeighbourSameComponent(g: Graph, v: nat, u: nat)
    requires IsGraph(g) && Symmetric(g) && v < |g| && u in g[v]
    ensures Component(g, u) == Component(g, v)
  {
    assert IsPath(g, [v, u]);
    assert Reaches(g, v, u);
    SameComponent(g, v, u);
  }
}
