/** What layer connections mean for shapes that touch, with an engine that joins exactly what touches
    (libs/polygon/doc/tutorial/connectivity_database.hpp). */
module TouchingShapes {
  import opened Graphs
  import opened NetState
  import opened NetOwners
  import opened NetMerger
  import opened LayerInvariant
  import opened LayerKept
  import opened LayerTurns
  import opened LayerConnection
  import opened LayerLaws
  import opened NameClashes

  // ---- Connected shapes share a net, whatever the nets are called ----

  // Some names are still unused by any list of names.
  lemma {:induction false} UnusedNumber(prefix: string, names: seq<string>) returns (number: nat)
    ensures forall n {:trigger FreshName(prefix, n)} :: n >= number ==> FreshName(prefix, n) !in names
  {
    number := 0;
    if names != [] {
      number := UnusedNumber(prefix, names[1..]);
      if m :| m >= number && FreshName(prefix, m) == names[0] {
        forall n | n >= m + 1
          ensures FreshName(prefix, n) !in names
        {
          FreshNameInjective(prefix, n, m);
        }
        number := m + 1;
      }
    }
  }

  // The walks from the nets do not depend on the counter.
  lemma NetTurnsAnySuffix(t: Task, suffix: nat, other: nat, run: seq<Between>)
    requires IsGraph(t.graph) && IsTurns(t, suffix, run) && |run| <= t.offset + 1 <= |t.graph| + 1
    ensures IsTurns(t, other, run)
  {
    forall v | 0 <= v < |run| - 1
      ensures IsTurn(t, other, run[v], run[v + 1], v)
    {
      var trace :| TurnBy(t, suffix, run[v], run[v + 1], v, trace);
      assert StartOf(t, other, run[v], v) == StartOf(t, suffix, run[v], v);
      assert TurnBy(t, other, run[v], run[v + 1], v, trace);
    }
  }

  // With a counter that is high enough no names clash.
  lemma OwnersWithoutClash(t: Task, k: Owners) returns (other: nat, k': Owners)
    requires ValidTask(t) && IsGraph(t.graph) && Symmetric(t.graph) && |k.names| == t.offset && Distinct(k.names)
    requires forall n :: n in k.names <==> n in k.base
    ensures ValidOwners(t, k') && k'.base == k.base && k'.names == k.names
    ensures Exactly(t, k', other) && Components(t, k') && EdgesKeepComponent(t, k') && OwnsNodes(t, k', other)
  {
    other := UnusedNumber(t.prefix, k.names);
    k' := OwnersOf(t.graph, k.base, k.names, t.prefix, other);
    OwnersAreValid(t, k', other);
    OwnersOwnNodes(t, k', other);
    forall name | name in FreshNames(t.prefix, other, |t.polygons|)
      ensures name !in k.base
    {
      var h :| 0 <= h < |t.polygons| && FreshNames(t.prefix, other, |t.polygons|)[h] == name;
      assert name == FreshName(t.prefix, other + h);
    }
    NoClashNames(t, k', other);
  }

  lemma InvAfterGathers(t: Task, k: Owners, suffix: nat, b: Between, v: nat) returns (net: string)
    requires InvAfter(t, k, suffix, b, t.offset) && v < t.offset
    ensures GatheredOn(t, k, b.conn, k.comp[v], net)
  {
    assert Gathered(t, k, b.conn, k.comp[v]);
    net :| GatheredOn(t, k, b.conn, k.comp[v], net);
  }

  // After the walks from the nets everything that is connected to a net is on one net.
  lemma GatheredAfterNets(t: Task, k: Owners, suffix: nat, run: seq<Between>, result: Connectivity, v: nat)
    returns (k': Owners, net: string)
    requires Completed(t, k, suffix, run, result) && v < t.offset
    ensures ValidOwners(t, k') && k'.base == k.base && k'.names == k.names && Components(t, k')
    ensures GatheredOn(t, k', run[t.offset].conn, k'.comp[v], net)
  {
    var first := run[..t.offset + 1];
    var other;
    other, k' := OwnersWithoutClash(t, k);
    FirstTurns(t, suffix, run);
    NetTurnsAnySuffix(t, suffix, other, first);
    RunIsExact(t, k', other, first, t.offset);
    net := InvAfterGathers(t, k', other, first[t.offset], v);
  }

  lemma FirstTurns(t: Task, suffix: nat, run: seq<Between>)
    requires IsGraph(t.graph) && IsTurns(t, suffix, run) && t.offset < |run|
    ensures IsTurns(t, suffix, run[..t.offset + 1])
  {
    var first := run[..t.offset + 1];
    forall v | 0 <= v < |first| - 1
      ensures IsTurn(t, suffix, first[v], first[v + 1], v)
    {
      assert IsTurn(t, suffix, run[v], run[v + 1], v);
    }
  }

  lemma GatheredHasNode(t: Task, k: Owners, conn: Connectivity, c: set<nat>, net: string, v: nat,
                        layer: string, shape: Shape)
    requires ValidTask(t) && ValidOwners(t, k) && GatheredOn(t, k, conn, c, net)
    requires v < |t.graph| && k.comp[v] == c && NodeHas(t, k, v, layer, shape)
    ensures Has(conn, net, layer, shape)
  {
    if v < t.offset {
      assert Within(k.base, k.names[v], conn, net);
    } else {
      assert k.comp[t.offset + (v - t.offset)] == c;
    }
  }

  lemma NodesOfNetShare(t: Task, k: Owners, suffix: nat, run: seq<Between>, result: Connectivity, v: nat, w: nat,
                        l1: string, x1: Shape, l2: string, x2: Shape)
    requires Completed(t, k, suffix, run, result) && v < t.offset && w < |t.graph| && Reaches(t.graph, v, w)
    requires NodeHas(t, k, v, l1, x1) && NodeHas(t, k, w, l2, x2)
    ensures Together(result, l1, x1, l2, x2)
  {
    var k', net := GatheredAfterNets(t, k, suffix, run, result, v);
    assert Reaches(t.graph, v, w) <==> k'.comp[v] == k'.comp[w];
    GatheredHasNode(t, k', run[t.offset].conn, k'.comp[v], net, v, l1, x1);
    GatheredHasNode(t, k', run[t.offset].conn, k'.comp[v], net, w, l2, x2);
    RunTogether(t, k, suffix, run, result, t.offset, l1, x1, l2, x2);
  }

  lemma PolygonsShare(t: Task, k: Owners, suffix: nat, run: seq<Between>, result: Connectivity, i: nat, j: nat)
    requires Completed(t, k, suffix, run, result) && i < |t.polygons| && j < |t.polygons|
    requires Reaches(t.graph, t.offset + i, t.offset + j)
    ensures Together(result, t.layer, t.polygons[i], t.layer, t.polygons[j])
  {
    var v := t.offset + i;
    RunSolid(t, k, suffix, run, result, v);
    assert IsTurn(t, suffix, run[v], run[v + 1], v);
    var s' := TurnCovers(t, suffix, run[v], run[v + 1], v);
    PolygonsCovered(t, v, StartOf(t, suffix, run[v], v), s');
    ReachesItself(t.graph, v);
    assert Has(s'.conn, s'.net, t.layer, t.polygons[i]) && Has(s'.conn, s'.net, t.layer, t.polygons[j]);
    RunTogether(t, k, suffix, run, result, v + 1, t.layer, t.polygons[i], t.layer, t.polygons[j]);
  }

  // Shapes of connected nodes share a net in the end, whatever the nets are called.
  lemma ConnectedShareAlways(t: Task, k: Owners, suffix: nat, run: seq<Between>, result: Connectivity, v: nat, w: nat,
                             l1: string, x1: Shape, l2: string, x2: Shape)
    requires Completed(t, k, suffix, run, result) && v < |t.graph| && w < |t.graph| && Reaches(t.graph, v, w)
    requires NodeHas(t, k, v, l1, x1) && NodeHas(t, k, w, l2, x2)
    ensures Together(result, l1, x1, l2, x2)
  {
    if v < t.offset {
      NodesOfNetShare(t, k, suffix, run, result, v, w, l1, x1, l2, x2);
    } else if w < t.offset {
      SameComponent(t.graph, v, w);
      SameComponent(t.graph, w, v);
      NodesOfNetShare(t, k, suffix, run, result, w, v, l2, x2, l1, x1);
    } else {
      assert t.offset + (v - t.offset) == v && t.offset + (w - t.offset) == w;
      PolygonsShare(t, k, suffix, run, result, v - t.offset, w - t.offset);
    }
  }

  // ---- Chains of touching pieces ----

  type Touch = (Shape, Shape) -> bool

  // The engine joins two nodes exactly if some of their shapes touch.
  ghost predicate JoinsTouching(extract: seq<set<Shape>> -> Graph, touch: Touch) {
    && IsExtractor(extract)
    && forall nodes, v: nat, u: nat {:trigger u in extract(nodes)[v]} :: v < |nodes| && u < |nodes| && u != v ==>
         (u in extract(nodes)[v] <==> SomeTouch(nodes[v], nodes[u], touch))
  }

  ghost predicate SomeTouch(a: set<Shape>, b: set<Shape>, touch: Touch) {
    exists x, y :: x in a && y in b && touch(x, y)
  }

  // What one layer connection is about: the database before it, the polygons with their layer, and the layer of the
  // nets that they may touch.
  datatype Scene = Scene(nets: Connectivity, polygons: seq<Shape>, layoutLayer: string, layer: string)

  datatype Piece = OfNet(name: string) | OfPolygon(index: nat)

  // The piece consists of the shapes of a net on all layers, or of a polygon.
  ghost predicate Holds(scene: Scene, p: Piece, layer: string, shape: Shape) {
    match p
    case OfNet(name) => name in scene.nets && layer in scene.nets[name] && shape in scene.nets[name][layer]
    case OfPolygon(j) => j < |scene.polygons| && layer == scene.layoutLayer && shape == scene.polygons[j]
  }

  ghost predicate SomeHolds(scene: Scene, layer: string, shape: Shape) {
    exists p :: Holds(scene, p, layer, shape)
  }

  function TouchLayer(scene: Scene, p: Piece): string {
    if p.OfNet? then scene.layer else scene.layoutLayer
  }

  // A net touches by its shapes on one layer, a polygon by itself.
  ghost predicate CanTouch(scene: Scene, p: Piece, shape: Shape) {
    Holds(scene, p, TouchLayer(scene, p), shape)
  }

  ghost predicate PiecesTouch(scene: Scene, touch: Touch, p: Piece, q: Piece) {
    exists x, y :: CanTouch(scene, p, x) && CanTouch(scene, q, y) && touch(x, y)
  }

  ghost predicate IsChain(scene: Scene, touch: Touch, chain: seq<Piece>) {
    && chain != []
    && forall i :: 0 <= i < |chain| - 1 ==> PiecesTouch(scene, touch, chain[i], chain[i + 1])
  }

  // A chain of touching pieces leads from one that has the first shape to one that has the second.
  ghost predicate Chained(scene: Scene, touch: Touch, l1: string, x1: Shape, l2: string, x2: Shape) {
    exists chain :: IsChain(scene, touch, chain) && Holds(scene, chain[0], l1, x1) &&
                    Holds(scene, chain[|chain| - 1], l2, x2)
  }

  // ---- Pieces are nodes ----

  function PieceOf(offset: nat, names: seq<string>, v: nat): Piece
    requires offset == |names|
  {
    if v < offset then OfNet(names[v]) else OfPolygon(v - offset)
  }

  // The task of a scene.
  ghost predicate IsTaskOf(t: Task, k: Owners, scene: Scene, extract: seq<set<Shape>> -> Graph) {
    && Connected(scene.nets, scene.polygons, scene.layoutLayer, scene.layer, t.prefix, extract, t, k)
    && ValidTask(t) && ValidOwners(t, k)
  }

  lemma BaseHas(c: Connectivity, layer: string, net: string, l: string, x: Shape)
    ensures Has(WithLayer(c, layer), net, l, x) <==> Has(c, net, l, x)
  {
  }

  lemma PieceHasNode(t: Task, k: Owners, scene: Scene, extract: seq<set<Shape>> -> Graph, v: nat, l: string, x: Shape)
    requires IsTaskOf(t, k, scene, extract) && v < |t.graph|
    ensures Holds(scene, PieceOf(t.offset, k.names, v), l, x) <==> NodeHas(t, k, v, l, x)
  {
    if v < t.offset {
      BaseHas(scene.nets, scene.layer, k.names[v], l, x);
    }
  }

  // Every piece with a shape is that of a node.
  lemma NodeOfPiece(t: Task, k: Owners, scene: Scene, extract: seq<set<Shape>> -> Graph, p: Piece, l: string, x: Shape)
    returns (v: nat)
    requires IsTaskOf(t, k, scene, extract) && Holds(scene, p, l, x)
    ensures v < |t.graph| && PieceOf(t.offset, k.names, v) == p
  {
    match p
    case OfNet(name) =>
      v :| v < |k.names| && k.names[v] == name;
    case OfPolygon(j) =>
      v := t.offset + j;
  }

  // What the engine is shown of a node is what the piece can touch by.
  lemma ShownIsVisible(t: Task, k: Owners, scene: Scene, extract: seq<set<Shape>> -> Graph, v: nat, x: Shape)
    requires IsTaskOf(t, k, scene, extract) && v < |t.graph|
    ensures x in NodeShapes(k.base, k.names, scene.layer, scene.polygons)[v] <==>
            CanTouch(scene, PieceOf(t.offset, k.names, v), x)
  {
    if v < t.offset {
      BaseHas(scene.nets, scene.layer, k.names[v], scene.layer, x);
    }
  }

  lemma EdgesAreTouching(t: Task, k: Owners, scene: Scene, extract: seq<set<Shape>> -> Graph, touch: Touch,
                         v: nat, u: nat)
    requires IsTaskOf(t, k, scene, extract) && JoinsTouching(extract, touch)
    requires v < |t.graph| && u < |t.graph| && u != v
    ensures u in t.graph[v] <==>
            PiecesTouch(scene, touch, PieceOf(t.offset, k.names, v), PieceOf(t.offset, k.names, u))
  {
    var nodes := NodeShapes(k.base, k.names, scene.layer, scene.polygons);
    forall x
      ensures x in nodes[v] <==> CanTouch(scene, PieceOf(t.offset, k.names, v), x)
      ensures x in nodes[u] <==> CanTouch(scene, PieceOf(t.offset, k.names, u), x)
    {
      ShownIsVisible(t, k, scene, extract, v, x);
      ShownIsVisible(t, k, scene, extract, u, x);
    }
    assert u in extract(nodes)[v] <==> SomeTouch(nodes[v], nodes[u], touch);
  }

  // ---- Chains are paths ----

  lemma {:induction false} ChainReaches(t: Task, k: Owners, scene: Scene, extract: seq<set<Shape>> -> Graph,
                                        touch: Touch, chain: seq<Piece>, l: string, x: Shape)
    returns (v: nat, w: nat)
    requires IsTaskOf(t, k, scene, extract) && JoinsTouching(extract, touch) && IsGraph(t.graph)
    requires IsChain(scene, touch, chain) && Holds(scene, chain[0], l, x)
    ensures v < |t.graph| && PieceOf(t.offset, k.names, v) == chain[0]
    ensures w < |t.graph| && PieceOf(t.offset, k.names, w) == chain[|chain| - 1]
    ensures Reaches(t.graph, v, w)
  {
    v := NodeOfPiece(t, k, scene, extract, chain[0], l, x);
    if |chain| == 1 {
      w := v;
      ReachesItself(t.graph, v);
    } else {
      ChainTail(scene, touch, chain);
      assert PiecesTouch(scene, touch, chain[0], chain[0 + 1]);
      var x0, y :| CanTouch(scene, chain[0], x0) && CanTouch(scene, chain[1], y) && touch(x0, y);
      var u;
      u, w := ChainReaches(t, k, scene, extract, touch, chain[1..], TouchLayer(scene, chain[1]), y);
      if u != v {
        EdgesAreTouching(t, k, scene, extract, touch, v, u);
        assert IsPath(t.graph, [v, u]) && [v, u][|[v, u]| - 1] == u;
        ReachesTransitive(t.graph, v, u, w);
      }
    }
  }

  lemma ChainTail(scene: Scene, touch: Touch, chain: seq<Piece>)
    requires IsChain(scene, touch, chain) && |chain| > 1
    ensures IsChain(scene, touch, chain[1..])
  {
    forall i | 0 <= i < |chain[1..]| - 1
      ensures PiecesTouch(scene, touch, chain[1..][i], chain[1..][i + 1])
    {
      assert PiecesTouch(scene, touch, chain[i + 1], chain[i + 1 + 1]);
    }
  }

  lemma ChainLonger(scene: Scene, touch: Touch, p: Piece, chain: seq<Piece>)
    requires IsChain(scene, touch, chain) && PiecesTouch(scene, touch, p, chain[0])
    ensures IsChain(scene, touch, [p] + chain)
  {
    var longer := [p] + chain;
    forall i | 0 <= i < |longer| - 1
      ensures PiecesTouch(scene, touch, longer[i], longer[i + 1])
    {
      if i > 0 {
        assert PiecesTouch(scene, touch, chain[i - 1], chain[i - 1 + 1]);
      }
    }
  }

  lemma {:induction false} PathChained(t: Task, k: Owners, scene: Scene, extract: seq<set<Shape>> -> Graph,
                                       touch: Touch, path: seq<nat>)
    returns (chain: seq<Piece>)
    requires IsTaskOf(t, k, scene, extract) && JoinsTouching(extract, touch) && IsPath(t.graph, path)
    ensures IsChain(scene, touch, chain) && chain[0] == PieceOf(t.offset, k.names, path[0])
    ensures chain[|chain| - 1] == PieceOf(t.offset, k.names, path[|path| - 1])
  {
    if |path| == 1 {
      chain := [PieceOf(t.offset, k.names, path[0])];
    } else {
      chain := PathChained(t, k, scene, extract, touch, path[1..]);
      if path[1] != path[0] {
        EdgesAreTouching(t, k, scene, extract, touch, path[0], path[1]);
        ChainLonger(scene, touch, PieceOf(t.offset, k.names, path[0]), chain);
        chain := [PieceOf(t.offset, k.names, path[0])] + chain;
      }
    }
  }

  // ---- What shares a net ----

  // Whatever the nets are called, shapes at the ends of a chain are on one net afterwards.
  lemma ChainedShare(after: Connectivity, prefix: string, suffix: nat, extract: seq<set<Shape>> -> Graph,
                     touch: Touch, scene: Scene, t: Task, k: Owners, l1: string, x1: Shape, l2: string, x2: Shape)
    requires Joins(scene.nets, after, scene.polygons, scene.layoutLayer, scene.layer, prefix, suffix, extract, t, k)
    requires JoinsTouching(extract, touch) && Chained(scene, touch, l1, x1, l2, x2)
    ensures Together(after, l1, x1, l2, x2)
  {
    var chain :| IsChain(scene, touch, chain) && Holds(scene, chain[0], l1, x1) &&
      Holds(scene, chain[|chain| - 1], l2, x2);
    var v, w := ChainReaches(t, k, scene, extract, touch, chain, l1, x1);
    PieceHasNode(t, k, scene, extract, v, l1, x1);
    PieceHasNode(t, k, scene, extract, w, l2, x2);
    var run := JoinsIsCompleted(scene.nets, after, scene.polygons, scene.layoutLayer, scene.layer, prefix, suffix,
                                extract, t, k);
    ConnectedShareAlways(t, k, suffix, run, after, v, w, l1, x1, l2, x2);
  }

  // If no names clash, nothing else is.
  lemma OnlyChainedShare(after: Connectivity, prefix: string, suffix: nat, extract: seq<set<Shape>> -> Graph,
                         touch: Touch, scene: Scene, t: Task, k: Owners, l1: string, x1: Shape, l2: string, x2: Shape)
    requires Connects(scene.nets, after, scene.polygons, scene.layoutLayer, scene.layer, prefix, suffix, extract, t, k)
    requires JoinsTouching(extract, touch) && Together(after, l1, x1, l2, x2)
    ensures Chained(scene, touch, l1, x1, l2, x2)
  {
    var net :| Has(after, net, l1, x1) && Has(after, net, l2, x2);
    var v, w := OnlyConnectedShapesShareNets(t, k, suffix, after, net, l1, x1, l2, x2);
    PieceHasNode(t, k, scene, extract, v, l1, x1);
    PieceHasNode(t, k, scene, extract, w, l2, x2);
    var path :| IsPath(t.graph, path) && path[0] == v && path[|path| - 1] == w;
    var chain := PathChained(t, k, scene, extract, touch, path);
  }

  // A polygon that touches a shape of a net, on the layer that is looked at, is on one net with all of that net.
  lemma TouchingPolygonJoinsNet(after: Connectivity, prefix: string, suffix: nat, extract: seq<set<Shape>> -> Graph,
                                touch: Touch, scene: Scene, t: Task, k: Owners, net: string, x: Shape, h: nat,
                                l: string, y: Shape)
    requires Joins(scene.nets, after, scene.polygons, scene.layoutLayer, scene.layer, prefix, suffix, extract, t, k)
    requires JoinsTouching(extract, touch) && h < |scene.polygons| && touch(x, scene.polygons[h])
    requires Has(scene.nets, net, scene.layer, x) && Has(scene.nets, net, l, y)
    ensures Together(after, l, y, scene.layoutLayer, scene.polygons[h])
  {
    var chain := [OfNet(net), OfPolygon(h)];
    assert CanTouch(scene, chain[0], x) && CanTouch(scene, chain[1], scene.polygons[h]);
    assert IsChain(scene, touch, chain) && Holds(scene, chain[0], l, y);
    ChainedShare(after, prefix, suffix, extract, touch, scene, t, k, l, y, scene.layoutLayer, scene.polygons[h]);
  }

  // ---- Names of nets ----

  ghost predicate ChainTo(scene: Scene, touch: Touch, p: Piece, q: Piece) {
    exists chain :: IsChain(scene, touch, chain) && chain[0] == p && chain[|chain| - 1] == q
  }

  // If no names clash, what is chained to a net whose name does not begin with the prefix is on a net with such a name
  // afterwards, together with that net, and the name is not new.
  lemma PinNameWins(after: Connectivity, prefix: string, suffix: nat, extract: seq<set<Shape>> -> Graph,
                    touch: Touch, scene: Scene, t: Task, k: Owners, pin: string, l: string, x: Shape, q: Piece)
    returns (net: string)
    requires Connects(scene.nets, after, scene.polygons, scene.layoutLayer, scene.layer, prefix, suffix, extract, t, k)
    requires JoinsTouching(extract, touch) && Has(scene.nets, pin, l, x) && !(prefix <= pin)
    requires ChainTo(scene, touch, OfNet(pin), q)
    ensures net in scene.nets && !(prefix <= net)
    ensures forall m, y :: Holds(scene, OfNet(pin), m, y) || Holds(scene, q, m, y) ==> Has(after, net, m, y)
  {
    var chain :| IsChain(scene, touch, chain) && chain[0] == OfNet(pin) && chain[|chain| - 1] == q;
    var v, w := ChainReaches(t, k, scene, extract, touch, chain, l, x);
    net := PinnedNodesShare(t, k, suffix, after, v, w);
    forall m, y | Holds(scene, OfNet(pin), m, y) || Holds(scene, q, m, y)
      ensures Has(after, net, m, y)
    {
      PieceHasNode(t, k, scene, extract, v, m, y);
      PieceHasNode(t, k, scene, extract, w, m, y);
    }
  }

  lemma PinnedNodesShare(t: Task, k: Owners, suffix: nat, after: Connectivity, v: nat, w: nat) returns (net: string)
    requires Finished(t, k, suffix, after) && v < t.offset && w < |t.graph| && Reaches(t.graph, v, w)
    requires !(t.prefix <= k.names[v])
    ensures net in k.names && !(t.prefix <= net)
    ensures forall m, y :: NodeHas(t, k, v, m, y) || NodeHas(t, k, w, m, y) ==> Has(after, net, m, y)
  {
    assert Reaches(t.graph, v, w) <==> k.comp[v] == k.comp[w];
    net := ComponentHasNet(t, k, suffix, after, v);
    assert NetIsComponent(t, k, suffix, after, net) && HasNetNode(t, k, k.comp[v]);
    forall m, y | NodeHas(t, k, v, m, y) || NodeHas(t, k, w, m, y)
      ensures Has(after, net, m, y)
    {
      NodeIsOrigin(t, k, if NodeHas(t, k, v, m, y) then v else w, m, y);
    }
  }

  ghost predicate IsPiece(scene: Scene, p: Piece) {
    match p
    case OfNet(name) => name in scene.nets
    case OfPolygon(j) => j < |scene.polygons|
  }

  // Everything hangs together, and only one net has a name that does not begin with the prefix.
  ghost predicate AllOnPin(scene: Scene, touch: Touch, prefix: string, pin: string) {
    && pin in scene.nets && (exists l, x :: Has(scene.nets, pin, l, x)) && !(prefix <= pin)
    && (forall n :: n in scene.nets ==> n == pin || prefix <= n)
    && (forall p {:trigger IsPiece(scene, p)} :: IsPiece(scene, p) ==> ChainTo(scene, touch, OfNet(pin), p))
  }

  lemma PinReaches(t: Task, k: Owners, scene: Scene, extract: seq<set<Shape>> -> Graph, touch: Touch, prefix: string,
                   pin: string, v: nat, w: nat)
    requires IsTaskOf(t, k, scene, extract) && JoinsTouching(extract, touch) && IsGraph(t.graph)
    requires AllOnPin(scene, touch, prefix, pin) && v < t.offset && k.names[v] == pin && w < |t.graph|
    ensures Reaches(t.graph, v, w)
  {
    var l, x :| Has(scene.nets, pin, l, x);
    var p := PieceOf(t.offset, k.names, w);
    assert IsPiece(scene, p);
    var chain :| IsChain(scene, touch, chain) && chain[0] == OfNet(pin) && chain[|chain| - 1] == p;
    var a, b := ChainReaches(t, k, scene, extract, touch, chain, l, x);
    assert a == v && b == w;
  }

  lemma OnlyOneNet(t: Task, k: Owners, suffix: nat, after: Connectivity, v: nat, net: string)
    requires Finished(t, k, suffix, after) && v < t.offset && !(t.prefix <= k.names[v])
    requires forall w: nat :: w < |t.graph| ==> k.comp[w] == k.comp[v]
    requires forall w: nat :: w < t.offset ==> k.names[w] == k.names[v] || t.prefix <= k.names[w]
    requires net in after
    ensures net == k.names[v] && Belongs(k, net, k.comp[v])
  {
    assert NetIsComponent(t, k, suffix, after, net);
    assert HasNetNode(t, k, k.comp[v]);
  }

  // Then that net has everything afterwards, and there is no other.
  lemma EverythingOnPin(after: Connectivity, prefix: string, suffix: nat, extract: seq<set<Shape>> -> Graph,
                        touch: Touch, scene: Scene, t: Task, k: Owners, pin: string)
    requires Connects(scene.nets, after, scene.polygons, scene.layoutLayer, scene.layer, prefix, suffix, extract, t, k)
    requires JoinsTouching(extract, touch) && AllOnPin(scene, touch, prefix, pin)
    ensures after.Keys == {pin}
    ensures forall l, x :: Has(after, pin, l, x) <==> SomeHolds(scene, l, x)
  {
    var v: nat :| v < |k.names| && k.names[v] == pin;
    forall w: nat | w < |t.graph|
      ensures k.comp[w] == k.comp[v]
    {
      PinReaches(t, k, scene, extract, touch, prefix, pin, v, w);
      assert Reaches(t.graph, v, w) <==> k.comp[v] == k.comp[w];
    }
    forall net | net in after
      ensures net == pin
    {
      OnlyOneNet(t, k, suffix, after, v, net);
    }
    var net := ComponentHasNet(t, k, suffix, after, v);
    assert NetIsComponent(t, k, suffix, after, pin);
    forall l, x
      ensures Has(after, pin, l, x) <==> SomeHolds(scene, l, x)
    {
      HoldsIsOrigin(t, k, scene, extract, v, l, x);
    }
  }

  lemma HoldsIsOrigin(t: Task, k: Owners, scene: Scene, extract: seq<set<Shape>> -> Graph, v: nat, l: string, x: Shape)
    requires IsTaskOf(t, k, scene, extract) && v < |t.graph|
    requires forall w: nat :: w < |t.graph| ==> k.comp[w] == k.comp[v]
    ensures SomeHolds(scene, l, x) <==> Origin(t, k, k.comp[v], l, x)
  {
    if p :| Holds(scene, p, l, x) {
      var w := NodeOfPiece(t, k, scene, extract, p, l, x);
      PieceHasNode(t, k, scene, extract, w, l, x);
      NodeIsOrigin(t, k, w, l, x);
    }
    if Origin(t, k, k.comp[v], l, x) {
      var w := OriginIsNode(t, k, k.comp[v], l, x);
      PieceHasNode(t, k, scene, extract, w, l, x);
    }
  }

  // ---- Small cases ----

  // Shapes on a line, each touching itself and its neighbours.
  predicate Near(x: Shape, y: Shape) {
    x == y || x + 1 == y || y + 1 == x
  }

  function LineGraph(nodes: seq<set<Shape>>): (g: Graph)
    ensures |g| == |nodes|
    ensures forall v: nat, u: nat :: v < |nodes| ==>
              (u in g[v] <==> u < |nodes| && u != v && SomeTouch(nodes[v], nodes[u], Near))
  {
    seq(|nodes|, v requires 0 <= v < |nodes| =>
      set u: nat | u < |nodes| && u != v && exists x, y :: x in nodes[v] && y in nodes[u] && Near(x, y))
  }

  lemma LineGraphJoinsTouching()
    ensures JoinsTouching(LineGraph, Near)
  {
    forall nodes
      ensures |LineGraph(nodes)| == |nodes| && IsGraph(LineGraph(nodes)) && Symmetric(LineGraph(nodes))
    {
      forall a, b
        ensures SomeTouch(a, b, Near) <==> SomeTouch(b, a, Near)
      {
        if x, y :| x in a && y in b && Near(x, y) {
          assert Near(y, x);
        }
        if y, x :| y in b && x in a && Near(y, x) {
          assert Near(x, y);
        }
      }
    }
  }

  // A pin's net on the metal, and a polygon of the metal next to the pin: the polygon is put on the net.
  method ConnectPinToPolygon() returns (nets: Connectivity)
    ensures nets.Keys == {"VDD"} && "METAL1" in nets["VDD"] && nets["VDD"]["METAL1"] == {1, 2}
  {
    var db := new ConnectivityDatabase();
    db.nets := map["VDD" := map["METAL1" := {1}]];
    ghost var scene := Scene(db.nets, [2], "METAL1", "METAL1");
    LineGraphJoinsTouching();
    var suffix;
    ghost var t, k;
    suffix, t, k := ConnectLayoutToLayer(db, [2], "METAL1", "METAL1", "__internal_net_", 0, LineGraph);
    nets := db.nets;
    NoneInternal(scene.nets, "__internal_net_", 0, 1);
    PinHasPolygon(scene);
    EverythingOnPin(nets, "__internal_net_", 0, LineGraph, Near, scene, t, k, "VDD");
    ShapesAre(nets, "VDD", "METAL1", {1, 2}, 1);
  }

  lemma ShapesAre(c: Connectivity, net: string, layer: string, shapes: set<Shape>, x: Shape)
    requires x in shapes && forall y :: Has(c, net, layer, y) <==> y in shapes
    ensures net in c && layer in c[net] && c[net][layer] == shapes
  {
    assert Has(c, net, layer, x);
    assert forall y :: y in c[net][layer] <==> Has(c, net, layer, y);
  }

  lemma NoneInternal(c: Connectivity, prefix: string, suffix: nat, count: nat)
    requires forall n :: n in c ==> !(prefix <= n)
    ensures NoClash(c, prefix, suffix, count)
  {
    forall name | name in FreshNames(prefix, suffix, count)
      ensures name !in c
    {
      var h :| 0 <= h < count && FreshNames(prefix, suffix, count)[h] == name;
      assert prefix <= FreshName(prefix, suffix + h);
    }
  }

  lemma PinHasPolygon(scene: Scene)
    requires scene == Scene(map["VDD" := map["METAL1" := {1}]], [2], "METAL1", "METAL1")
    ensures AllOnPin(scene, Near, "__internal_net_", "VDD")
    ensures forall l, x :: SomeHolds(scene, l, x) <==> l == "METAL1" && x in {1, 2}
  {
    assert Has(scene.nets, "VDD", "METAL1", 1);
    assert Holds(scene, OfNet("VDD"), "METAL1", 1) && Holds(scene, OfPolygon(0), "METAL1", 2);
    assert CanTouch(scene, OfNet("VDD"), 1) && CanTouch(scene, OfPolygon(0), 2) && Near(1, 2);
    forall p | IsPiece(scene, p)
      ensures ChainTo(scene, Near, OfNet("VDD"), p)
    {
      var chain := if p.OfNet? then [p] else [OfNet("VDD"), p];
      assert IsChain(scene, Near, chain) && chain[0] == OfNet("VDD") && chain[|chain| - 1] == p;
    }
  }

  // A pin's net and an internal net on the vias, and a polygon of poly that touches both: all is on the pin's net.
  method ConnectPinAndInternal() returns (nets: Connectivity)
    ensures nets.Keys == {"VDD"} && "VIA0" in nets["VDD"] && "POLY" in nets["VDD"]
    ensures nets["VDD"]["VIA0"] == {1, 3} && nets["VDD"]["POLY"] == {2}
  {
    var db := new ConnectivityDatabase();
    db.nets := map["VDD" := map["VIA0" := {1}], "__internal_net_" + "1" := map["VIA0" := {3}]];
    ghost var scene := Scene(db.nets, [2], "POLY", "VIA0");
    LineGraphJoinsTouching();
    var suffix;
    ghost var t, k;
    suffix, t, k := ConnectLayoutToLayer(db, [2], "POLY", "VIA0", "__internal_net_", 2, LineGraph);
    nets := db.nets;
    PinAndInternalShown(scene, nets, t, k);
  }

  lemma PinAndInternalShown(scene: Scene, nets: Connectivity, t: Task, k: Owners)
    requires scene.nets == map["VDD" := map["VIA0" := {1}], "__internal_net_" + "1" := map["VIA0" := {3}]]
    requires scene.polygons == [2] && scene.layoutLayer == "POLY" && scene.layer == "VIA0"
    requires NoClash(scene.nets, "__internal_net_", 2, 1) ==>
               Connects(scene.nets, nets, [2], "POLY", "VIA0", "__internal_net_", 2, LineGraph, t, k)
    ensures nets.Keys == {"VDD"} && "VIA0" in nets["VDD"] && "POLY" in nets["VDD"]
    ensures nets["VDD"]["VIA0"] == {1, 3} && nets["VDD"]["POLY"] == {2}
  {
    NumberTwo(scene.nets);
    BothHavePolygon(scene);
    LineGraphJoinsTouching();
    EverythingOnPin(nets, "__internal_net_", 2, LineGraph, Near, scene, t, k, "VDD");
    ShapesAre(nets, "VDD", "VIA0", {1, 3}, 1);
    ShapesAre(nets, "VDD", "POLY", {2}, 2);
  }

  lemma NumberTwo(c: Connectivity)
    requires forall n :: n in c ==> n == "VDD" || n == "__internal_net_" + "1"
    ensures NoClash(c, "__internal_net_", 2, 1)
  {
    forall name | name in FreshNames("__internal_net_", 2, 1)
      ensures name !in c
    {
      assert name == FreshName("__internal_net_", 2 + 0);
      assert "__internal_net_" <= name && FreshName("__internal_net_", 1) == "__internal_net_" + "1";
      FreshNameInjective("__internal_net_", 1, 2);
    }
  }

  lemma BothHavePolygon(scene: Scene)
    requires scene.nets == map["VDD" := map["VIA0" := {1}], "__internal_net_" + "1" := map["VIA0" := {3}]]
    requires scene.polygons == [2] && scene.layoutLayer == "POLY" && scene.layer == "VIA0"
    ensures AllOnPin(scene, Near, "__internal_net_", "VDD")
    ensures forall l, x :: SomeHolds(scene, l, x) <==> (l == "VIA0" && x in {1, 3}) || (l == "POLY" && x in {2})
  {
    var pin, other, polygon := OfNet("VDD"), OfNet("__internal_net_" + "1"), OfPolygon(0);
    assert Has(scene.nets, "VDD", "VIA0", 1);
    assert Holds(scene, pin, "VIA0", 1) && Holds(scene, other, "VIA0", 3) && Holds(scene, polygon, "POLY", 2);
    assert CanTouch(scene, pin, 1) && CanTouch(scene, other, 3) && CanTouch(scene, polygon, 2);
    assert Near(1, 2) && Near(2, 3);
    forall p | IsPiece(scene, p)
      ensures ChainTo(scene, Near, pin, p)
    {
      var chain := if p == pin then [pin] else if p == polygon then [pin, polygon] else [pin, polygon, other];
      assert p in {pin, other, polygon};
      assert IsChain(scene, Near, chain) && chain[0] == pin && chain[|chain| - 1] == p;
    }
  }
}
