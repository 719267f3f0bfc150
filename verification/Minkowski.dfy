/** The sum of two point sequences as quadrilaterals (libs/polygon/doc/tutorial/minkowski.cpp). */
module Minkowski {

  datatype Point = Point(x: int, y: int)
  datatype Edge = Edge(first: Point, second: Point)

  function Convolve(p: Point, q: Point): Point {
    Point(p.x + q.x, p.y + q.y)
  }

  // The four corners, in an order in which they go round a parallelogram.
  method ConvolveTwoSegments(a: Edge, b: Edge) returns (figure: seq<Point>)
    ensures figure == Corners(a, b)
    ensures Convolve(figure[0], figure[2]) == Convolve(figure[1], figure[3])
  {
    figure := [a.first, a.first, a.second, a.second];
    figure := figure[0 := Convolve(figure[0], b.second)];
    figure := figure[1 := Convolve(figure[1], b.first)];
    figure := figure[2 := Convolve(figure[2], b.first)];
    figure := figure[3 := Convolve(figure[3], b.second)];
  }

  function Corners(a: Edge, b: Edge): seq<Point> {
    [Convolve(a.first, b.second), Convolve(a.first, b.first), Convolve(a.second, b.first), Convolve(a.second, b.second)]
  }

  // The quadrilaterals of one edge of a with every edge of b.
  function Row(edge: Edge, b: seq<Point>): (row: seq<seq<Point>>)
    ensures |row| == if b == [] then 0 else |b| - 1
    ensures forall j :: 0 <= j < |row| ==> row[j] == Corners(Edge(b[j], b[j + 1]), edge)
  {
    if b == [] then [] else seq(|b| - 1, j requires 0 <= j < |b| - 1 => Corners(Edge(b[j], b[j + 1]), edge))
  }

  // The quadrilaterals of every edge of a with every edge of b, row by row.
  function Quads(a: seq<Point>, b: seq<Point>): seq<seq<Point>> {
    if |a| < 2 then [] else Quads(a[..|a| - 1], b) + Row(Edge(a[|a| - 2], a[|a| - 1]), b)
  }

  method ConvolveTwoPointSequences(a: seq<Point>, b: seq<Point>) returns (result: seq<seq<Point>>)
    ensures result == Quads(a, b)
  {
    result := [];
    if a == [] || b == [] {
      NoEdges(a);
      return;
    }
    var prevA := a[0];
    for i := 1 to |a|
      invariant prevA == a[i - 1] && result == Quads(a[..i], b)
    {
      var row := ConvolveRow(Edge(prevA, a[i]), b);
      result := result + row;
      assert a[..i + 1][..i] == a[..i];
      prevA := a[i];
    }
    assert a[..|a|] == a;
  }

  lemma {:induction false} NoEdges(a: seq<Point>)
    ensures Quads(a, []) == []
  {
    if |a| >= 2 {
      NoEdges(a[..|a| - 1]);
    }
  }

  // The inner loop, for one edge of a.
  method ConvolveRow(edge: Edge, b: seq<Point>) returns (row: seq<seq<Point>>)
    requires b != []
    ensures row == Row(edge, b)
  {
    row := [];
    var prevB := b[0];
    for j := 1 to |b|
      invariant prevB == b[j - 1] && row == Row(edge, b)[..j - 1]
    {
      var figure := ConvolveTwoSegments(Edge(prevB, b[j]), edge);
      row := row + [figure];
      prevB := b[j];
    }
  }

  // Where the quadrilateral of a pair of edges is.
  function Position(i: int, j: int, width: int): int {
    i * width + j
  }

  lemma ProductsGrow(x: nat, y: nat, width: nat)
    ensures x <= y ==> x * width <= y * width
  {
    if x <= y {
      assert y * width == x * width + (y - x) * width;
    }
  }

  lemma PositionInRow(i: nat, j: nat, width: nat, rows: nat)
    requires j < width
    ensures i < rows ==> 0 <= Position(i, j, width) < rows * width
  {
    ProductsGrow(i + 1, rows, width);
    assert (i + 1) * width == i * width + width;
  }

  // No other pair has the place.
  ghost predicate OwnPlace(i: nat, j: nat, rows: nat, width: nat) {
    forall k: nat, l: nat ::
      k < rows && l < width && Position(k, l, width) == Position(i, j, width) ==> k == i && l == j
  }

  // One quadrilateral for each pair of edges, each at its own place, and no others.
  lemma QuadOfEdges(a: seq<Point>, b: seq<Point>, i: nat, j: nat)
    requires i + 1 < |a| && j + 1 < |b|
    ensures |Quads(a, b)| == (|a| - 1) * (|b| - 1)
    ensures 0 <= Position(i, j, |b| - 1) < |Quads(a, b)| && OwnPlace(i, j, |a| - 1, |b| - 1)
    ensures Quads(a, b)[Position(i, j, |b| - 1)] == Corners(Edge(b[j], b[j + 1]), Edge(a[i], a[i + 1]))
  {
    var width := |b| - 1;
    forall k: nat, l: nat | k < |a| - 1 && l < width && Position(k, l, width) == Position(i, j, width)
      ensures k == i && l == j
    {
      PositionsAreDistinct(i, j, k, l, width);
    }
    QuadCount(a, b);
    PositionInRow(i, j, width, |a| - 1);
    QuadAt(a, b, i, j, Position(i, j, width));
  }

  lemma {:induction false} QuadAt(a: seq<Point>, b: seq<Point>, i: nat, j: nat, n: nat)
    requires i + 1 < |a| && j + 1 < |b| && n == Position(i, j, |b| - 1)
    ensures n < |Quads(a, b)| && Quads(a, b)[n] == Corners(Edge(b[j], b[j + 1]), Edge(a[i], a[i + 1]))
  {
    var front := a[..|a| - 1];
    if i + 2 < |a| {
      QuadAt(front, b, i, j, n);
      assert Edge(a[i], a[i + 1]) == Edge(front[i], front[i + 1]);
    } else {
      QuadCount(front, b);
      assert |front| - 1 == i && n == |Quads(front, b)| + j;
      assert Row(Edge(a[i], a[i + 1]), b)[j] == Corners(Edge(b[j], b[j + 1]), Edge(a[i], a[i + 1]));
    }
  }

  lemma {:induction false} QuadCount(a: seq<Point>, b: seq<Point>)
    requires a != [] && b != []
    ensures |Quads(a, b)| == (|a| - 1) * (|b| - 1)
  {
    if |a| >= 2 {
      QuadCount(a[..|a| - 1], b);
      assert (|a| - 1) * (|b| - 1) == (|a| - 2) * (|b| - 1) + (|b| - 1);
    }
  }

  lemma PositionsAreDistinct(i: nat, j: nat, k: nat, l: nat, width: nat)
    requires j < width && l < width && Position(i, j, width) == Position(k, l, width)
    ensures i == k && j == l
  {
    ProductsGrow(i + 1, k, width);
    ProductsGrow(k + 1, i, width);
    assert (i + 1) * width == i * width + width && (k + 1) * width == k * width + width;
  }

  lemma EveryPositionUsed(n: nat, height: nat, width: nat) returns (i: nat, j: nat)
    requires n < height * width
    ensures i < height && j < width && Position(i, j, width) == n
  {
    assert width > 0;
    i, j := n / width, n % width;
    assert n == width * i + j && width * i == i * width;
    ProductsGrow(height, i, width);
  }

  // ---- The quadrilaterals cover the sum ----

  datatype RealPoint = RealPoint(x: real, y: real)

  function At(p: Point): RealPoint {
    RealPoint(p.x as real, p.y as real)
  }

  function Plus(p: RealPoint, q: RealPoint): RealPoint {
    RealPoint(p.x + q.x, p.y + q.y)
  }

  // The point a share s of the way along an edge.
  function Along(e: Edge, s: real): RealPoint {
    RealPoint(Mix(e.first.x as real, e.second.x as real, s), Mix(e.first.y as real, e.second.y as real, s))
  }

  function Mix(p: real, q: real, s: real): real {
    (1.0 - s) * p + s * q
  }

  // A convex combination of four corners.
  ghost predicate Within(p: RealPoint, corners: seq<Point>)
    requires |corners| == 4
  {
    exists w0: real, w1: real, w2: real, w3: real :: IsMix(p, corners, w0, w1, w2, w3)
  }

  ghost predicate IsMix(p: RealPoint, c: seq<Point>, w0: real, w1: real, w2: real, w3: real)
    requires |c| == 4
  {
    && w0 >= 0.0 && w1 >= 0.0 && w2 >= 0.0 && w3 >= 0.0 && w0 + w1 + w2 + w3 == 1.0
    && p.x == w0 * c[0].x as real + w1 * c[1].x as real + w2 * c[2].x as real + w3 * c[3].x as real
    && p.y == w0 * c[0].y as real + w1 * c[1].y as real + w2 * c[2].y as real + w3 * c[3].y as real
  }

  lemma MixOfSums(a0: real, a1: real, b0: real, b1: real, s: real, t: real)
    ensures Mix(a0, a1, s) + Mix(b0, b1, t) ==
            ((1.0 - s) * t) * (a0 + b1) + ((1.0 - s) * (1.0 - t)) * (a0 + b0) +
            (s * (1.0 - t)) * (a1 + b0) + (s * t) * (a1 + b1)
  {
  }

  lemma SharesAreWeights(s: real, t: real)
    requires 0.0 <= s <= 1.0 && 0.0 <= t <= 1.0
    ensures (1.0 - s) * t >= 0.0 && (1.0 - s) * (1.0 - t) >= 0.0 && s * (1.0 - t) >= 0.0 && s * t >= 0.0
    ensures (1.0 - s) * t + (1.0 - s) * (1.0 - t) + s * (1.0 - t) + s * t == 1.0
  {
    ProductNotNegative(1.0 - s, t);
    ProductNotNegative(1.0 - s, 1.0 - t);
    ProductNotNegative(s, 1.0 - t);
    ProductNotNegative(s, t);
  }

  lemma ProductNotNegative(x: real, y: real)
    requires x >= 0.0 && y >= 0.0
    ensures x * y >= 0.0
  {
  }

  // The sum of a point on one edge and a point on another is in their quadrilateral.
  lemma SumIsWithin(a: Edge, b: Edge, s: real, t: real)
    requires 0.0 <= s <= 1.0 && 0.0 <= t <= 1.0
    ensures Within(Plus(Along(a, s), Along(b, t)), Corners(a, b))
  {
    var p, c := Plus(Along(a, s), Along(b, t)), Corners(a, b);
    SharesAreWeights(s, t);
    MixOfSums(a.first.x as real, a.second.x as real, b.first.x as real, b.second.x as real, s, t);
    MixOfSums(a.first.y as real, a.second.y as real, b.first.y as real, b.second.y as real, s, t);
    assert IsMix(p, c, (1.0 - s) * t, (1.0 - s) * (1.0 - t), s * (1.0 - t), s * t);
  }

  // Every sum of a point on an edge of one sequence and a point on an edge of the other
  // is in the quadrilateral inserted for the two edges.
  lemma ConvolutionCovers(a: seq<Point>, b: seq<Point>, i: nat, j: nat, s: real, t: real) returns (n: nat)
    requires i + 1 < |a| && j + 1 < |b| && 0.0 <= s <= 1.0 && 0.0 <= t <= 1.0
    ensures n < |Quads(a, b)| && |Quads(a, b)[n]| == 4
    ensures Within(Plus(Along(Edge(b[j], b[j + 1]), s), Along(Edge(a[i], a[i + 1]), t)), Quads(a, b)[n])
  {
    QuadOfEdges(a, b, i, j);
    SumIsWithin(Edge(b[j], b[j + 1]), Edge(a[i], a[i + 1]), s, t);
    n := Position(i, j, |b| - 1);
  }

  // Conversely, a point in a quadrilateral is the sum of a point on one edge and a point on the other.
  lemma WithinIsSum(a: Edge, b: Edge, p: RealPoint) returns (s: real, t: real)
    requires Within(p, Corners(a, b))
    ensures 0.0 <= s <= 1.0 && 0.0 <= t <= 1.0
    ensures p == Plus(Along(a, s), Along(b, t))
  {
    var w0: real, w1: real, w2: real, w3: real :| IsMix(p, Corners(a, b), w0, w1, w2, w3);
    s, t := w2 + w3, w0 + w3;
    MixIsSum(a, b, p, w0, w1, w2, w3);
  }

  lemma MixIsSum(a: Edge, b: Edge, p: RealPoint, w0: real, w1: real, w2: real, w3: real)
    requires IsMix(p, Corners(a, b), w0, w1, w2, w3)
    ensures p == Plus(Along(a, w2 + w3), Along(b, w0 + w3))
  {
    SumOfMixes(a.first.x, a.second.x, b.first.x, b.second.x, w0, w1, w2, w3);
    SumOfMixes(a.first.y, a.second.y, b.first.y, b.second.y, w0, w1, w2, w3);
    var q := Plus(Along(a, w2 + w3), Along(b, w0 + w3));
    assert p.x == q.x;
    assert p.y == q.y;
  }

  lemma SumOfMixes(a0: int, a1: int, b0: int, b1: int, w0: real, w1: real, w2: real, w3: real)
    requires w0 + w1 + w2 + w3 == 1.0
    ensures w0 * (a0 + b1) as real + w1 * (a0 + b0) as real + w2 * (a1 + b0) as real + w3 * (a1 + b1) as real ==
            Mix(a0 as real, a1 as real, w2 + w3) + Mix(b0 as real, b1 as real, w0 + w3)
  {
    var r0, r1, s0, s1 := a0 as real, a1 as real, b0 as real, b1 as real;
    assert 1.0 - (w2 + w3) == w0 + w1 && 1.0 - (w0 + w3) == w1 + w2;
    assert w0 * (r0 + s1) == w0 * r0 + w0 * s1 && w1 * (r0 + s0) == w1 * r0 + w1 * s0;
    assert w2 * (r1 + s0) == w2 * r1 + w2 * s0 && w3 * (r1 + s1) == w3 * r1 + w3 * s1;
    assert (w0 + w1) * r0 == w0 * r0 + w1 * r0 && (w2 + w3) * r1 == w2 * r1 + w3 * r1;
    assert (w1 + w2) * s0 == w1 * s0 + w2 * s0 && (w0 + w3) * s1 == w0 * s1 + w3 * s1;
  }

  // The point is in one of the quadrilaterals.
  ghost predicate Covered(p: RealPoint, quads: seq<seq<Point>>) {
    exists n :: 0 <= n < |quads| && |quads[n]| == 4 && Within(p, quads[n])
  }

  // The point is the sum of a point on an edge of a and a point on an edge of b.
  ghost predicate IsSum(p: RealPoint, a: seq<Point>, b: seq<Point>) {
    exists i: nat, j: nat, s: real, t: real :: SumAt(p, a, b, i, j, s, t)
  }

  ghost predicate SumAt(p: RealPoint, a: seq<Point>, b: seq<Point>, i: nat, j: nat, s: real, t: real) {
    && i + 1 < |a| && j + 1 < |b| && 0.0 <= s <= 1.0 && 0.0 <= t <= 1.0
    && p == Plus(Along(Edge(b[j], b[j + 1]), s), Along(Edge(a[i], a[i + 1]), t))
  }

  lemma QuadIsSum(a: seq<Point>, b: seq<Point>, p: RealPoint, n: nat)
    requires n < |Quads(a, b)| && |Quads(a, b)[n]| == 4 && Within(p, Quads(a, b)[n])
    ensures IsSum(p, a, b)
  {
    NoQuads(a, b);
    QuadCount(a, b);
    var i, j := EveryPositionUsed(n, |a| - 1, |b| - 1);
    QuadOfEdges(a, b, i, j);
    InEdgesIsSum(a, b, p, i, j);
  }

  lemma InEdgesIsSum(a: seq<Point>, b: seq<Point>, p: RealPoint, i: nat, j: nat)
    requires i + 1 < |a| && j + 1 < |b| && Within(p, Corners(Edge(b[j], b[j + 1]), Edge(a[i], a[i + 1])))
    ensures IsSum(p, a, b)
  {
    var s, t := WithinIsSum(Edge(b[j], b[j + 1]), Edge(a[i], a[i + 1]), p);
    assert SumAt(p, a, b, i, j, s, t);
  }

  // Together the quadrilaterals are exactly the sum of the two lines.
  lemma ConvolutionIsSum(a: seq<Point>, b: seq<Point>, p: RealPoint)
    ensures Covered(p, Quads(a, b)) <==> IsSum(p, a, b)
  {
    if IsSum(p, a, b) {
      var i: nat, j: nat, s: real, t: real :| SumAt(p, a, b, i, j, s, t);
      var n := ConvolutionCovers(a, b, i, j, s, t);
    }
    if n :| 0 <= n < |Quads(a, b)| && |Quads(a, b)[n]| == 4 && Within(p, Quads(a, b)[n]) {
      QuadIsSum(a, b, p, n);
    }
  }

  lemma NoQuads(a: seq<Point>, b: seq<Point>)
    requires Quads(a, b) != []
    ensures a != [] && b != []
  {
    if b == [] {
      NoEdges(a);
    }
  }
}
