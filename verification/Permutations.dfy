/** Maps between finite index ranges, as sequences. */
module Permutations {

  // All entries are distinct and below n.
  ghost predicate Injection(p: seq<nat>, n: nat) {
    && (forall i :: 0 <= i < |p| ==> p[i] < n)
    && (forall i, j :: 0 <= i < j < |p| ==> p[i] != p[j])
  }

  ghost predicate Permutation(p: seq<nat>) {
    Injection(p, |p|)
  }

  ghost function Identity(n: nat): (id: seq<nat>)
    ensures |id| == n && forall i :: 0 <= i < n ==> id[i] == i
  {
    seq(n, i => i)
  }

  // First p, then q; zero where q is not defined.
  ghost function Then(p: seq<nat>, q: seq<nat>): (r: seq<nat>)
    ensures |r| == |p|
  {
    seq(|p|, i requires 0 <= i < |p| => if p[i] < |q| then q[p[i]] else 0)
  }

  ghost function Range(n: nat): (s: set<nat>)
    ensures |s| == n
    ensures forall i: nat :: i in s <==> i < n
  {
    if n == 0 then {} else Range(n - 1) + {n - 1}
  }

  lemma SubsetCount<T>(a: set<T>, b: set<T>)
    requires a <= b
    ensures |a| <= |b|
  {
    assert b == a + (b - a);
  }

  lemma {:induction false} DistinctCount(p: seq<nat>, s: set<nat>)
    requires forall i :: 0 <= i < |p| ==> p[i] in s
    requires forall i, j :: 0 <= i < j < |p| ==> p[i] != p[j]
    ensures |p| <= |s|
    ensures |p| == |s| ==> forall d :: d in s ==> d in p
  {
    if |p| > 0 {
      var last, front := p[|p| - 1], p[..|p| - 1];
      DistinctCount(front, s - {last});
      if |p| == |s| {
        forall d | d in s
          ensures d in p
        {
          assert d == last || d in s - {last};
          assert d in front ==> d in p;
        }
      }
    }
  }

  // An injection into a range is no longer than it, and onto when equally long.
  lemma InjectionSize(p: seq<nat>, n: nat)
    requires Injection(p, n)
    ensures |p| <= n
    ensures |p| == n ==> forall d: nat :: d < n ==> d in p
  {
    DistinctCount(p, Range(n));
    assert |p| == n ==> forall d: nat :: d < n ==> d in Range(n) && d in p;
  }

  lemma Inverse(p: seq<nat>) returns (q: seq<nat>)
    requires Permutation(p)
    ensures Permutation(q) && |q| == |p|
    ensures forall i :: 0 <= i < |p| ==> q[p[i]] == i
    ensures forall d :: 0 <= d < |p| ==> p[q[d]] == d
  {
    InjectionSize(p, |p|);
    q := [];
    while |q| < |p|
      invariant |q| <= |p|
      invariant forall d :: 0 <= d < |q| ==> q[d] < |p| && p[q[d]] == d
    {
      assert |q| in p;
      var i :| 0 <= i < |p| && p[i] == |q|;
      q := q + [i];
    }
  }

  // ---- Some positive power of a permutation is the identity ----

  ghost function Power(p: seq<nat>, k: nat): (q: seq<nat>)
    ensures |q| == |p|
  {
    if k == 0 then Identity(|p|) else Then(p, Power(p, k - 1))
  }

  // All sequences of a given length with entries below n.
  ghost function AllMaps(n: nat, length: nat): set<seq<nat>> {
    if length == 0 then {[]} else set m, d | m in AllMaps(n, length - 1) && d in Range(n) :: m + [d]
  }

  lemma {:induction false} InAllMaps(n: nat, m: seq<nat>)
    requires forall i :: 0 <= i < |m| ==> m[i] < n
    ensures m in AllMaps(n, |m|)
  {
    if m != [] {
      var front, last := m[..|m| - 1], m[|m| - 1];
      InAllMaps(n, front);
      assert front + [last] == m;
    }
  }

  lemma {:induction false} Pigeonhole<T>(s: seq<T>, holes: set<T>) returns (i: nat, j: nat)
    requires |s| > |holes|
    requires forall k :: 0 <= k < |s| ==> s[k] in holes
    ensures i < j < |s| && s[i] == s[j]
  {
    var last, front := s[|s| - 1], s[..|s| - 1];
    if k :| 0 <= k < |front| && front[k] == last {
      i, j := k, |s| - 1;
    } else {
      i, j := Pigeonhole(front, holes - {last});
    }
  }

  lemma CancelThen(p: seq<nat>, x: seq<nat>, y: seq<nat>)
    requires Permutation(p) && |x| == |y| == |p|
    requires Then(p, x) == Then(p, y)
    ensures x == y
  {
    InjectionSize(p, |p|);
    forall d: nat | d < |p|
      ensures x[d] == y[d]
    {
      assert d in p;
      var i :| 0 <= i < |p| && p[i] == d;
      assert Then(p, x)[i] == Then(p, y)[i];
    }
  }

  lemma {:induction false} CancelPower(p: seq<nat>, a: nat, b: nat)
    requires Permutation(p) && a <= b
    requires Power(p, a) == Power(p, b)
    ensures Power(p, b - a) == Identity(|p|)
  {
    if a > 0 {
      CancelThen(p, Power(p, a - 1), Power(p, b - 1));
      CancelPower(p, a - 1, b - 1);
    }
  }

  lemma {:induction false} PowerInRange(p: seq<nat>, k: nat)
    requires Permutation(p)
    ensures forall i :: 0 <= i < |p| ==> Power(p, k)[i] < |p|
  {
    if k > 0 {
      PowerInRange(p, k - 1);
    }
  }

  lemma PowerIsIdentity(p: seq<nat>) returns (k: nat)
    requires Permutation(p)
    ensures k > 0 && Power(p, k) == Identity(|p|)
  {
    var maps := AllMaps(|p|, |p|);
    var powers := seq(|maps| + 1, i requires 0 <= i < |maps| + 1 => Power(p, i));
    forall i | 0 <= i < |powers|
      ensures powers[i] in maps
    {
      PowerInRange(p, i);
      InAllMaps(|p|, Power(p, i));
    }
    var a, b := Pigeonhole(powers, maps);
    CancelPower(p, a, b);
    k := b - a;
  }
}
