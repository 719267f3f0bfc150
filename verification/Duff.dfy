/** Duff's device: an unrolled loop entered in the middle (libs/preprocessor/doc/examples/duffs_device.c). */
module Duff {

  // A statement repeated: the loop that the device stands for.
  function Iterate<S>(step: S -> S, n: nat, s: S): S {
    if n == 0 then s else Iterate(step, n - 1, step(s))
  }

  // The states that a statement leads through, executed one time after another.
  ghost predicate LeadsThrough<S(!new)>(step: S -> S, states: seq<S>) {
    forall i :: 0 <= i < |states| - 1 ==> states[i + 1] == step(states[i])
  }

  // The statement, executed exactly n times, leads from one state to another.
  ghost predicate Executes<S(!new)>(step: S -> S, n: nat, s: S, r: S) {
    exists states :: |states| == n + 1 && states[0] == s && states[n] == r && LeadsThrough(step, states)
  }

  lemma {:induction false} IterateExecutes<S(!new)>(step: S -> S, n: nat, s: S, r: S)
    ensures Executes(step, n, s, r) <==> r == Iterate(step, n, s)
  {
    if n == 0 {
      assert LeadsThrough(step, [s]);
    } else {
      IterateExecutes(step, n - 1, step(s), r);
      if states :| |states| == n + 1 && states[0] == s && states[n] == r && LeadsThrough(step, states) {
        var rest := states[1..];
        forall i | 0 <= i < |rest| - 1
          ensures rest[i + 1] == step(rest[i])
        {
          assert states[i + 1 + 1] == step(states[i + 1]);
        }
        assert states[0 + 1] == step(s);
        assert |rest| == n - 1 + 1 && rest[0] == step(s) && rest[n - 1] == r && LeadsThrough(step, rest);
      }
      if rest :| |rest| == n - 1 + 1 && rest[0] == step(s) && rest[n - 1] == r && LeadsThrough(step, rest) {
        var states := [s] + rest;
        forall i | 0 <= i < |states| - 1
          ensures states[i + 1] == step(states[i])
        {
          if i > 0 {
            assert rest[i - 1 + 1] == step(rest[i - 1]);
          }
        }
        assert LeadsThrough(step, states) && states[n] == r;
      }
    }
  }

  // Counting up n times adds n.
  lemma CountingAdds(n: nat, s: int)
    ensures Executes((x: int) => x + 1, n, s, s + n)
  {
    var states := seq(n + 1, i => s + i);
    assert LeadsThrough((x: int) => x + 1, states);
    assert |states| == n + 1 && states[0] == s && states[n] == s + n;
  }

  // The case label in front of the i-th copy of the statement.
  function CaseLabel(u: nat, i: nat): nat
    requires i < u
  {
    if i == 0 then 0 else u - i
  }

  // The copy that the switch jumps to. Every remainder has exactly one.
  function Entry(u: nat, remainder: nat): (i: nat)
    requires remainder < u
    ensures i < u && CaseLabel(u, i) == remainder
    ensures forall k: nat :: k < u && CaseLabel(u, k) == remainder ==> k == i
  {
    if remainder == 0 then 0 else u - remainder
  }

  // The copies in some full rounds.
  function Full(u: nat, rounds: nat): nat {
    if rounds == 0 then 0 else u + Full(u, rounds - 1)
  }

  lemma {:induction false} FullIsProduct(u: nat, rounds: nat)
    ensures Full(u, rounds) == u * rounds
  {
    if rounds > 0 {
      FullIsProduct(u, rounds - 1);
      assert u * rounds == u * (rounds - 1) + u;
    }
  }

  // The copies left in this round and the rounds after it.
  function Left(u: nat, i: nat, rounds: nat): nat
    requires rounds > 0 && i <= u
  {
    u - i + Full(u, rounds - 1)
  }

  // The first round makes up the remainder, the others are full.
  lemma EntryCounts(u: nat, n: nat)
    requires u > 0 && n > 0
    ensures var rounds := (n + (u - 1)) / u; rounds > 0 && Left(u, Entry(u, n % u), rounds) == n
  {
    var q, r := n / u, n % u;
    assert n == u * q + r;
    RoundsAre(u, n, q, r);
    FullIsProduct(u, if r == 0 then q - 1 else q);
    if r == 0 {
      assert u * (q - 1) == u * q - u;
    }
  }

  // Rounding up.
  lemma RoundsAre(u: nat, n: nat, q: nat, r: nat)
    requires u > 0 && n > 0 && r < u && n == u * q + r
    ensures r == 0 ==> q > 0
    ensures (n + (u - 1)) / u == if r == 0 then q else q + 1
  {
    if r == 0 {
      DivisionIs(n + (u - 1), u, q, u - 1);
    } else {
      assert u * (q + 1) == u * q + u;
      DivisionIs(n + (u - 1), u, q + 1, r - 1);
    }
  }

  lemma MultiplesGrow(u: nat, p: nat, q: nat)
    ensures p <= q ==> u * p <= u * q
  {
    if p <= q {
      assert u * q == u * p + u * (q - p);
    }
  }

  lemma DivisionIs(a: nat, u: nat, q: nat, r: nat)
    requires u > 0 && r < u && a == u * q + r
    ensures a / u == q
  {
    var p := a / u;
    assert a == u * p + a % u;
    MultiplesGrow(u, p + 1, q);
    MultiplesGrow(u, q + 1, p);
    assert u * (p + 1) == u * p + u && u * (q + 1) == u * q + u;
  }

  // For any unrolling factor and any count for which the rounding up does not leave the counter's type, the device
  // executes the statement exactly that often, as the loop does.
  method DuffsDevice<S(!new)>(u: nat, n: int, max: nat, step: S -> S, s: S) returns (r: S)
    requires u > 0 && n + (u - 1) <= max
    ensures r == Iterate(step, if n > 0 then n else 0, s)
    ensures Executes(step, if n > 0 then n else 0, s, r)
  {
    IterateExecutes(step, if n > 0 then n else 0, s, Iterate(step, if n > 0 then n else 0, s));
    r := s;
    if n > 0 {
      EntryCounts(u, n);
      var running: nat := (n + (u - 1)) / u;
      var i: nat := Entry(u, n % u);
      while running > 0
        invariant i < u
        invariant running > 0 ==> Iterate(step, Left(u, i, running), r) == Iterate(step, n, s)
        invariant running == 0 ==> r == Iterate(step, n, s)
        decreases running
      {
        r := Unrolled(u, i, Full(u, running - 1), step, r);
        running := running - 1;
        i := 0;
      }
    }
  }

  // The copies from the i-th on.
  method Unrolled<S>(u: nat, i: nat, ghost rest: nat, step: S -> S, s: S) returns (r: S)
    requires i <= u
    ensures Iterate(step, rest, r) == Iterate(step, u - i + rest, s)
  {
    r := s;
    for k := i to u
      invariant Iterate(step, u - k + rest, r) == Iterate(step, u - i + rest, s)
    {
      r := step(r);
    }
  }
}
