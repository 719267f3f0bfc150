/** The log sink that accumulates network statistics and writes them out in rows
    (libs/log/example/doc/extension_stat_collector_settings.cpp; the variant in
    extension_stat_collector.cpp fixes the interval at one minute). */
module StatCollectors {
  import opened Options

  // The number of values of the unsigned counters, which wrap around.
  type Modulus = m: nat | m > 0 witness 1

  function Plus(a: nat, b: nat, m: Modulus): nat {
    (a + b) % m
  }

  function PlusAmount(a: nat, o: Option<nat>, m: Modulus): nat {
    if o.Some? then Plus(a, o.value, m) else a
  }

  // What a log record carries.
  datatype Record = Record(connected: bool, disconnected: bool, sent: Option<nat>, received: Option<nat>)

  datatype Row = Row(active: nat, sent: nat, received: nat)

  // The accumulators, the time of the last row, and the rows written so far.
  datatype Collector = Collector(active: nat, sent: nat, received: nat, count: nat, lastStore: int, rows: seq<Row>)

  // A call of the sink, with the time that the clock shows.
  datatype Call = Consume(rec: Record, now: int) | Flush(now: int)

  // ---- The calls as functions ----

  function Written(c: Collector, now: int): Collector {
    c.(sent := 0, received := 0, count := 0, lastStore := now, rows := c.rows + [Row(c.active, c.sent, c.received)])
  }

  function Accumulated(c: Collector, rec: Record, m: Modulus): Collector {
    var counted := c.(count := Plus(c.count, 1, m));
    if rec.connected then counted.(active := Plus(c.active, 1, m))
    else if rec.disconnected then counted.(active := Plus(c.active, m - 1, m))
    else counted.(sent := PlusAmount(c.sent, rec.sent, m), received := PlusAmount(c.received, rec.received, m))
  }

  function After(c: Collector, call: Call, interval: int, m: Modulus): Collector {
    match call
    case Consume(rec, now) =>
      var a := Accumulated(c, rec, m);
      if now - c.lastStore >= interval then Written(a, now) else a
    case Flush(now) =>
      if c.count > 0 then Written(c, now) else c
  }

  function AfterAll(c: Collector, calls: seq<Call>, interval: int, m: Modulus): Collector
    decreases |calls|
  {
    if calls == [] then c else After(AfterAll(c, calls[..|calls| - 1], interval, m), calls[|calls| - 1], interval, m)
  }

  // ---- The sink in place ----

  class StatCollector {
    var activeConnections: nat
    var sentBytes: nat
    var receivedBytes: nat
    var collectedCount: nat
    var lastStoreTime: int
    const writeInterval: int
    var file: seq<Row>

    const modulus: Modulus

    constructor (modulus: Modulus, writeInterval: int, now: int)
      ensures Value() == Collector(0, 0, 0, 0, now, [])
      ensures this.modulus == modulus && this.writeInterval == writeInterval
    {
      activeConnections, sentBytes, receivedBytes, collectedCount := 0, 0, 0, 0;
      lastStoreTime, file := now, [];
      this.modulus, this.writeInterval := modulus, writeInterval;
    }

    function Value(): Collector
      reads this
    {
      Collector(activeConnections, sentBytes, receivedBytes, collectedCount, lastStoreTime, file)
    }

    method Consume(rec: Record, now: int)
      modifies this
      ensures Value() == After(old(Value()), Call.Consume(rec, now), writeInterval, modulus)
    {
      if rec.connected {
        activeConnections := Plus(activeConnections, 1, modulus);
      } else if rec.disconnected {
        activeConnections := Plus(activeConnections, modulus - 1, modulus);
      } else {
        sentBytes := PlusAmount(sentBytes, rec.sent, modulus);
        receivedBytes := PlusAmount(receivedBytes, rec.received, modulus);
      }
      collectedCount := Plus(collectedCount, 1, modulus);
      if now - lastStoreTime >= writeInterval {
        WriteData();
        lastStoreTime := now;
      }
    }

    method WriteData()
      modifies this
      ensures Value() == Written(old(Value()), old(lastStoreTime))
    {
      file := file + [Row(activeConnections, sentBytes, receivedBytes)];
      ResetAccumulators();
    }

    method ResetAccumulators()
      modifies this`sentBytes, this`receivedBytes, this`collectedCount
      ensures sentBytes == 0 && receivedBytes == 0 && collectedCount == 0
    {
      sentBytes, receivedBytes, collectedCount := 0, 0, 0;
    }

    method Flush(now: int)
      modifies this
      ensures Value() == After(old(Value()), Call.Flush(now), writeInterval, modulus)
    {
      if collectedCount > 0 {
        WriteData();
        lastStoreTime := now;
      }
    }
  }

  // ---- What the rows and the accumulators add up to ----

  // Columns and amounts are added without wrapping around.
  datatype Sums = Sums(connects: nat, disconnects: nat, sent: nat, received: nat)

  function Amount(o: Option<nat>): nat {
    if o.Some? then o.value else 0
  }

  // What one call reports.
  function Reported(call: Call): Sums {
    match call
    case Flush(_) => Sums(0, 0, 0, 0)
    case Consume(rec, _) =>
      if rec.connected then Sums(1, 0, 0, 0)
      else if rec.disconnected then Sums(0, 1, 0, 0)
      else Sums(0, 0, Amount(rec.sent), Amount(rec.received))
  }

  function ReportedByAll(calls: seq<Call>): Sums
    decreases |calls|
  {
    if calls == [] then Sums(0, 0, 0, 0)
    else
      SumsOf(ReportedByAll(calls[..|calls| - 1]), Reported(calls[|calls| - 1]))
  }

  function SentColumn(rows: seq<Row>): nat {
    if rows == [] then 0 else SentColumn(rows[..|rows| - 1]) + rows[|rows| - 1].sent
  }

  function ReceivedColumn(rows: seq<Row>): nat {
    if rows == [] then 0 else ReceivedColumn(rows[..|rows| - 1]) + rows[|rows| - 1].received
  }

  // Everything written or still in the accumulator.
  function SentTotal(c: Collector): nat {
    SentColumn(c.rows) + c.sent
  }

  function ReceivedTotal(c: Collector): nat {
    ReceivedColumn(c.rows) + c.received
  }

  function Times(k: int, m: Modulus): int {
    k * m
  }

  // Equal up to wrapping around.
  ghost predicate Congruent(a: int, b: int, m: Modulus) {
    exists k :: a - b == Times(k, m)
  }

  lemma Congruence(a: int, b: int, c: int, m: Modulus)
    ensures Congruent(a, a, m)
    ensures Congruent(a, b, m) ==> Congruent(b, a, m)
    ensures Congruent(a, b, m) && Congruent(b, c, m) ==> Congruent(a, c, m)
  {
    assert a - a == Times(0, m);
    if k :| a - b == Times(k, m) {
      assert b - a == Times(-k, m);
      if l :| b - c == Times(l, m) {
        assert Times(k + l, m) == Times(k, m) + Times(l, m);
        assert a - c == Times(k + l, m);
      }
    }
  }

  lemma PlusIsCongruent(a: nat, b: nat, m: Modulus)
    ensures Congruent(Plus(a, b, m), a + b, m)
  {
    assert Plus(a, b, m) - (a + b) == Times(-((a + b) / m), m);
  }

  lemma CongruentSum(a: int, b: int, n: int, m: Modulus)
    requires Congruent(a, b, m)
    ensures Congruent(a + n, b + n, m)
  {
    var k :| a - b == Times(k, m);
    assert (a + n) - (b + n) == Times(k, m);
  }

  // The second state accounts for the first and what has been reported in between.
  ghost predicate Accounts(c: Collector, r: Sums, d: Collector, m: Modulus) {
    && Congruent(SentTotal(d), SentTotal(c) + r.sent, m)
    && Congruent(ReceivedTotal(d), ReceivedTotal(c) + r.received, m)
    && Congruent(d.active + r.disconnects, c.active + r.connects, m)
  }

  function SumsOf(r: Sums, l: Sums): Sums {
    Sums(r.connects + l.connects, r.disconnects + l.disconnects, r.sent + l.sent, r.received + l.received)
  }

  // Writing a row moves the accumulators into the columns.
  lemma WrittenConserves(c: Collector, now: int)
    ensures var w := Written(c, now);
            SentTotal(w) == SentTotal(c) && ReceivedTotal(w) == ReceivedTotal(c) && w.active == c.active
  {
    var row := Row(c.active, c.sent, c.received);
    assert (c.rows + [row])[..|c.rows|] == c.rows;
  }

  lemma PlusAmountAccounts(column: nat, a: nat, o: Option<nat>, m: Modulus)
    ensures Congruent(column + PlusAmount(a, o, m), column + a + Amount(o), m)
  {
    Congruence(column + a, 0, 0, m);
    if o.Some? {
      PlusIsCongruent(a, o.value, m);
      CongruentSum(Plus(a, o.value, m), a + o.value, column, m);
    }
  }

  // Adding one less than the modulus takes one away.
  lemma OneLess(a: nat, m: Modulus)
    ensures Congruent(Plus(a, m - 1, m) + 1, a, m)
  {
    PlusIsCongruent(a, m - 1, m);
    CongruentSum(Plus(a, m - 1, m), a + (m - 1), 1, m);
    assert a + m - a == Times(1, m);
    Congruence(Plus(a, m - 1, m) + 1, a + m, a, m);
  }

  lemma AccumulatedAccounts(c: Collector, rec: Record, now: int, m: Modulus)
    ensures Accounts(c, Reported(Consume(rec, now)), Accumulated(c, rec, m), m)
  {
    Congruence(SentTotal(c), 0, 0, m);
    Congruence(ReceivedTotal(c), 0, 0, m);
    Congruence(c.active, 0, 0, m);
    if rec.connected {
      PlusIsCongruent(c.active, 1, m);
    } else if rec.disconnected {
      OneLess(c.active, m);
    } else {
      PlusAmountAccounts(SentColumn(c.rows), c.sent, rec.sent, m);
      PlusAmountAccounts(ReceivedColumn(c.rows), c.received, rec.received, m);
    }
  }

  lemma AccountsSame(c: Collector, r: Sums, d: Collector, e: Collector, m: Modulus)
    requires Accounts(c, r, d, m)
    requires SentTotal(e) == SentTotal(d) && ReceivedTotal(e) == ReceivedTotal(d) && e.active == d.active
    ensures Accounts(c, r, e, m)
  {
  }

  lemma NothingAccounts(c: Collector, m: Modulus)
    ensures Accounts(c, Sums(0, 0, 0, 0), c, m)
  {
    Congruence(SentTotal(c), 0, 0, m);
    Congruence(ReceivedTotal(c), 0, 0, m);
    Congruence(c.active, 0, 0, m);
  }

  lemma AfterAccounts(c: Collector, call: Call, interval: int, m: Modulus)
    ensures Accounts(c, Reported(call), After(c, call, interval, m), m)
  {
    match call
    case Consume(rec, now) =>
      var a := Accumulated(c, rec, m);
      AccumulatedAccounts(c, rec, now, m);
      WrittenConserves(a, now);
      AccountsSame(c, Reported(call), a, After(c, call, interval, m), m);
    case Flush(now) =>
      NothingAccounts(c, m);
      WrittenConserves(c, now);
      AccountsSame(c, Reported(call), c, After(c, call, interval, m), m);
  }

  // If b accounts for a and p, and c for b and q, then c accounts for a and both.
  lemma CongruentThen(a: int, p: int, b: int, q: int, c: int, m: Modulus)
    requires Congruent(b, a + p, m) && Congruent(c, b + q, m)
    ensures Congruent(c, a + (p + q), m)
  {
    CongruentSum(b, a + p, q, m);
    Congruence(c, b + q, a + p + q, m);
  }

  lemma AccountsThen(a: Collector, r: Sums, b: Collector, l: Sums, c: Collector, m: Modulus)
    requires Accounts(a, r, b, m) && Accounts(b, l, c, m)
    ensures Accounts(a, SumsOf(r, l), c, m)
  {
    CongruentThen(SentTotal(a), r.sent, SentTotal(b), l.sent, SentTotal(c), m);
    CongruentThen(ReceivedTotal(a), r.received, ReceivedTotal(b), l.received, ReceivedTotal(c), m);
    CongruentSum(b.active + r.disconnects, a.active + r.connects, l.connects, m);
    CongruentSum(c.active + l.disconnects, b.active + l.connects, r.disconnects, m);
    Congruence(c.active + l.disconnects + r.disconnects, b.active + l.connects + r.disconnects,
               a.active + r.connects + l.connects, m);
  }

  // Over any run, with any clock, any interval and any width of the counters, everything reported
  // is in the rows or still in the accumulators, up to wrapping around.
  lemma {:induction false} Conservation(c: Collector, calls: seq<Call>, interval: int, m: Modulus)
    ensures Accounts(c, ReportedByAll(calls), AfterAll(c, calls, interval, m), m)
    decreases |calls|
  {
    if calls == [] {
      NothingAccounts(c, m);
    } else {
      var front, last := calls[..|calls| - 1], calls[|calls| - 1];
      var d := AfterAll(c, front, interval, m);
      Conservation(c, front, interval, m);
      AfterAccounts(d, last, interval, m);
      AccountsThen(c, ReportedByAll(front), d, Reported(last), After(d, last, interval, m), m);
    }
  }

  // ---- What each row shows ----

  // The row is the last one written by the first n calls.
  ghost predicate WrittenBy(c: Collector, calls: seq<Call>, interval: int, k: nat, n: nat, m: Modulus)
    requires k < |AfterAll(c, calls, interval, m).rows|
  {
    && n <= |calls|
    && AfterAll(c, calls[..n], interval, m).rows == AfterAll(c, calls, interval, m).rows[..k + 1]
    && AfterAll(c, calls[..n], interval, m).sent == 0 && AfterAll(c, calls[..n], interval, m).received == 0
    && AfterAll(c, calls[..n], interval, m).active == AfterAll(c, calls, interval, m).rows[k].active
  }

  lemma {:induction false} RowIsWritten(c: Collector, calls: seq<Call>, interval: int, k: nat, m: Modulus)
    returns (n: nat)
    requires |c.rows| <= k < |AfterAll(c, calls, interval, m).rows|
    ensures WrittenBy(c, calls, interval, k, n, m)
  {
    var front, last := calls[..|calls| - 1], calls[|calls| - 1];
    var before, after := AfterAll(c, front, interval, m), AfterAll(c, calls, interval, m);
    assert before.rows <= after.rows;
    if k < |before.rows| {
      n := RowIsWritten(c, front, interval, k, m);
      assert front[..n] == calls[..n];
    } else {
      n := |calls|;
      assert calls[..n] == calls && after.rows[..k + 1] == after.rows;
    }
  }

  // The columns of some rows account for the first state and what has been reported since,
  // and so does the number of connections.
  ghost predicate RowsAccountFor(c: Collector, r: Sums, rows: seq<Row>, active: nat, m: Modulus) {
    && Congruent(SentColumn(rows), SentTotal(c) + r.sent, m)
    && Congruent(ReceivedColumn(rows), ReceivedTotal(c) + r.received, m)
    && Congruent(active + r.disconnects, c.active + r.connects, m)
  }

  // With empty accumulators the columns account for everything.
  lemma EmptyAccounts(c: Collector, r: Sums, d: Collector, m: Modulus)
    requires Accounts(c, r, d, m) && d.sent == 0 && d.received == 0
    ensures RowsAccountFor(c, r, d.rows, d.active, m)
  {
  }

  // The columns up to any row add up to what had been reported when it was written,
  // and its first field to the connections that were open then.
  lemma RowsAccount(c: Collector, calls: seq<Call>, interval: int, k: nat, m: Modulus) returns (n: nat)
    requires |c.rows| <= k < |AfterAll(c, calls, interval, m).rows|
    ensures WrittenBy(c, calls, interval, k, n, m)
    ensures var rows := AfterAll(c, calls, interval, m).rows;
            RowsAccountFor(c, ReportedByAll(calls[..n]), rows[..k + 1], rows[k].active, m)
  {
    n := RowIsWritten(c, calls, interval, k, m);
    Conservation(c, calls[..n], interval, m);
    EmptyAccounts(c, ReportedByAll(calls[..n]), AfterAll(c, calls[..n], interval, m), m);
  }

  // ---- When rows are written ----

  // Call number i adds a row.
  ghost predicate Writes(c: Collector, calls: seq<Call>, interval: int, i: nat, m: Modulus)
    requires i < |calls|
  {
    |AfterAll(c, calls[..i + 1], interval, m).rows| > |AfterAll(c, calls[..i], interval, m).rows|
  }

  // The last of the first n calls that adds a row, if any does, is call number i, and it is made at this time;
  // if none does, it is the time of the state at the start.
  ghost predicate LastWrite(c: Collector, calls: seq<Call>, interval: int, n: nat, i: int, time: int, m: Modulus)
    requires n <= |calls|
  {
    && -1 <= i < n
    && (i >= 0 ==> Writes(c, calls, interval, i, m))
    && (forall j {:trigger Writes(c, calls, interval, j, m)} :: i < j < n ==> !Writes(c, calls, interval, j, m))
    && time == if i >= 0 then calls[i].now else c.lastStore
  }

  lemma OneCall(c: Collector, calls: seq<Call>, interval: int, n: nat, next: nat, m: Modulus)
    requires next == n + 1 <= |calls|
    ensures AfterAll(c, calls[..next], interval, m) ==
            After(AfterAll(c, calls[..n], interval, m), calls[n], interval, m)
  {
    assert calls[..next][..n] == calls[..n];
  }

  // A call that adds no row leaves the last one what it was.
  lemma LastWriteStays(c: Collector, calls: seq<Call>, interval: int, n: nat, next: nat, i: int, time: int, m: Modulus)
    requires next == n + 1 <= |calls| && LastWrite(c, calls, interval, n, i, time, m)
    requires !Writes(c, calls, interval, n, m)
    ensures LastWrite(c, calls, interval, next, i, time, m)
  {
  }

  // The time kept is that of the last call that added a row.
  lemma {:induction false} LastStoreIsLastWrite(c: Collector, calls: seq<Call>, interval: int, n: nat, m: Modulus)
    returns (i: int)
    requires n <= |calls|
    ensures LastWrite(c, calls, interval, n, i, AfterAll(c, calls[..n], interval, m).lastStore, m)
  {
    if n == 0 {
      i := -1;
    } else {
      var k: nat := n - 1;
      OneCall(c, calls, interval, k, n, m);
      if Writes(c, calls, interval, k, m) {
        i := k;
      } else {
        i := LastStoreIsLastWrite(c, calls, interval, k, m);
        LastWriteStays(c, calls, interval, k, n, i, AfterAll(c, calls[..k], interval, m).lastStore, m);
      }
    }
  }

  // A record adds a row exactly if at least the interval has passed since the last call that added one,
  // or since the start.
  lemma ConsumeWritesIff(c: Collector, calls: seq<Call>, interval: int, n: nat, m: Modulus)
    returns (i: int, time: int)
    requires n < |calls| && calls[n].Consume?
    ensures LastWrite(c, calls, interval, n, i, time, m)
    ensures Writes(c, calls, interval, n, m) <==> calls[n].now >= time + interval
  {
    i := LastStoreIsLastWrite(c, calls, interval, n, m);
    time := AfterAll(c, calls[..n], interval, m).lastStore;
    OneCall(c, calls, interval, n, n + 1, m);
  }

  // A flush adds a row exactly if the counter of the records since the last row is not zero.
  lemma FlushWritesIff(c: Collector, calls: seq<Call>, interval: int, n: nat, m: Modulus)
    requires n < |calls| && calls[n].Flush? && c.count == 0
    ensures Writes(c, calls, interval, n, m) <==> !Congruent(Pending(c, calls[..n], interval, m), 0, m)
  {
    OneCall(c, calls, interval, n, n + 1, m);
    FlushWritesPending(c, calls[..n], interval, calls[n].now, m);
  }

  // A row that a record adds comes at least one interval after the row before it.
  lemma RowsAreApart(c: Collector, calls: seq<Call>, interval: int, k: nat, n: nat, m: Modulus)
    requires k < n < |calls| && calls[n].Consume?
    requires Writes(c, calls, interval, k, m) && Writes(c, calls, interval, n, m)
    requires forall j {:trigger Writes(c, calls, interval, j, m)} :: k < j < n ==> !Writes(c, calls, interval, j, m)
    ensures calls[n].now - calls[k].now >= interval
  {
    var i, time := ConsumeWritesIff(c, calls, interval, n, m);
    assert i == k by {
      assert Writes(c, calls, interval, k, m);
    }
  }

  // The time from the start to the last row has room for one interval for each row, if nothing is flushed.
  lemma {:induction false} RowsAreRare(c: Collector, calls: seq<Call>, interval: int, m: Modulus)
    requires forall i :: 0 <= i < |calls| ==> calls[i].Consume?
    ensures var d := AfterAll(c, calls, interval, m);
            (|d.rows| - |c.rows|) * interval <= d.lastStore - c.lastStore
    decreases |calls|
  {
    if calls != [] {
      var front := calls[..|calls| - 1];
      RowsAreRare(c, front, interval, m);
      var b := AfterAll(c, front, interval, m);
      assert (|b.rows| + 1 - |c.rows|) * interval == (|b.rows| - |c.rows|) * interval + interval;
    }
  }

  // ---- What is pending ----

  // The records since the last row.
  function Pending(c: Collector, calls: seq<Call>, interval: int, m: Modulus): nat
    decreases |calls|
  {
    if calls == [] then 0
    else
      var front, last := calls[..|calls| - 1], calls[|calls| - 1];
      var before := AfterAll(c, front, interval, m);
      if |After(before, last, interval, m).rows| > |before.rows| then 0
      else Pending(c, front, interval, m) + if last.Consume? then 1 else 0
  }

  // The counter counts the records since the last row, up to wrapping around.
  lemma {:induction false} CountIsPending(c: Collector, calls: seq<Call>, interval: int, m: Modulus)
    requires c.count == 0
    ensures AfterAll(c, calls, interval, m).count < m
    ensures Congruent(AfterAll(c, calls, interval, m).count, Pending(c, calls, interval, m), m)
    decreases |calls|
  {
    Congruence(0, 0, 0, m);
    if calls != [] {
      var front := calls[..|calls| - 1];
      CountIsPending(c, front, interval, m);
      var before := AfterAll(c, front, interval, m);
      var pending := Pending(c, front, interval, m);
      PlusIsCongruent(before.count, 1, m);
      CongruentSum(before.count, pending, 1, m);
      Congruence(Plus(before.count, 1, m), before.count + 1, pending + 1, m);
    }
  }

  // A flush writes what is pending, unless the counter of pending records has come round to zero.
  lemma FlushWritesPending(c: Collector, calls: seq<Call>, interval: int, now: int, m: Modulus)
    requires c.count == 0
    ensures var d := AfterAll(c, calls, interval, m);
            After(d, Flush(now), interval, m) ==
            if Congruent(Pending(c, calls, interval, m), 0, m) then d else Written(d, now)
  {
    CountIsPending(c, calls, interval, m);
    ZeroCount(AfterAll(c, calls, interval, m).count, Pending(c, calls, interval, m), m);
  }

  lemma ZeroCount(count: nat, n: nat, m: Modulus)
    requires count < m && Congruent(count, n, m)
    ensures count > 0 <==> !Congruent(n, 0, m)
  {
    Congruence(count, n, 0, m);
    Congruence(n, count, 0, m);
    if count > 0 {
      forall k
        ensures count - 0 != Times(k, m)
      {
        SmallMultiple(count, k, m);
      }
    }
  }

  lemma SmallMultiple(n: nat, k: int, m: Modulus)
    requires n < m
    ensures n == Times(k, m) ==> n == 0
  {
    if k >= 1 {
      assert Times(k, m) == m + Times(k - 1, m);
      NonNegative(k - 1, m);
    } else if k <= -1 {
      NonNegative(-k - 1, m);
      assert Times(k, m) + Times(-k - 1, m) + m == 0;
    }
  }

  lemma NonNegative(k: nat, m: Modulus)
    ensures Times(k, m) >= 0
  {
  }

  // With no records pending there is nothing to write.
  lemma {:induction false} NothingPending(c: Collector, calls: seq<Call>, interval: int, m: Modulus)
    requires c.count == 0 && c.sent == 0 && c.received == 0 && Pending(c, calls, interval, m) == 0
    ensures AfterAll(c, calls, interval, m).sent == 0 && AfterAll(c, calls, interval, m).received == 0
    decreases |calls|
  {
    if calls != [] {
      var front, last := calls[..|calls| - 1], calls[|calls| - 1];
      var before := AfterAll(c, front, interval, m);
      if |After(before, last, interval, m).rows| <= |before.rows| {
        NothingPending(c, front, interval, m);
      }
    }
  }
}
