/** What users of the queue can rely on: what arrives is what was queued, oldest first, each counter
    counts its own events, and a row keeps its content for as long as it lives. */
module IncidentQueueLaws {
  import opened Basics
  import opened DedupKey
  import opened IncidentQueue

  // ----- what arrives ----------------------------------------------------------------------

  /** No NUL in any text field. */
  predicate PlainText(i: Incident) {
    && NulFree(i) && '\0' !in i.severity && '\0' !in i.sourceType && '\0' !in i.sourceIp
    && '\0' !in i.matchedContent
  }

  /** Such an incident is stored as it is. */
  lemma StoredWhole(i: Incident)
    ensures PlainText(i) <==> Stored(i) == i
  {
    hide CString;
  }

  /** Each field that is cut is cut at its first NUL. */
  lemma {:induction false} CStringCuts(s: string, tail: string)
    requires '\0' !in s
    ensures CString(s + "\0" + tail) == s && CString(s) == s
  {
    if s == "" {
      assert s + "\0" + tail == "\0" + tail;
    } else {
      assert (s + "\0" + tail)[1..] == s[1..] + "\0" + tail;
      CStringCuts(s[1..], tail);
      assert s == [s[0]] + s[1..];
    }
  }

  /** An accepted incident is among the rows of the next complete drain, with every field it was
      queued with, its own time if it had one and the clock's otherwise, and no retries. */
  lemma ArrivesWhole(c: Config, q: Queue, i: Incident, now: int)
    requires Inv(q) && Enqueued(c, q, i, now).1 && PlainText(i)
    ensures var q' := Enqueued(c, q, i, now).0;
      && Keyed(q'.table)
      && exists k :: 0 <= k < |Drained(q', -1).1|
           && var r := Drained(q', -1).1[k];
              && r.incident == i && r.rowid == q.nextRowid && r.retryCount == 0
              && r.queuedAt == (if i.queuedAt > 0 then i.queuedAt else now)
              && r.hash == c.digest(Blob(i))
  {
    hide Ordered, MakeRoom, Blob, Stored, Ids, DistinctHashes, Conserved;
    EnqueuedKeepsInv(c, q, i, now);
    MakeRoomKeepsInv(c, q);
    StoredWhole(i);
    var q' := Enqueued(c, q, i, now).0;
    OrderedSorted(q'.table);
    var rows := Ordered(q'.table);
    assert rows[..|rows|] == rows && Drained(q', -1).1 == rows;
    assert q.nextRowid in q'.table;
    RowListed(q'.table, q.nextRowid);
  }

  lemma RowListed(t: Table, k: nat)
    requires Keyed(t) && k in t
    ensures exists n :: 0 <= n < |Ordered(t)| && Ordered(t)[n] == t[k]
  {
    hide Ordered;
    OrderedSorted(t);
    assert k in Ids(Ordered(t));
    var r :| r in Ordered(t) && r.rowid == k;
    var n :| 0 <= n < |Ordered(t)| && Ordered(t)[n] == r;
  }

  predicate Earlier(a: Row, b: Row) {
    a.queuedAt < b.queuedAt || (a.queuedAt == b.queuedAt && a.rowid < b.rowid)
  }

  lemma WithoutIds(t: Table, rows: seq<Row>)
    ensures forall k :: k in t - Ids(rows) ==> k in t && (t - Ids(rows))[k] == t[k]
    ensures forall r :: r in rows ==> r.rowid !in t - Ids(rows)
  {
  }

  /** A drain hands out as many rows as the limit allows, all of them for a negative limit, by time
      and then by number. */
  lemma DrainTakesOldest(q: Queue, limit: int)
    requires Inv(q) && q.open
    ensures var rows := Drained(q, limit).1;
      && |rows| == (if limit < 0 then |q.table| else Min(limit, |q.table|))
      && (forall j, k :: 0 <= j < k < |rows| ==> Earlier(rows[j], rows[k]))
      && (forall r :: r in rows ==> r.rowid in q.table && q.table[r.rowid] == r)
  {
    hide Ordered, DistinctHashes, Conserved, Ids, Earlier, Before;
    OrderedSorted(q.table);
    var rows, all := Drained(q, limit).1, Ordered(q.table);
    forall j, k | 0 <= j < k < |rows| ensures Earlier(rows[j], rows[k]) {
      assert Before(all[j], all[k]);
      BeforeIsEarlier(all[j], all[k]);
    }
  }

  lemma BeforeIsEarlier(a: Row, b: Row)
    ensures Before(a, b) <==> Earlier(a, b)
  {
  }

  /** What stays behind is unchanged, and comes after everything handed out. */
  lemma DrainLeavesLater(q: Queue, limit: int, k: nat)
    requires Inv(q) && q.open
    ensures var (q', rows) := Drained(q, limit);
      k in q'.table ==>
        k in q.table && q'.table[k] == q.table[k] && forall r :: r in rows ==> Earlier(r, q'.table[k])
  {
    hide Ordered, DistinctHashes, Conserved, Ids, Earlier, Before;
    var n := Limited(limit, |q.table|);
    var all := Ordered(q.table);
    var (q', rows) := Drained(q, limit);
    OrderedSorted(q.table);
    OrderedDrop(q.table, n);
    WithoutIds(q.table, rows);
    if k in q'.table {
      RowListed(q'.table, k);
      var b :| 0 <= b < |Ordered(q'.table)| && Ordered(q'.table)[b] == q'.table[k];
      assert all[n..][b] == all[n + b];
      forall r | r in rows ensures Earlier(r, q'.table[k]) {
        var a :| 0 <= a < n && all[a] == r;
        assert Before(all[a], all[n + b]);
        BeforeIsEarlier(all[a], all[n + b]);
      }
    }
  }

  /** A drain takes its rows out of the table and moves no counter but its own. */
  lemma DrainCounts(q: Queue, limit: int)
    requires Inv(q) && q.open
    ensures var (q', rows) := Drained(q, limit);
      && (forall r :: r in rows ==> r.rowid !in q'.table)
      && |q'.table| == |q.table| - |rows|
      && q'.stats == q.stats.(drained := q.stats.drained + |rows|, currentSize := |q'.table|)
  {
    hide Ordered, DistinctHashes, Conserved, Ids, Select;
    SelectFacts(q.table, limit);
    WithoutIds(q.table, Select(q.table, limit));
  }

  // ----- counters --------------------------------------------------------------------------

  lemma MakeRoomCounts(c: Config, q: Queue)
    requires Inv(q) && q.open
    ensures var room := MakeRoom(c, q);
      room.stats == q.stats.(evicted := q.stats.evicted + (|q.table| - |room.table|), currentSize := |room.table|)
  {
    hide Select, Ids, DistinctHashes, Conserved;
    if c.maxSize > 0 && |q.table| >= c.maxSize {
      SelectFacts(q.table, |q.table| - c.maxSize + 1);
    }
  }

  lemma InsertGrows(t: Table, k: nat, r: Row)
    requires k !in t
    ensures |t[k := r]| == |t| + 1
  {
    assert t[k := r].Keys == t.Keys + {k};
    assert |t[k := r].Keys| == |t.Keys| + 1;
  }

  /** An enqueue counts as one enqueued incident and as many evictions as rows had to go, or as one
      duplicate; on a closed queue as nothing. */
  lemma EnqueueCounts(c: Config, q: Queue, i: Incident, now: int)
    requires Inv(q)
    ensures var (q', ok) := Enqueued(c, q, i, now);
      if !q.open then q' == q && !ok
      else if ok then
        q'.stats == q.stats.(enqueued := q.stats.enqueued + 1,
                             evicted := q.stats.evicted + (|q.table| + 1 - |q'.table|),
                             currentSize := |q'.table|)
      else q' == q.(stats := q.stats.(duplicates := q.stats.duplicates + 1))
  {
    hide MakeRoom, Blob, NewRow, Keyed, DistinctHashes, Conserved, Hashes;
    if Enqueued(c, q, i, now).1 {
      MakeRoomKeepsInv(c, q);
      MakeRoomCounts(c, q);
      var row := NewRow(q, c.digest(Blob(i)), i, now);
      NewRowNumber(q, c.digest(Blob(i)), i, now);
      InsertGrows(MakeRoom(c, q).table, q.nextRowid, row);
    }
  }

  lemma NewRowNumber(q: Queue, hash: string, i: Incident, now: int)
    ensures NewRow(q, hash, i, now).rowid == q.nextRowid
  {
  }

  /** A closed queue changes by nothing but being opened. */
  lemma ClosedIgnores(c: Config, q: Queue, op: Op)
    requires Keyed(q.table) && !q.open && !op.Start? && !op.Restart?
    ensures Step(c, q, op) == q
  {
    if op.RemoveBatch? { ClosedRemovesNothing(q, op.rowids); }
  }

  lemma {:induction false} ClosedRemovesNothing(q: Queue, rowids: seq<nat>)
    requires !q.open
    ensures RemovedAll(q, rowids) == (q, 0)
    decreases |rowids|
  {
    if rowids != [] { ClosedRemovesNothing(q, rowids[1..]); }
  }

  /** Clearing an open queue leaves nothing to read; a restart leaves everything, with fresh
      counters. */
  lemma ClearAndRestart(c: Config, q: Queue, limit: int)
    requires Inv(q)
    ensures q.open ==> var q' := Step(c, q, Clear); q'.table == map[] && q'.stats.currentSize == 0 && q'.open
    ensures var q' := Step(c, Step(c, q, Restart), Start);
      && q'.table == q.table && q'.open
      && q'.stats == Stats(0, 0, 0, 0, |q.table|)
      && Peeked(q', limit) == Select(q.table, limit)
  {
    hide Select;
  }

  // ----- the life of a row -----------------------------------------------------------------

  /** How often its retry count was raised in a run. */
  function Retries(c: Config, q: Queue, ops: seq<Op>, k: nat): nat
    requires Inv(q)
    decreases |ops|
  {
    if ops == [] then 0
    else
      StepKeepsInv(c, q, ops[0]);
      (if q.open && ops[0] == IncrementRetry(k) then 1 else 0) + Retries(c, Step(c, q, ops[0]), ops[1..], k)
  }

  /** The row has the same content with that many more retries. */
  predicate SameRow(before: Row, after: Row, retries: nat) {
    after == before.(retryCount := before.retryCount + retries)
  }

  lemma {:induction false} RemovedAllRows(q: Queue, rowids: seq<nat>, k: nat)
    ensures var q' := RemovedAll(q, rowids).0;
      q'.nextRowid == q.nextRowid && (k in q'.table ==> k in q.table && q'.table[k] == q.table[k])
    decreases |rowids|
  {
    if rowids != [] { RemovedAllRows(Removed(q, rowids[0]).0, rowids[1..], k); }
  }

  lemma StepKeepsRow(c: Config, q: Queue, op: Op, k: nat)
    requires Inv(q) && k < q.nextRowid
    ensures var q' := Step(c, q, op);
      && q.nextRowid <= q'.nextRowid
      && (k in q'.table ==>
            k in q.table && SameRow(q.table[k], q'.table[k], if q.open && op == IncrementRetry(k) then 1 else 0))
  {
    hide Select, Ids, Blob, Stored, RemovedAll, DistinctHashes, Conserved, Hashes;
    if op.RemoveBatch? {
      RemovedAllRows(q, op.rowids, k);
    }
  }

  /** Row numbers are not used again, and over any run of operations and restarts a row that is still
      there has the content it had, and its retry count is higher by the increments it was given. */
  lemma {:induction false} RowKeepsContent(c: Config, q: Queue, ops: seq<Op>, k: nat)
    requires Inv(q) && k < q.nextRowid
    ensures Keyed(Run(c, q, ops).table)
    ensures k in Run(c, q, ops).table ==>
      k in q.table && SameRow(q.table[k], Run(c, q, ops).table[k], Retries(c, q, ops, k))
    decreases |ops|
  {
    hide Step, Keyed, DistinctHashes, Conserved;
    if ops != [] {
      StepKeepsInv(c, q, ops[0]);
      StepKeepsRow(c, q, ops[0], k);
      RowKeepsContent(c, Step(c, q, ops[0]), ops[1..], k);
    }
  }
}
