/** The queue object: the table and the counters as the agent updates them, statement by statement. */
module IncidentQueueStore {
  import opened DedupKey
  import opened IncidentQueue

  class Store {
    const config: Config
    var table: Table
    var nextRowid: nat
    var open: bool
    var stats: Stats
    ghost var initial: nat
    ghost var removed: nat
    ghost var cleared: nat

    ghost function View(): Queue
      reads this
    {
      Queue(table, nextRowid, open, stats, initial, removed, cleared)
    }

    /** A new process on the database file it finds. */
    constructor (config: Config, table: Table, nextRowid: nat)
      ensures this.config == config
      ensures View() == Queue(table, nextRowid, false, Stats(0, 0, 0, 0, 0), |table|, 0, 0)
    {
      this.config, this.table, this.nextRowid := config, table, nextRowid;
      open, stats := false, Stats(0, 0, 0, 0, 0);
      initial, removed, cleared := |table|, 0, 0;
    }

    method Start()
      modifies this
      ensures View() == Started(old(View()))
    {
      if open { return; }
      open := true;
      stats := stats.(currentSize := |table|);
    }

    method Stop()
      modifies this
      ensures View() == Stopped(old(View()))
    {
      open := false;
    }

    method Enqueue(i: Incident, now: int) returns (ok: bool)
      requires Inv(View())
      modifies this
      ensures Inv(View())
      ensures (View(), ok) == Enqueued(config, old(View()), i, now)
    {
      hide Select, Ids, Blob, Stored, DistinctHashes, Conserved, Hashes;
      EnqueuedKeepsInv(config, View(), i, now);
      if !open { return false; }
      var hash := config.digest(Blob(i));
      if hash in Hashes(table) {
        stats := stats.(duplicates := stats.duplicates + 1);
        return false;
      }
      if config.maxSize > 0 {
        var count := |table|;
        if count >= config.maxSize {
          EvictOldest(count - config.maxSize + 1);
        }
      }
      table := table[nextRowid := Row(nextRowid, hash, Stored(i), if i.queuedAt > 0 then i.queuedAt else now, 0)];
      nextRowid := nextRowid + 1;
      stats := stats.(enqueued := stats.enqueued + 1, currentSize := stats.currentSize + 1);
      return true;
    }

    method EvictOldest(count: int)
      requires Keyed(table)
      modifies this`table, this`stats
      ensures View() == Evict(old(View()), count)
    {
      hide Select, Ids;
      var rows := Select(table, count);
      table := table - Ids(rows);
      stats := stats.(evicted := stats.evicted + |rows|, currentSize := stats.currentSize - |rows|);
    }

    /** Deletes rows by number, one statement each; returns how many were there. */
    method DeleteEach(rowids: seq<nat>) returns (hits: nat)
      modifies this`table
      ensures table == old(table) - SetOf(rowids)
      ensures hits == Hits(old(table), rowids)
    {
      hits := 0;
      var n := 0;
      NothingDeleted(table);
      assert rowids[0..] == rowids;
      while n < |rowids|
        invariant 0 <= n <= |rowids| && table == old(table) - SetOf(rowids[..n])
        invariant hits + Hits(table, rowids[n..]) == Hits(old(table), rowids)
      {
        assert rowids[..n + 1] == rowids[..n] + [rowids[n]];
        assert rowids[n..][1..] == rowids[n + 1..];
        MinusOne(old(table), rowids[..n], rowids[n]);
        if rowids[n] in table {
          hits := hits + 1;
        }
        table := table - {rowids[n]};
        n := n + 1;
      }
      assert rowids[..|rowids|] == rowids;
    }

    /** Steps through a result, keeping each row and its number. */
    static method Fetch(rows: seq<Row>) returns (results: seq<Row>, rowids: seq<nat>)
      ensures results == rows && |rowids| == |rows| && SetOf(rowids) == Ids(rows)
    {
      results, rowids := [], [];
      var n := 0;
      while n < |rows|
        invariant 0 <= n <= |rows| && results == rows[..n] && rowids == RowIds(rows[..n])
      {
        results := results + [rows[n]];
        rowids := rowids + [rows[n].rowid];
        n := n + 1;
      }
      assert rows[..|rows|] == rows;
      RowIdsSet(rows);
    }

    /** Collects the oldest rows and then deletes them. */
    method Drain(limit: int) returns (results: seq<Row>)
      requires Inv(View())
      modifies this
      ensures Inv(View())
      ensures (View(), results) == Drained(old(View()), limit)
    {
      hide Inv, Keyed, Select, Ids, SetOf, Drained, Withdraw;
      if !open {
        DrainedClosed(View(), limit);
        return [];
      }
      DrainedOpen(View(), limit);
      var rowids;
      results, rowids := Fetch(Select(table, limit));
      if rowids != [] {
        DeleteDrained(rowids);
      } else {
        NothingDeleted(table);
      }
      DrainedBy(old(View()), limit, View());
    }

    /** The delete transaction of a drain. */
    method DeleteDrained(rowids: seq<nat>)
      modifies this`table, this`stats
      ensures table == old(table) - SetOf(rowids)
      ensures stats == old(stats).(drained := old(stats).drained + |rowids|,
                                   currentSize := old(stats).currentSize - |rowids|)
    {
      var _ := DeleteEach(rowids);
      stats := stats.(drained := stats.drained + |rowids|, currentSize := stats.currentSize - |rowids|);
    }

    method Peek(limit: int) returns (results: seq<Row>)
      requires Inv(View())
      ensures results == Peeked(View(), limit)
    {
      if !open { return []; }
      results := Select(table, limit);
    }

    method Remove(rowid: nat) returns (ok: bool)
      requires Inv(View())
      modifies this
      ensures Inv(View())
      ensures (View(), ok) == Removed(old(View()), rowid)
    {
      hide Inv;
      RemovedKeepsInv(View(), rowid);
      if !open || rowid !in table { return false; }
      table := table - {rowid};
      removed := removed + 1;
      stats := stats.(currentSize := stats.currentSize - 1);
      return true;
    }

    /** Adjusts the counter once, by the number of rows that were there. */
    method RemoveBatch(rowids: seq<nat>) returns (hits: nat)
      requires Inv(View())
      modifies this
      ensures Inv(View())
      ensures (View(), hits) == RemovedAll(old(View()), rowids)
    {
      hide Inv, RemovedAll, SetOf, Hits;
      RemovedAllKeepsInv(View(), rowids);
      if !open || rowids == [] {
        RemovedAllNothing(View(), rowids);
        return 0;
      }
      RemovedAllSums(View(), rowids);
      hits := DeleteEach(rowids);
      removed := removed + hits;
      stats := stats.(currentSize := stats.currentSize - hits);
    }

    method IncrementRetry(rowid: nat) returns (ok: bool)
      modifies this
      ensures (View(), ok) == Retried(old(View()), rowid)
    {
      if !open || rowid !in table { return false; }
      table := table[rowid := table[rowid].(retryCount := table[rowid].retryCount + 1)];
      return true;
    }

    method Clear()
      modifies this
      ensures View() == Cleared(old(View()))
    {
      if !open { return; }
      cleared := cleared + |table|;
      table := map[];
      stats := stats.(currentSize := 0);
    }
  }

  lemma DrainedClosed(q: Queue, limit: int)
    requires Inv(q) && !q.open
    ensures Keyed(q.table) && Drained(q, limit) == (q, [])
  {
  }

  lemma DrainedBy(q: Queue, limit: int, q': Queue)
    requires Inv(q) && q.open && Keyed(q.table)
    requires var rows := Select(q.table, limit);
      && q'.table == q.table - Ids(rows)
      && q'.stats == q.stats.(drained := q.stats.drained + |rows|, currentSize := q.stats.currentSize - |rows|)
    requires q' == q.(table := q'.table, stats := q'.stats)
    ensures q' == Withdraw(q, Select(q.table, limit))
  {
    hide Select, Ids, Inv, Keyed;
  }

  function SetOf(ids: seq<nat>): set<nat> { set x | x in ids }

  /** How many of the rows named are there when their turn comes. */
  function Hits(t: Table, ids: seq<nat>): nat {
    if ids == [] then 0 else (if ids[0] in t then 1 else 0) + Hits(t - {ids[0]}, ids[1..])
  }

  lemma NothingDeleted(t: Table)
    ensures t - SetOf([]) == t
  {
  }

  lemma MinusOne(t: Table, ids: seq<nat>, id: nat)
    ensures t - SetOf(ids + [id]) == t - SetOf(ids) - {id}
  {
    assert SetOf(ids + [id]) == SetOf(ids) + {id};
    MinusMinus(t, SetOf(ids), {id});
  }

  lemma {:induction false} RemovedAllNothing(q: Queue, rowids: seq<nat>)
    requires !q.open || rowids == []
    ensures RemovedAll(q, rowids) == (q, 0)
    decreases |rowids|
  {
    if rowids != [] {
      RemovedAllNothing(q, rowids[1..]);
    }
  }

  /** Removing rows one by one adds up. */
  lemma {:induction false} RemovedAllSums(q: Queue, ids: seq<nat>)
    requires q.open
    ensures var n := Hits(q.table, ids);
      RemovedAll(q, ids) == (q.(table := q.table - SetOf(ids), removed := q.removed + n,
                                stats := q.stats.(currentSize := q.stats.currentSize - n)), n)
    decreases |ids|
  {
    if ids == [] {
      NothingDeleted(q.table);
    } else {
      var q1 := Removed(q, ids[0]).0;
      assert q1.table == q.table - {ids[0]};
      RemovedAllSums(q1, ids[1..]);
      assert SetOf(ids) == {ids[0]} + SetOf(ids[1..]);
      MinusMinus(q.table, {ids[0]}, SetOf(ids[1..]));
    }
  }
}
