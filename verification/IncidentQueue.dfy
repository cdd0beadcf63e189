/** The agent's persistent incident queue: a table read in order (queued_at, rowid), deduplicated
    by hash, bounded by evicting the oldest rows, with counters beside it. */
module IncidentQueue {
  import opened DedupKey

  datatype Row = Row(rowid: nat, hash: string, incident: Incident, queuedAt: int, retryCount: nat)

  type Table = map<nat, Row>

  predicate Keyed(t: Table) { forall k :: k in t ==> t[k].rowid == k }

  // ----- reading in order ------------------------------------------------------------------

  predicate Before(a: Row, b: Row) {
    a.queuedAt < b.queuedAt || (a.queuedAt == b.queuedAt && a.rowid < b.rowid)
  }

  predicate IsOldest(t: Table, k: nat) {
    k in t && forall j :: j in t && j != k ==> Before(t[k], t[j])
  }

  lemma {:induction false} OldestExists(t: Table)
    requires Keyed(t) && t != map[]
    ensures exists k :: IsOldest(t, k)
    decreases |t|
  {
    var x :| x in t;
    var rest := t - {x};
    if rest == map[] {
      assert forall j :: j in t ==> j == x || j in rest;
      assert IsOldest(t, x);
    } else {
      assert |rest.Keys| < |t.Keys| by { assert rest.Keys == t.Keys - {x}; }
      OldestExists(rest);
      var k :| IsOldest(rest, k);
      assert forall j :: j in t ==> j == x || j in rest;
      assert IsOldest(t, if Before(t[x], t[k]) then x else k);
    }
  }

  function Oldest(t: Table): (k: nat)
    requires Keyed(t) && t != map[]
    ensures IsOldest(t, k)
  {
    OldestExists(t);
    var k :| k in t && IsOldest(t, k);
    k
  }

  /** All rows, oldest first. */
  function Ordered(t: Table): (rows: seq<Row>)
    requires Keyed(t)
    ensures |rows| == |t|
    decreases |t|
  {
    if t == map[] then []
    else
      var k := Oldest(t);
      assert (t - {k}).Keys == t.Keys - {k};
      [t[k]] + Ordered(t - {k})
  }

  /** How many rows LIMIT n lets through; a negative limit is none. */
  function Limited(n: int, size: nat): nat { if n < 0 || n > size then size else n }

  function Select(t: Table, limit: int): seq<Row>
    requires Keyed(t)
  {
    Ordered(t)[..Limited(limit, |t|)]
  }

  function Ids(rows: seq<Row>): set<nat> { set r | r in rows :: r.rowid }

  lemma IdsConcat(a: seq<Row>, b: seq<Row>)
    ensures Ids(a + b) == Ids(a) + Ids(b)
  {
  }

  lemma OrderedStep(t: Table)
    requires Keyed(t) && t != map[]
    ensures var k := Oldest(t);
      Keyed(t - {k}) && (t - {k}).Keys == t.Keys - {k} && Ordered(t) == [t[k]] + Ordered(t - {k})
  {
  }

  /** The reading order lists exactly the rows of the table, each before all later ones. */
  lemma {:induction false} OrderedSorted(t: Table)
    requires Keyed(t)
    ensures Ids(Ordered(t)) == t.Keys
    ensures forall r :: r in Ordered(t) ==> r.rowid in t && t[r.rowid] == r
    ensures forall i, j :: 0 <= i < j < |t| ==> Before(Ordered(t)[i], Ordered(t)[j])
    decreases |t|
  {
    hide Ordered, Oldest, Before, Ids;
    if t == map[] {
      assert Ids([]) == {} by { IdsEmpty(); }
      assert Ordered(t) == [];
    } else {
      var k := Oldest(t);
      OrderedStep(t);
      var rest := Ordered(t - {k});
      OrderedSorted(t - {k});
      IdsConcat([t[k]], rest);
      IdsOne(t[k]);
      forall i, j | 0 <= i < j < |t| ensures Before(Ordered(t)[i], Ordered(t)[j]) {
        assert Ordered(t)[j] == rest[j - 1] && rest[j - 1] in rest;
        if i > 0 {
          assert Ordered(t)[i] == rest[i - 1];
        }
      }
    }
  }

  lemma IdsEmpty()
    ensures Ids([]) == {}
  {
  }

  lemma IdsOne(r: Row)
    ensures Ids([r]) == {r.rowid}
  {
    assert [r][0] == r;
  }

  lemma SplitAfterFirst(r: Row, rest: seq<Row>, n: nat)
    requires 0 < n <= 1 + |rest|
    ensures ([r] + rest)[..n] == [r] + rest[..n - 1] && ([r] + rest)[n..] == rest[n - 1..]
  {
  }

  lemma MinusMinus(t: Table, a: set<nat>, b: set<nat>)
    ensures t - (a + b) == (t - a) - b
  {
  }

  /** Deleting the first n rows leaves the others in the same order. */
  lemma {:induction false} OrderedDrop(t: Table, n: nat)
    requires Keyed(t) && n <= |t|
    ensures Keyed(t - Ids(Ordered(t)[..n]))
    ensures Ordered(t - Ids(Ordered(t)[..n])) == Ordered(t)[n..]
    decreases n
  {
    hide Ordered, Oldest, Ids;
    var rows := Ordered(t);
    if n == 0 {
      IdsEmpty();
      assert rows[..0] == [] && rows[0..] == rows;
      assert t - {} == t;
    } else {
      var k := Oldest(t);
      OrderedStep(t);
      var rest := Ordered(t - {k});
      OrderedDrop(t - {k}, n - 1);
      SplitAfterFirst(t[k], rest, n);
      IdsConcat([t[k]], rest[..n - 1]);
      IdsOne(t[k]);
      MinusMinus(t, {k}, Ids(rest[..n - 1]));
    }
  }

  lemma DropSize(t: Table, n: nat)
    requires Keyed(t) && n <= |t|
    ensures |t - Ids(Ordered(t)[..n])| == |t| - n
  {
    OrderedDrop(t, n);
  }

  // ----- operations ------------------------------------------------------------------------

  datatype Stats = Stats(enqueued: nat, drained: nat, evicted: nat, duplicates: nat, currentSize: int)

  /** The table is what survives on disk. The last three fields are history, not state of the
      agent: the rows found when the process started, and those removed or cleared since. */
  datatype Queue = Queue(
    table: Table, nextRowid: nat, open: bool, stats: Stats, initial: nat, removed: nat, cleared: nat)

  datatype Config = Config(maxSize: int, digest: string -> string)

  function Hashes(t: Table): set<string> { set k | k in t :: t[k].hash }

  function Evict(q: Queue, count: int): Queue
    requires Keyed(q.table)
  {
    var rows := Select(q.table, count);
    q.(table := q.table - Ids(rows),
       stats := q.stats.(evicted := q.stats.evicted + |rows|, currentSize := q.stats.currentSize - |rows|))
  }

  /** Room for one more row, when the size is bounded. */
  function MakeRoom(c: Config, q: Queue): Queue
    requires Keyed(q.table)
  {
    if c.maxSize > 0 && |q.table| >= c.maxSize then Evict(q, |q.table| - c.maxSize + 1) else q
  }

  function NewRow(q: Queue, hash: string, i: Incident, now: int): Row {
    Row(q.nextRowid, hash, Stored(i), if i.queuedAt > 0 then i.queuedAt else now, 0)
  }

  function Insert(q: Queue, r: Row): Queue {
    q.(table := q.table[r.rowid := r], nextRowid := r.rowid + 1,
       stats := q.stats.(enqueued := q.stats.enqueued + 1, currentSize := q.stats.currentSize + 1))
  }

  function Enqueued(c: Config, q: Queue, i: Incident, now: int): (Queue, bool)
    requires Keyed(q.table)
  {
    var hash := c.digest(Blob(i));
    if !q.open then (q, false)
    else if hash in Hashes(q.table) then (q.(stats := q.stats.(duplicates := q.stats.duplicates + 1)), false)
    else (Insert(MakeRoom(c, q), NewRow(q, hash, i, now)), true)
  }

  /** The queue after these rows were selected and deleted. */
  function Withdraw(q: Queue, rows: seq<Row>): Queue {
    q.(table := q.table - Ids(rows),
       stats := q.stats.(drained := q.stats.drained + |rows|, currentSize := q.stats.currentSize - |rows|))
  }

  function Drained(q: Queue, limit: int): (Queue, seq<Row>)
    requires Keyed(q.table)
  {
    if !q.open then (q, [])
    else
      var rows := Select(q.table, limit);
      (Withdraw(q, rows), rows)
  }

  function Peeked(q: Queue, limit: int): seq<Row>
    requires Keyed(q.table)
  {
    if q.open then Select(q.table, limit) else []
  }

  function Removed(q: Queue, rowid: nat): (Queue, bool) {
    if !q.open || rowid !in q.table then (q, false)
    else (q.(table := q.table - {rowid}, removed := q.removed + 1,
             stats := q.stats.(currentSize := q.stats.currentSize - 1)), true)
  }

  /** One at a time; an id that is not, or no longer, in the table does not count. */
  function RemovedAll(q: Queue, rowids: seq<nat>): (Queue, nat)
    decreases |rowids|
  {
    if rowids == [] then (q, 0)
    else
      var (q1, hit) := Removed(q, rowids[0]);
      var (q2, n) := RemovedAll(q1, rowids[1..]);
      (q2, n + if hit then 1 else 0)
  }

  function Retried(q: Queue, rowid: nat): (Queue, bool) {
    if !q.open || rowid !in q.table then (q, false)
    else
      var r := q.table[rowid];
      (q.(table := q.table[rowid := r.(retryCount := r.retryCount + 1)]), true)
  }

  function Cleared(q: Queue): Queue {
    if !q.open then q
    else q.(table := map[], cleared := q.cleared + |q.table|, stats := q.stats.(currentSize := 0))
  }

  function Started(q: Queue): Queue {
    if q.open then q else q.(open := true, stats := q.stats.(currentSize := |q.table|))
  }

  function Stopped(q: Queue): Queue { q.(open := false) }

  /** A new process on the same database file: counters and history begin again. */
  function Restarted(q: Queue): Queue {
    Queue(q.table, q.nextRowid, false, Stats(0, 0, 0, 0, 0), |q.table|, 0, 0)
  }

  datatype Op =
    | Enqueue(incident: Incident, now: int) | Drain(limit: int) | Remove(rowid: nat)
    | RemoveBatch(rowids: seq<nat>) | IncrementRetry(rowid: nat) | Clear | Start | Stop | Restart

  function Step(c: Config, q: Queue, op: Op): Queue
    requires Keyed(q.table)
  {
    match op
    case Enqueue(i, now) => Enqueued(c, q, i, now).0
    case Drain(limit) => Drained(q, limit).0
    case Remove(rowid) => Removed(q, rowid).0
    case RemoveBatch(rowids) => RemovedAll(q, rowids).0
    case IncrementRetry(rowid) => Retried(q, rowid).0
    case Clear => Cleared(q)
    case Start => Started(q)
    case Stop => Stopped(q)
    case Restart => Restarted(q)
  }

  // ----- what every operation keeps --------------------------------------------------------

  predicate DistinctHashes(t: Table) {
    forall j, k :: j in t && k in t && j != k ==> t[j].hash != t[k].hash
  }

  /** Every row that was there or came in is still there or is accounted for. */
  predicate Conserved(q: Queue) {
    q.initial + q.stats.enqueued == q.stats.drained + q.stats.evicted + q.removed + q.cleared + |q.table|
  }

  predicate Inv(q: Queue) {
    && Keyed(q.table)
    && (forall k :: k in q.table ==> k < q.nextRowid)
    && DistinctHashes(q.table)
    && (q.open ==> q.stats.currentSize == |q.table|)
    && Conserved(q)
  }

  lemma SelectFacts(t: Table, limit: int)
    requires Keyed(t)
    ensures |Select(t, limit)| == Limited(limit, |t|)
    ensures |t - Ids(Select(t, limit))| == |t| - |Select(t, limit)|
  {
    DropSize(t, Limited(limit, |t|));
  }

  lemma RemovedKeepsInv(q: Queue, rowid: nat)
    requires Inv(q)
    ensures Inv(Removed(q, rowid).0)
  {
    if q.open && rowid in q.table {
      assert (q.table - {rowid}).Keys == q.table.Keys - {rowid};
    }
  }

  lemma {:induction false} RemovedAllKeepsInv(q: Queue, rowids: seq<nat>)
    requires Inv(q)
    ensures Inv(RemovedAll(q, rowids).0)
    ensures RemovedAll(q, rowids).0.open == q.open
    decreases |rowids|
  {
    hide Inv;
    if rowids != [] {
      RemovedKeepsInv(q, rowids[0]);
      RemovedAllKeepsInv(Removed(q, rowids[0]).0, rowids[1..]);
    }
  }

  lemma EvictKeepsInv(q: Queue, count: int)
    requires Inv(q) && q.open
    ensures Inv(Evict(q, count))
  {
    hide Select, Ids;
    SelectFacts(q.table, count);
  }

  lemma MakeRoomKeepsInv(c: Config, q: Queue)
    requires Inv(q) && q.open
    ensures var q' := MakeRoom(c, q);
      Inv(q') && q'.open && q'.nextRowid == q.nextRowid && q'.table.Keys <= q.table.Keys
      && (forall k :: k in q'.table ==> q'.table[k] == q.table[k])
      && (c.maxSize > 0 ==> |q'.table| < c.maxSize)
  {
    hide Select, Ids, Keyed, DistinctHashes, Conserved;
    if c.maxSize > 0 && |q.table| >= c.maxSize {
      EvictKeepsInv(q, |q.table| - c.maxSize + 1);
      SelectFacts(q.table, |q.table| - c.maxSize + 1);
    }
  }

  lemma InsertKeepsInv(q: Queue, r: Row)
    requires Inv(q) && q.open && r.rowid == q.nextRowid && r.hash !in Hashes(q.table)
    ensures Inv(Insert(q, r))
  {
    forall k | k in q.table ensures q.table[k].hash != r.hash {
      assert q.table[k].hash in Hashes(q.table);
    }
  }

  lemma EnqueuedKeepsInv(c: Config, q: Queue, i: Incident, now: int)
    requires Inv(q)
    ensures Inv(Enqueued(c, q, i, now).0)
  {
    hide MakeRoom, Blob, Insert, Hashes;
    var hash := c.digest(Blob(i));
    if q.open && hash !in Hashes(q.table) {
      MakeRoomKeepsInv(c, q);
      var room := MakeRoom(c, q);
      HashesShrink(q.table, room.table);
      InsertKeepsInv(room, NewRow(q, hash, i, now));
    }
  }

  lemma HashesShrink(t: Table, t': Table)
    requires t'.Keys <= t.Keys && forall k :: k in t' ==> t'[k] == t[k]
    ensures Hashes(t') <= Hashes(t)
  {
  }

  lemma DrainedKeepsInv(q: Queue, limit: int)
    requires Inv(q)
    ensures Inv(Drained(q, limit).0) && Drained(q, limit).0.open == q.open
  {
    hide Select;
    SelectFacts(q.table, limit);
  }

  lemma DrainedOpen(q: Queue, limit: int)
    requires Inv(q) && q.open
    ensures Keyed(q.table)
    ensures var rows := Select(q.table, limit);
      Drained(q, limit) == (Withdraw(q, rows), rows) && Inv(Withdraw(q, rows))
  {
    DrainedKeepsInv(q, limit);
  }

  lemma RetriedKeepsInv(q: Queue, rowid: nat)
    requires Inv(q)
    ensures Inv(Retried(q, rowid).0)
  {
    if q.open && rowid in q.table {
      assert Retried(q, rowid).0.table.Keys == q.table.Keys;
    }
  }

  lemma SwitchingKeepsInv(q: Queue)
    requires Inv(q)
    ensures Inv(Cleared(q)) && Inv(Started(q)) && Inv(Stopped(q)) && Inv(Restarted(q))
  {
  }

  lemma StepKeepsInv(c: Config, q: Queue, op: Op)
    requires Inv(q)
    ensures Inv(Step(c, q, op)) && Keyed(Step(c, q, op).table)
  {
    hide Keyed, DistinctHashes, Conserved, Enqueued, Drained, Removed, RemovedAll, Retried, Cleared,
      Started, Stopped, Restarted;
    match op
    case Enqueue(i, now) => EnqueuedKeepsInv(c, q, i, now);
    case Drain(limit) => DrainedKeepsInv(q, limit);
    case Remove(rowid) => RemovedKeepsInv(q, rowid);
    case RemoveBatch(rowids) => RemovedAllKeepsInv(q, rowids);
    case IncrementRetry(rowid) => RetriedKeepsInv(q, rowid);
    case _ => SwitchingKeepsInv(q);
  }

  /** A whole run, started and stopped any number of times. */
  function Run(c: Config, q: Queue, ops: seq<Op>): Queue
    requires Inv(q)
    decreases |ops|
  {
    if ops == [] then q else
      StepKeepsInv(c, q, ops[0]);
      Run(c, Step(c, q, ops[0]), ops[1..])
  }

  lemma {:induction false} RunKeepsInv(c: Config, q: Queue, ops: seq<Op>)
    requires Inv(q)
    ensures Inv(Run(c, q, ops))
    decreases |ops|
  {
    hide Keyed, DistinctHashes, Conserved, Step;
    if ops != [] {
      StepKeepsInv(c, q, ops[0]);
      RunKeepsInv(c, Step(c, q, ops[0]), ops[1..]);
    }
  }

  /** Every row carries the hash of what it stores. */
  predicate Hashed(c: Config, t: Table) {
    forall k :: k in t ==> t[k].hash == c.digest(Blob(t[k].incident))
  }

  lemma {:induction false} RemovedAllKeepsHashed(c: Config, q: Queue, rowids: seq<nat>)
    requires Hashed(c, q.table)
    ensures Hashed(c, RemovedAll(q, rowids).0.table)
    decreases |rowids|
  {
    hide Blob;
    if rowids != [] {
      RemovedAllKeepsHashed(c, Removed(q, rowids[0]).0, rowids[1..]);
    }
  }

  /** An accepted incident leaves the rows hashed exactly when what is stored of it has its hash. */
  lemma EnqueueKeepsHashedIff(c: Config, q: Queue, i: Incident, now: int)
    requires Inv(q) && Hashed(c, q.table) && Enqueued(c, q, i, now).1
    ensures Hashed(c, Enqueued(c, q, i, now).0.table) <==> c.digest(Blob(Stored(i))) == c.digest(Blob(i))
    ensures Blob(Stored(i)) == Blob(i) <==> NulFree(i)
  {
    hide Blob, Stored, Select, Ids, DistinctHashes, Conserved, Hashes;
    StoredBlobIff(i);
    var q' := Enqueued(c, q, i, now).0;
    assert q.nextRowid in q'.table && q'.table[q.nextRowid] == NewRow(q, c.digest(Blob(i)), i, now);
  }

  lemma StepKeepsHashed(c: Config, q: Queue, op: Op)
    requires Inv(q) && Hashed(c, q.table)
    requires op.Enqueue? ==> NulFree(op.incident)
    ensures Hashed(c, Step(c, q, op).table)
  {
    hide Blob, Stored, Select, Ids, RemovedAll, DistinctHashes, Conserved, Hashes;
    if op.Enqueue? {
      StoredBlobIff(op.incident);
    } else if op.RemoveBatch? {
      RemovedAllKeepsHashed(c, q, op.rowids);
    }
  }

  lemma {:induction false} RunKeepsHashed(c: Config, q: Queue, ops: seq<Op>)
    requires Inv(q) && Hashed(c, q.table)
    requires forall op :: op in ops && op.Enqueue? ==> NulFree(op.incident)
    ensures Hashed(c, Run(c, q, ops).table)
    decreases |ops|
  {
    hide Keyed, DistinctHashes, Conserved, Step, Hashed;
    if ops != [] {
      StepKeepsInv(c, q, ops[0]);
      StepKeepsHashed(c, q, ops[0]);
      RunKeepsHashed(c, Step(c, q, ops[0]), ops[1..]);
    }
  }

  // ----- what one operation does -----------------------------------------------------------

  /** A successful enqueue keeps exactly the newest maxSize - 1 old rows (all of them if there
      is room) beside the new one, however large the table had been. */
  lemma EnqueueKeepsNewest(c: Config, q: Queue, i: Incident, now: int)
    requires Inv(q) && Enqueued(c, q, i, now).1
    ensures var q' := Enqueued(c, q, i, now).0;
      var kept := q'.table - {q.nextRowid};
      var before := Ordered(q.table);
      && q.nextRowid !in q.table
      && q.nextRowid in q'.table && q'.table[q.nextRowid] == NewRow(q, c.digest(Blob(i)), i, now)
      && Keyed(kept)
      && Ordered(kept)
           == (if c.maxSize > 0 && |before| >= c.maxSize then before[|before| - c.maxSize + 1..] else before)
      && (c.maxSize > 0 ==> |q'.table| <= c.maxSize)
  {
    hide MakeRoom, Blob, Stored, Ordered, Hashes, DistinctHashes, Conserved;
    MakeRoomKeepsInv(c, q);
    MakeRoomOrdered(c, q);
    var room := MakeRoom(c, q);
    var q' := Enqueued(c, q, i, now).0;
    assert q'.table - {q.nextRowid} == room.table;
    assert q'.table.Keys == room.table.Keys + {q.nextRowid};
  }

  lemma MakeRoomOrdered(c: Config, q: Queue)
    requires Inv(q)
    ensures var before := Ordered(q.table);
      var room := MakeRoom(c, q);
      Keyed(room.table)
      && Ordered(room.table)
           == if c.maxSize > 0 && |before| >= c.maxSize then before[|before| - c.maxSize + 1..] else before
  {
    hide Ordered, Oldest, Ids, DistinctHashes, Conserved;
    if c.maxSize > 0 && |q.table| >= c.maxSize {
      OrderedDrop(q.table, |q.table| - c.maxSize + 1);
    }
  }

  /** A queued row with another text has the digest of this incident. */
  predicate Collides(c: Config, t: Table, i: Incident) {
    exists k :: k in t && Blob(t[k].incident) != Blob(i) && c.digest(Blob(t[k].incident)) == c.digest(Blob(i))
  }

  /** Unless its digest collides with that of a queued row, an incident without bars is suppressed
      exactly when a queued row has the same seven fields. */
  lemma SuppressedIffQueued(c: Config, q: Queue, i: Incident, now: int)
    requires Inv(q) && q.open && NoBarIn(i)
    requires Hashed(c, q.table) && !Collides(c, q.table, i)
    ensures !Enqueued(c, q, i, now).1 <==> exists k :: k in q.table && SameKey(i, q.table[k].incident)
  {
    var hash := c.digest(Blob(i));
    if hash in Hashes(q.table) {
      var k :| k in q.table && q.table[k].hash == hash;
      BlobIdentifiesIff(i);
      assert Blob(q.table[k].incident) == Blob(i);
    }
    if k :| k in q.table && SameKey(i, q.table[k].incident) {
      assert Key(q.table[k].incident) == Key(i);
      assert q.table[k].hash in Hashes(q.table);
    }
  }

  lemma SelectSplits(t: Table, a: nat, b: nat)
    requires Keyed(t)
    ensures var t1 := t - Ids(Select(t, a));
      && Keyed(t1)
      && Select(t, a) + Select(t1, b) == Select(t, a + b)
      && t1 - Ids(Select(t1, b)) == t - Ids(Select(t, a + b))
  {
    hide Ordered, Oldest, Ids;
    var rows := Ordered(t);
    var n := Limited(a, |rows|);
    var m := Limited(a + b, |rows|);
    OrderedDrop(t, n);
    var t1 := t - Ids(rows[..n]);
    SliceSplits(rows, n, m);
    assert Select(t1, b) == rows[n..m];
    IdsConcat(rows[..n], rows[n..m]);
    MinusMinus(t, Ids(rows[..n]), Ids(rows[n..m]));
  }

  lemma SliceSplits(rows: seq<Row>, n: nat, m: nat)
    requires n <= m <= |rows|
    ensures rows[n..][..m - n] == rows[n..m] && rows[..n] + rows[n..m] == rows[..m]
  {
  }

  /** Draining in two goes is draining at once. */
  lemma DrainSplits(q: Queue, a: nat, b: nat)
    requires Inv(q)
    ensures var (q1, first) := Drained(q, a);
      Keyed(q1.table) && var (q2, second) := Drained(q1, b);
      (q2, first + second) == Drained(q, a + b)
  {
    hide Select, Ids, Withdraw, DistinctHashes, Conserved;
    if q.open {
      SelectSplits(q.table, a, b);
      var first := Select(q.table, a);
      WithdrawTable(q, first);
      var q1 := Withdraw(q, first);
      WithdrawTwice(q, first, Select(q1.table, b));
    } else {
      var none: seq<Row> := [];
      assert none + none == none;
    }
  }

  lemma WithdrawTable(q: Queue, rows: seq<Row>)
    ensures Withdraw(q, rows).table == q.table - Ids(rows) && Withdraw(q, rows).open == q.open
  {
  }

  lemma WithdrawTwice(q: Queue, first: seq<Row>, second: seq<Row>)
    ensures Withdraw(Withdraw(q, first), second) == Withdraw(q, first + second)
  {
    IdsConcat(first, second);
    MinusMinus(q.table, Ids(first), Ids(second));
  }

  /** Drain again and again, at least one row at a time, until the table is empty. */
  function DrainRepeatedly(q: Queue, limit: int): seq<Row>
    requires Inv(q) && q.open && limit != 0
    decreases |q.table|
  {
    if |q.table| == 0 then []
    else
      SelectFacts(q.table, limit);
      DrainedKeepsInv(q, limit);
      var (q', rows) := Drained(q, limit);
      rows + DrainRepeatedly(q', limit)
  }

  lemma {:induction false} DrainRepeatedlyIsOrdered(q: Queue, limit: int)
    requires Inv(q) && q.open && limit != 0
    ensures DrainRepeatedly(q, limit) == Ordered(q.table)
    decreases |q.table|
  {
    hide Ordered, Keyed, DistinctHashes, Conserved;
    if |q.table| != 0 {
      SelectFacts(q.table, limit);
      DrainedKeepsInv(q, limit);
      OrderedAfterDrain(q, limit);
      DrainRepeatedlyIsOrdered(Drained(q, limit).0, limit);
    }
  }

  lemma OrderedAfterDrain(q: Queue, limit: int)
    requires Inv(q) && q.open
    ensures Keyed(Drained(q, limit).0.table)
    ensures Drained(q, limit).1 + Ordered(Drained(q, limit).0.table) == Ordered(q.table)
  {
    hide Ordered, Oldest, Ids, Keyed, DistinctHashes, Conserved;
    var n := Limited(limit, |q.table|);
    OrderedDrop(q.table, n);
    TakeDrop(Ordered(q.table), n);
  }

  lemma TakeDrop(rows: seq<Row>, n: nat)
    requires n <= |rows|
    ensures rows[..n] + rows[n..] == rows
  {
  }

  /** The row numbers of a result, in order. */
  function RowIds(rows: seq<Row>): (ids: seq<nat>)
    ensures |ids| == |rows| && forall k :: 0 <= k < |rows| ==> ids[k] == rows[k].rowid
  {
    seq(|rows|, k requires 0 <= k < |rows| => rows[k].rowid)
  }

  lemma RowIdsSet(rows: seq<Row>)
    ensures Ids(rows) == set x | x in RowIds(rows)
  {
    var ids := RowIds(rows);
    forall x | x in Ids(rows) ensures x in ids {
      var r :| r in rows && r.rowid == x;
      var k :| 0 <= k < |rows| && rows[k] == r;
      assert ids[k] == x;
    }
  }

  /** Removing what a peek showed leaves the table a drain would leave, and removes them all. */
  lemma PeekThenRemoveIsDrain(q: Queue, limit: int)
    requires Inv(q) && q.open
    ensures var rows := Peeked(q, limit);
      var (q', n) := RemovedAll(q, RowIds(rows));
      q'.table == Drained(q, limit).0.table && n == |rows|
  {
    hide Ordered, RowIds, Ids;
    var rows := Peeked(q, limit);
    var all := Ordered(q.table);
    OrderedSorted(q.table);
    var ids := RowIds(rows);
    forall k | 0 <= k < |ids| ensures ids[k] in q.table && q.table[ids[k]] == rows[k] {
      assert rows[k] == all[k] && all[k] in all;
    }
    forall j, k | 0 <= j < k < |ids| ensures ids[j] != ids[k] {
      assert Before(all[j], all[k]);
    }
    RemovedAllTable(q, ids);
    RowIdsSet(rows);
  }

  lemma {:induction false} RemovedAllTable(q: Queue, ids: seq<nat>)
    requires q.open
    requires forall k :: 0 <= k < |ids| ==> ids[k] in q.table
    requires forall j, k :: 0 <= j < k < |ids| ==> ids[j] != ids[k]
    ensures RemovedAll(q, ids).0.table == q.table - (set x | x in ids)
    ensures RemovedAll(q, ids).1 == |ids|
    decreases |ids|
  {
    if ids != [] {
      var q1 := Removed(q, ids[0]).0;
      RemovedAllTable(q1, ids[1..]);
      MinusMinus(q.table, {ids[0]}, set x | x in ids[1..]);
      assert (set x | x in ids) == {ids[0]} + set x | x in ids[1..];
    }
  }
}
