/** What a walk hands over and counts, entry by entry. */
module DiscoverLaws {
  import opened Basics
  import opened Wrappers
  import opened DiscoverScanner

  /** A regular file outside the exclusions whose size could be read and is not zero. */
  predicate Sized(c: Config, e: Entry) {
    e.regular && !c.excluded(e.path) && e.size.Some? && e.size.value > 0
  }

  /** Such a file within the size limit and of an allowed kind. */
  predicate Eligible(c: Config, e: Entry) {
    Sized(c, e) && e.size.value <= c.maxFileSize && c.allowed(e.path)
  }

  /** The cache holds this very version. */
  predicate InCache(c: Config, cache: Cache, e: Entry) {
    c.incremental && e.path in cache && e.size == Some(cache[e.path].0) && e.modified == cache[e.path].1
  }

  datatype Counter = Examined | Excluded | TooLarge | WrongExtension | Unmodified | Scanned | Errors

  function Value(s: Stats, k: Counter): nat {
    match k
    case Examined => s.examined
    case Excluded => s.exclusion
    case TooLarge => s.tooLarge
    case WrongExtension => s.extension
    case Unmodified => s.unmodified
    case Scanned => s.scanned
    case Errors => s.errors
  }

  /** Which entries a counter counts; the cache is the one the walk has when it meets the entry. */
  predicate Counted(c: Config, cache: Cache, e: Entry, k: Counter) {
    match k
    case Examined => e.regular
    case Excluded => e.regular && c.excluded(e.path)
    case TooLarge => Sized(c, e) && e.size.value > c.maxFileSize
    case WrongExtension => Sized(c, e) && e.size.value <= c.maxFileSize && !c.allowed(e.path)
    case Unmodified => Eligible(c, e) && InCache(c, cache, e)
    case Scanned => Eligible(c, e) && !InCache(c, cache, e) && c.registered && !e.throws
    case Errors => Eligible(c, e) && !InCache(c, cache, e) && c.registered && e.throws
  }

  function Positions(c: Config, cache: Cache, entries: seq<Entry>, k: Counter): set<nat> {
    set i: nat | i < |entries| && Counted(c, CacheAfter(c, cache, entries[..i]), entries[i], k)
  }

  lemma StepCounts(c: Config, cache: Cache, s: Stats, e: Entry, k: Counter)
    ensures Value(StatsStep(c, cache, s, e), k) == Value(s, k) + if Counted(c, cache, e, k) then 1 else 0
  {
  }

  /** The last entry of a walk comes after the walk over the others. */
  lemma {:induction false} StatsLast(c: Config, cache: Cache, s: Stats, front: seq<Entry>, e: Entry)
    ensures StatsAfter(c, cache, s, front + [e])
         == StatsStep(c, CacheAfter(c, cache, front), StatsAfter(c, cache, s, front), e)
    decreases |front|
  {
    hide StatsStep, CacheStep;
    var all := front + [e];
    if front == [] {
      assert all[0] == e && all[1..] == [];
    } else {
      assert all[0] == front[0] && all[1..] == front[1..] + [e];
      StatsLast(c, CacheStep(c, cache, front[0]), StatsStep(c, cache, s, front[0]), front[1..], e);
    }
  }

  lemma PositionsLast(c: Config, cache: Cache, front: seq<Entry>, e: Entry, k: Counter)
    ensures var all := front + [e];
      Positions(c, cache, all, k) == Positions(c, cache, front, k)
        + if Counted(c, CacheAfter(c, cache, front), e, k) then {|front|} else {}
  {
    hide Counted, CacheAfter;
    var all := front + [e];
    assert all[..|front|] == front;
    forall i: nat | i < |front| ensures all[..i] == front[..i] && all[i] == front[i] { }
  }

  /** Every counter counts exactly its entries. */
  lemma {:induction false} CountersMean(c: Config, cache: Cache, entries: seq<Entry>, k: Counter)
    ensures Value(StatsAfter(c, cache, ZERO, entries), k) == |Positions(c, cache, entries, k)|
    decreases |entries|
  {
    hide Counted, StatsStep, CacheAfter, StatsAfter;
    if entries == [] {
      NothingWalked(c, cache, k);
    } else {
      var n := |entries| - 1;
      var front, e := entries[..n], entries[n];
      assert entries == front + [e];
      CountersMean(c, cache, front, k);
      StatsLast(c, cache, ZERO, front, e);
      StepCounts(c, CacheAfter(c, cache, front), StatsAfter(c, cache, ZERO, front), e, k);
      PositionsLast(c, cache, front, e, k);
    }
  }

  lemma NothingWalked(c: Config, cache: Cache, k: Counter)
    ensures Value(StatsAfter(c, cache, ZERO, []), k) == 0 && Positions(c, cache, [], k) == {}
  {
  }

  /** The position is handed to the callback. */
  predicate HandedAt(c: Config, cache: Cache, entries: seq<Entry>, i: nat)
    requires i < |entries|
  {
    Eligible(c, entries[i]) && !InCache(c, CacheAfter(c, cache, entries[..i]), entries[i]) && c.registered
  }

  lemma HandsOverIff(c: Config, cache: Cache, e: Entry)
    ensures HandsOver(c, cache, e) <==> Eligible(c, e) && !InCache(c, cache, e) && c.registered
    ensures Eligible(c, e) ==> Filtered(c, e) == Candidate(Version(e.path, e.size.value, e.modified))
  {
  }

  /** The versions handed over are those of these positions, in order: the k-th comes from a position
      before that of the next, and no such position is left out. */
  lemma {:induction false} HandedInOrder(c: Config, cache: Cache, entries: seq<Entry>) returns (at: seq<nat>)
    ensures |at| == |Handed(c, cache, entries)|
    ensures forall k :: 0 <= k < |at| ==>
      && at[k] < |entries| && HandedAt(c, cache, entries, at[k])
      && var e := entries[at[k]]; Handed(c, cache, entries)[k] == Version(e.path, e.size.value, e.modified)
    ensures forall j, k :: 0 <= j < k < |at| ==> at[j] < at[k]
    ensures forall i: nat :: i < |entries| && HandedAt(c, cache, entries, i) ==> i in at
    decreases |entries|
  {
    hide Eligible, InCache, HandsOver, Filtered, CacheAfter, Handed;
    if entries == [] {
      at := [];
      NothingHanded(c, cache);
    } else {
      var n := |entries| - 1;
      var front, e := entries[..n], entries[n];
      assert entries == front + [e];
      at := HandedInOrder(c, cache, front);
      WalksConcat(c, cache, front, [e]);
      OneHanded(c, CacheAfter(c, cache, front), e);
      HandsOverIff(c, CacheAfter(c, cache, front), e);
      forall i: nat | i < n ensures HandedAt(c, cache, entries, i) <==> HandedAt(c, cache, front, i) {
        assert entries[..i] == front[..i];
      }
      assert entries[..n] == front;
      if HandedAt(c, cache, entries, n) {
        at := at + [n];
      }
    }
  }

  lemma NothingHanded(c: Config, cache: Cache)
    ensures Handed(c, cache, []) == []
  {
  }

  lemma OneHanded(c: Config, cache: Cache, e: Entry)
    ensures Handed(c, cache, [e]) == if HandsOver(c, cache, e) then [Filtered(c, e).version] else []
  {
    hide HandsOver, Filtered;
    assert [e][1..] == [];
    NothingHanded(c, CacheStep(c, cache, e));
  }
}
