/** Incremental scanning: a cache of the versions already scanned decides which files are handed
    to the callback again. */
module DiscoverScanner {
  import opened Wrappers

  /** What a directory walk meets: one entry, whether it is a regular file, its size if that could
      be read, its modification time (0 if unreadable), and whether the callback throws on it. */
  datatype Entry = Entry(path: string, regular: bool, size: Option<nat>, modified: int, throws: bool)

  /** The filters, whether a cache database is open, and whether a callback is registered. */
  datatype Config = Config(
    excluded: string -> bool, allowed: string -> bool, maxFileSize: int, incremental: bool, registered: bool)

  datatype Version = Version(path: string, size: nat, modified: int)

  /** Files that are empty, whose size cannot be read, or that no callback is there to receive have
      no counter of their own. */
  datatype Stats = Stats(
    examined: nat, exclusion: nat, tooLarge: nat, extension: nat, unmodified: nat, scanned: nat, errors: nat)

  const ZERO := Stats(0, 0, 0, 0, 0, 0, 0)

  type Cache = map<string, (nat, int)>

  /** What happens to one entry, as far as the filters decide it. */
  datatype Fate = Ignored | Excluded | Unsized | TooLarge | WrongExtension | Candidate(version: Version)

  function Filtered(c: Config, e: Entry): Fate {
    if !e.regular then Ignored
    else if c.excluded(e.path) then Excluded
    else if e.size.None? || e.size.value == 0 then Unsized
    else if e.size.value > c.maxFileSize then TooLarge
    else if !c.allowed(e.path) then WrongExtension
    else Candidate(Version(e.path, e.size.value, e.modified))
  }

  predicate Changed(cache: Cache, v: Version) {
    v.path !in cache || cache[v.path] != (v.size, v.modified)
  }

  // ----- the walk --------------------------------------------------------------------------

  class Scanner {
    const config: Config
    var cache: Cache
    var stats: Stats

    constructor (config: Config, cache: Cache)
      ensures this.config == config && this.cache == cache && stats == ZERO
    {
      this.config, this.cache, this.stats := config, cache, ZERO;
    }

    /** Walks the entries; returns the versions handed to the callback, in order. */
    method WalkDirectory(entries: seq<Entry>) returns (handed: seq<Version>)
      modifies this
      ensures handed == Handed(config, old(cache), entries)
      ensures cache == CacheAfter(config, old(cache), entries)
      ensures stats == StatsAfter(config, old(cache), old(stats), entries)
    {
      hide HandsOver, CacheStep, StatsStep, Filtered;
      handed := [];
      var n := 0;
      assert entries[0..] == entries;
      while n < |entries|
        invariant 0 <= n <= |entries|
        invariant Handed(config, old(cache), entries) == handed + Handed(config, cache, entries[n..])
        invariant CacheAfter(config, old(cache), entries) == CacheAfter(config, cache, entries[n..])
        invariant StatsAfter(config, old(cache), old(stats), entries)
               == StatsAfter(config, cache, stats, entries[n..])
      {
        assert entries[n..][1..] == entries[n + 1..];
        var version := Visit(entries[n]);
        if version.Some? {
          handed := handed + [version.value];
        }
        n := n + 1;
      }
    }

    /** The loop body: filters, cache lookup, callback, and the counters along the way. */
    method Visit(e: Entry) returns (handed: Option<Version>)
      modifies this
      ensures handed == if HandsOver(config, old(cache), e) then Some(Filtered(config, e).version) else None
      ensures cache == CacheStep(config, old(cache), e)
      ensures stats == StatsStep(config, old(cache), old(stats), e)
    {
      if !e.regular {
        return None;
      }
      stats := stats.(examined := stats.examined + 1);
      if config.excluded(e.path) {
        stats := stats.(exclusion := stats.exclusion + 1);
        return None;
      }
      if e.size.None? || e.size.value == 0 {
        return None;
      }
      if e.size.value > config.maxFileSize {
        stats := stats.(tooLarge := stats.tooLarge + 1);
        return None;
      }
      if !config.allowed(e.path) {
        stats := stats.(extension := stats.extension + 1);
        return None;
      }
      var version := Version(e.path, e.size.value, e.modified);
      if config.incremental && !Changed(cache, version) {
        stats := stats.(unmodified := stats.unmodified + 1);
        return None;
      }
      if !config.registered {
        return None;
      }
      if e.throws {
        stats := stats.(errors := stats.errors + 1);
      } else {
        stats := stats.(scanned := stats.scanned + 1);
        if config.incremental {
          cache := cache[version.path := (version.size, version.modified)];
        }
      }
      return Some(version);
    }
  }

  // ----- the walk as functions -------------------------------------------------------------

  /** Whether the entry passes the filters and is not skipped as unchanged. */
  predicate Due(c: Config, cache: Cache, e: Entry) {
    var f := Filtered(c, e);
    f.Candidate? && (c.incremental ==> Changed(cache, f.version))
  }

  /** Whether the entry is handed to the callback. */
  predicate HandsOver(c: Config, cache: Cache, e: Entry) {
    c.registered && Due(c, cache, e)
  }

  function CacheStep(c: Config, cache: Cache, e: Entry): Cache {
    if HandsOver(c, cache, e) && c.incremental && !e.throws
    then cache[e.path := (e.size.value, e.modified)] else cache
  }

  function StatsStep(c: Config, cache: Cache, s: Stats, e: Entry): Stats {
    var s1 := if e.regular then s.(examined := s.examined + 1) else s;
    match Filtered(c, e)
    case Ignored => s1
    case Unsized => s1
    case Excluded => s1.(exclusion := s1.exclusion + 1)
    case TooLarge => s1.(tooLarge := s1.tooLarge + 1)
    case WrongExtension => s1.(extension := s1.extension + 1)
    case Candidate(_) =>
      if !Due(c, cache, e) then s1.(unmodified := s1.unmodified + 1)
      else if !c.registered then s1
      else if e.throws then s1.(errors := s1.errors + 1)
      else s1.(scanned := s1.scanned + 1)
  }

  function Handed(c: Config, cache: Cache, entries: seq<Entry>): seq<Version>
    decreases |entries|
  {
    if entries == [] then []
    else (if HandsOver(c, cache, entries[0]) then [Filtered(c, entries[0]).version] else [])
         + Handed(c, CacheStep(c, cache, entries[0]), entries[1..])
  }

  function CacheAfter(c: Config, cache: Cache, entries: seq<Entry>): Cache
    decreases |entries|
  {
    if entries == [] then cache else CacheAfter(c, CacheStep(c, cache, entries[0]), entries[1..])
  }

  function StatsAfter(c: Config, cache: Cache, s: Stats, entries: seq<Entry>): Stats
    decreases |entries|
  {
    if entries == [] then s
    else StatsAfter(c, CacheStep(c, cache, entries[0]), StatsStep(c, cache, s, entries[0]), entries[1..])
  }

  // ----- agreement with a scanner that has no cache ----------------------------------------

  function WithoutCache(c: Config): Config { c.(incremental := false) }

  /** The cached versions of some paths were all handed over before. */
  predicate KnownTo(cache: Cache, known: set<Version>) {
    forall p :: p in cache ==> Version(p, cache[p].0, cache[p].1) in known
  }

  /** Every version the cacheless scanner hands over is handed over now or was before, and nothing
      else is. */
  lemma {:induction false} AgreesFrom(c: Config, cache: Cache, entries: seq<Entry>, known: set<Version>)
    requires c.incremental && KnownTo(cache, known)
    ensures forall v :: v in known || v in Handed(c, cache, entries)
                   <==> v in known || v in Handed(WithoutCache(c), cache, entries)
    ensures KnownTo(CacheAfter(c, cache, entries), known + set v | v in Handed(c, cache, entries))
    decreases |entries|
  {
    var w := WithoutCache(c);
    if entries != [] {
      var e := entries[0];
      var cache' := CacheStep(c, cache, e);
      CachelessIgnoresCache(w, cache, cache', entries[1..]);
      var f := Filtered(c, e);
      assert Filtered(w, e) == f;
      var known' := if c.registered && f.Candidate? then known + {f.version} else known;
      AgreesFrom(c, cache', entries[1..], known');
      assert KnownTo(CacheAfter(c, cache, entries), known' + set v | v in Handed(c, cache', entries[1..]));
      assert c.registered && f.Candidate? && !HandsOver(c, cache, e) ==> f.version in known;
      forall v ensures v in known || v in Handed(c, cache, entries)
                  <==> v in known || v in Handed(w, cache, entries)
      {
        assert v in Handed(c, cache, entries) <==>
          (HandsOver(c, cache, e) && v == f.version) || v in Handed(c, cache', entries[1..]);
        assert v in Handed(w, cache, entries) <==>
          (c.registered && f.Candidate? && v == f.version) || v in Handed(w, cache, entries[1..]);
      }
    }
  }

  lemma {:induction false} CachelessIgnoresCache(c: Config, a: Cache, b: Cache, entries: seq<Entry>)
    requires !c.incremental
    ensures Handed(c, a, entries) == Handed(c, b, entries)
    decreases |entries|
  {
    if entries != [] { CachelessIgnoresCache(c, a, b, entries[1..]); }
  }

  /** Over any sequence of snapshots, walked one after the other, the incremental scanner hands
      over exactly the versions a scanner without a cache would. */
  lemma IncrementalAgrees(c: Config, entries: seq<Entry>)
    requires c.incremental
    ensures (set v | v in Handed(c, map[], entries)) == set v | v in Handed(WithoutCache(c), map[], entries)
  {
    AgreesFrom(c, map[], entries, {});
  }

  /** Several walks are one walk over all their entries. */
  lemma {:induction false} WalksConcat(c: Config, cache: Cache, a: seq<Entry>, b: seq<Entry>)
    ensures Handed(c, cache, a + b) == Handed(c, cache, a) + Handed(c, CacheAfter(c, cache, a), b)
    ensures CacheAfter(c, cache, a + b) == CacheAfter(c, CacheAfter(c, cache, a), b)
    decreases |a|
  {
    if a == [] {
      assert a + b == b;
    } else {
      assert (a + b)[1..] == a[1..] + b;
      WalksConcat(c, CacheStep(c, cache, a[0]), a[1..], b);
    }
  }

  /** The cache holds, for each path, exactly the version scanned last without an exception. */
  lemma {:induction false} CacheIsLastScanned(c: Config, entries: seq<Entry>, p: string) returns (k: int)
    requires c.incremental
    ensures p !in CacheAfter(c, map[], entries) ==> forall i :: 0 <= i < |entries| ==> !ScannedAt(c, entries, i, p)
    ensures p in CacheAfter(c, map[], entries) ==>
      && 0 <= k < |entries| && ScannedAt(c, entries, k, p)
      && CacheAfter(c, map[], entries)[p] == (entries[k].size.value, entries[k].modified)
      && forall i :: k < i < |entries| ==> !ScannedAt(c, entries, i, p)
    decreases |entries|
  {
    k := -1;
    if entries != [] {
      var n := |entries| - 1;
      var front := entries[..n];
      assert entries == front + [entries[n]];
      k := CacheIsLastScanned(c, front, p);
      WalksConcat(c, map[], front, [entries[n]]);
      var before := CacheAfter(c, map[], front);
      assert [entries[n]][1..] == [];
      assert CacheAfter(c, map[], entries) == CacheStep(c, before, entries[n]);
      forall i | 0 <= i < n ensures ScannedAt(c, entries, i, p) <==> ScannedAt(c, front, i, p) {
        assert entries[..i] == front[..i];
      }
      assert entries[..n] == front;
      if ScannedAt(c, entries, n, p) { k := n; }
    }
  }

  /** Entry i was handed over, the callback did not throw, and it is this path. */
  predicate ScannedAt(c: Config, entries: seq<Entry>, i: int, p: string)
    requires 0 <= i < |entries|
  {
    var e := entries[i];
    e.path == p && HandsOver(c, CacheAfter(c, map[], entries[..i]), e) && !e.throws
  }

  /** A file is skipped as unchanged exactly when the last version of it scanned without an
      exception is this very version. */
  lemma UnchangedIffLastScanned(c: Config, entries: seq<Entry>, e: Entry) returns (k: int)
    requires c.incremental && Filtered(c, e).Candidate?
    ensures Due(c, CacheAfter(c, map[], entries), e) ==>
      || (forall i :: 0 <= i < |entries| ==> !ScannedAt(c, entries, i, e.path))
      || (0 <= k < |entries| && ScannedAt(c, entries, k, e.path)
          && (forall i :: k < i < |entries| ==> !ScannedAt(c, entries, i, e.path))
          && (entries[k].size, entries[k].modified) != (e.size, e.modified))
    ensures !Due(c, CacheAfter(c, map[], entries), e) ==>
      && 0 <= k < |entries| && ScannedAt(c, entries, k, e.path)
      && (forall i :: k < i < |entries| ==> !ScannedAt(c, entries, i, e.path))
      && (entries[k].size, entries[k].modified) == (e.size, e.modified)
  {
    k := CacheIsLastScanned(c, entries, e.path);
  }

  // ----- the counters ----------------------------------------------------------------------

  /** The files for which a walk has no outcome: those without a size, and those that are due when no
      callback is registered. */
  function Unrecorded(c: Config, cache: Cache, entries: seq<Entry>): nat
    decreases |entries|
  {
    if entries == [] then 0
    else
      (if Filtered(c, entries[0]).Unsized? || (Due(c, cache, entries[0]) && !c.registered) then 1 else 0)
      + Unrecorded(c, CacheStep(c, cache, entries[0]), entries[1..])
  }

  function Outcomes(s: Stats): nat {
    s.exclusion + s.tooLarge + s.extension + s.unmodified + s.scanned + s.errors
  }

  /** Every file examined is counted under exactly one outcome, except the unrecorded ones. */
  lemma {:induction false} CountersAddUp(c: Config, cache: Cache, s: Stats, entries: seq<Entry>)
    ensures var s' := StatsAfter(c, cache, s, entries);
      s'.examined - s.examined == Outcomes(s') - Outcomes(s) + Unrecorded(c, cache, entries)
    decreases |entries|
  {
    if entries != [] {
      CountersAddUp(c, CacheStep(c, cache, entries[0]), StatsStep(c, cache, s, entries[0]), entries[1..]);
    }
  }
}
