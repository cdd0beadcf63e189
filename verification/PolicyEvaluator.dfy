/** The evaluator as it runs: loops over rules and exceptions, a sort for the severity tiers, and
    the registered policies. Every method is proved against the meaning in PolicyModel. */
module PolicyEvaluator {
  import opened Wrappers
  import opened PolicyModel

  // ----- severity --------------------------------------------------------------------------

  /** Stable insertion into a list sorted by falling threshold. */
  function InsertLevel(l: Level, sorted: seq<Level>): seq<Level> {
    if sorted == [] || sorted[0].minMatches <= l.minMatches then [l] + sorted
    else [sorted[0]] + InsertLevel(l, sorted[1..])
  }

  /** The stable sort by falling threshold. */
  function SortedLevels(levels: seq<Level>): seq<Level> {
    if levels == [] then [] else InsertLevel(levels[0], SortedLevels(levels[1..]))
  }

  /** The first level of a list that the count reaches. */
  function FirstReached(levels: seq<Level>, count: int): Option<Level> {
    if levels == [] then None
    else if count >= levels[0].minMatches then Some(levels[0])
    else FirstReached(levels[1..], count)
  }

  predicate Falling(levels: seq<Level>) {
    forall i, j :: 0 <= i < j < |levels| ==> levels[i].minMatches >= levels[j].minMatches
  }

  lemma {:induction false} InsertLevelFalls(l: Level, sorted: seq<Level>)
    requires Falling(sorted)
    ensures Falling(InsertLevel(l, sorted))
    ensures forall x :: x in InsertLevel(l, sorted) <==> x == l || x in sorted
    decreases |sorted|
  {
    if sorted != [] && sorted[0].minMatches > l.minMatches {
      assert Falling(sorted[1..]);
      InsertLevelFalls(l, sorted[1..]);
      var r := InsertLevel(l, sorted[1..]);
      forall j | 0 <= j < |r| ensures sorted[0].minMatches >= r[j].minMatches {
        assert r[j] in r;
        assert r[j] == l || r[j] in sorted[1..];
      }
      assert sorted == [sorted[0]] + sorted[1..];
    }
  }

  /** Inserting a level in front of a sorted list changes what a count reaches first only if the
      level itself is reached and no threshold above it is. */
  lemma {:induction false} FirstReachedInsert(l: Level, sorted: seq<Level>, count: int)
    requires Falling(sorted)
    ensures var rest := FirstReached(sorted, count);
      FirstReached(InsertLevel(l, sorted), count) ==
        if count >= l.minMatches && (rest.None? || rest.value.minMatches <= l.minMatches) then Some(l) else rest
    decreases |sorted|
  {
    if sorted != [] && sorted[0].minMatches > l.minMatches {
      assert Falling(sorted[1..]);
      FirstReachedInsert(l, sorted[1..], count);
    } else if sorted != [] {
      FirstReachedTop(sorted, count);
    }
  }

  lemma {:induction false} FirstReachedTop(sorted: seq<Level>, count: int)
    requires Falling(sorted) && sorted != []
    ensures FirstReached(sorted, count).Some? ==>
      FirstReached(sorted, count).value.minMatches <= sorted[0].minMatches
      && FirstReached(sorted, count).value.minMatches <= count
    decreases |sorted|
  {
    if count < sorted[0].minMatches && |sorted| > 1 {
      assert Falling(sorted[1..]);
      FirstReachedTop(sorted[1..], count);
    }
  }

  /** The first level reached in the sorted list is the tier of the unsorted one. */
  lemma {:induction false} SortedPicksTier(levels: seq<Level>, count: int) returns (i: int)
    ensures Falling(SortedLevels(levels))
    ensures if FirstReached(SortedLevels(levels), count).None? then NoTier(levels, count)
            else IsTier(levels, count, i) && FirstReached(SortedLevels(levels), count) == Some(levels[i])
    decreases |levels|
  {
    i := 0;
    if levels != [] {
      var k := SortedPicksTier(levels[1..], count);
      InsertLevelFalls(levels[0], SortedLevels(levels[1..]));
      FirstReachedInsert(levels[0], SortedLevels(levels[1..]), count);
      var rest := FirstReached(SortedLevels(levels[1..]), count);
      if !(count >= levels[0].minMatches && (rest.None? || rest.value.minMatches <= levels[0].minMatches)) {
        i := k + 1;
        if rest.Some? { assert levels[i] == levels[1..][k]; }
      }
      forall j | 0 < j < |levels| ensures levels[j] == levels[1..][j - 1] { }
    }
  }

  method CalculateSeverity(p: Policy, count: int) returns (s: Severity)
    ensures IsSeverity(p, count, s)
  {
    ghost var i := SortedPicksTier(p.levels, count);
    if p.levels == [] {
      return p.defaultSeverity;
    }
    var sorted := SortedLevels(p.levels);
    var n := 0;
    while n < |sorted|
      invariant 0 <= n <= |sorted|
      invariant FirstReached(sorted, count) == FirstReached(sorted[n..], count)
    {
      if count >= sorted[n].minMatches {
        assert FirstReached(sorted, count) == Some(sorted[n]);
        assert IsTier(p.levels, count, i);
        return sorted[n].severity;
      }
      assert sorted[n..][1..] == sorted[n + 1..];
      n := n + 1;
    }
    return p.defaultSeverity;
  }

  // ----- rules and exceptions --------------------------------------------------------------

  /** Names of the rules that match, and the analyzers they name. */
  method EvaluateRules(p: Policy, detected: seq<Match>) returns (names: seq<string>, analyzers: set<string>)
    ensures names == MatchedRules(p.rules, detected)
    ensures names == [] <==> !exists r :: r in p.rules && Satisfied(r, detected)
    ensures forall a :: a in analyzers <==> Contributes(p, detected, a)
  {
    names, analyzers := [], {};
    var n := 0;
    while n < |p.rules|
      invariant 0 <= n <= |p.rules|
      invariant names == MatchedRules(p.rules[..n], detected)
      invariant names == [] <==> !exists r :: r in p.rules[..n] && Satisfied(r, detected)
      invariant forall a :: a in analyzers <==> CalledFor(p.rules[..n], detected, a)
    {
      var rule := p.rules[n];
      assert p.rules[..n + 1] == p.rules[..n] + [rule] && p.rules[..n + 1][..n] == p.rules[..n];
      if Satisfied(rule, detected) {
        names := names + [rule.name];
        analyzers := analyzers + set c | c in rule.conditions && Holds(c, detected) :: c.analyzer;
        assert rule in p.rules[..n + 1];
      }
      CalledForStep(p.rules[..n], rule, detected);
      n := n + 1;
    }
    assert p.rules[..|p.rules|] == p.rules;
    forall a ensures CalledFor(p.rules, detected, a) <==> Contributes(p, detected, a) { }
  }

  predicate CalledFor(rules: seq<Rule>, detected: seq<Match>, a: string) {
    exists r :: r in rules && Satisfied(r, detected) && exists c :: c in r.conditions && c.analyzer == a
  }

  lemma CalledForStep(rules: seq<Rule>, r: Rule, detected: seq<Match>)
    ensures forall a :: CalledFor(rules + [r], detected, a) <==>
      CalledFor(rules, detected, a) || (Satisfied(r, detected) && exists c :: c in r.conditions && c.analyzer == a)
  {
    forall a ensures CalledFor(rules + [r], detected, a) <==>
      CalledFor(rules, detected, a) || (Satisfied(r, detected) && exists c :: c in r.conditions && c.analyzer == a)
    {
      assert r in rules + [r];
      assert forall x :: x in rules ==> x in rules + [r];
    }
  }

  function Spared(e: Exception): Match -> bool {
    (m: Match) => !Covers(e, m)
  }

  /** Drops the matches a component exception covers, keeping the order of the others. */
  method FilterMatches(e: Exception, matches: seq<Match>) returns (kept: seq<Match>)
    requires e.scope == Component
    ensures kept == Filter(Spared(e), matches)
  {
    hide Filter;
    kept := [];
    var n := 0;
    assert matches[0..] == matches;
    while n < |matches|
      invariant 0 <= n <= |matches|
      invariant Filter(Spared(e), matches) == kept + Filter(Spared(e), matches[n..])
    {
      FilterStep(Spared(e), matches, n);
      var excluded := true;
      if e.analyzerNames != [] && matches[n].analyzer !in e.analyzerNames {
        excluded := false;
      }
      if excluded && e.componentTypes != [] && matches[n].component !in e.componentTypes {
        excluded := false;
      }
      if !excluded {
        kept := kept + [matches[n]];
      }
      n := n + 1;
    }
  }

  lemma FilterStep(f: Match -> bool, s: seq<Match>, n: nat)
    requires n < |s|
    ensures Filter(f, s[n..]) == (if f(s[n]) then [s[n]] else []) + Filter(f, s[n + 1..])
  {
    assert s[n..][1..] == s[n + 1..];
  }

  lemma {:induction false} FilterTwice(f: Match -> bool, g: Match -> bool, h: Match -> bool, s: seq<Match>)
    requires forall m :: h(m) <==> f(m) && g(m)
    ensures Filter(g, Filter(f, s)) == Filter(h, s)
  {
    if s != [] {
      FilterTwice(f, g, h, s[1..]);
      var rest := Filter(f, s[1..]);
      if f(s[0]) {
        assert ([s[0]] + rest)[1..] == rest;
      } else {
        assert Filter(f, s) == rest;
      }
    }
  }

  lemma {:induction false} FilterSame(f: Match -> bool, g: Match -> bool, s: seq<Match>)
    requires forall m :: m in s ==> (f(m) <==> g(m))
    ensures Filter(f, s) == Filter(g, s)
  {
    if s != [] {
      FilterSame(f, g, s[1..]);
    }
  }

  /** Component exceptions, one filter after the other. */
  method ApplyComponentExceptions(p: Policy, msg: Message, detected: seq<Match>, relevant: seq<Match>)
    returns (kept: seq<Match>, applied: seq<string>)
    ensures kept == Filter(UncoveredBy(p.exceptions, msg, detected), relevant)
    ensures applied == Removers(p.exceptions, msg, detected, relevant)
  {
    hide Filter, Applies, Covers, Uncovered, Spared;
    kept, applied := relevant, [];
    var n := 0;
    UncoveredByNone(msg, detected, relevant);
    assert p.exceptions[..0] == [];
    while n < |p.exceptions|
      invariant 0 <= n <= |p.exceptions|
      invariant kept == Filter(UncoveredBy(p.exceptions[..n], msg, detected), relevant)
      invariant applied == Removers(p.exceptions[..n], msg, detected, relevant)
    {
      var e := p.exceptions[n];
      assert p.exceptions[..n + 1] == p.exceptions[..n] + [e] && p.exceptions[..n + 1][..n] == p.exceptions[..n];
      RemovesSome(p.exceptions[..n], e, msg, detected, relevant);
      UncoveredStep(p.exceptions[..n], e, msg, detected, relevant);
      if e.scope == Component && Applies(e, msg, detected) {
        var count := |kept|;
        kept := FilterMatches(e, kept);
        if |kept| < count {
          applied := applied + [e.name];
        }
      }
      n := n + 1;
    }
    assert p.exceptions[..|p.exceptions|] == p.exceptions;
  }

  /** A filter shortens its list exactly when it drops something. */
  lemma {:induction false} FilterShortens(f: Match -> bool, s: seq<Match>)
    ensures |Filter(f, s)| < |s| <==> exists m :: m in s && !f(m)
  {
    if s != [] {
      FilterShortens(f, s[1..]);
      assert forall m :: m in s <==> m == s[0] || m in s[1..];
    }
  }

  lemma RemovesSome(exceptions: seq<Exception>, e: Exception, msg: Message, detected: seq<Match>, s: seq<Match>)
    ensures var left := Filter(UncoveredBy(exceptions, msg, detected), s);
      |Filter(Spared(e), left)| < |left| <==>
        exists m :: m in s && Uncovered(exceptions, msg, detected, m) && Covers(e, m)
  {
    hide Applies, Covers, Uncovered;
    FilterShortens(Spared(e), Filter(UncoveredBy(exceptions, msg, detected), s));
  }

  lemma UncoveredByNone(msg: Message, detected: seq<Match>, s: seq<Match>)
    ensures Filter(UncoveredBy([], msg, detected), s) == s
  {
    FilterAll(UncoveredBy([], msg, detected), s);
  }

  lemma {:induction false} FilterAll(f: Match -> bool, s: seq<Match>)
    requires forall m :: m in s ==> f(m)
    ensures Filter(f, s) == s
  {
    if s != [] {
      FilterAll(f, s[1..]);
      assert [s[0]] + s[1..] == s;
    }
  }

  /** One more exception: one more filter, if it applies and has component scope. */
  lemma UncoveredStep(exceptions: seq<Exception>, e: Exception, msg: Message, detected: seq<Match>, s: seq<Match>)
    ensures var before := Filter(UncoveredBy(exceptions, msg, detected), s);
      Filter(UncoveredBy(exceptions + [e], msg, detected), s)
        == if e.scope == Component && Applies(e, msg, detected) then Filter(Spared(e), before) else before
  {
    hide Filter, Applies, Covers;
    var more := exceptions + [e];
    assert e in more;
    assert forall x :: x in more <==> x in exceptions || x == e;
    var f, h := UncoveredBy(exceptions, msg, detected), UncoveredBy(more, msg, detected);
    if e.scope == Component && Applies(e, msg, detected) {
      FilterTwice(f, Spared(e), h, s);
    } else {
      FilterSame(h, f, s);
    }
  }

  // ----- one policy ------------------------------------------------------------------------

  /** The first entire-message exception that applies, if any does. */
  method FindExempting(p: Policy, msg: Message, detected: seq<Match>) returns (names: seq<string>)
    ensures names == FirstExempting(p.exceptions, msg, detected)
    ensures names == [] <==> !Exempt(p, msg, detected)
  {
    hide Applies;
    var n := 0;
    assert p.exceptions[0..] == p.exceptions;
    while n < |p.exceptions|
      invariant 0 <= n <= |p.exceptions|
      invariant forall e :: e in p.exceptions[..n] && e.scope == EntireMessage ==> !Applies(e, msg, detected)
      invariant FirstExempting(p.exceptions, msg, detected) == FirstExempting(p.exceptions[n..], msg, detected)
    {
      var e := p.exceptions[n];
      assert p.exceptions[n..][1..] == p.exceptions[n + 1..];
      if e.scope == EntireMessage && Applies(e, msg, detected) {
        return [e.name];
      }
      assert p.exceptions[..n + 1] == p.exceptions[..n] + [e];
      n := n + 1;
    }
    assert p.exceptions[..|p.exceptions|] == p.exceptions;
    return [];
  }

  /** Matches of the contributing analyzers that are not excused are the matches that remain. */
  lemma RelevantUncovered(p: Policy, msg: Message, detected: seq<Match>)
    ensures Filter(UncoveredBy(p.exceptions, msg, detected), Filter(ContributedBy(p, detected), detected))
         == Remaining(p, msg, detected)
    ensures Remaining(p, msg, detected) == [] <==>
      !exists m :: m in detected && Contributes(p, detected, m.analyzer) && !Excused(p, msg, detected, m)
  {
    hide Filter, Contributes, Applies, Covers;
    FilterTwice(ContributedBy(p, detected), UncoveredBy(p.exceptions, msg, detected), Kept(p, msg, detected), detected);
    if m :| m in detected && Contributes(p, detected, m.analyzer) && !Excused(p, msg, detected, m) {
      assert Kept(p, msg, detected)(m);
    }
    if Remaining(p, msg, detected) != [] {
      var m := Remaining(p, msg, detected)[0];
      assert m in Remaining(p, msg, detected) && Kept(p, msg, detected)(m);
    }
  }

  method EvaluatePolicy(p: Policy, msg: Message, detected: seq<Match>) returns (v: Violation)
    ensures Meaning(p, msg, detected, v)
  {
    hide Filter, Satisfied, Contributes, Excused, Exempt, InGroup, MatchedRules, FirstExempting, Removers, IsSeverity;
    v := Violation(p.name, false, Low, [], [], 0, []);
    var names, analyzers := EvaluateRules(p, detected);
    if names == [] {
      return;
    }
    v := v.(matchedRules := names);
    if p.groups != [] && !exists g :: g in p.groups && InGroup(msg, g) {
      return;
    }
    var exempting := FindExempting(p, msg, detected);
    if exempting != [] {
      v := v.(exceptionsApplied := exempting);
      return;
    }
    var relevant := Filter((m: Match) => m.analyzer in analyzers, detected);
    FilterSame((m: Match) => m.analyzer in analyzers, ContributedBy(p, detected), detected);
    var kept, applied := ApplyComponentExceptions(p, msg, detected, relevant);
    RelevantUncovered(p, msg, detected);
    v := v.(exceptionsApplied := applied);
    if kept == [] {
      return;
    }
    var severity := CalculateSeverity(p, |kept|);
    v := v.(triggered := true, matches := kept, matchCount := |kept|, severity := severity);
  }

  // ----- the registered policies -----------------------------------------------------------

  class Evaluator {
    var policies: seq<Policy>

    /** No two registered policies share a name. */
    ghost predicate Valid()
      reads this
    {
      forall i, j :: 0 <= i < j < |policies| ==> policies[i].name != policies[j].name
    }

    constructor ()
      ensures Valid() && policies == []
    {
      policies := [];
    }

    /** Refuses a name that is taken. */
    method AddPolicy(p: Policy) returns (ok: bool)
      requires Valid()
      modifies this
      ensures Valid()
      ensures ok <==> forall q :: q in old(policies) ==> q.name != p.name
      ensures policies == if ok then old(policies) + [p] else old(policies)
    {
      if exists q :: q in policies && q.name == p.name {
        return false;
      }
      policies := policies + [p];
      return true;
    }

    /** Removes the policy of that name and no other, or reports that there is none. */
    method RemovePolicy(name: string) returns (ok: bool)
      requires Valid()
      modifies this
      ensures Valid()
      ensures ok <==> exists q :: q in old(policies) && q.name == name
      ensures forall q :: q in policies <==> q in old(policies) && q.name != name
      ensures ok ==> exists i :: 0 <= i < |old(policies)| && policies == old(policies)[..i] + old(policies)[i + 1..]
      ensures !ok ==> policies == old(policies)
    {
      var i := 0;
      while i < |policies|
        invariant 0 <= i <= |policies| && policies == old(policies)
        invariant forall k :: 0 <= k < i ==> policies[k].name != name
      {
        if policies[i].name == name {
          policies := policies[..i] + policies[i + 1..];
          assert old(policies)[i] in old(policies);
          return true;
        }
        i := i + 1;
      }
      return false;
    }

    /** One violation for each enabled policy, in registration order. */
    method EvaluateWithResult(msg: Message, detected: seq<Match>) returns (vs: seq<Violation>)
      ensures |vs| == |Enabled(policies)|
      ensures forall i :: 0 <= i < |vs| ==> Meaning(Enabled(policies)[i], msg, detected, vs[i])
    {
      vs := [];
      var n := 0;
      assert policies[..0] == [];
      while n < |policies|
        invariant 0 <= n <= |policies| && |vs| == |Enabled(policies[..n])|
        invariant forall i :: 0 <= i < |vs| ==> Meaning(Enabled(policies[..n])[i], msg, detected, vs[i])
      {
        EnabledStep(policies[..n], policies[n]);
        assert policies[..n + 1] == policies[..n] + [policies[n]];
        if policies[n].enabled {
          var v := EvaluatePolicy(policies[n], msg, detected);
          vs := vs + [v];
        }
        n := n + 1;
      }
      assert policies[..|policies|] == policies;
    }
  }

  function Enabled(policies: seq<Policy>): seq<Policy> {
    if policies == [] then []
    else (if policies[0].enabled then [policies[0]] else []) + Enabled(policies[1..])
  }

  lemma {:induction false} EnabledStep(policies: seq<Policy>, p: Policy)
    ensures Enabled(policies + [p]) == Enabled(policies) + if p.enabled then [p] else []
  {
    if policies == [] {
      assert policies + [p] == [p] && [p][1..] == policies;
    } else {
      EnabledStep(policies[1..], p);
      assert (policies + [p])[1..] == policies[1..] + [p];
    }
  }
}
