/** Laws of policy evaluation, over all policies and messages: it does not depend on order, an
    exception never makes things worse, and severity grows with the number of matches exactly
    when the tiers are consistent. */
module PolicyLaws {
  import opened Basics
  import opened PolicyModel

  /** Rules, groups and exceptions may be listed in any order. */
  ghost predicate Reordered(p: Policy, q: Policy) {
    && multiset(p.rules) == multiset(q.rules)
    && multiset(p.groups) == multiset(q.groups)
    && multiset(p.exceptions) == multiset(q.exceptions)
    && p.levels == q.levels && p.defaultSeverity == q.defaultSeverity
  }

  lemma SameMembers<T>(a: seq<T>, b: seq<T>)
    requires multiset(a) == multiset(b)
    ensures forall x :: x in a <==> x in b
    ensures |a| == |b|
  {
    forall x ensures x in a <==> x in b {
      assert x in a <==> x in multiset(a);
      assert x in b <==> x in multiset(b);
    }
    assert |multiset(a)| == |a| && |multiset(b)| == |b|;
  }

  lemma {:induction false} FilterAgrees(f: Match -> bool, g: Match -> bool, s: seq<Match>)
    requires forall m :: f(m) <==> g(m)
    ensures Filter(f, s) == Filter(g, s)
  {
    if s != [] { FilterAgrees(f, g, s[1..]); }
  }

  /** Reordering changes neither the verdict, nor the matches, their number or the severity. */
  lemma OrderDoesNotMatter(p: Policy, q: Policy, msg: Message, detected: seq<Match>, v: Violation, w: Violation)
    requires Reordered(p, q)
    requires Meaning(p, msg, detected, v) && Meaning(q, msg, detected, w)
    ensures v.triggered == w.triggered && v.matches == w.matches
    ensures v.matchCount == w.matchCount && v.severity == w.severity
  {
    hide Satisfied, InGroup, Applies, Covers, MatchedRules, Filter;
    SameMembers(p.rules, q.rules);
    SameMembers(p.groups, q.groups);
    SameMembers(p.exceptions, q.exceptions);
    forall m: Match ensures Kept(p, msg, detected)(m) <==> Kept(q, msg, detected)(m) {
      assert Contributes(p, detected, m.analyzer) <==> Contributes(q, detected, m.analyzer);
      assert Excused(p, msg, detected, m) <==> Excused(q, msg, detected, m);
    }
    FilterAgrees(Kept(p, msg, detected), Kept(q, msg, detected), detected);
    SameVerdict(p, q, msg, detected);
    if v.triggered {
      SeverityUnique(p, q, v.matchCount, v.severity, w.severity);
    }
  }

  lemma SameVerdict(p: Policy, q: Policy, msg: Message, detected: seq<Match>)
    requires forall x :: x in p.rules <==> x in q.rules
    requires forall x :: x in p.groups <==> x in q.groups
    requires forall x :: x in p.exceptions <==> x in q.exceptions
    requires |p.groups| == |q.groups|
    ensures Violated(p, msg, detected) <==> Violated(q, msg, detected)
  {
    hide Satisfied, InGroup, Applies, Covers;
    forall m: Match
      ensures Contributes(p, detected, m.analyzer) <==> Contributes(q, detected, m.analyzer)
      ensures Excused(p, msg, detected, m) <==> Excused(q, msg, detected, m)
    { }
  }

  /** Two evaluations of one count agree on the severity. */
  lemma SeverityUnique(p: Policy, q: Policy, count: int, s: Severity, t: Severity)
    requires p.levels == q.levels && p.defaultSeverity == q.defaultSeverity
    requires IsSeverity(p, count, s) && IsSeverity(q, count, t)
    ensures s == t
  {
    if !NoTier(p.levels, count) {
      var i :| IsTier(p.levels, count, i) && s == p.levels[i].severity;
      var j :| IsTier(q.levels, count, j) && t == q.levels[j].severity;
      assert i == j;
    }
  }

  // ----- adding exceptions -----------------------------------------------------------------

  predicate Subsequence(a: seq<Match>, b: seq<Match>)
    decreases |b|
  {
    if a == [] then true
    else if b == [] then false
    else if a[0] == b[0] && Subsequence(a[1..], b[1..]) then true
    else Subsequence(a, b[1..])
  }

  lemma {:induction false} FilterFewer(f: Match -> bool, g: Match -> bool, s: seq<Match>)
    requires forall m :: f(m) ==> g(m)
    ensures Subsequence(Filter(f, s), Filter(g, s)) && |Filter(f, s)| <= |Filter(g, s)|
  {
    if s != [] {
      FilterFewer(f, g, s[1..]);
      var a, b := Filter(f, s[1..]), Filter(g, s[1..]);
      if g(s[0]) {
        assert ([s[0]] + b)[1..] == b;
        if f(s[0]) {
          assert ([s[0]] + a)[1..] == a;
        } else {
          assert Filter(f, s) == a;
        }
      } else {
        assert Filter(f, s) == a && Filter(g, s) == b;
      }
    }
  }

  /** q is p with more exceptions, wherever they are listed. */
  ghost predicate AddsExceptions(p: Policy, q: Policy) {
    && q.rules == p.rules && q.groups == p.groups
    && q.levels == p.levels && q.defaultSeverity == p.defaultSeverity
    && forall e :: e in p.exceptions ==> e in q.exceptions
  }

  /** Adding exceptions never triggers a policy; the matches left are a subsequence of those
      before; and with consistent tiers the severity does not rise. */
  lemma ExceptionsOnlyRelieve(p: Policy, q: Policy, msg: Message, detected: seq<Match>, v: Violation, w: Violation)
    requires AddsExceptions(p, q)
    requires Meaning(p, msg, detected, v) && Meaning(q, msg, detected, w)
    ensures w.triggered ==> v.triggered
    ensures Subsequence(w.matches, v.matches) && w.matchCount <= v.matchCount
    ensures Consistent(p) && w.triggered ==> w.severity.Rank() <= v.severity.Rank()
  {
    hide Satisfied, InGroup, Applies, Covers, MatchedRules, Filter, Consistent;
    forall m: Match ensures Kept(q, msg, detected)(m) ==> Kept(p, msg, detected)(m) {
      assert Contributes(p, detected, m.analyzer) <==> Contributes(q, detected, m.analyzer);
      assert Excused(p, msg, detected, m) ==> Excused(q, msg, detected, m);
    }
    FilterFewer(Kept(q, msg, detected), Kept(p, msg, detected), detected);
    if w.triggered {
      var m :| m in detected && Contributes(q, detected, m.analyzer) && !Excused(q, msg, detected, m);
      assert Kept(q, msg, detected)(m) && Kept(p, msg, detected)(m);
      assert v.triggered;
      assert m in Remaining(q, msg, detected);
      if Consistent(p) {
        SameTiers(p, q, w.matchCount, w.severity);
        MonotoneIfConsistent(p, w.matchCount, v.matchCount, w.severity, v.severity);
      }
    }
  }

  lemma SameTiers(p: Policy, q: Policy, count: int, s: Severity)
    requires p.levels == q.levels && p.defaultSeverity == q.defaultSeverity && IsSeverity(q, count, s)
    ensures IsSeverity(p, count, s)
  {
  }

  // ----- severity and the number of matches ------------------------------------------------

  /** Some positive count selects this tier. */
  predicate Selectable(levels: seq<Level>, i: int) {
    0 <= i < |levels| && IsTier(levels, Max(1, levels[i].minMatches), i)
  }

  /** Tiers that can be selected rise in severity with their threshold, and if a single match
      reaches none of them, the default severity is below them all. */
  ghost predicate Consistent(p: Policy) {
    && (forall i, j :: Selectable(p.levels, i) && Selectable(p.levels, j)
          && p.levels[i].minMatches < p.levels[j].minMatches
          ==> p.levels[i].severity.Rank() <= p.levels[j].severity.Rank())
    && (NoTier(p.levels, 1) ==>
          forall i :: Selectable(p.levels, i) ==> p.defaultSeverity.Rank() <= p.levels[i].severity.Rank())
  }

  ghost predicate MonotoneAt(p: Policy, c: int, d: int) {
    forall s, t :: IsSeverity(p, c, s) && IsSeverity(p, d, t) ==> s.Rank() <= t.Rank()
  }

  lemma TierSelectable(levels: seq<Level>, count: int, i: int)
    requires count >= 1 && IsTier(levels, count, i)
    ensures Selectable(levels, i)
  {
  }

  lemma MonotoneIfConsistent(p: Policy, c: int, d: int, s: Severity, t: Severity)
    requires Consistent(p) && 1 <= c <= d
    requires IsSeverity(p, c, s) && IsSeverity(p, d, t)
    ensures s.Rank() <= t.Rank()
  {
    if !NoTier(p.levels, d) {
      var j :| IsTier(p.levels, d, j) && t == p.levels[j].severity;
      TierSelectable(p.levels, d, j);
      if !NoTier(p.levels, c) {
        var i :| IsTier(p.levels, c, i) && s == p.levels[i].severity;
        TierSelectable(p.levels, c, i);
        assert p.levels[i].minMatches <= p.levels[j].minMatches;
        if p.levels[i].minMatches == p.levels[j].minMatches {
          assert i == j;
        }
      }
    }
  }

  /** Severity is monotone in the number of matches exactly when the tiers are consistent. */
  lemma SeverityMonotoneIff(p: Policy)
    ensures (forall c, d :: 1 <= c <= d ==> MonotoneAt(p, c, d)) <==> Consistent(p)
  {
    if Consistent(p) {
      forall c, d | 1 <= c <= d ensures MonotoneAt(p, c, d) {
        forall s, t | IsSeverity(p, c, s) && IsSeverity(p, d, t) ensures s.Rank() <= t.Rank() {
          MonotoneIfConsistent(p, c, d, s, t);
        }
      }
    }
    if forall c, d :: 1 <= c <= d ==> MonotoneAt(p, c, d) {
      forall i, j | Selectable(p.levels, i) && Selectable(p.levels, j)
        && p.levels[i].minMatches < p.levels[j].minMatches
        ensures p.levels[i].severity.Rank() <= p.levels[j].severity.Rank()
      {
        SelectableSeverity(p, i);
        SelectableSeverity(p, j);
        assert MonotoneAt(p, Max(1, p.levels[i].minMatches), Max(1, p.levels[j].minMatches));
      }
      if NoTier(p.levels, 1) {
        forall i | Selectable(p.levels, i) ensures p.defaultSeverity.Rank() <= p.levels[i].severity.Rank() {
          SelectableSeverity(p, i);
          assert IsSeverity(p, 1, p.defaultSeverity);
          assert MonotoneAt(p, 1, Max(1, p.levels[i].minMatches));
        }
      }
    }
  }

  lemma SelectableSeverity(p: Policy, i: int)
    requires Selectable(p.levels, i)
    ensures IsSeverity(p, Max(1, p.levels[i].minMatches), p.levels[i].severity)
  {
    assert IsTier(p.levels, Max(1, p.levels[i].minMatches), i);
  }
}
