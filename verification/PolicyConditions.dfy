/** What conditions, rules, groups and exceptions ask of a message, and how rules react to more
    matches. */
module PolicyConditions {
  import opened Basics
  import opened Wrappers
  import opened PolicyModel

  // ----- conditions ------------------------------------------------------------------------

  /** Where a match of the condition's analyzer lies in a component the condition looks at. */
  function Positions(c: Condition, detected: seq<Match>): set<nat> {
    set i: nat | i < |detected| && detected[i].analyzer == c.analyzer
                 && (c.componentTypes == [] || detected[i].component in c.componentTypes)
  }

  lemma {:induction false} FilterCounts(keep: Match -> bool, s: seq<Match>)
    ensures |Filter(keep, s)| == |Where(s, keep)|
  {
    if s != [] {
      FilterCounts(keep, s[1..]);
      WhereFirst(s, keep);
    }
  }

  /** Each operator compares the number of such positions with its threshold. */
  lemma HoldsIff(c: Condition, detected: seq<Match>)
    ensures c.operator == Matches ==> (Holds(c, detected) <==> Positions(c, detected) != {})
    ensures c.operator == NotMatches ==> (Holds(c, detected) <==> Positions(c, detected) == {})
    ensures c.operator == CountGte ==> (Holds(c, detected) <==> |Positions(c, detected)| >= c.threshold)
    ensures c.operator == CountLte ==> (Holds(c, detected) <==> |Positions(c, detected)| <= c.threshold)
  {
    FilterCounts(Considered(c), detected);
    assert Positions(c, detected) == Where(detected, Considered(c));
  }

  lemma {:induction false} FilterConcat(keep: Match -> bool, a: seq<Match>, b: seq<Match>)
    ensures Filter(keep, a + b) == Filter(keep, a) + Filter(keep, b)
  {
    if a == [] {
      assert a + b == b;
    } else {
      assert (a + b)[1..] == a[1..] + b;
      FilterConcat(keep, a[1..], b);
    }
  }

  predicate Rises(c: Condition) { c.operator in {Matches, CountGte} }

  predicate Falls(c: Condition) { c.operator in {NotMatches, CountLte} }

  /** More matches keep a rising condition satisfied and a falling one unsatisfied. */
  lemma MoreMatches(c: Condition, a: seq<Match>, more: seq<Match>, b: seq<Match>)
    ensures Rises(c) && Holds(c, a + b) ==> Holds(c, a + more + b)
    ensures Falls(c) && !Holds(c, a + b) ==> !Holds(c, a + more + b)
  {
    hide Filter;
    FilterConcat(Considered(c), a, b);
    FilterConcat(Considered(c), a, more);
    FilterConcat(Considered(c), a + more, b);
  }

  /** A rule of Matches and CountGte conditions stays satisfied when matches are added anywhere, and
      a rule of NotMatches and CountLte conditions that is not satisfied never becomes so. */
  lemma RuleReacts(r: Rule, a: seq<Match>, more: seq<Match>, b: seq<Match>)
    ensures (forall c :: c in r.conditions ==> c.operator in {Matches, CountGte}) && Satisfied(r, a + b) ==>
      Satisfied(r, a + more + b)
    ensures (forall c :: c in r.conditions ==> c.operator in {NotMatches, CountLte}) && !Satisfied(r, a + b) ==>
      !Satisfied(r, a + more + b)
  {
    hide Holds;
    forall c | c in r.conditions
      ensures Rises(c) && Holds(c, a + b) ==> Holds(c, a + more + b)
      ensures Falls(c) && !Holds(c, a + b) ==> !Holds(c, a + more + b)
    {
      MoreMatches(c, a, more, b);
    }
  }

  /** One condition that fails is enough to fail the rule, and a rule without conditions never
      matches. */
  lemma RuleFails(detected: seq<Match>, name: string, before: seq<Condition>, c: Condition, after: seq<Condition>)
    requires !Holds(c, detected)
    ensures !Satisfied(Rule(name, before + [c] + after), detected)
    ensures !Satisfied(Rule(name, []), detected)
  {
    hide Holds;
    assert c in before + [c] + after;
  }

  // ----- groups ----------------------------------------------------------------------------

  /** The text after the first at sign. */
  lemma {:induction false} DomainOfAddress(user: string, domain: string)
    requires '@' !in user
    ensures DomainOf(user + "@" + domain) == Some(domain)
    ensures DomainOf(user) == None
  {
    var v := user + "@" + domain;
    if user == "" {
      assert v[1..] == domain;
    } else {
      assert v[1..] == user[1..] + "@" + domain;
      DomainOfAddress(user[1..], domain);
    }
  }

  /** d is the domain m or one of its subdomains. */
  ghost predicate Below(d: string, m: string) { d == m || exists sub: string :: d == sub + "." + m }

  /** How a value is compared with a member: case does not matter for exact and domain members; an
      address is in a domain exactly when what follows its first at sign is the domain or below it,
      and a value without an at sign when it is the domain. */
  lemma MemberMatchesIff(msg: Message, member: string, value: string)
    ensures MemberMatches(msg, Exact, member, value) <==> msg.lower(value) == msg.lower(member)
    ensures MemberMatches(msg, Regex, member, value) <==> msg.search(member, value)
    ensures '@' !in msg.lower(value) ==>
      (MemberMatches(msg, Domain, member, value) <==> msg.lower(value) == msg.lower(member))
    ensures forall user, domain: string :: '@' !in user && msg.lower(value) == user + "@" + domain ==>
      (MemberMatches(msg, Domain, member, value) <==> Below(domain, msg.lower(member)))
  {
    var v, m := msg.lower(value), msg.lower(member);
    if '@' !in v {
      DomainOfAddress(v, "");
    }
    forall user, domain: string | '@' !in user && v == user + "@" + domain
      ensures MemberMatches(msg, Domain, member, value) <==> Below(domain, m)
    {
      DomainOfAddress(user, domain);
      BelowIff(domain, m);
    }
  }

  lemma BelowIff(d: string, m: string)
    ensures Below(d, m) <==> d == m || EndsWith(d, "." + m)
  {
    var tail := "." + m;
    if EndsWith(d, tail) {
      var sub := d[..|d| - |tail|];
      assert d == sub + d[|d| - |tail|..];
      assert d == sub + "." + m;
    }
    if sub: string :| d == sub + "." + m {
      assert d == sub + tail;
      assert d[|d| - |tail|..] == tail;
    }
  }

  /** A group matches when any value of its field matches any member; without values or without
      members it never does. */
  lemma InGroupIff(msg: Message, g: Group)
    ensures InGroup(msg, g) <==>
      exists i, j :: 0 <= i < |msg.values(g.field)| && 0 <= j < |g.members|
        && MemberMatches(msg, g.mode, g.members[j], msg.values(g.field)[i])
    ensures msg.values(g.field) == [] || g.members == [] ==> !InGroup(msg, g)
  {
    hide MemberMatches;
    var values := msg.values(g.field);
    if InGroup(msg, g) {
      var v, m :| v in values && m in g.members && MemberMatches(msg, g.mode, m, v);
      var i, j :| 0 <= i < |values| && values[i] == v && 0 <= j < |g.members| && g.members[j] == m;
      assert MemberMatches(msg, g.mode, g.members[j], values[i]);
    }
    if i, j :| 0 <= i < |values| && 0 <= j < |g.members| && MemberMatches(msg, g.mode, g.members[j], values[i]) {
      assert values[i] in values && g.members[j] in g.members;
    }
  }

  // ----- exceptions ------------------------------------------------------------------------

  /** A condition of its own decides alone; otherwise one matching group is enough, and an exception
      with neither never applies. */
  lemma AppliesIff(e: Exception, msg: Message, detected: seq<Match>)
    ensures e.custom.Some? ==> (Applies(e, msg, detected) <==> msg.verdict(e.custom.value, detected))
    ensures e.custom.None? ==>
      (Applies(e, msg, detected) <==> exists i :: 0 <= i < |e.groups| && InGroup(msg, e.groups[i]))
    ensures e.custom.None? && e.groups == [] ==> !Applies(e, msg, detected)
  {
    hide InGroup;
  }

  /** A component exception takes out exactly the matches whose analyzer it lists, in the components it
      lists, where an empty list stands for all of them. */
  lemma CoversIff(name: string, groups: seq<Group>, analyzers: seq<string>, types: seq<ComponentType>,
                  custom: Option<nat>, m: Match)
    ensures Covers(Exception(name, Component, groups, [], [], custom), m)
    ensures analyzers != [] ==>
      (Covers(Exception(name, Component, groups, analyzers, [], custom), m) <==> m.analyzer in analyzers)
    ensures types != [] ==>
      (Covers(Exception(name, Component, groups, [], types, custom), m) <==> m.component in types)
    ensures analyzers != [] && types != [] ==>
      (Covers(Exception(name, Component, groups, analyzers, types, custom), m) <==>
       m.analyzer in analyzers && m.component in types)
  {
  }

  // ----- a whole policy --------------------------------------------------------------------

  /** The simplest policy, one rule with one condition and nothing else, whole: with positions that
      satisfy the condition it reports every match of the analyzer, and otherwise nothing. */
  lemma SingleCondition(p: Policy, msg: Message, detected: seq<Match>, c: Condition, v: Violation)
    requires p.rules == [Rule("r", [c])] && p.groups == [] && p.exceptions == [] && p.levels == []
    requires Meaning(p, msg, detected, v)
    ensures var mine := set i: nat | i < |detected| && detected[i].analyzer == c.analyzer;
      && (v.triggered <==> Holds(c, detected) && mine != {})
      && (v.triggered ==> v.matchCount == |mine| && v.severity == p.defaultSeverity && v.matchedRules == ["r"])
      && (forall m :: m in v.matches ==> m.analyzer == c.analyzer)
  {
    hide Holds, Filter;
    var r := Rule("r", [c]);
    assert r in p.rules && c in r.conditions;
    assert Satisfied(r, detected) <==> Holds(c, detected);
    forall a: string ensures Contributes(p, detected, a) <==> Holds(c, detected) && a == c.analyzer { }
    var keep := Kept(p, msg, detected);
    var mine := set i: nat | i < |detected| && detected[i].analyzer == c.analyzer;
    if Holds(c, detected) {
      FilterCounts(keep, detected);
      assert Where(detected, keep) == mine;
      if v.triggered {
        assert p.rules[..0] == [] && MatchedRules([], detected) == [];
      }
      if i :| i in mine {
        assert detected[i] in detected && Contributes(p, detected, detected[i].analyzer);
      }
    }
  }
}
