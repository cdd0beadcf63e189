/** Policies, detection results, and what evaluating a policy means, stated without any order:
    a policy is violated by the matches that a satisfied rule calls for and no exception covers. */
module PolicyModel {
  import opened Basics
  import opened Wrappers

  datatype ComponentType = Envelope | Subject | Body | Attachment | Generic

  /** `text` stands for everything in a match that evaluation does not look at. */
  datatype Match = Match(analyzer: string, component: ComponentType, text: string)

  datatype Operator = Matches | NotMatches | CountGte | CountLte

  /** An empty list of component types restricts nothing. */
  datatype Condition = Condition(
    analyzer: string, operator: Operator, threshold: int, componentTypes: seq<ComponentType>)

  datatype Rule = Rule(name: string, conditions: seq<Condition>)

  datatype Mode = Exact | Domain | Regex

  datatype Group = Group(members: seq<string>, mode: Mode, field: string)

  /** Metadata by field, as a list of values; the two text operations that matching needs; and the
      verdict of each custom exception condition on this message. */
  datatype Message = Message(
    values: string -> seq<string>, lower: string -> string, search: (string, string) -> bool,
    verdict: (nat, seq<Match>) -> bool)

  datatype Scope = EntireMessage | Component

  /** `custom` identifies the exception's own condition, if it has one. */
  datatype Exception = Exception(
    name: string, scope: Scope, groups: seq<Group>, analyzerNames: seq<string>,
    componentTypes: seq<ComponentType>, custom: Option<nat>)

  datatype Severity = Info | Low | Medium | High | Critical {
    function Rank(): nat {
      match this case Info => 0 case Low => 1 case Medium => 2 case High => 3 case Critical => 4
    }
  }

  datatype Level = Level(severity: Severity, minMatches: int)

  datatype Policy = Policy(
    name: string, rules: seq<Rule>, groups: seq<Group>, exceptions: seq<Exception>,
    levels: seq<Level>, defaultSeverity: Severity, enabled: bool)

  datatype Violation = Violation(
    policy: string, triggered: bool, severity: Severity, matchedRules: seq<string>,
    matches: seq<Match>, matchCount: nat, exceptionsApplied: seq<string>)

  // ----- rules and groups ------------------------------------------------------------------

  function Filter(keep: Match -> bool, s: seq<Match>): (r: seq<Match>)
    ensures |r| <= |s|
    ensures forall m :: m in r <==> m in s && keep(m)
  {
    if s == [] then []
    else
      assert forall m :: m in s <==> m == s[0] || m in s[1..];
      (if keep(s[0]) then [s[0]] else []) + Filter(keep, s[1..])
  }

  function Considered(c: Condition): Match -> bool {
    (m: Match) => m.analyzer == c.analyzer && (c.componentTypes != [] ==> m.component in c.componentTypes)
  }

  predicate Holds(c: Condition, detected: seq<Match>) {
    var count := |Filter(Considered(c), detected)|;
    match c.operator
    case Matches => count > 0
    case NotMatches => count == 0
    case CountGte => count >= c.threshold
    case CountLte => count <= c.threshold
  }

  predicate Satisfied(r: Rule, detected: seq<Match>) {
    r.conditions != [] && forall c :: c in r.conditions ==> Holds(c, detected)
  }

  /** What follows the first at sign, if there is one. */
  function DomainOf(value: string): Option<string> {
    if value == "" then None else if value[0] == '@' then Some(value[1..]) else DomainOf(value[1..])
  }

  predicate MemberMatches(msg: Message, mode: Mode, member: string, value: string) {
    var v, m := msg.lower(value), msg.lower(member);
    match mode
    case Exact => v == m
    case Domain =>
      (match DomainOf(v)
       case Some(d) => d == m || EndsWith(d, "." + m)
       case None => v == m)
    case Regex => msg.search(member, value)
  }

  predicate InGroup(msg: Message, g: Group) {
    exists v :: v in msg.values(g.field) && exists m :: m in g.members && MemberMatches(msg, g.mode, m, v)
  }

  // ----- exceptions ------------------------------------------------------------------------

  predicate Applies(e: Exception, msg: Message, detected: seq<Match>) {
    if e.custom.Some? then msg.verdict(e.custom.value, detected)
    else exists g :: g in e.groups && InGroup(msg, g)
  }

  /** What a component exception takes out: matches of its analyzers in its component types. */
  predicate Covers(e: Exception, m: Match) {
    (e.analyzerNames != [] ==> m.analyzer in e.analyzerNames)
    && (e.componentTypes != [] ==> m.component in e.componentTypes)
  }

  // ----- the meaning of a policy -----------------------------------------------------------

  predicate Contributes(p: Policy, detected: seq<Match>, analyzer: string) {
    exists r :: r in p.rules && Satisfied(r, detected) && exists c :: c in r.conditions && c.analyzer == analyzer
  }

  predicate Excused(p: Policy, msg: Message, detected: seq<Match>, m: Match) {
    exists e :: e in p.exceptions && e.scope == Component && Applies(e, msg, detected) && Covers(e, m)
  }

  predicate Exempt(p: Policy, msg: Message, detected: seq<Match>) {
    exists e :: e in p.exceptions && e.scope == EntireMessage && Applies(e, msg, detected)
  }

  predicate InScope(p: Policy, msg: Message) {
    p.groups == [] || exists g :: g in p.groups && InGroup(msg, g)
  }

  function Kept(p: Policy, msg: Message, detected: seq<Match>): Match -> bool {
    (m: Match) => Contributes(p, detected, m.analyzer) && !Excused(p, msg, detected, m)
  }

  /** The matches a violation reports: contributed and not excused, in their original order. */
  function Remaining(p: Policy, msg: Message, detected: seq<Match>): seq<Match> {
    Filter(Kept(p, msg, detected), detected)
  }

  predicate Violated(p: Policy, msg: Message, detected: seq<Match>) {
    && (exists r :: r in p.rules && Satisfied(r, detected))
    && InScope(p, msg)
    && !Exempt(p, msg, detected)
    && exists m :: m in detected && Contributes(p, detected, m.analyzer) && !Excused(p, msg, detected, m)
  }

  /** The tier that counts: the greatest threshold reached, the first listed among equals. */
  predicate IsTier(levels: seq<Level>, count: int, i: int) {
    && 0 <= i < |levels| && levels[i].minMatches <= count
    && (forall j :: 0 <= j < |levels| && levels[j].minMatches <= count ==> levels[j].minMatches <= levels[i].minMatches)
    && (forall j :: 0 <= j < i ==> levels[j].minMatches != levels[i].minMatches)
  }

  predicate NoTier(levels: seq<Level>, count: int) {
    forall j :: 0 <= j < |levels| ==> levels[j].minMatches > count
  }

  ghost predicate IsSeverity(p: Policy, count: int, s: Severity) {
    if NoTier(p.levels, count) then s == p.defaultSeverity
    else exists i :: IsTier(p.levels, count, i) && s == p.levels[i].severity
  }

  /** The rules that match, in the order of the policy. */
  function MatchedRules(rules: seq<Rule>, detected: seq<Match>): seq<string> {
    if rules == [] then []
    else MatchedRules(rules[..|rules| - 1], detected)
         + if Satisfied(rules[|rules| - 1], detected) then [rules[|rules| - 1].name] else []
  }

  /** Not covered by any of these exceptions that applies and has component scope. */
  predicate Uncovered(exceptions: seq<Exception>, msg: Message, detected: seq<Match>, m: Match) {
    forall e :: e in exceptions && e.scope == Component && Applies(e, msg, detected) ==> !Covers(e, m)
  }

  function UncoveredBy(exceptions: seq<Exception>, msg: Message, detected: seq<Match>): Match -> bool {
    (m: Match) => Uncovered(exceptions, msg, detected, m)
  }

  /** The component exceptions, in order, that cover some match which all earlier ones left. */
  function Removers(exceptions: seq<Exception>, msg: Message, detected: seq<Match>, relevant: seq<Match>): seq<string> {
    if exceptions == [] then []
    else
      var n := |exceptions| - 1;
      var e := exceptions[n];
      Removers(exceptions[..n], msg, detected, relevant)
      + if e.scope == Component && Applies(e, msg, detected)
           && exists m :: m in relevant && Uncovered(exceptions[..n], msg, detected, m) && Covers(e, m)
        then [e.name] else []
  }

  /** The first entire-message exception that applies. */
  function FirstExempting(exceptions: seq<Exception>, msg: Message, detected: seq<Match>): seq<string> {
    if exceptions == [] then []
    else if exceptions[0].scope == EntireMessage && Applies(exceptions[0], msg, detected) then [exceptions[0].name]
    else FirstExempting(exceptions[1..], msg, detected)
  }

  function ContributedBy(p: Policy, detected: seq<Match>): Match -> bool {
    (m: Match) => Contributes(p, detected, m.analyzer)
  }

  /** The exceptions a violation names. */
  function Named(p: Policy, msg: Message, detected: seq<Match>): seq<string> {
    if MatchedRules(p.rules, detected) == [] || !InScope(p, msg) then []
    else if Exempt(p, msg, detected) then FirstExempting(p.exceptions, msg, detected)
    else Removers(p.exceptions, msg, detected, Filter(ContributedBy(p, detected), detected))
  }

  /** What an evaluation has to report, whatever the order of rules, groups and exceptions. */
  ghost predicate Meaning(p: Policy, msg: Message, detected: seq<Match>, v: Violation) {
    && v.policy == p.name && v.matchedRules == MatchedRules(p.rules, detected)
    && (v.triggered <==> Violated(p, msg, detected))
    && v.matches == (if v.triggered then Remaining(p, msg, detected) else [])
    && v.matchCount == |v.matches|
    && v.exceptionsApplied == Named(p, msg, detected)
    && (if v.triggered then IsSeverity(p, v.matchCount, v.severity) else v.severity == Low)
  }
}
