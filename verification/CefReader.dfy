/** A reader of records that knows nothing of how they were put together: it finds values by their
    keys and custom fields by their labels, and rebuilds the incident. */
module CefReader {
  import opened Basics
  import opened Wrappers
  import opened Cef
  import Decimal

  type Pairs = seq<(string, string)>

  /** The value of a key. */
  function Lookup(pairs: Pairs, key: string): Option<string> {
    if pairs == [] then None
    else if pairs[0].0 == key then Some(pairs[0].1)
    else Lookup(pairs[1..], key)
  }

  /** The custom field that carries this title: the key before "Label" of the pair with that value. */
  function FieldLabelled(pairs: Pairs, title: string): Option<string> {
    if pairs == [] then None
    else if EndsWith(pairs[0].0, "Label") && pairs[0].1 == title then Some(pairs[0].0[..|pairs[0].0| - 5])
    else FieldLabelled(pairs[1..], title)
  }

  function Labelled(pairs: Pairs, title: string): Option<string> {
    match FieldLabelled(pairs, title) case None => None case Some(key) => Lookup(pairs, key)
  }

  function ReadInt(s: string): Option<int> {
    var digits := if s != "" && s[0] == '-' then s[1..] else s;
    if digits != "" && forall i :: 0 <= i < |digits| ==> IsDigit(digits[i]) then
      var n: int := Decimal.Value(digits);
      Some(if digits == s then n else -n)
    else None
  }

  /** The incident a record describes, if it has every field that is always there. */
  function IncidentOf(r: Record): Option<Incident> {
    var p := r.pairs;
    match (Lookup(p, "act"), Lookup(p, "sev"), Labelled(p, "PolicyName"), Lookup(p, "cat"),
           Labelled(p, "SourceType"), Labelled(p, "MatchCount"), Lookup(p, "outcome"))
    case (Some(action), Some(severity), Some(policy), Some(channel), Some(source), Some(count), Some(status)) =>
      var created := Lookup(p, "rt");
      (match (ReadInt(count), if created.Some? then ReadInt(created.value) else Some(0))
       case (Some(n), Some(at)) =>
         Some(Incident(action, severity, policy, channel, source, n, status,
                       Lookup(p, "suser").GetOr(""), Lookup(p, "fname").GetOr(""),
                       if created.Some? then Some(at) else None))
       case _ => None)
    case _ => None
  }

  lemma ReadIntOf(n: int)
    ensures ReadInt(Decimal.Of(n)) == Some(n)
  {
    hide Decimal.OfNat, Decimal.Value;
    var digits := Decimal.OfNat(if n < 0 then -n else n);
    Decimal.ValueOfNat(if n < 0 then -n else n);
    assert IsDigit(digits[0]);
    if n < 0 {
      assert Decimal.Of(n)[1..] == digits;
    }
  }

  // ----- looking up in the pairs of an incident --------------------------------------------

  lemma {:induction false} LookupConcat(a: Pairs, b: Pairs, key: string)
    ensures Lookup(a + b, key) == if Lookup(a, key).Some? then Lookup(a, key) else Lookup(b, key)
  {
    if a == [] {
      assert a + b == b;
    } else {
      assert (a + b)[1..] == a[1..] + b;
      LookupConcat(a[1..], b, key);
    }
  }

  lemma {:induction false} LabelConcat(a: Pairs, b: Pairs, title: string)
    ensures FieldLabelled(a, title).Some? ==> FieldLabelled(a + b, title) == FieldLabelled(a, title)
  {
    if a != [] {
      assert (a + b)[1..] == a[1..] + b;
      LabelConcat(a[1..], b, title);
    }
  }

  lemma {:induction false} LookupSkips(p: Pairs, n: nat, key: string)
    requires n <= |p| && forall k :: 0 <= k < n ==> p[k].0 != key
    ensures Lookup(p, key) == Lookup(p[n..], key)
    decreases n
  {
    if n == 0 {
      assert p[0..] == p;
    } else {
      LookupSkips(p, n - 1, key);
      assert p[n - 1..][1..] == p[n..];
    }
  }

  lemma LookupIs(p: Pairs, n: nat, key: string)
    requires n < |p| && p[n].0 == key && forall k :: 0 <= k < n ==> p[k].0 != key
    ensures Lookup(p, key) == Some(p[n].1)
  {
    LookupSkips(p, n, key);
  }

  lemma LookupNot(p: Pairs, key: string)
    requires forall k :: 0 <= k < |p| ==> p[k].0 != key
    ensures Lookup(p, key) == None
  {
    LookupSkips(p, |p|, key);
    assert p[|p|..] == [];
  }

  /** Each of the ten pairs that are always there, and none of the optional ones among them. */
  lemma FixedLookups(i: Incident)
    ensures var p := FixedPairs(i);
      && Lookup(p, "act") == Some(i.action) && Lookup(p, "cat") == Some(i.channel)
      && Lookup(p, "cs1") == Some(i.policyName) && Lookup(p, "cs2") == Some(i.sourceType)
      && Lookup(p, "cn1") == Some(Decimal.Of(i.matchCount))
      && Lookup(p, "sev") == Some(i.severity) && Lookup(p, "outcome") == Some(i.status)
      && Lookup(p, "suser") == None && Lookup(p, "fname") == None && Lookup(p, "rt") == None
  {
    hide Decimal.Of, Lookup;
    var p := FixedPairs(i);
    LookupIs(p, 0, "act");
    LookupIs(p, 1, "cat");
    LookupIs(p, 2, "cs1");
    LookupIs(p, 4, "cs2");
    LookupIs(p, 6, "cn1");
    LookupIs(p, 8, "sev");
    LookupIs(p, 9, "outcome");
    LookupNot(p, "suser");
    LookupNot(p, "fname");
    LookupNot(p, "rt");
  }

  lemma LabelAt(p: Pairs, n: nat, title: string)
    requires n < |p|
    ensures FieldLabelled(p[n..], title)
         == if EndsWith(p[n].0, "Label") && p[n].1 == title then Some(p[n].0[..|p[n].0| - 5])
            else FieldLabelled(p[n + 1..], title)
  {
    assert p[n..][1..] == p[n + 1..];
  }

  /** The three labels name their fields, whatever the values are. */
  lemma FixedLabels(i: Incident)
    ensures var p := FixedPairs(i);
      && FieldLabelled(p, "PolicyName") == Some("cs1")
      && FieldLabelled(p, "SourceType") == Some("cs2")
      && FieldLabelled(p, "MatchCount") == Some("cn1")
  {
    hide FieldLabelled, EndsWith, Decimal.Of;
    PlainKeys();
    WalkToLabels(FixedPairs(i));
  }

  lemma LabelsDiffer()
    ensures "PolicyName" != "SourceType" && "PolicyName" != "MatchCount" && "SourceType" != "MatchCount"
  {
    assert "PolicyName"[0] == 'P' && "SourceType"[0] == 'S' && "MatchCount"[0] == 'M';
  }

  lemma PlainKeys()
    ensures !EndsWith("act", "Label") && !EndsWith("cat", "Label") && !EndsWith("cs1", "Label")
    ensures !EndsWith("cs2", "Label") && !EndsWith("cn1", "Label")
  {
  }

  lemma LabelKeys()
    ensures EndsWith("cs1Label", "Label") && EndsWith("cs2Label", "Label") && EndsWith("cn1Label", "Label")
  {
    assert "cs1Label"[3..] == "Label" && "cs2Label"[3..] == "Label" && "cn1Label"[3..] == "Label";
  }

  lemma WalkToLabels(p: Pairs)
    requires |p| == 10
    requires !EndsWith(p[0].0, "Label") && !EndsWith(p[1].0, "Label") && !EndsWith(p[2].0, "Label")
    requires !EndsWith(p[4].0, "Label") && !EndsWith(p[6].0, "Label")
    requires p[3] == ("cs1Label", "PolicyName") && p[5] == ("cs2Label", "SourceType")
    requires p[7] == ("cn1Label", "MatchCount")
    ensures FieldLabelled(p, "PolicyName") == Some("cs1")
    ensures FieldLabelled(p, "SourceType") == Some("cs2")
    ensures FieldLabelled(p, "MatchCount") == Some("cn1")
  {
    hide FieldLabelled, EndsWith;
    LabelKeys();
    LabelsDiffer();
    assert "cs1Label"[..3] == "cs1" && "cs2Label"[..3] == "cs2" && "cn1Label"[..3] == "cn1";
    SkipTo(p, 3, "PolicyName");
    LabelAt(p, 3, "PolicyName");
    SkipTo(p, 5, "SourceType");
    LabelAt(p, 5, "SourceType");
    SkipTo(p, 7, "MatchCount");
    LabelAt(p, 7, "MatchCount");
  }

  /** Pairs that do not carry the title are passed over. */
  lemma {:induction false} SkipTo(p: Pairs, n: nat, title: string)
    requires n <= |p| && forall k :: 0 <= k < n ==> !(EndsWith(p[k].0, "Label") && p[k].1 == title)
    ensures FieldLabelled(p, title) == FieldLabelled(p[n..], title)
  {
    hide EndsWith;
    if n == 0 {
      assert p[0..] == p;
    } else {
      SkipTo(p, n - 1, title);
      LabelAt(p, n - 1, title);
    }
  }

  /** The optional pairs. */
  function Optional(i: Incident): Pairs {
    (if i.user != "" then [("suser", i.user)] else [])
    + (if i.fileName != "" then [("fname", i.fileName)] else [])
    + (if i.createdAtMillis.Some? then [("rt", Decimal.Of(i.createdAtMillis.value))] else [])
  }

  lemma OptionalLookups(i: Incident)
    ensures var p := Optional(i);
      && Lookup(p, "suser") == (if i.user != "" then Some(i.user) else None)
      && Lookup(p, "fname") == (if i.fileName != "" then Some(i.fileName) else None)
      && Lookup(p, "rt") == (if i.createdAtMillis.Some? then Some(Decimal.Of(i.createdAtMillis.value)) else None)
  {
    hide Decimal.Of, Lookup;
    var p := Optional(i);
    var f := if i.user != "" then 1 else 0;
    var t := f + if i.fileName != "" then 1 else 0;
    if i.user != "" { LookupIs(p, 0, "suser"); } else { LookupNot(p, "suser"); }
    if i.fileName != "" { LookupIs(p, f, "fname"); } else { LookupNot(p, "fname"); }
    if i.createdAtMillis.Some? { LookupIs(p, t, "rt"); } else { LookupNot(p, "rt"); }
  }

  /** The pairs of an incident rebuild it. */
  lemma PairsRebuild(i: Incident, r: Record)
    requires r.pairs == Extensions(i)
    ensures IncidentOf(r) == Some(i)
  {
    hide FixedPairs, Lookup, FieldLabelled, ReadInt, Decimal.Of;
    var fixed, optional := FixedPairs(i), Optional(i);
    assert r.pairs == fixed + optional by { ExtensionsSplit(i); }
    FixedLookups(i);
    OptionalLookups(i);
    FixedLabels(i);
    forall key ensures Lookup(r.pairs, key) ==
        if Lookup(fixed, key).Some? then Lookup(fixed, key) else Lookup(optional, key)
    {
      LookupConcat(fixed, optional, key);
    }
    LabelConcat(fixed, optional, "PolicyName");
    LabelConcat(fixed, optional, "SourceType");
    LabelConcat(fixed, optional, "MatchCount");
    ReadIntOf(i.matchCount);
    if i.createdAtMillis.Some? {
      ReadIntOf(i.createdAtMillis.value);
    }
  }

  lemma ExtensionsSplit(i: Incident)
    ensures Extensions(i) == FixedPairs(i) + Optional(i)
  {
    hide FixedPairs;
  }

  /** Reading a formatted incident by keys and labels gives back that incident, every field of it,
      whatever characters its texts contain. */
  lemma CefIdentifies(i: Incident)
    ensures ReadCef(FormatCef(i)).Some? && IncidentOf(ReadCef(FormatCef(i)).value) == Some(i)
  {
    hide ReadCef, FormatCef, IncidentOf, Extensions;
    CefRoundTrip(i);
    PairsRebuild(i, RecordOf(i));
  }

  /** The header: product, the signature of the action, the name, and the severity number. */
  lemma CefHeader(i: Incident)
    ensures ReadCef(FormatCef(i)).Some?
    ensures var r := ReadCef(FormatCef(i)).value;
      && |r.header| == 6 && r.header[..4] == ["CEF:0", "AkesoDLP", "DLP", "1.0"]
      && r.name == "DLP " + i.action + ": " + i.policyName
      && ReadInt(r.header[4]) == Some(match i.action
           case "block" => 100
           case "notify" => 200
           case "log" => 300
           case "quarantine" => 400
           case "user_cancel" => 500
           case _ => 999)
      && ReadInt(r.header[5]) == Some(match i.severity
           case "critical" => 10
           case "high" => 8
           case "medium" => 5
           case "low" => 3
           case _ => 1)
  {
    hide ReadCef, FormatCef, Decimal.Of, ReadInt, Extensions;
    CefRoundTrip(i);
    ReadIntOf(SignatureId(i.action));
    ReadIntOf(Severity(i.severity));
  }
}
