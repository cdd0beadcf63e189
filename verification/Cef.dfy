/** The Common Event Format record of an incident, and the reader that takes it apart again. */
module Cef {
  import opened Basics
  import opened Wrappers
  import Decimal

  // ----- escaping --------------------------------------------------------------------------

  /** str.replace of one character by a text. */
  function Replace(s: string, c: char, to: string): string {
    if s == "" then "" else (if s[0] == c then to else [s[0]]) + Replace(s[1..], c, to)
  }

  function Escape(value: string): string {
    Replace(Replace(Replace(Replace(Replace(value, '\\', "\\\\"), '|', "\\|"), '=', "\\="), '\n', "\\n"), '\r', "\\r")
  }

  function EscapeChar(c: char): string {
    if c in "\\|=" then ['\\', c]
    else if c == '\n' then "\\n"
    else if c == '\r' then "\\r"
    else [c]
  }

  /** One pass over the characters. */
  function Mapped(s: string): string {
    if s == "" then "" else EscapeChar(s[0]) + Mapped(s[1..])
  }

  function Unescape(s: string): string {
    if s == "" then ""
    else if s[0] == '\\' && |s| > 1 then
      [if s[1] == 'n' then '\n' else if s[1] == 'r' then '\r' else s[1]] + Unescape(s[2..])
    else [s[0]] + Unescape(s[1..])
  }

  lemma {:induction false} ReplaceConcat(a: string, b: string, c: char, to: string)
    ensures Replace(a + b, c, to) == Replace(a, c, to) + Replace(b, c, to)
  {
    if a == "" {
      assert a + b == b;
    } else {
      assert (a + b)[1..] == a[1..] + b;
      ReplaceConcat(a[1..], b, c, to);
    }
  }

  lemma ReplaceOne(x: char, c: char, to: string)
    ensures Replace([x], c, to) == if x == c then to else [x]
  {
    assert Replace("", c, to) == "";
  }

  lemma ReplaceTwo(x: char, y: char, c: char, to: string)
    ensures Replace([x, y], c, to) == (if x == c then to else [x]) + (if y == c then to else [y])
  {
    ReplaceConcat([x], [y], c, to);
    ReplaceOne(x, c, to);
    ReplaceOne(y, c, to);
    assert [x] + [y] == [x, y];
  }

  lemma EscapeConcat(a: string, b: string)
    ensures Escape(a + b) == Escape(a) + Escape(b)
  {
    ReplaceConcat(a, b, '\\', "\\\\");
    var a1, b1 := Replace(a, '\\', "\\\\"), Replace(b, '\\', "\\\\");
    ReplaceConcat(a1, b1, '|', "\\|");
    var a2, b2 := Replace(a1, '|', "\\|"), Replace(b1, '|', "\\|");
    ReplaceConcat(a2, b2, '=', "\\=");
    var a3, b3 := Replace(a2, '=', "\\="), Replace(b2, '=', "\\=");
    ReplaceConcat(a3, b3, '\n', "\\n");
    ReplaceConcat(Replace(a3, '\n', "\\n"), Replace(b3, '\n', "\\n"), '\r', "\\r");
  }

  lemma EscapeOne(c: char)
    ensures Escape([c]) == EscapeChar(c)
  {
    ReplaceOne(c, '\\', "\\\\");
    if c == '\\' {
      ReplaceTwo('\\', '\\', '|', "\\|");
      ReplaceTwo('\\', '\\', '=', "\\=");
      ReplaceTwo('\\', '\\', '\n', "\\n");
      ReplaceTwo('\\', '\\', '\r', "\\r");
    } else {
      ReplaceOne(c, '|', "\\|");
      ReplaceTwo('\\', '|', '=', "\\=");
      ReplaceTwo('\\', '|', '\n', "\\n");
      ReplaceTwo('\\', '|', '\r', "\\r");
      ReplaceOne(c, '=', "\\=");
      ReplaceTwo('\\', '=', '\n', "\\n");
      ReplaceTwo('\\', '=', '\r', "\\r");
      ReplaceOne(c, '\n', "\\n");
      ReplaceTwo('\\', 'n', '\r', "\\r");
      ReplaceOne(c, '\r', "\\r");
    }
  }

  /** The five sequential replacements are one map over the characters: no replacement touches
      what an earlier one wrote. */
  lemma {:induction false} EscapeIsMapped(s: string)
    ensures Escape(s) == Mapped(s)
  {
    hide Escape;
    if s == "" {
      EscapeEmpty();
    } else {
      EscapeIsMapped(s[1..]);
      EscapeOne(s[0]);
      EscapeConcat([s[0]], s[1..]);
      assert s == [s[0]] + s[1..];
    }
  }

  lemma EscapeEmpty()
    ensures Escape("") == ""
  {
    assert Replace("", '\\', "\\\\") == "";
  }

  lemma {:induction false} UnescapeMapped(s: string)
    ensures Unescape(Mapped(s)) == s
  {
    hide Unescape, EscapeChar;
    if s == "" {
      UnescapeNothing();
    } else {
      UnescapeMapped(s[1..]);
      UnescapeOne(s[0], Mapped(s[1..]));
      assert s == [s[0]] + s[1..];
    }
  }

  lemma UnescapeNothing()
    ensures Unescape("") == ""
  {
  }

  lemma UnescapeOne(c: char, rest: string)
    ensures Unescape(EscapeChar(c) + rest) == [c] + Unescape(rest)
  {
    var t := EscapeChar(c) + rest;
    assert t[|EscapeChar(c)|..] == rest;
  }

  // ----- splitting at unescaped separators -------------------------------------------------

  function Split(s: string, sep: char): (parts: seq<string>)
    ensures parts != []
  {
    if s == "" then [""]
    else if s[0] == '\\' && |s| > 1 then
      var rest := Split(s[2..], sep);
      [s[..2] + rest[0]] + rest[1..]
    else
      var rest := Split(s[1..], sep);
      if s[0] == sep then [""] + rest else [[s[0]] + rest[0]] + rest[1..]
  }

  /** No unescaped separator, and no backslash left to escape what follows. */
  predicate Closed(s: string, sep: char) {
    if s == "" then true
    else if s[0] == '\\' then |s| > 1 && Closed(s[2..], sep)
    else s[0] != sep && Closed(s[1..], sep)
  }

  lemma {:induction false} ClosedConcat(a: string, b: string, sep: char)
    requires Closed(a, sep)
    ensures Closed(a + b, sep) <==> Closed(b, sep)
  {
    if a == "" {
      assert a + b == b;
    } else {
      var n := if a[0] == '\\' then 2 else 1;
      assert (a + b)[n..] == a[n..] + b;
      ClosedConcat(a[n..], b, sep);
    }
  }

  lemma {:induction false} MappedClosed(s: string, sep: char)
    requires sep in "|="
    ensures Closed(Mapped(s), sep)
  {
    if s != "" {
      MappedClosed(s[1..], sep);
      var m := Mapped(s);
      assert m[|EscapeChar(s[0])|..] == Mapped(s[1..]);
    }
  }

  lemma {:induction false} PlainClosed(s: string, sep: char)
    requires '\\' !in s && sep !in s
    ensures Closed(s, sep)
  {
    if s != "" { PlainClosed(s[1..], sep); }
  }

  lemma {:induction false} SplitClosed(a: string, sep: char)
    requires Closed(a, sep)
    ensures Split(a, sep) == [a]
  {
    if a != "" {
      var n := if a[0] == '\\' then 2 else 1;
      SplitClosed(a[n..], sep);
      assert a == a[..n] + a[n..] && a[..1] == [a[0]];
      assert [a[n..]][1..] == [];
    }
  }

  /** A closed text followed by a separator is exactly the first part. */
  lemma {:induction false} SplitAfter(a: string, sep: char, b: string)
    requires Closed(a, sep) && sep != '\\'
    ensures Split(a + [sep] + b, sep) == [a] + Split(b, sep)
  {
    if a == "" {
      assert a + [sep] + b == [sep] + b;
      assert ([sep] + b)[1..] == b;
    } else {
      var n := if a[0] == '\\' then 2 else 1;
      SplitAfter(a[n..], sep, b);
      var t := a + [sep] + b;
      assert t[n..] == a[n..] + [sep] + b && t[..n] == a[..n] && t[..1] == [t[0]];
      assert a == a[..n] + a[n..];
      assert ([a[n..]] + Split(b, sep))[1..] == Split(b, sep);
    }
  }

  // ----- extension: key=value pairs --------------------------------------------------------

  /** Keys are printed as they are. */
  predicate IsKey(k: string) {
    forall i :: 0 <= i < |k| ==> k[i] != '\\' && k[i] != '|' && k[i] != '=' && k[i] != ' '
  }

  function FormatExtension(pairs: seq<(string, string)>): string
    requires pairs != []
  {
    pairs[0].0 + "=" + Escape(pairs[0].1)
      + if |pairs| == 1 then "" else " " + FormatExtension(pairs[1..])
  }

  /** Position of the last space, or -1. */
  function LastSpace(s: string): (i: int)
    ensures -1 <= i < |s|
    ensures i >= 0 ==> s[i] == ' '
    ensures forall k :: i < k < |s| ==> s[k] != ' '
  {
    if s == "" then -1 else if s[|s| - 1] == ' ' then |s| - 1 else LastSpace(s[..|s| - 1])
  }

  /** A part between two unescaped equals signs: the value, and the next key after its last space. */
  function Cut(part: string): (string, string) {
    var i := LastSpace(part);
    if i < 0 then ("", part) else (part[..i], part[i + 1..])
  }

  function ReadPairs(key: string, parts: seq<string>): seq<(string, string)>
    requires parts != []
    decreases |parts|
  {
    if |parts| == 1 then [(key, Unescape(parts[0]))]
    else
      var (value, next) := Cut(parts[0]);
      [(key, Unescape(value))] + ReadPairs(next, parts[1..])
  }

  function ReadExtension(ext: string): Option<seq<(string, string)>> {
    var parts := Split(ext, '=');
    if |parts| < 2 then None else Some(ReadPairs(parts[0], parts[1..]))
  }

  /** The parts after the first key. */
  function ValueParts(pairs: seq<(string, string)>): (parts: seq<string>)
    requires pairs != []
    ensures parts != []
  {
    if |pairs| == 1 then [Escape(pairs[0].1)]
    else [Escape(pairs[0].1) + " " + pairs[1].0] + ValueParts(pairs[1..])
  }

  lemma {:induction false} SplitExtension(pairs: seq<(string, string)>)
    requires pairs != [] && forall p :: p in pairs ==> IsKey(p.0)
    ensures Split(FormatExtension(pairs), '=') == [pairs[0].0] + ValueParts(pairs)
  {
    hide Escape, Split, Closed;
    var (k, v) := pairs[0];
    EscapeIsMapped(v);
    MappedClosed(v, '=');
    PlainClosed(k, '=');
    if |pairs| == 1 {
      assert FormatExtension(pairs) == k + ['='] + Escape(v);
      SplitAfter(k, '=', Escape(v));
      SplitClosed(Escape(v), '=');
    } else {
      SplitExtension(pairs[1..]);
      var rest := FormatExtension(pairs[1..]);
      var front := Escape(v) + " ";
      assert FormatExtension(pairs) == k + ['='] + (front + rest);
      SplitAfter(k, '=', front + rest);
      PlainClosed(" ", '=');
      ClosedConcat(Escape(v), " ", '=');
      SplitWithPrefix(front, rest, '=');
      assert front + pairs[1].0 == Escape(v) + " " + pairs[1].0;
    }
  }

  /** A closed prefix joins the first part. */
  lemma {:induction false} SplitWithPrefix(a: string, b: string, sep: char)
    requires Closed(a, sep)
    ensures Split(a + b, sep) == [a + Split(b, sep)[0]] + Split(b, sep)[1..]
  {
    var parts := Split(b, sep);
    if a == "" {
      assert a + b == b && a + parts[0] == parts[0];
    } else {
      var n := if a[0] == '\\' then 2 else 1;
      var t := a + b;
      assert t[n..] == a[n..] + b && t[..n] == a[..n] && t[..1] == [t[0]];
      SplitWithPrefix(a[n..], b, sep);
      assert a[..n] + (a[n..] + parts[0]) == a + parts[0];
      assert ([a[n..] + parts[0]] + parts[1..])[1..] == parts[1..];
    }
  }

  lemma {:induction false} ReadValueParts(pairs: seq<(string, string)>)
    requires pairs != [] && forall p :: p in pairs ==> IsKey(p.0)
    ensures ReadPairs(pairs[0].0, ValueParts(pairs)) == pairs
  {
    hide Escape, Unescape, Cut;
    var (k, v) := pairs[0];
    EscapeIsMapped(v);
    UnescapeMapped(v);
    if |pairs| > 1 {
      ReadValueParts(pairs[1..]);
      var next := pairs[1].0;
      assert pairs[1] in pairs;
      CutLast(Escape(v), next);
    }
  }

  lemma CutLast(value: string, next: string)
    requires IsKey(next)
    ensures Cut(value + " " + next) == (value, next)
  {
    var part := value + " " + next;
    assert part[|value|] == ' ';
    assert forall i :: |value| < i < |part| ==> part[i] == next[i - |value| - 1];
    assert part[..|value|] == value && part[|value| + 1..] == next;
  }

  /** Reading an extension recovers the exact pairs, in order, with values that contain spaces,
      separators, line breaks or nothing at all. */
  lemma ExtensionRoundTrip(pairs: seq<(string, string)>)
    requires pairs != [] && forall p :: p in pairs ==> IsKey(p.0)
    ensures ReadExtension(FormatExtension(pairs)) == Some(pairs)
  {
    SplitExtension(pairs);
    ReadValueParts(pairs);
    assert ([pairs[0].0] + ValueParts(pairs))[1..] == ValueParts(pairs);
  }

  lemma {:induction false} ExtensionClosed(pairs: seq<(string, string)>)
    requires pairs != [] && forall p :: p in pairs ==> IsKey(p.0)
    ensures Closed(FormatExtension(pairs), '|')
  {
    hide Escape, Closed;
    var (k, v) := pairs[0];
    EscapeIsMapped(v);
    MappedClosed(v, '|');
    PlainClosed(k + "=", '|');
    ClosedConcat(k + "=", Escape(v), '|');
    if |pairs| == 1 {
      assert FormatExtension(pairs) == k + "=" + Escape(v);
    } else {
      ExtensionClosed(pairs[1..]);
      PlainClosed(" ", '|');
      ClosedConcat(" ", FormatExtension(pairs[1..]), '|');
      ClosedConcat(k + "=" + Escape(v), " " + FormatExtension(pairs[1..]), '|');
    }
  }

  // ----- records ---------------------------------------------------------------------------

  datatype Incident = Incident(
    action: string, severity: string, policyName: string, channel: string, sourceType: string,
    matchCount: int, status: string, user: string, fileName: string, createdAtMillis: Option<int>)

  function Severity(severity: string): nat {
    match severity
    case "critical" => 10
    case "high" => 8
    case "medium" => 5
    case "low" => 3
    case _ => 1
  }

  function SignatureId(action: string): nat {
    match action
    case "block" => 100
    case "notify" => 200
    case "log" => 300
    case "quarantine" => 400
    case "user_cancel" => 500
    case _ => 999
  }

  function FixedPairs(i: Incident): seq<(string, string)> {
    [("act", i.action), ("cat", i.channel), ("cs1", i.policyName), ("cs1Label", "PolicyName"),
     ("cs2", i.sourceType), ("cs2Label", "SourceType"), ("cn1", Decimal.Of(i.matchCount)),
     ("cn1Label", "MatchCount"), ("sev", i.severity), ("outcome", i.status)]
  }

  function Extensions(i: Incident): seq<(string, string)> {
    FixedPairs(i)
    + (if i.user != "" then [("suser", i.user)] else [])
    + (if i.fileName != "" then [("fname", i.fileName)] else [])
    + (if i.createdAtMillis.Some? then [("rt", Decimal.Of(i.createdAtMillis.value))] else [])
  }

  function Name(i: Incident): string { "DLP " + i.action + ": " + i.policyName }

  /** The eight fields, the name and the extension already escaped. */
  function Fields(i: Incident): seq<string> {
    ["CEF:0", "AkesoDLP", "DLP", "1.0", Decimal.Of(SignatureId(i.action)), Escape(Name(i)),
     Decimal.Of(Severity(i.severity)), FormatExtension(Extensions(i))]
  }

  function Join(fields: seq<string>, sep: char): string
    requires fields != []
  {
    if |fields| == 1 then fields[0] else fields[0] + [sep] + Join(fields[1..], sep)
  }

  function FormatCef(i: Incident): string { Join(Fields(i), '|') }

  lemma {:induction false} SplitJoin(fields: seq<string>, sep: char)
    requires fields != [] && sep != '\\' && forall f :: f in fields ==> Closed(f, sep)
    ensures Split(Join(fields, sep), sep) == fields
  {
    if |fields| == 1 {
      SplitClosed(fields[0], sep);
    } else {
      SplitJoin(fields[1..], sep);
      SplitAfter(fields[0], sep, Join(fields[1..], sep));
    }
  }

  lemma DecimalClosed(n: nat)
    ensures Closed(Decimal.Of(n), '|')
  {
    var s := Decimal.OfNat(n);
    forall i | 0 <= i < |s| ensures s[i] != '\\' && s[i] != '|' {
      assert IsDigit(s[i]);
    }
    PlainClosed(s, '|');
  }

  /** What a reader of a record gets: the six plain header fields, the name and the pairs. */
  datatype Record = Record(header: seq<string>, name: string, pairs: seq<(string, string)>)

  function ReadCef(text: string): Option<Record> {
    var f := Split(text, '|');
    if |f| != 8 then None
    else
      match ReadExtension(f[7])
      case None => None
      case Some(pairs) => Some(Record(f[..5] + [f[6]], Unescape(f[5]), pairs))
  }

  /** The record of an incident, before any escaping. */
  function RecordOf(i: Incident): Record {
    Record(["CEF:0", "AkesoDLP", "DLP", "1.0", Decimal.Of(SignatureId(i.action)),
            Decimal.Of(Severity(i.severity))], Name(i), Extensions(i))
  }

  lemma FieldsClosed(i: Incident)
    ensures forall f :: f in Fields(i) ==> Closed(f, '|')
  {
    hide Escape, Closed, FormatExtension, Extensions, SignatureId, Severity, Name, Decimal.Of;
    EscapeIsMapped(Name(i));
    MappedClosed(Name(i), '|');
    ExtensionsAreKeys(i);
    ExtensionClosed(Extensions(i));
    DecimalClosed(SignatureId(i.action));
    DecimalClosed(Severity(i.severity));
    PlainClosed("CEF:0", '|');
    PlainClosed("AkesoDLP", '|');
    PlainClosed("DLP", '|');
    PlainClosed("1.0", '|');
  }

  lemma FixedKeys()
    ensures IsKey("act") && IsKey("cat") && IsKey("cs1") && IsKey("cs1Label")
    ensures IsKey("cs2") && IsKey("cs2Label") && IsKey("cn1") && IsKey("cn1Label")
    ensures IsKey("sev") && IsKey("outcome")
  {
  }

  lemma OptionalKeys()
    ensures IsKey("suser") && IsKey("fname") && IsKey("rt")
  {
  }

  lemma ExtensionsAreKeys(i: Incident)
    ensures Extensions(i) != [] && forall p :: p in Extensions(i) ==> IsKey(p.0)
  {
    hide IsKey, Decimal.Of;
    FixedKeys();
    OptionalKeys();
    forall p | p in FixedPairs(i) ensures IsKey(p.0) { }
  }

  /** A record splits into exactly its eight fields, and reading it gives back every value of the
      incident, whatever characters the values contain. */
  lemma CefRoundTrip(i: Incident)
    ensures Split(FormatCef(i), '|') == Fields(i) && |Fields(i)| == 8
    ensures ReadCef(FormatCef(i)) == Some(RecordOf(i))
  {
    hide Split, Closed, Escape, Unescape, Join, FormatExtension, ReadExtension, Extensions,
      SignatureId, Severity, Name, Decimal.Of;
    FieldsClosed(i);
    SplitJoin(Fields(i), '|');
    EscapeIsMapped(Name(i));
    UnescapeMapped(Name(i));
    ExtensionsAreKeys(i);
    ExtensionRoundTrip(Extensions(i));
    var f := Fields(i);
    assert f[..5] + [f[6]] == RecordOf(i).header;
  }
}
