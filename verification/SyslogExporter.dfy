/** Sending incidents over a TCP or TLS connection: priority, octet-counted framing
    (section 4.3.1 of RFC 5425), and connections that may fail at any byte. */
module SyslogExporter {
  import opened Basics
  import opened Wrappers
  import opened Utf8
  import opened Cef
  import opened CefReader
  import Decimal

  // ----- one message -----------------------------------------------------------------------

  function SyslogSeverity(severity: string): (s: nat)
    ensures s <= 7
  {
    Max(0, Min(7, 7 - Severity(severity)))
  }

  /** The syslog severities of the CEF scale: two of its steps share the most urgent one, and unknown
      severities rank with info. */
  function UrgencyOf(severity: string): nat {
    match severity
    case "critical" => 0
    case "high" => 0
    case "medium" => 2
    case "low" => 4
    case _ => 6
  }

  lemma SeverityTable(severity: string)
    ensures SyslogSeverity(severity) == UrgencyOf(severity)
  {
  }

  function Message(facility: nat, i: Incident): string {
    "<" + Decimal.OfNat(facility * 8 + SyslogSeverity(i.severity)) + ">" + FormatCef(i)
  }

  function Rank(severity: string): int {
    match severity
    case "info" => 0
    case "low" => 1
    case "medium" => 2
    case "high" => 3
    case "critical" => 4
    case _ => -1
  }

  /** A severity outside the scale, on either side, is never filtered out. */
  predicate PassesFilter(severity: string, minimum: string) {
    Rank(severity) < 0 || Rank(minimum) < 0 || Rank(severity) >= Rank(minimum)
  }

  const SCALE: seq<string> := ["info", "low", "medium", "high", "critical"]

  /** On the scale, an incident is dropped exactly when its severity stands before the minimum. */
  lemma DroppedIffBelow(i: nat, j: nat)
    requires i < 5 && j < 5
    ensures PassesFilter(SCALE[i], SCALE[j]) <==> j <= i
  {
    RankOnScale(i);
    RankOnScale(j);
  }

  lemma RankOnScale(i: nat)
    requires i < 5
    ensures Rank(SCALE[i]) == i
  {
  }

  /** Off the scale, on either side, nothing is dropped. */
  lemma NeverDropped(severity: string, minimum: string)
    requires severity !in SCALE || minimum !in SCALE
    ensures PassesFilter(severity, minimum)
  {
    if severity !in SCALE { OffScale(severity); } else { OffScale(minimum); }
  }

  lemma OffScale(severity: string)
    requires severity !in SCALE
    ensures Rank(severity) < 0
  {
    assert SCALE[0] == "info" && SCALE[1] == "low" && SCALE[2] == "medium" && SCALE[3] == "high"
        && SCALE[4] == "critical";
  }

  function DigitRun(s: string): (n: nat)
    ensures n <= |s|
    ensures forall k :: 0 <= k < n ==> IsDigit(s[k])
    ensures n < |s| ==> !IsDigit(s[n])
  {
    if s == "" || !IsDigit(s[0]) then 0 else 1 + DigitRun(s[1..])
  }

  /** What a reader gets from a message: facility, urgency and the incident. */
  function ReadMessage(text: string): Option<(nat, nat, Incident)> {
    if text == "" || text[0] != '<' then None
    else
      var n := DigitRun(text[1..]);
      if n == 0 || n + 1 >= |text| || text[n + 1] != '>' then None
      else
        var priority := Decimal.Value(text[1..][..n]);
        match ReadCef(text[n + 2..])
        case None => None
        case Some(record) =>
          match IncidentOf(record)
          case None => None
          case Some(incident) => Some((priority / 8, priority % 8, incident))
  }

  lemma DigitRunStops(digits: string, rest: string)
    requires forall k :: 0 <= k < |digits| ==> IsDigit(digits[k])
    requires rest != "" && !IsDigit(rest[0])
    ensures DigitRun(digits + rest) == |digits|
  {
    assert (digits + rest)[|digits|] == rest[0];
    assert forall k :: 0 <= k < |digits| ==> (digits + rest)[k] == digits[k];
  }

  /** A message gives back the facility, the urgency of the severity and the incident itself. */
  lemma MessageRoundTrip(facility: nat, i: Incident)
    ensures ReadMessage(Message(facility, i)) == Some((facility, UrgencyOf(i.severity), i))
  {
    hide ReadCef, IncidentOf, FormatCef, SyslogSeverity, UrgencyOf, DigitRun, Decimal.OfNat, Decimal.Value;
    SeverityTable(i.severity);
    var p := facility * 8 + SyslogSeverity(i.severity);
    var digits := Decimal.OfNat(p);
    var text := Message(facility, i);
    Decimal.ValueOfNat(p);
    var rest := ">" + FormatCef(i);
    assert text[1..] == digits + rest;
    DigitRunStops(digits, rest);
    assert text[|digits| + 1] == '>' && text[1..][..|digits|] == digits;
    assert text[|digits| + 2..] == FormatCef(i);
    CefIdentifies(i);
  }

  // ----- octet-counted frames --------------------------------------------------------------

  function Header(n: nat): seq<Byte> { Encode(Decimal.OfNat(n) + " ") }

  function Frame(m: seq<Byte>): seq<Byte> { Header(|m|) + m }

  function Chars(b: seq<Byte>): (s: string)
    ensures |s| == |b| && forall k :: 0 <= k < |b| ==> s[k] as int == b[k]
  {
    seq(|b|, k requires 0 <= k < |b| => b[k] as char)
  }

  /** The length a stream announces and where its message starts: a nonzero digit, more digits
      and a space. */
  function ReadHeader(b: seq<Byte>): (r: Option<(nat, nat)>)
    ensures r.Some? ==> 2 <= r.value.1 <= |b|
  {
    var s := Chars(b);
    var n := DigitRun(s);
    if n == 0 || s[0] == '0' || n == |b| || s[n] != ' ' then None
    else Some((Decimal.Value(s[..n]), n + 1))
  }

  /** The complete messages of a stream, and the bytes after them. */
  function ReadFrames(b: seq<Byte>): (seq<seq<Byte>>, seq<Byte>)
    decreases |b|
  {
    match ReadHeader(b)
    case None => ([], b)
    case Some((length, start)) =>
      if |b| - start < length then ([], b)
      else
        var (rest, left) := ReadFrames(b[start + length..]);
        ([b[start..start + length]] + rest, left)
  }

  lemma {:induction false} EncodeAscii(s: string)
    requires forall k :: 0 <= k < |s| ==> s[k] as int < 0x80
    ensures |Encode(s)| == |s| && forall k :: 0 <= k < |s| ==> Encode(s)[k] == s[k] as int
  {
    if s != "" {
      EncodeAscii(s[1..]);
      assert forall k :: 0 < k < |s| ==> Encode(s)[k] == Encode(s[1..])[k - 1];
    }
  }

  lemma {:induction false} LeadingDigit(n: nat)
    requires n > 0
    ensures Decimal.OfNat(n)[0] != '0'
  {
    if n >= 10 { LeadingDigit(n / 10); }
  }

  /** A header is read back whatever follows it. */
  lemma HeaderRoundTrip(n: nat, rest: seq<Byte>)
    requires n > 0
    ensures ReadHeader(Header(n) + rest) == Some((n, |Header(n)|))
  {
    hide Encode, Decimal.OfNat, Decimal.Value;
    var digits := Decimal.OfNat(n);
    HeaderBytes(n);
    LeadingDigit(n);
    Decimal.ValueOfNat(n);
    var s := Chars(Header(n) + rest);
    assert forall k :: 0 <= k < |digits| ==> s[k] == digits[k];
    assert s[|digits|] == ' ';
    assert DigitRun(s) == |digits|;
    assert s[..|digits|] == digits;
  }

  lemma HeaderBytes(n: nat)
    ensures var d := Decimal.OfNat(n);
      |Header(n)| == |d| + 1 && Header(n)[|d|] == 0x20 && forall k :: 0 <= k < |d| ==> Header(n)[k] == d[k] as int
  {
    hide Decimal.OfNat;
    var d := Decimal.OfNat(n);
    forall k | 0 <= k < |d| ensures d[k] as int < 0x80 {
      assert IsDigit(d[k]);
    }
    EncodeAscii(d + " ");
  }

  lemma FrameFirst(m: seq<Byte>, rest: seq<Byte>)
    requires m != []
    ensures ReadFrames(Frame(m) + rest) == ([m] + ReadFrames(rest).0, ReadFrames(rest).1)
  {
    hide Header, ReadHeader;
    var b := Frame(m) + rest;
    HeaderRoundTrip(|m|, m + rest);
    assert b == Header(|m|) + (m + rest);
    assert b[|Header(|m|)|..|Header(|m|)| + |m|] == m;
    assert b[|Header(|m|)| + |m|..] == rest;
  }

  function Frames(messages: seq<seq<Byte>>): seq<Byte> {
    if messages == [] then [] else Frame(messages[0]) + Frames(messages[1..])
  }

  /** A concatenation of frames reads as exactly the messages framed, with nothing left over. */
  lemma {:induction false} FramesRoundTrip(messages: seq<seq<Byte>>)
    requires forall i :: 0 <= i < |messages| ==> messages[i] != []
    ensures ReadFrames(Frames(messages)) == (messages, [])
  {
    hide Frame, ReadFrames;
    if messages == [] {
      EmptyStream();
    } else {
      FramesRoundTrip(messages[1..]);
      FrameFirst(messages[0], Frames(messages[1..]));
      assert messages == [messages[0]] + messages[1..];
    }
  }

  /** A frame cut short carries no message. */
  lemma CutFrame(m: seq<Byte>, n: nat)
    requires m != [] && n < |Frame(m)|
    ensures ReadFrames(Frame(m)[..n]).0 == []
  {
    hide Header, ReadHeader;
    var b := Frame(m)[..n];
    var h := Header(|m|);
    if n >= |h| {
      assert b == h + b[|h|..];
      HeaderRoundTrip(|m|, b[|h|..]);
    } else {
      CutHeader(|m|, n);
      assert b == h[..n];
    }
  }

  lemma CutHeader(m: nat, n: nat)
    requires n < |Header(m)|
    ensures ReadHeader(Header(m)[..n]) == None
  {
    hide Header, Decimal.OfNat;
    HeaderBytes(m);
    var s := Chars(Header(m)[..n]);
    forall k | 0 <= k < n ensures IsDigit(s[k]) {
      assert IsDigit(Decimal.OfNat(m)[k]);
    }
  }

  /** A proper beginning of some frame. */
  ghost predicate Fragment(b: seq<Byte>) {
    exists m: seq<Byte> :: m != [] && b < Frame(m)
  }

  /** Any beginning of a stream of frames, with or without a piece of one more, reads as a beginning
      of their messages, and as all of them exactly when no byte of their frames is missing. */
  lemma {:induction false} BeginningReads(messages: seq<seq<Byte>>, cut: seq<Byte>, n: nat)
    requires forall i :: 0 <= i < |messages| ==> messages[i] != []
    requires Fragment(cut) && n <= |Frames(messages) + cut|
    ensures var read := ReadFrames((Frames(messages) + cut)[..n]).0;
      read <= messages && (read == messages <==> |Frames(messages)| <= n)
  {
    hide Frame, ReadFrames;
    if messages == [] {
      var m: seq<Byte> :| m != [] && cut < Frame(m);
      CutFrame(m, n);
      assert (Frames(messages) + cut)[..n] == Frame(m)[..n];
    } else {
      var first, tail := Frame(messages[0]), Frames(messages[1..]) + cut;
      assert Frames(messages) + cut == first + tail;
      if n < |first| {
        CutFrame(messages[0], n);
        assert (first + tail)[..n] == first[..n];
      } else {
        BeginningReads(messages[1..], cut, n - |first|);
        FrameFirst(messages[0], tail[..n - |first|]);
        assert (first + tail)[..n] == first + tail[..n - |first|];
        assert messages == [messages[0]] + messages[1..];
      }
    }
  }

  lemma EmptyHeader()
    ensures ReadHeader([]) == None
  {
  }

  lemma EmptyStream()
    ensures ReadFrames([]) == ([], [])
  {
    EmptyHeader();
  }

  // ----- connections -----------------------------------------------------------------------

  datatype Config = Config(facility: nat, minSeverity: string)

  function Bytes(c: Config, i: Incident): seq<Byte> { Encode(Message(c.facility, i)) }

  /** The bytes the local stack accepted on a connection, and the incidents reported as sent on it. */
  datatype Connection = Connection(stream: seq<Byte>, reported: seq<Incident>)

  /** Every connection made so far; the last one is in use while open. */
  datatype Link = Link(open: bool, connections: seq<Connection>)

  /** What one send meets: whether a needed connection is made, and how many bytes of the frame the
      local stack accepts; fewer than all of them raise an error. */
  datatype Attempt = Attempt(connects: bool, accepted: nat)

  predicate Usable(l: Link) { l.open ==> l.connections != [] }

  function Extend(connections: seq<Connection>, data: seq<Byte>, reported: seq<Incident>)
    : (r: seq<Connection>)
    requires connections != []
    ensures |r| == |connections|
  {
    var last := |connections| - 1;
    var s := connections[last];
    connections[last := Connection(s.stream + data, s.reported + reported)]
  }

  function Sent(c: Config, l: Link, i: Incident, a: Attempt): (r: (Link, bool))
    requires Usable(l)
    ensures Usable(r.0)
  {
    if !PassesFilter(i.severity, c.minSeverity) then (l, true)
    else if !l.open && !a.connects then (l, false)
    else
      var data := Frame(Bytes(c, i));
      var connections := if l.open then l.connections else l.connections + [Connection([], [])];
      if a.accepted >= |data| then (Link(true, Extend(connections, data, [i])), true)
      else (Link(false, Extend(connections, data[..a.accepted], [])), false)
  }

  function Messages(c: Config, incidents: seq<Incident>): (r: seq<seq<Byte>>)
    ensures |r| == |incidents|
    ensures forall k :: 0 <= k < |r| ==> r[k] == Bytes(c, incidents[k])
  {
    if incidents == [] then [] else [Bytes(c, incidents[0])] + Messages(c, incidents[1..])
  }

  function ReportedFrames(c: Config, s: Connection): seq<Byte> { Frames(Messages(c, s.reported)) }

  /** A connection carries the frames reported on it, and at most a piece of one more. */
  ghost predicate Carries(c: Config, s: Connection) {
    exists cut :: Fragment(cut) && s.stream == ReportedFrames(c, s) + cut
  }

  ghost predicate ValidLink(c: Config, l: Link) {
    && Usable(l)
    && (forall k :: 0 <= k < |l.connections| ==> Carries(c, l.connections[k]))
    && (l.open ==> var s := l.connections[|l.connections| - 1]; s.stream == ReportedFrames(c, s))
  }

  function ReportedOn(connections: seq<Connection>): seq<Incident> {
    if connections == [] then []
    else ReportedOn(connections[..|connections| - 1]) + connections[|connections| - 1].reported
  }

  lemma {:induction false} FramesAppend(messages: seq<seq<Byte>>, m: seq<Byte>)
    ensures Frames(messages + [m]) == Frames(messages) + Frame(m)
  {
    hide Frame;
    if messages == [] {
      assert messages + [m] == [m] && [m][1..] == [];
      assert Frame(m) + [] == Frame(m);
    } else {
      assert (messages + [m])[1..] == messages[1..] + [m];
      FramesAppend(messages[1..], m);
    }
  }

  lemma BytesNonempty(c: Config, i: Incident)
    ensures Bytes(c, i) != []
  {
    hide Encode;
    assert |Message(c.facility, i)| > 0;
    EncodeNonempty(Message(c.facility, i));
  }

  lemma EncodeNonempty(s: string)
    requires s != ""
    ensures Encode(s) != []
  {
  }

  lemma ExtendCarries(c: Config, s: Connection, i: Incident, n: nat)
    requires s.stream == ReportedFrames(c, s)
    ensures var t := Connection(s.stream + Frame(Bytes(c, i)), s.reported + [i]);
      t.stream == ReportedFrames(c, t) && Carries(c, t)
    ensures n < |Frame(Bytes(c, i))| ==> Carries(c, Connection(s.stream + Frame(Bytes(c, i))[..n], s.reported))
  {
    hide Frame, Frames, Bytes;
    BytesNonempty(c, i);
    FramesAppend(Messages(c, s.reported), Bytes(c, i));
    assert Messages(c, s.reported + [i]) == Messages(c, s.reported) + [Bytes(c, i)];
    FrameNonempty(Bytes(c, i));
    var t := Connection(s.stream + Frame(Bytes(c, i)), s.reported + [i]);
    assert Fragment([]) && t.stream == ReportedFrames(c, t) + [];
    if n < |Frame(Bytes(c, i))| {
      assert Frame(Bytes(c, i))[..n] < Frame(Bytes(c, i));
      assert Fragment(Frame(Bytes(c, i))[..n]);
    }
  }

  lemma FrameNonempty(m: seq<Byte>)
    requires m != []
    ensures Frame(m) != [] && Fragment([])
  {
    assert [] < Frame(m);
  }

  /** One send: a frame is added to what a connection reports exactly when the send reports success,
      and a failed send leaves at most a piece of a frame behind. */
  lemma SentKeepsLink(c: Config, l: Link, i: Incident, a: Attempt)
    requires ValidLink(c, l)
    ensures var (l', ok) := Sent(c, l, i, a);
      && ValidLink(c, l')
      && ReportedOn(l'.connections) == ReportedOn(l.connections)
           + if ok && PassesFilter(i.severity, c.minSeverity) then [i] else []
  {
    hide Frame, Frames, Bytes, Carries, PassesFilter, ReportedFrames;
    if PassesFilter(i.severity, c.minSeverity) && (l.open || a.connects) {
      var connections := if l.open then l.connections else l.connections + [Connection([], [])];
      var last := |connections| - 1;
      if !l.open {
        EmptyConnection(c);
        assert connections[..last] == l.connections;
      }
      ExtendCarries(c, connections[last], i, a.accepted);
      var s := connections[last];
      assert s.reported + [] == s.reported;
      var l' := Sent(c, l, i, a).0;
      assert Carries(c, l'.connections[last]);
      assert l'.connections[..last] == connections[..last];
      assert forall k :: 0 <= k < last ==> l'.connections[k] == l'.connections[..last][k];
    }
  }

  lemma EmptyConnection(c: Config)
    ensures ReportedFrames(c, Connection([], [])) == []
  {
  }

  /** When a send reports success, and what it does to the connections: a filtered incident succeeds
      without touching the network; an open connection is used again; a new one is made only when
      there is none; and whatever fails leaves no connection open. */
  lemma SentOutcome(c: Config, l: Link, i: Incident, a: Attempt)
    requires Usable(l)
    ensures var (l', ok) := Sent(c, l, i, a);
      var filtered := !PassesFilter(i.severity, c.minSeverity);
      var connected := l.open || a.connects;
      && (ok <==> filtered || (connected && a.accepted >= |Frame(Bytes(c, i))|))
      && (filtered ==> l' == l)
      && (!filtered ==> (l'.open <==> ok))
      && |l'.connections| == |l.connections| + if filtered || l.open || !a.connects then 0 else 1
  {
    hide PassesFilter, Frame, Bytes;
  }

  // ----- sending ---------------------------------------------------------------------------

  /** Sending a list, one attempt for each incident. */
  function SentAll(c: Config, l: Link, incidents: seq<Incident>, attempts: seq<Attempt>)
    : (r: (Link, seq<bool>))
    requires Usable(l) && |attempts| == |incidents|
    ensures Usable(r.0) && |r.1| == |incidents|
    decreases |incidents|
  {
    if incidents == [] then (l, [])
    else
      var (l1, ok) := Sent(c, l, incidents[0], attempts[0]);
      var (l2, rest) := SentAll(c, l1, incidents[1..], attempts[1..]);
      (l2, [ok] + rest)
  }

  /** The incidents reported as sent that the severity filter lets through. */
  function Reported(c: Config, incidents: seq<Incident>, oks: seq<bool>): seq<Incident>
    requires |oks| == |incidents|
  {
    if incidents == [] then []
    else (if oks[0] && PassesFilter(incidents[0].severity, c.minSeverity) then [incidents[0]] else [])
         + Reported(c, incidents[1..], oks[1..])
  }

  /** Over a run, the connections carry exactly the incidents reported as sent, in order. */
  lemma {:induction false} RunReports(c: Config, l: Link, incidents: seq<Incident>, attempts: seq<Attempt>)
    requires ValidLink(c, l) && |attempts| == |incidents|
    ensures var (l', oks) := SentAll(c, l, incidents, attempts);
      && ValidLink(c, l')
      && ReportedOn(l'.connections) == ReportedOn(l.connections) + Reported(c, incidents, oks)
    decreases |incidents|
  {
    hide Sent, ReportedOn, PassesFilter, Carries, ReportedFrames;
    if incidents != [] {
      SentKeepsLink(c, l, incidents[0], attempts[0]);
      var l1 := Sent(c, l, incidents[0], attempts[0]).0;
      RunReports(c, l1, incidents[1..], attempts[1..]);
      var oks := SentAll(c, l, incidents, attempts).1;
      assert oks[1..] == SentAll(c, l1, incidents[1..], attempts[1..]).1;
    }
  }

  // ----- receiving -------------------------------------------------------------------------

  /** What a receiver makes of the messages it reads. */
  function Understood(messages: seq<seq<Byte>>): (r: seq<Option<(nat, nat, Incident)>>)
    ensures |r| == |messages|
  {
    if messages == [] then []
    else
      (match DecodeStrict(messages[0])
       case None => [None]
       case Some(text) => [ReadMessage(text)])
      + Understood(messages[1..])
  }

  function Expected(c: Config, incidents: seq<Incident>): (r: seq<Option<(nat, nat, Incident)>>)
    ensures |r| == |incidents|
    ensures forall k :: 0 <= k < |r| ==>
      r[k] == Some((c.facility, UrgencyOf(incidents[k].severity), incidents[k]))
  {
    if incidents == [] then []
    else [Some((c.facility, UrgencyOf(incidents[0].severity), incidents[0]))]
         + Expected(c, incidents[1..])
  }

  lemma ExpectedConcat(c: Config, a: seq<Incident>, b: seq<Incident>)
    ensures Expected(c, a + b) == Expected(c, a) + Expected(c, b)
  {
    hide Expected, UrgencyOf;
  }

  /** The messages of incidents are understood as those incidents. */
  lemma {:induction false} UnderstoodMessages(c: Config, incidents: seq<Incident>)
    ensures Understood(Messages(c, incidents)) == Expected(c, incidents)
  {
    hide ReadMessage, DecodeStrict, Encode, Message, UrgencyOf;
    if incidents != [] {
      var i := incidents[0];
      UnderstoodMessages(c, incidents[1..]);
      DecodeEncode(Message(c.facility, i));
      MessageRoundTrip(c.facility, i);
      assert Messages(c, incidents)[1..] == Messages(c, incidents[1..]);
    }
  }

  /** One connection, of which the receiver got the first n bytes. */
  lemma ConnectionUnderstood(c: Config, s: Connection, n: nat)
    requires Carries(c, s) && n <= |s.stream|
    ensures var u := Understood(ReadFrames(s.stream[..n]).0);
      u <= Expected(c, s.reported) && (u == Expected(c, s.reported) <==> |ReportedFrames(c, s)| <= n)
  {
    hide ReadFrames, Fragment, Frames, Understood, Bytes, UrgencyOf;
    var messages := Messages(c, s.reported);
    var cut :| Fragment(cut) && s.stream == ReportedFrames(c, s) + cut;
    forall k | 0 <= k < |messages| ensures messages[k] != [] {
      BytesNonempty(c, s.reported[k]);
    }
    BeginningReads(messages, cut, n);
    var read := ReadFrames(s.stream[..n]).0;
    var part := s.reported[..|read|];
    assert read == Messages(c, part);
    UnderstoodMessages(c, part);
    assert Expected(c, part) == Expected(c, s.reported)[..|read|];
  }

  /** What reached the receiver: some beginning of what was accepted on each connection. */
  predicate Arrived(connections: seq<Connection>, got: seq<seq<Byte>>) {
    |got| == |connections| && forall k :: 0 <= k < |got| ==> got[k] <= connections[k].stream
  }

  /** No byte of a reported frame was lost. */
  predicate Intact(c: Config, connections: seq<Connection>, got: seq<seq<Byte>>)
    requires |got| == |connections|
  {
    forall k :: 0 <= k < |got| ==> |ReportedFrames(c, connections[k])| <= |got[k]|
  }

  function UnderstoodOn(got: seq<seq<Byte>>): seq<Option<(nat, nat, Incident)>> {
    if got == [] then []
    else UnderstoodOn(got[..|got| - 1]) + Understood(ReadFrames(got[|got| - 1]).0)
  }

  lemma {:induction false} AllUnderstoodIff(c: Config, connections: seq<Connection>, got: seq<seq<Byte>>)
    requires Arrived(connections, got)
    requires forall k :: 0 <= k < |connections| ==> Carries(c, connections[k])
    ensures |UnderstoodOn(got)| <= |ReportedOn(connections)|
    ensures UnderstoodOn(got) == Expected(c, ReportedOn(connections)) <==> Intact(c, connections, got)
    decreases |got|
  {
    hide ReadFrames, Carries, ReportedFrames, Understood, Expected, Intact;
    if got == [] {
      IntactEmpty(c, connections, got);
      assert |Expected(c, ReportedOn(connections))| == 0;
    } else {
      var last := |got| - 1;
      var s, g := connections[last], got[last];
      AllUnderstoodIff(c, connections[..last], got[..last]);
      assert g == s.stream[..|g|];
      ConnectionUnderstood(c, s, |g|);
      var before, now := UnderstoodOn(got[..last]), Understood(ReadFrames(g).0);
      var wanted, here := ReportedOn(connections[..last]), s.reported;
      ExpectedConcat(c, wanted, here);
      IntactLast(c, connections, got);
      SplitEqual(before, now, Expected(c, wanted), Expected(c, here));
    }
  }

  lemma IntactEmpty(c: Config, connections: seq<Connection>, got: seq<seq<Byte>>)
    requires |got| == |connections| == 0
    ensures Intact(c, connections, got)
  {
  }

  lemma IntactLast(c: Config, connections: seq<Connection>, got: seq<seq<Byte>>)
    requires |got| == |connections| > 0
    ensures var last := |got| - 1;
      Intact(c, connections, got) <==>
      Intact(c, connections[..last], got[..last]) && |ReportedFrames(c, connections[last])| <= |got[last]|
  {
    hide ReportedFrames;
    var last := |got| - 1;
    if Intact(c, connections[..last], got[..last]) && |ReportedFrames(c, connections[last])| <= |got[last]| {
      forall k | 0 <= k < |got| ensures |ReportedFrames(c, connections[k])| <= |got[k]| {
        if k < last {
          assert |ReportedFrames(c, connections[..last][k])| <= |got[..last][k]|;
        }
      }
    }
  }

  lemma SplitEqual<T>(a: seq<T>, b: seq<T>, c: seq<T>, d: seq<T>)
    requires |a| <= |c| && |b| <= |d|
    ensures a + b == c + d <==> a == c && b == d
  {
    if a + b == c + d {
      assert |a + b| == |c + d|;
      assert a == (a + b)[..|a|] && c == (c + d)[..|c|];
      assert b == (a + b)[|a|..] && d == (c + d)[|c|..];
    }
  }

  /** End to end: whichever connections fail at whatever byte, and however much of what was accepted
      is lost afterwards, each connection is understood as a beginning of the incidents reported as
      sent on it. All incidents reported in the run are understood exactly when no byte of a
      reported frame was lost. */
  lemma ReceiverUnderstandsReported(
    c: Config, incidents: seq<Incident>, attempts: seq<Attempt>, got: seq<seq<Byte>>)
    requires |attempts| == |incidents|
    requires Arrived(SentAll(c, Link(false, []), incidents, attempts).0.connections, got)
    ensures var (l, oks) := SentAll(c, Link(false, []), incidents, attempts);
      && ReportedOn(l.connections) == Reported(c, incidents, oks)
      && (forall k :: 0 <= k < |got| ==>
            var u := Understood(ReadFrames(got[k]).0);
            && u <= Expected(c, l.connections[k].reported)
            && (u == Expected(c, l.connections[k].reported) <==>
                |ReportedFrames(c, l.connections[k])| <= |got[k]|))
      && (UnderstoodOn(got) == Expected(c, Reported(c, incidents, oks)) <==> Intact(c, l.connections, got))
  {
    hide SentAll, ReadFrames, Carries, ReportedFrames, Understood, Reported, UrgencyOf, UnderstoodOn;
    RunReports(c, Link(false, []), incidents, attempts);
    var l := SentAll(c, Link(false, []), incidents, attempts).0;
    AllUnderstoodIff(c, l.connections, got);
    forall k | 0 <= k < |got|
      ensures var u := Understood(ReadFrames(got[k]).0);
        && u <= Expected(c, l.connections[k].reported)
        && (u == Expected(c, l.connections[k].reported) <==>
            |ReportedFrames(c, l.connections[k])| <= |got[k]|)
    {
      var s := l.connections[k];
      assert got[k] == s.stream[..|got[k]|];
      ConnectionUnderstood(c, s, |got[k]|);
    }
  }

  // ----- the exporter object ---------------------------------------------------------------

  class Exporter {
    const config: Config
    var link: Link

    constructor (config: Config)
      ensures this.config == config && link == Link(false, [])
    {
      this.config := config;
      link := Link(false, []);
    }

    /** Connects if necessary, sends one frame, and drops the connection on any failure. */
    method Send(i: Incident, a: Attempt) returns (ok: bool)
      requires Usable(link)
      modifies this
      ensures Usable(link)
      ensures (link, ok) == Sent(config, old(link), i, a)
    {
      if !PassesFilter(i.severity, config.minSeverity) {
        return true;
      }
      var data := Frame(Bytes(config, i));
      if !link.open {
        if !a.connects {
          return false;
        }
        link := Link(true, link.connections + [Connection([], [])]);
      }
      if a.accepted >= |data| {
        link := link.(connections := Extend(link.connections, data, [i]));
        return true;
      }
      link := Link(false, Extend(link.connections, data[..a.accepted], []));
      return false;
    }

    /** The counts are those of the run of sends, and cover the batch. */
    method SendBatch(incidents: seq<Incident>, attempts: seq<Attempt>) returns (sent: nat, failed: nat)
      requires Usable(link) && |attempts| == |incidents|
      modifies this
      ensures Usable(link)
      ensures link == SentAll(config, old(link), incidents, attempts).0
      ensures sent == Trues(SentAll(config, old(link), incidents, attempts).1)
      ensures sent + failed == |incidents|
    {
      sent, failed := 0, 0;
      var n := 0;
      while n < |incidents|
        invariant 0 <= n <= |incidents| && sent + failed == n
        invariant Usable(link)
        invariant SentAll(config, old(link), incidents, attempts).0
               == SentAll(config, link, incidents[n..], attempts[n..]).0
        invariant Trues(SentAll(config, old(link), incidents, attempts).1)
               == sent + Trues(SentAll(config, link, incidents[n..], attempts[n..]).1)
      {
        ghost var rest, net := incidents[n..], attempts[n..];
        ghost var before := SentAll(config, link, rest, net).1;
        assert rest[1..] == incidents[n + 1..] && net[1..] == attempts[n + 1..];
        var ok := Send(incidents[n], attempts[n]);
        assert before[1..] == SentAll(config, link, rest[1..], net[1..]).1;
        if ok {
          sent := sent + 1;
        } else {
          failed := failed + 1;
        }
        n := n + 1;
      }
    }
  }

  function Trues(oks: seq<bool>): nat {
    if oks == [] then 0 else (if oks[0] then 1 else 0) + Trues(oks[1..])
  }
}
