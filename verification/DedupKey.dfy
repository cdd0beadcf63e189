/** The text whose hash deduplicates queued incidents: seven fields joined by a bar. */
module DedupKey {
  import opened Basics
  import Decimal

  datatype Incident = Incident(
    policyName: string, severity: string, channel: string, sourceType: string, fileName: string,
    filePath: string, user: string, sourceIp: string, matchCount: int, matchedContent: string,
    actionTaken: string, queuedAt: int)

  function Key(i: Incident): seq<string> {
    [i.policyName, i.fileName, i.filePath, i.user, Decimal.Of(i.matchCount), i.channel, i.actionTaken]
  }

  function Joined(parts: seq<string>): string {
    if parts == [] then "" else if |parts| == 1 then parts[0] else parts[0] + "|" + Joined(parts[1..])
  }

  function Blob(i: Incident): string { Joined(Key(i)) }

  /** The seven fields in the order they are hashed. */
  lemma BlobText(i: Incident)
    ensures Blob(i)
         == i.policyName + "|" + i.fileName + "|" + i.filePath + "|" + i.user + "|" + Decimal.Of(i.matchCount)
            + "|" + i.channel + "|" + i.actionTaken
  {
    hide Decimal.Of;
    var k := Key(i);
    var a, b, c := k[1..], k[1..][1..], k[1..][1..][1..];
    assert Joined(k) == k[0] + "|" + Joined(a) && Joined(a) == k[1] + "|" + Joined(b);
    assert Joined(b) == k[2] + "|" + Joined(c);
    var d := c[1..];
    assert Joined(c) == k[3] + "|" + Joined(d) && Joined(d) == k[4] + "|" + Joined(d[1..]);
    assert Joined(d[1..]) == k[5] + "|" + k[6];
  }

  function Bars(s: string): nat { if s == "" then 0 else (if s[0] == '|' then 1 else 0) + Bars(s[1..]) }

  lemma {:induction false} BarsConcat(a: string, b: string)
    ensures Bars(a + b) == Bars(a) + Bars(b)
  {
    if a == "" {
      assert a + b == b;
    } else {
      assert (a + b)[1..] == a[1..] + b;
      BarsConcat(a[1..], b);
    }
  }

  lemma {:induction false} NoBars(s: string)
    ensures Bars(s) == 0 <==> '|' !in s
  {
    if s != "" {
      NoBars(s[1..]);
      assert '|' in s <==> s[0] == '|' || '|' in s[1..];
    }
  }

  lemma {:induction false} BarsJoined(parts: seq<string>)
    requires parts != []
    ensures Bars(Joined(parts)) >= |parts| - 1
    ensures Bars(Joined(parts)) == |parts| - 1 <==> forall p :: p in parts ==> '|' !in p
  {
    NoBars(parts[0]);
    if |parts| > 1 {
      BarsJoined(parts[1..]);
      BarsConcat(parts[0] + "|", Joined(parts[1..]));
      BarsConcat(parts[0], "|");
      assert forall p :: p in parts <==> p == parts[0] || p in parts[1..];
    }
  }

  /** Up to the first bar two equal joins agree. */
  lemma {:induction false} JoinedInjective(a: seq<string>, b: seq<string>)
    requires a != [] && |a| == |b| && Joined(a) == Joined(b)
    requires (forall p :: p in a ==> '|' !in p) && (forall p :: p in b ==> '|' !in p)
    ensures a == b
  {
    if |a| > 1 {
      FirstBar(a[0], Joined(a[1..]), b[0], Joined(b[1..]));
      JoinedInjective(a[1..], b[1..]);
      assert a == [a[0]] + a[1..] && b == [b[0]] + b[1..];
    } else {
      assert a == [a[0]] && b == [b[0]];
    }
  }

  lemma FirstBar(a: string, s: string, b: string, t: string)
    requires '|' !in a && '|' !in b && a + "|" + s == b + "|" + t
    ensures a == b && s == t
  {
    var x, y := a + "|" + s, b + "|" + t;
    assert x[|a|] == '|' && y[|b|] == '|';
    assert forall k :: 0 <= k < |a| ==> x[k] == a[k];
    assert forall k :: 0 <= k < |b| ==> y[k] == b[k];
    assert a == x[..|a|] && b == y[..|b|] && s == x[|a| + 1..] && t == y[|b| + 1..];
  }

  predicate NoBarIn(i: Incident) {
    '|' !in i.policyName && '|' !in i.fileName && '|' !in i.filePath && '|' !in i.user
    && '|' !in i.channel && '|' !in i.actionTaken
  }

  lemma DecimalHasNoBar(n: int)
    ensures '|' !in Decimal.Of(n)
  {
    var s := Decimal.OfNat(if n < 0 then -n else n);
    forall k | 0 <= k < |s| ensures s[k] != '|' { assert IsDigit(s[k]); }
  }

  lemma KeyBars(i: Incident)
    ensures (forall p :: p in Key(i) ==> '|' !in p) <==> NoBarIn(i)
  {
    DecimalHasNoBar(i.matchCount);
    var k := Key(i);
    assert k[0] in k && k[1] in k && k[2] in k && k[3] in k && k[5] in k && k[6] in k;
  }

  predicate SameKey(i: Incident, j: Incident) {
    && i.policyName == j.policyName && i.fileName == j.fileName && i.filePath == j.filePath
    && i.user == j.user && i.matchCount == j.matchCount && i.channel == j.channel
    && i.actionTaken == j.actionTaken
  }

  lemma SameBlobSameKey(i: Incident, j: Incident)
    requires NoBarIn(i) && Blob(i) == Blob(j)
    ensures SameKey(i, j)
  {
    KeyBars(i);
    KeyBars(j);
    BarsJoined(Key(i));
    BarsJoined(Key(j));
    JoinedInjective(Key(i), Key(j));
    var a, b := Key(i), Key(j);
    assert a[0] == b[0] && a[1] == b[1] && a[2] == b[2] && a[3] == b[3] && a[4] == b[4] && a[5] == b[5] && a[6] == b[6];
    Decimal.OfInjective(i.matchCount, j.matchCount);
  }

  function Cut(s: string): (r: (string, string))
    requires '|' in s
    ensures s == r.0 + "|" + r.1
  {
    if s[0] == '|' then ("", s[1..])
    else
      var (x, y) := Cut(s[1..]);
      ([s[0]] + x, y)
  }

  /** An incident with a bar in a field, and the same text cut into fields one bar earlier or later. */
  function Shifted(i: Incident): Incident
    requires !NoBarIn(i)
  {
    if '|' in i.policyName then
      var (x, y) := Cut(i.policyName); i.(policyName := x, fileName := y + "|" + i.fileName)
    else if '|' in i.fileName then
      var (x, y) := Cut(i.fileName); i.(policyName := i.policyName + "|" + x, fileName := y)
    else if '|' in i.filePath then
      var (x, y) := Cut(i.filePath); i.(fileName := i.fileName + "|" + x, filePath := y)
    else if '|' in i.user then
      var (x, y) := Cut(i.user); i.(filePath := i.filePath + "|" + x, user := y)
    else if '|' in i.channel then
      var (x, y) := Cut(i.channel); i.(channel := x, actionTaken := y + "|" + i.actionTaken)
    else
      var (x, y) := Cut(i.actionTaken); i.(channel := i.channel + "|" + x, actionTaken := y)
  }

  lemma JoinedCons(p: string, rest: seq<string>)
    requires rest != []
    ensures Joined([p] + rest) == p + "|" + Joined(rest)
  {
    assert ([p] + rest)[1..] == rest;
  }

  /** Two neighbouring fields may exchange a bar. */
  lemma JoinedShift(p: string, x: string, y: string, rest: seq<string>)
    ensures Joined([p + "|" + x, y] + rest) == Joined([p, x + "|" + y] + rest)
  {
    var a, b := [y] + rest, [x + "|" + y] + rest;
    JoinedCons(p + "|" + x, a);
    JoinedCons(p, b);
    assert [p + "|" + x, y] + rest == [p + "|" + x] + a && [p, x + "|" + y] + rest == [p] + b;
    if rest != [] {
      JoinedCons(y, rest);
      JoinedCons(x + "|" + y, rest);
      assert p + "|" + x + "|" + (y + "|" + Joined(rest)) == p + "|" + (x + "|" + y + "|" + Joined(rest));
    } else {
      assert a == [y] && b == [x + "|" + y];
      assert p + "|" + x + "|" + y == p + "|" + (x + "|" + y);
    }
  }

  lemma ShiftAt(front: seq<string>, p: string, x: string, y: string, rest: seq<string>)
    ensures Joined(front + ([p + "|" + x, y] + rest)) == Joined(front + ([p, x + "|" + y] + rest))
  {
    var a, b := [p + "|" + x, y] + rest, [p, x + "|" + y] + rest;
    if front == [] {
      JoinedShift(p, x, y, rest);
      assert front + a == a && front + b == b;
    } else {
      ShiftAt(front[1..], p, x, y, rest);
      JoinedCons(front[0], front[1..] + a);
      JoinedCons(front[0], front[1..] + b);
      assert front + a == [front[0]] + (front[1..] + a) && front + b == [front[0]] + (front[1..] + b);
    }
  }

  lemma ShiftedCollides(i: Incident)
    requires !NoBarIn(i)
    ensures Blob(Shifted(i)) == Blob(i) && !SameKey(i, Shifted(i))
  {
    hide Joined, Decimal.Of;
    var k := Key(i);
    var s := Key(Shifted(i));
    if '|' in i.policyName {
      var (x, y) := Cut(i.policyName);
      ShiftAt([], x, y, i.fileName, k[2..]);
      assert k == [] + ([x + "|" + y, i.fileName] + k[2..]) && s == [] + ([x, y + "|" + i.fileName] + k[2..]);
    } else if '|' in i.fileName {
      var (x, y) := Cut(i.fileName);
      ShiftAt([], i.policyName, x, y, k[2..]);
      assert s == [] + ([i.policyName + "|" + x, y] + k[2..]) && k == [] + ([i.policyName, x + "|" + y] + k[2..]);
    } else if '|' in i.filePath {
      var (x, y) := Cut(i.filePath);
      ShiftAt(k[..1], i.fileName, x, y, k[3..]);
      assert s == k[..1] + ([i.fileName + "|" + x, y] + k[3..]) && k == k[..1] + ([i.fileName, x + "|" + y] + k[3..]);
    } else if '|' in i.user {
      var (x, y) := Cut(i.user);
      ShiftAt(k[..2], i.filePath, x, y, k[4..]);
      assert s == k[..2] + ([i.filePath + "|" + x, y] + k[4..]) && k == k[..2] + ([i.filePath, x + "|" + y] + k[4..]);
    } else if '|' in i.channel {
      var (x, y) := Cut(i.channel);
      ShiftAt(k[..5], x, y, i.actionTaken, []);
      assert k == k[..5] + ([x + "|" + y, i.actionTaken] + []) && s == k[..5] + ([x, y + "|" + i.actionTaken] + []);
    } else {
      var (x, y) := Cut(i.actionTaken);
      ShiftAt(k[..5], i.channel, x, y, []);
      assert s == k[..5] + ([i.channel + "|" + x, y] + []) && k == k[..5] + ([i.channel, x + "|" + y] + []);
    }
  }

  /** The text that is hashed identifies the incident's seven fields exactly when none of its text
      fields contains the separator. */
  lemma BlobIdentifiesIff(i: Incident)
    ensures (forall j :: Blob(j) == Blob(i) ==> SameKey(i, j)) <==> NoBarIn(i)
  {
    if NoBarIn(i) {
      forall j | Blob(j) == Blob(i) ensures SameKey(i, j) {
        SameBlobSameKey(i, j);
      }
    } else {
      ShiftedCollides(i);
    }
  }

  // ----- what the table stores -------------------------------------------------------------

  /** A text bound as a C string: what precedes its first NUL. */
  function CString(s: string): (r: string)
    ensures r <= s && (r == s <==> '\0' !in s)
  {
    if s == "" || s[0] == '\0' then "" else [s[0]] + CString(s[1..])
  }

  /** The incident as a row holds it. */
  function Stored(i: Incident): Incident {
    Incident(CString(i.policyName), CString(i.severity), CString(i.channel), CString(i.sourceType),
             CString(i.fileName), CString(i.filePath), CString(i.user), CString(i.sourceIp), i.matchCount,
             CString(i.matchedContent), CString(i.actionTaken), i.queuedAt)
  }

  /** No NUL in the text fields that are hashed. */
  predicate NulFree(i: Incident) {
    '\0' !in i.policyName && '\0' !in i.fileName && '\0' !in i.filePath && '\0' !in i.user
    && '\0' !in i.channel && '\0' !in i.actionTaken
  }

  lemma {:induction false} JoinedShorter(a: seq<string>, b: seq<string>)
    requires |a| == |b| && forall k :: 0 <= k < |a| ==> |a[k]| <= |b[k]|
    ensures |Joined(a)| <= |Joined(b)|
    ensures |Joined(a)| == |Joined(b)| ==> forall k :: 0 <= k < |a| ==> |a[k]| == |b[k]|
  {
    if |a| > 1 {
      JoinedShorter(a[1..], b[1..]);
      assert forall k :: 0 < k < |a| ==> a[k] == a[1..][k - 1] && b[k] == b[1..][k - 1];
    }
  }

  /** A stored row has the text that was hashed exactly when no hashed field had a NUL. */
  lemma StoredBlobIff(i: Incident)
    ensures Blob(Stored(i)) == Blob(i) <==> NulFree(i)
  {
    hide CString, Joined, Decimal.Of;
    var a, b := Key(Stored(i)), Key(i);
    if NulFree(i) {
      assert a == b;
    } else {
      JoinedShorter(a, b);
      assert |a[0]| < |b[0]| || |a[1]| < |b[1]| || |a[2]| < |b[2]| || |a[3]| < |b[3]|
          || |a[5]| < |b[5]| || |a[6]| < |b[6]|;
    }
  }
}
