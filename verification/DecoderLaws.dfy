/** What each decoder of the normalizer finds in a text, and what it leaves there: the substitution
    law, the patterns as descriptions of whole strings, and percent decoding inside a text. */
module DecoderLaws {
  import opened Basics
  import opened Wrappers
  import opened Utf8
  import opened ContentNormalizer
  import B = Base64

  // ----- substitution ----------------------------------------------------------------------

  /** A beginning without any match is copied. */
  lemma {:induction false} SubSkips(matchAt: string -> nat, replace: string -> string, a: string, c: string)
    requires forall i :: 0 <= i < |a| ==> matchAt((a + c)[i..]) == 0
    ensures Sub(matchAt, replace, a + c) == a + Sub(matchAt, replace, c)
    decreases |a|
  {
    var t := a + c;
    if a == "" {
      assert t == c;
    } else {
      assert t[0..] == t;
      assert t[1..] == a[1..] + c;
      forall i | 0 <= i < |a[1..]| ensures matchAt((a[1..] + c)[i..]) == 0 {
        assert t[1..][i..] == t[i + 1..];
      }
      SubSkips(matchAt, replace, a[1..], c);
      assert [a[0]] + (a[1..] + Sub(matchAt, replace, c)) == a + Sub(matchAt, replace, c);
    }
  }

  /** A text without any match is copied. */
  lemma SubInert(matchAt: string -> nat, replace: string -> string, t: string)
    requires forall i :: 0 <= i < |t| ==> matchAt(t[i..]) == 0
    ensures Sub(matchAt, replace, t) == t
  {
    assert t + "" == t;
    SubSkips(matchAt, replace, t, "");
  }

  /** Text before the first match is copied, the match is replaced, and what follows is
      substituted in turn. */
  lemma SubFirst(matchAt: string -> nat, replace: string -> string, a: string, b: string, c: string)
    requires forall i :: 0 <= i < |a| ==> matchAt((a + b + c)[i..]) == 0
    requires 0 < matchAt(b + c) == |b|
    ensures Sub(matchAt, replace, a + b + c) == a + replace(b) + Sub(matchAt, replace, c)
  {
    assert a + b + c == a + (b + c);
    SubSkips(matchAt, replace, a, b + c);
    assert (b + c)[..|b|] == b && (b + c)[|b|..] == c;
  }

  // ----- character references --------------------------------------------------------------

  /** `&#` and decimal digits. */
  predicate IsDecimal(r: string) {
    |r| >= 3 && r[0] == '&' && r[1] == '#' && forall i :: 2 <= i < |r| ==> IsDigit(r[i])
  }

  /** `&#x` and hexadecimal digits. */
  predicate IsHexadecimal(r: string) {
    |r| >= 4 && r[0] == '&' && r[1] == '#' && r[2] in {'x', 'X'} && forall i :: 3 <= i < |r| ==> IsHex(r[i])
  }

  /** An ampersand and a name of up to 32 characters. */
  predicate IsNamed(r: string) {
    2 <= |r| <= 33 && r[0] == '&' && forall i :: 1 <= i < |r| ==> InName(r[i])
  }

  /** Not a tab, line feed, form feed, space, number sign, ampersand, semicolon or less-than sign. */
  predicate InName(c: char) { c as int !in {0x09, 0x0A, 0x0C, 0x20, 0x23, 0x26, 0x3B, 0x3C} }

  lemma InNameIff(c: char)
    ensures InName(c) <==> IsNameChar(c)
  {
  }

  /** The text without one semicolon at its end. */
  function Opened(s: string): string { if s != "" && s[|s| - 1] == ';' then s[..|s| - 1] else s }

  predicate IsReference(s: string) {
    var r := Opened(s); IsDecimal(r) || IsHexadecimal(r) || IsNamed(r)
  }

  /** The decoder takes the longest reference at a position, if there is any. */
  lemma ReferenceLongest(t: string)
    ensures var n := ReferenceLength(t);
      && (n > 0 ==> IsReference(t[..n]))
      && (forall m :: n < m <= |t| ==> !IsReference(t[..m]))
  {
    hide ReferenceLength, IsReference;
    ReferenceFound(t);
    forall m | ReferenceLength(t) < m <= |t| ensures !IsReference(t[..m]) {
      ReferenceBound(t, m);
    }
  }

  lemma ReferenceFound(t: string)
    ensures ReferenceLength(t) > 0 ==> IsReference(t[..ReferenceLength(t)])
  {
    hide IsHex, IsDigit, IsNameChar, IsDecimal, IsHexadecimal, IsNamed;
    var n := ReferenceLength(t);
    if n > 0 {
      if |t| > 1 && t[1] == '#' {
        var digits := Span(t[2..], IsDigit);
        if digits > 0 {
          DecimalFront(t, digits);
          OpenedFront(t, 2 + digits, n);
        } else {
          var hex := Span(t[3..], IsHex);
          HexadecimalFront(t, hex);
          OpenedFront(t, 3 + hex, n);
        }
      } else {
        var name := Min(32, Span(t[1..], IsNameChar));
        NamedFront(t, name);
        OpenedFront(t, 1 + name, n);
      }
    }
  }

  lemma OpenedFront(t: string, k: nat, n: nat)
    requires 0 < k <= n <= |t| && n == k + Semicolon(t[k..]) && t[k - 1] != ';'
    ensures Opened(t[..n]) == t[..k]
  {
  }

  lemma DecimalFront(t: string, k: nat)
    requires 0 < k <= |t| - 2 && t[0] == '&' && t[1] == '#' && k <= Span(t[2..], IsDigit)
    ensures IsDecimal(t[..2 + k]) && t[1 + k] != ';'
  {
    forall i | 2 <= i < 2 + k ensures IsDigit(t[i]) { assert t[i] == t[2..][i - 2]; }
  }

  lemma HexadecimalFront(t: string, k: nat)
    requires 0 < k <= |t| - 3 && t[0] == '&' && t[1] == '#' && t[2] in {'x', 'X'} && k <= Span(t[3..], IsHex)
    ensures IsHexadecimal(t[..3 + k]) && t[2 + k] != ';'
  {
    forall i | 3 <= i < 3 + k ensures IsHex(t[i]) { assert t[i] == t[3..][i - 3]; }
  }

  lemma NamedFront(t: string, k: nat)
    requires 0 < k <= |t| - 1 && k <= 32 && t[0] == '&' && k <= Span(t[1..], IsNameChar)
    ensures IsNamed(t[..1 + k]) && t[k] != ';'
  {
    forall i | 1 <= i < 1 + k ensures InName(t[i]) {
      assert t[i] == t[1..][i - 1];
      InNameIff(t[i]);
    }
  }

  lemma ReferenceBound(t: string, m: nat)
    requires m <= |t|
    ensures IsReference(t[..m]) ==> m <= ReferenceLength(t)
  {
    hide ReferenceLength, IsDecimal, IsHexadecimal, IsNamed;
    var r := Opened(t[..m]);
    if IsDecimal(r) {
      DecimalBound(t, m);
    } else if IsHexadecimal(r) {
      HexadecimalBound(t, m);
    } else if IsNamed(r) {
      NamedBound(t, m);
    }
  }

  lemma DecimalBound(t: string, m: nat)
    requires m <= |t| && IsDecimal(Opened(t[..m]))
    ensures m <= ReferenceLength(t)
  {
    hide IsHex, IsDigit, IsNameChar;
    SemicolonPlain();
    var r := Opened(t[..m]);
    assert forall i :: 0 <= i < |r| ==> r[i] == t[i];
    SpanAtLeast(t, 2, IsDigit, |r| - 2);
  }

  lemma HexadecimalBound(t: string, m: nat)
    requires m <= |t| && IsHexadecimal(Opened(t[..m]))
    ensures m <= ReferenceLength(t)
  {
    hide IsHex, IsDigit, IsNameChar;
    SemicolonPlain();
    var r := Opened(t[..m]);
    assert forall i :: 0 <= i < |r| ==> r[i] == t[i];
    LettersNotDigits(t[2]);
    assert Span(t[2..], IsDigit) == 0;
    SpanAtLeast(t, 3, IsHex, |r| - 3);
  }

  lemma NamedBound(t: string, m: nat)
    requires m <= |t| && IsNamed(Opened(t[..m]))
    ensures m <= ReferenceLength(t)
  {
    hide IsHex, IsDigit, IsNameChar, InName;
    SemicolonPlain();
    var r := Opened(t[..m]);
    assert forall i :: 0 <= i < |r| ==> r[i] == t[i];
    forall i | 1 <= i < |r| ensures IsNameChar(t[i]) { InNameIff(t[i]); }
    NameCharsPlain(t[1]);
    SpanAtLeast(t, 1, IsNameChar, |r| - 1);
  }

  lemma LettersNotDigits(c: char)
    ensures c in {'x', 'X'} ==> !IsDigit(c)
  {
  }

  lemma NameCharsPlain(c: char)
    ensures IsNameChar(c) ==> c != '#'
  {
  }

  lemma SemicolonPlain()
    ensures !IsDigit(';') && !IsHex(';') && !IsNameChar(';')
  {
  }

  lemma SpanIs(t: string, p: char -> bool, n: nat)
    requires n <= |t| && forall i :: 0 <= i < n ==> p(t[i])
    requires n < |t| ==> !p(t[n])
    ensures Span(t, p) == n
  {
  }

  lemma SpanAtLeast(t: string, from: nat, p: char -> bool, n: nat)
    requires from + n <= |t| && forall i :: from <= i < from + n ==> p(t[i])
    ensures Span(t[from..], p) >= n
    ensures from + n < |t| && !p(t[from + n]) ==> Span(t[from..], p) == n
  {
    var s := t[from..];
    assert forall i :: 0 <= i < |s| ==> s[i] == t[from + i];
  }

  /** A closed reference in mid-text is replaced, and the rest is decoded on. */
  lemma ReferenceReplaced(lib: Library, a: string, r: string, c: string)
    requires '&' !in a && r != "" && IsReference(r) && r[|r| - 1] == ';'
    ensures Sub(ReferenceLength, lib.charref, a + r + c) == a + lib.charref(r) + Sub(ReferenceLength, lib.charref, c)
    ensures HtmlEntityDecode(lib, a + r + c) == a + lib.charref(r) + HtmlEntityDecode(lib, c)
  {
    ReferenceLongest(r + c);
    assert (r + c)[..|r|] == r;
    ReferenceClosed(r, c);
    forall i | 0 <= i < |a| ensures ReferenceLength((a + r + c)[i..]) == 0 {
      assert (a + r + c)[i..][0] == a[i];
    }
    SubFirst(ReferenceLength, lib.charref, a, r, c);
    assert (a + r + c)[|a|] == r[0] == '&';
    if '&' !in c {
      SubInert(ReferenceLength, lib.charref, c);
    }
  }

  lemma ReferenceClosed(r: string, c: string)
    requires r != "" && IsReference(r) && r[|r| - 1] == ';'
    ensures ReferenceLength(r + c) == |r|
  {
    hide ReferenceLength, IsReference;
    var t := r + c;
    ReferenceLongest(t);
    assert t[..|r|] == r;
    var n := ReferenceLength(t);
    assert n >= |r|;
    SemicolonLast(t[..n]);
    assert t[..n][|r| - 1] == ';';
  }

  lemma SemicolonLast(s: string)
    ensures IsReference(s) ==> forall k :: 0 <= k < |s| - 1 ==> s[k] != ';'
  {
    var r := Opened(s);
    assert forall k :: 0 <= k < |s| - 1 ==> s[k] == r[k];
  }

  // ----- base64 blobs ----------------------------------------------------------------------

  /** A blob as a whole: at least 32 alphabet characters and then up to two equals signs. */
  predicate BlobOf(s: string, run: nat) {
    && 32 <= run <= |s| <= run + 2
    && (forall i :: 0 <= i < run ==> B.InAlphabet(s[i]))
    && (forall i :: run <= i < |s| ==> s[i] == '=')
  }

  ghost predicate IsBlob(s: string) { exists run :: BlobOf(s, run) }

  /** The decoder takes the longest blob at a position, if there is any. */
  lemma BlobLongest(t: string)
    ensures var n := BlobLength(t);
      && (n > 0 ==> IsBlob(t[..n]))
      && (forall m :: n < m <= |t| ==> !IsBlob(t[..m]))
  {
    var n, run := BlobLength(t), Span(t, B.InAlphabet);
    if n > 0 {
      forall i | run <= i < n ensures t[i] == '=' { assert t[i] == t[run..][i - run]; }
      assert BlobOf(t[..n], run);
    }
    forall m, k | 0 <= m <= |t| && BlobOf(t[..m], k) ensures m <= n {
      BlobBound(t, m, k);
    }
  }

  lemma BlobBound(t: string, m: nat, k: nat)
    requires m <= |t| && BlobOf(t[..m], k)
    ensures m <= BlobLength(t)
  {
    hide B.InAlphabet;
    var s := t[..m];
    assert forall i :: 0 <= i < m ==> s[i] == t[i];
    EqualsPlain();
    assert t[0..] == t;
    SpanAtLeast(t, 0, B.InAlphabet, k);
    if m > k {
      SpanAtLeast(t, k, IsPad, m - k);
    }
  }

  lemma EqualsPlain()
    ensures !B.InAlphabet('=')
  {
  }

  /** The positions of a text that count as printable. */
  function Printable(lib: Library, t: string): set<nat> {
    set i: nat | i < |t| && (lib.printable(t[i]) || t[i] == '\n' || t[i] == '\r' || t[i] == '\t')
  }

  /** A text is recognised when it is not empty and at least four in five of its characters are
      printable. */
  lemma LooksLikeTextIff(lib: Library, t: string)
    ensures LooksLikeText(lib, t) <==> t != "" && |Printable(lib, t)| * 5 >= |t| * 4
  {
    CountsPrintable(lib, t);
  }

  lemma {:induction false} CountsPrintable(lib: Library, t: string)
    ensures PrintableCount(lib, t) == |Printable(lib, t)|
  {
    var p := (c: char) => lib.printable(c) || c == '\n' || c == '\r' || c == '\t';
    assert Printable(lib, t) == Where(t, p);
    if t != "" {
      CountsPrintable(lib, t[1..]);
      assert Printable(lib, t[1..]) == Where(t[1..], p);
      WhereFirst(t, p);
    }
  }

  // ----- percent decoding ------------------------------------------------------------------

  lemma {:induction false} EncodeConcat(a: string, b: string)
    ensures Encode(a + b) == Encode(a) + Encode(b)
  {
    hide EncodeChar;
    if a == "" {
      assert a + b == b;
    } else {
      assert (a + b)[1..] == a[1..] + b;
      EncodeConcat(a[1..], b);
    }
  }

  /** Characters that are not escapes stand for themselves. */
  lemma {:induction false} UnquotePlain(a: string, rest: string)
    requires '%' !in a && forall i :: 0 <= i < |a + rest| ==> IsAscii((a + rest)[i])
    ensures (forall i :: 0 <= i < |rest| ==> IsAscii(rest[i]))
    ensures UnquoteBytes(a + rest) == Encode(a) + UnquoteBytes(rest)
  {
    var t := a + rest;
    assert forall i :: 0 <= i < |rest| ==> rest[i] == t[|a| + i];
    if a == "" {
      assert t == rest;
    } else {
      assert t[1..] == a[1..] + rest && t[0] == a[0];
      assert forall i :: 0 <= i < |t[1..]| ==> t[1..][i] == t[i + 1];
      UnquotePlain(a[1..], rest);
    }
  }

  /** A percent sign stands for itself unless two hexadecimal digits follow. */
  lemma EscapeKept(t: string)
    requires t != "" && t[0] == '%' && forall i :: 0 <= i < |t| ==> IsAscii(t[i])
    requires |t| < 3 || !IsHex(t[1]) || !IsHex(t[2])
    ensures UnquoteBytes(t) == [0x25] + UnquoteBytes(t[1..])
  {
  }

  /** An escape is replaced by its byte. */
  lemma EscapeReplaced(t: string)
    requires |t| >= 3 && t[0] == '%' && forall i :: 0 <= i < |t| ==> IsAscii(t[i])
    requires IsHex(t[1]) && IsHex(t[2])
    ensures UnquoteBytes(t) == [HexValue(t[1]) * 16 + HexValue(t[2])] + UnquoteBytes(t[3..])
  {
  }

  /** The digits of either case, by their values. */
  lemma HexDigits(n: int)
    requires 0 <= n < 16
    ensures forall c :: c in ["0123456789abcdef"[n], "0123456789ABCDEF"[n]] <==> IsHex(c) && HexValue(c) == n
  {
  }

  /** Text without escapes is left alone. */
  lemma {:induction false} UnquoteNothing(t: string)
    requires '%' !in t
    ensures Unquote(t) == t
    decreases |t|
  {
    hide UnquoteBytes, DecodeReplace;
    if t != "" {
      var n := Span(t, IsAscii);
      if n == 0 {
        UnquoteNothing(t[1..]);
        assert t == [t[0]] + t[1..];
      } else {
        PlainRun(t[..n]);
        UnquoteNothing(t[n..]);
        assert t == t[..n] + t[n..];
      }
    }
  }

  lemma PlainRun(t: string)
    requires '%' !in t && forall i :: 0 <= i < |t| ==> IsAscii(t[i])
    ensures DecodeReplace(UnquoteBytes(t)) == t
  {
    assert t + "" == t;
    UnquotePlain(t, "");
    assert UnquoteBytes("") == [];
    assert Encode(t) + [] == Encode(t);
    DecodeEncode(t);
  }
}
