/** Iterative decoding of captured content: percent escapes, HTML character references and
    embedded base64, one pass after another until nothing changes or the depth cap is reached. */
module ContentNormalizer {
  import opened Basics
  import opened Wrappers
  import opened Utf8
  import Base64

  const MIN_B64_LENGTH := 32

  /** The two library tables the decoders consult: what a character reference (such as
      `&amp;`) is replaced by, and which characters count as printable. */
  datatype Library = Library(charref: string -> string, printable: char -> bool) {

    /** A reference is kept as it is or replaced by something shorter; ASCII graphics are printable. */
    ghost predicate Valid() {
      && Shortening(charref)
      && (forall c: char :: 0x20 <= c as int < 0x7F ==> printable(c))
    }
  }

  ghost predicate SameOrShorter(before: string, after: string) {
    after == before || |after| < |before|
  }

  ghost predicate Shortening(decode: string -> string) {
    forall t :: SameOrShorter(t, decode(t))
  }

  // ----- scanning helpers ------------------------------------------------------------------

  /** Length of the longest prefix whose characters all satisfy p. */
  function Span(t: string, p: char -> bool): (n: nat)
    ensures n <= |t|
    ensures forall i :: 0 <= i < n ==> p(t[i])
    ensures n < |t| ==> !p(t[n])
  {
    if t == "" || !p(t[0]) then 0 else 1 + Span(t[1..], p)
  }

  predicate IsAscii(c: char) { c as int < 0x80 }

  predicate IsPad(c: char) { c == '=' }

  predicate IsHex(c: char) { IsDigit(c) || 'A' <= c <= 'F' || 'a' <= c <= 'f' }

  function HexValue(c: char): (n: int)
    requires IsHex(c)
    ensures 0 <= n < 16
  {
    if IsDigit(c) then c as int - 48 else if c <= 'F' then c as int - 55 else c as int - 87
  }

  function HexDigit(n: int): (c: char)
    requires 0 <= n < 16
    ensures IsHex(c) && HexValue(c) == n
  {
    if n < 10 then (48 + n) as char else (55 + n) as char
  }

  /** Regular-expression substitution: at each position either a match of length matchAt > 0 is
      replaced whole, or one character is copied. */
  function Sub(matchAt: string -> nat, replace: string -> string, t: string): string
    decreases |t|
  {
    if t == "" then ""
    else
      var n := matchAt(t);
      if n == 0 || n > |t| then [t[0]] + Sub(matchAt, replace, t[1..])
      else replace(t[..n]) + Sub(matchAt, replace, t[n..])
  }

  /** Replacing the front of a text by something no longer, and its tail likewise. */
  lemma ConcatShortens(front: string, tail: string, front': string, tail': string)
    requires SameOrShorter(front, front') && SameOrShorter(tail, tail')
    ensures SameOrShorter(front + tail, front' + tail')
  {
  }

  lemma {:induction false} SubShortens(matchAt: string -> nat, replace: string -> string, t: string)
    requires Shortening(replace)
    ensures SameOrShorter(t, Sub(matchAt, replace, t))
    decreases |t|
  {
    if t != "" {
      var n := matchAt(t);
      if n == 0 || n > |t| {
        SubShortens(matchAt, replace, t[1..]);
        ConcatShortens([t[0]], t[1..], [t[0]], Sub(matchAt, replace, t[1..]));
        assert t == [t[0]] + t[1..];
      } else {
        SubShortens(matchAt, replace, t[n..]);
        assert SameOrShorter(t[..n], replace(t[..n]));
        ConcatShortens(t[..n], t[n..], replace(t[..n]), Sub(matchAt, replace, t[n..]));
        assert t == t[..n] + t[n..];
      }
    }
  }

  // ----- percent decoding ------------------------------------------------------------------

  /** `unquote_to_bytes` on a run of ASCII text. */
  function UnquoteBytes(t: string): (b: seq<Byte>)
    requires forall i :: 0 <= i < |t| ==> IsAscii(t[i])
    ensures |b| <= |t|
  {
    if t == "" then []
    else if t[0] == '%' && |t| >= 3 && IsHex(t[1]) && IsHex(t[2]) then
      [HexValue(t[1]) * 16 + HexValue(t[2])] + UnquoteBytes(t[3..])
    else assert IsAscii(t[0]); [t[0] as int as Byte] + UnquoteBytes(t[1..])
  }

  /** `unquote`: each maximal ASCII run is unquoted to bytes and read as UTF-8. */
  function Unquote(t: string): string
    decreases |t|
  {
    if t == "" then ""
    else if !IsAscii(t[0]) then [t[0]] + Unquote(t[1..])
    else
      var n := Span(t, IsAscii);
      DecodeReplace(UnquoteBytes(t[..n])) + Unquote(t[n..])
  }

  function UrlDecode(t: string): string {
    if '%' !in t then t else Unquote(t)
  }

  // ----- HTML character references ---------------------------------------------------------

  predicate IsNameChar(c: char) {
    c !in {'\t', '\n', '\U{0C}', ' ', '<', '&', '#', ';'}
  }

  /** 1 when the text starts with the optional closing semicolon. */
  function Semicolon(t: string): nat { if t != "" && t[0] == ';' then 1 else 0 }

  /** Length of the character reference at the front of t, 0 when there is none. */
  function ReferenceLength(t: string): (n: nat)
    ensures n <= |t|
    ensures n > 0 ==> t[0] == '&'
  {
    if t == "" || t[0] != '&' then 0
    else if |t| > 1 && t[1] == '#' then
      var digits := Span(t[2..], IsDigit);
      if digits > 0 then 2 + digits + Semicolon(t[2 + digits..])
      else if |t| > 2 && t[2] in {'x', 'X'} then
        var hex := Span(t[3..], IsHex);
        if hex > 0 then 3 + hex + Semicolon(t[3 + hex..]) else 0
      else 0
    else
      var name := Min(32, Span(t[1..], IsNameChar));
      if name == 0 then 0 else 1 + name + Semicolon(t[1 + name..])
  }

  function HtmlEntityDecode(lib: Library, t: string): string {
    if '&' !in t then t else Sub(ReferenceLength, lib.charref, t)
  }

  // ----- embedded base64 -------------------------------------------------------------------

  function PrintableCount(lib: Library, t: string): (n: nat)
    ensures n <= |t|
  {
    if t == "" then 0
    else (if lib.printable(t[0]) || t[0] in "\n\r\t" then 1 else 0) + PrintableCount(lib, t[1..])
  }

  /** At least four characters in five are printable. */
  predicate LooksLikeText(lib: Library, t: string) {
    5 * PrintableCount(lib, t) >= 4 * (if t == "" then 1 else |t|)
  }

  /** Length of the blob at the front of t: a run of at least 32 alphabet characters and up to
      two equals signs; 0 when the run is too short. */
  function BlobLength(t: string): (n: nat)
    ensures n <= |t|
  {
    var run := Span(t, Base64.InAlphabet);
    if run < MIN_B64_LENGTH then 0 else run + Min(2, Span(t[run..], IsPad))
  }

  /** The text a blob decodes to, if its padding, its base64 and its UTF-8 are all in order. */
  function DecodeBlob(blob: string): (text: Option<string>)
    ensures text.Some? ==> text.value == "" || |text.value| < |blob|
  {
    var run := Span(blob, Base64.InAlphabet);
    var pads := |blob| - run;
    if run % 4 == 1 || (run % 4 == 3 && pads == 2) then None
    else DecodeStrict(Base64.DecodeBody(blob[..run]))
  }

  /** What a blob is replaced by. */
  function TryDecode(lib: Library, blob: string): string {
    var text := DecodeBlob(blob);
    if text.Some? && LooksLikeText(lib, text.value) then text.value else blob
  }

  function BlobDecoder(lib: Library): string -> string {
    blob => TryDecode(lib, blob)
  }

  function Base64DecodeEmbedded(lib: Library, t: string): string {
    Sub(BlobLength, BlobDecoder(lib), t)
  }

  // ----- passes ----------------------------------------------------------------------------

  function DecodePass(lib: Library, t: string): string {
    Base64DecodeEmbedded(lib, HtmlEntityDecode(lib, UrlDecode(t)))
  }

  /** One pass as a function of the text alone. */
  function Decoder(lib: Library): string -> string {
    t => DecodePass(lib, t)
  }

  /** The variants of t under a pass, each one pass after the one before it. */
  function Variants(pass: string -> string, t: string, maxDepth: int): seq<string>
    decreases Max0(maxDepth)
  {
    if maxDepth <= 0 || pass(t) == t then [t]
    else [t] + Variants(pass, pass(t), maxDepth - 1)
  }

  /** t after n passes. */
  function Iterate(pass: string -> string, t: string, n: nat): string
    decreases n
  {
    if n == 0 then t else Iterate(pass, pass(t), n - 1)
  }

  // ----- every change shortens the text ----------------------------------------------------

  /** An ASCII run without a usable escape is what its bytes decode to. */
  lemma {:induction false} UnquoteBytesShortens(t: string)
    requires forall i :: 0 <= i < |t| ==> IsAscii(t[i])
    ensures |UnquoteBytes(t)| < |t| || DecodeReplace(UnquoteBytes(t)) == t
  {
    hide DecodeReplace, HexValue;
    if t != "" && !(t[0] == '%' && |t| >= 3 && IsHex(t[1]) && IsHex(t[2])) {
      UnquoteBytesShortens(t[1..]);
      var b := UnquoteBytes(t);
      assert b[1..] == UnquoteBytes(t[1..]);
      DecodeReplaceAscii(b);
      assert [t[0]] + t[1..] == t;
    } else if t != "" {
      assert |UnquoteBytes(t)| == 1 + |UnquoteBytes(t[3..])|;
    }
  }

  lemma {:induction false} UnquoteShortens(t: string)
    ensures SameOrShorter(t, Unquote(t))
    decreases |t|
  {
    if t == "" {
    } else if !IsAscii(t[0]) {
      UnquoteShortens(t[1..]);
      assert [t[0]] + t[1..] == t;
    } else {
      var n := Span(t, IsAscii);
      UnquoteBytesShortens(t[..n]);
      UnquoteShortens(t[n..]);
      assert t[..n] + t[n..] == t;
    }
  }

  lemma TryDecodeShortens(lib: Library)
    ensures Shortening(BlobDecoder(lib))
  {
    forall blob ensures SameOrShorter(blob, BlobDecoder(lib)(blob)) {
      assert !LooksLikeText(lib, "");
    }
  }

  /** A pass that changes the text shortens it; so a pass changes nothing only when none of
      its three decoders does. */
  lemma PassShortens(lib: Library, t: string)
    requires lib.Valid()
    ensures SameOrShorter(t, DecodePass(lib, t))
    ensures DecodePass(lib, t) == t ==>
      UrlDecode(t) == t && HtmlEntityDecode(lib, t) == t && Base64DecodeEmbedded(lib, t) == t
  {
    var url := UrlDecode(t);
    var html := HtmlEntityDecode(lib, url);
    UnquoteShortens(t);
    SubShortens(ReferenceLength, lib.charref, url);
    TryDecodeShortens(lib);
    SubShortens(BlobLength, BlobDecoder(lib), html);
  }

  lemma DecoderShortens(lib: Library)
    requires lib.Valid()
    ensures Shortening(Decoder(lib))
  {
    forall t ensures SameOrShorter(t, Decoder(lib)(t)) {
      PassShortens(lib, t);
    }
  }

  /** Without the cap, |t| passes always reach a text that a further pass leaves alone. */
  lemma {:induction false} FixedPointWithinLength(pass: string -> string, t: string, n: nat)
    requires Shortening(pass)
    requires n >= |t|
    ensures pass(Iterate(pass, t, n)) == Iterate(pass, t, n)
    decreases n
  {
    assert SameOrShorter(t, pass(t));
    if n > 0 {
      if pass(t) == t {
        IterateFixed(pass, t, n);
      } else {
        FixedPointWithinLength(pass, pass(t), n - 1);
      }
    }
  }

  lemma {:induction false} IterateFixed(pass: string -> string, t: string, n: nat)
    requires pass(t) == t
    ensures Iterate(pass, t, n) == t
  {
    if n > 0 { IterateFixed(pass, t, n - 1); }
  }

  /** The variants start with the input, each longer than every later one (so no two are
      equal), and they stop at the cap or at a text no pass changes. */
  lemma {:induction false} VariantsShrink(pass: string -> string, t: string, maxDepth: int)
    requires Shortening(pass)
    ensures var v := Variants(pass, t, maxDepth);
      && 1 <= |v| <= 1 + Max0(maxDepth)
      && v[0] == t
      && (forall i, j :: 0 <= i < j < |v| ==> |v[j]| < |v[i]|)
      && (|v| == 1 + Max0(maxDepth) || pass(v[|v| - 1]) == v[|v| - 1])
    decreases Max0(maxDepth)
  {
    assert SameOrShorter(t, pass(t));
    if maxDepth > 0 && pass(t) != t {
      VariantsShrink(pass, pass(t), maxDepth - 1);
    }
  }

  /** The i-th variant is the input after i passes. */
  lemma {:induction false} VariantIsIterate(pass: string -> string, t: string, maxDepth: int, i: nat)
    requires i < |Variants(pass, t, maxDepth)|
    ensures Variants(pass, t, maxDepth)[i] == Iterate(pass, t, i)
    decreases i
  {
    if i > 0 {
      VariantIsIterate(pass, pass(t), maxDepth - 1, i - 1);
    }
  }

  method Normalize(lib: Library, text: string, maxDepth: int := 5) returns (variants: seq<string>)
    requires lib.Valid()
    ensures variants == Variants(Decoder(lib), text, maxDepth)
  {
    DecoderShortens(lib);
    variants := NormalizeBy(Decoder(lib), text, maxDepth);
  }

  /** The loop itself: membership in `seen` never suppresses a variant. */
  method NormalizeBy(pass: string -> string, text: string, maxDepth: int) returns (variants: seq<string>)
    requires Shortening(pass)
    ensures variants == Variants(pass, text, maxDepth)
  {
    variants := [text];
    var seen := {text};
    var current := text;
    ghost var earlier: seq<string> := [];
    var depth := 0;
    while depth < maxDepth
      invariant 0 <= depth <= Max0(maxDepth)
      invariant variants == earlier + [current]
      invariant forall s :: s in seen ==> |current| <= |s|
      invariant Variants(pass, text, maxDepth) == earlier + Variants(pass, current, maxDepth - depth)
    {
      var decoded := pass(current);
      assert SameOrShorter(current, decoded);
      if decoded == current {
        return;
      }
      assert decoded !in seen;
      if decoded !in seen {
        variants := variants + [decoded];
        seen := seen + {decoded};
      }
      earlier := earlier + [current];
      current := decoded;
      depth := depth + 1;
    }
  }
}
