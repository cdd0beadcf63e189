/** What iterated decoding is for: undoing stacks of encodings, each layer either percent-encoding
    every byte (section 2.1 of RFC 3986) or base64 (section 4 of RFC 4648), alone or inside a text. */
module EncodingStack {
  import opened Wrappers
  import opened Utf8
  import opened ContentNormalizer
  import opened DecoderLaws
  import B = Base64

  datatype Layer = Percent | Base64

  function PercentText(b: seq<Byte>): string {
    if b == [] then ""
    else ['%', HexDigit(b[0] / 16), HexDigit(b[0] % 16)] + PercentText(b[1..])
  }

  function Encoded(layer: Layer, t: string): string {
    match layer
    case Percent => PercentText(Encode(t))
    case Base64 => B.Encode(Encode(t))
  }

  /** The plaintext under a stack of layers, outermost first. */
  function Wrap(layers: seq<Layer>, p: string): string {
    if layers == [] then p else Encoded(layers[0], Wrap(layers[1..], p))
  }

  /** A text whose base64 form the normalizer recognises: long enough and mostly printable. */
  predicate Recognised(lib: Library, t: string) {
    |Encode(t)| >= 24 && LooksLikeText(lib, t)
  }

  /** Every base64 layer of the stack covers a recognisable text. */
  predicate Decodable(lib: Library, layers: seq<Layer>, p: string) {
    layers == [] ||
    ((layers[0] == Base64 ==> Recognised(lib, Wrap(layers[1..], p)))
     && Decodable(lib, layers[1..], p))
  }

  /** The layers left after one pass: a percent layer and the base64 layer under it go together. */
  function Peeled(lib: Library, layers: seq<Layer>, p: string): seq<Layer> {
    if layers == [] then []
    else if layers[0] == Base64 then
      if Recognised(lib, Wrap(layers[1..], p)) then layers[1..] else layers
    else if |layers| > 1 && layers[1] == Base64 && Recognised(lib, Wrap(layers[2..], p)) then layers[2..]
    else layers[1..]
  }

  // ----- percent text ----------------------------------------------------------------------

  lemma {:induction false} PercentTextShape(b: seq<Byte>)
    ensures var t := PercentText(b);
      && |t| == 3 * |b|
      && forall i :: 0 <= i < |t| ==> if i % 3 == 0 then t[i] == '%' else IsHex(t[i])
  {
    if b != [] {
      PercentTextShape(b[1..]);
      var t := PercentText(b);
      assert forall i :: 3 <= i < |t| ==> t[i] == PercentText(b[1..])[i - 3];
    }
  }

  lemma {:induction false} UnquotePercentText(b: seq<Byte>, rest: string)
    requires forall i :: 0 <= i < |PercentText(b) + rest| ==> IsAscii((PercentText(b) + rest)[i])
    ensures forall i :: 0 <= i < |rest| ==> IsAscii(rest[i])
    ensures UnquoteBytes(PercentText(b) + rest) == b + UnquoteBytes(rest)
  {
    hide IsAscii, UnquoteBytes;
    var t := PercentText(b) + rest;
    assert forall i :: 0 <= i < |rest| ==> rest[i] == t[|PercentText(b)| + i];
    if b == [] {
      assert t == rest;
    } else {
      var tail := PercentText(b[1..]) + rest;
      assert t[3..] == tail;
      assert forall i :: 0 <= i < |tail| ==> tail[i] == t[i + 3];
      UnquotePercentText(b[1..], rest);
      EscapeReplaced(t);
      assert b == [b[0]] + b[1..];
    }
  }

  // ----- text around an encoded secret -----------------------------------------------------

  /** A place in a text. */
  datatype Site = Site(before: string, after: string) {
    function Put(t: string): string { before + t + after }
  }

  /** No run of base64 characters in t is long enough to be a blob. */
  predicate ShortRuns(t: string) {
    forall i :: 0 <= i < |t| ==> Span(t[i..], B.InAlphabet) < MIN_B64_LENGTH
  }

  /** No decoder finds anything in the text itself. */
  predicate Calm(t: string) { '%' !in t && '&' !in t && ShortRuns(t) }

  /** The text around the place is calm, and does not continue a base64 blob put there. */
  predicate Harmless(s: Site) {
    && Calm(s.before) && Calm(s.after)
    && (s.before != "" ==> !B.InAlphabet(s.before[|s.before| - 1]))
    && (s.after != "" ==> !B.InAlphabet(s.after[0]) && s.after[0] != '=')
  }

  /** Percent decoding undoes percent-encoding inside a text. */
  lemma UrlUndoesPercent(s: Site, t: string)
    requires t != "" && '%' !in s.before && '%' !in s.after
    ensures UrlDecode(s.Put(Encoded(Percent, t))) == s.Put(t)
  {
    PercentTextShape(Encode(t));
    assert s.Put(Encoded(Percent, t))[|s.before|] == '%';
    UnquoteAround(s.before, t, s.after);
  }

  lemma {:induction false} UnquoteAround(a: string, t: string, c: string)
    requires t != "" && '%' !in a && '%' !in c
    ensures Unquote(a + Encoded(Percent, t) + c) == a + t + c
    decreases |a|
  {
    hide UnquoteBytes, DecodeReplace, Encoded, Unquote, IsAscii;
    var e := Encoded(Percent, t);
    var k := Span(a, IsAscii);
    if k == |a| {
      var h := Span(c, IsAscii);
      AsciiRun(a, t, c[..h]);
      UnquoteRun(a + e + c[..h], c[h..]);
      UnquoteNothing(c[h..]);
      assert a + e + c[..h] + c[h..] == a + e + c;
      assert a + t + c[..h] + c[h..] == a + t + c;
    } else if k == 0 {
      UnquoteAround(a[1..], t, c);
      UnquoteOther(a[0], a[1..] + e + c);
      assert [a[0]] + (a[1..] + e + c) == a + e + c;
      assert [a[0]] + (a[1..] + t + c) == a + t + c;
    } else {
      UnquoteAround(a[k..], t, c);
      PlainRun(a[..k]);
      assert (a[k..] + e + c)[0] == a[k];
      UnquoteRun(a[..k], a[k..] + e + c);
      assert a[..k] + (a[k..] + e + c) == a + e + c;
      assert a[..k] + (a[k..] + t + c) == a + t + c;
    }
  }

  lemma UnquoteRun(run: string, rest: string)
    requires run != "" && (forall i :: 0 <= i < |run| ==> IsAscii(run[i])) && (rest != "" ==> !IsAscii(rest[0]))
    ensures Unquote(run + rest) == DecodeReplace(UnquoteBytes(run)) + Unquote(rest)
  {
    hide UnquoteBytes, DecodeReplace, IsAscii;
    var x := run + rest;
    assert rest != "" ==> x[|run|] == rest[0];
    SpanIs(x, IsAscii, |run|);
    assert x[..|run|] == run && x[|run|..] == rest;
  }

  lemma UnquoteOther(c: char, rest: string)
    requires !IsAscii(c)
    ensures Unquote([c] + rest) == [c] + Unquote(rest)
  {
    assert ([c] + rest)[1..] == rest;
  }

  /** One ASCII run that holds the percent text is unquoted to the run with the plain text. */
  lemma AsciiRun(a: string, t: string, c: string)
    requires t != "" && '%' !in a && '%' !in c
    requires (forall i :: 0 <= i < |a| ==> IsAscii(a[i])) && (forall i :: 0 <= i < |c| ==> IsAscii(c[i]))
    ensures var x := a + Encoded(Percent, t) + c;
      x != "" && (forall i :: 0 <= i < |x| ==> IsAscii(x[i])) && DecodeReplace(UnquoteBytes(x)) == a + t + c
  {
    hide UnquoteBytes, DecodeReplace, PercentText, Encode;
    var e := Encoded(Percent, t);
    PercentTextShape(Encode(t));
    var x := a + (e + c);
    assert forall i :: 0 <= i < |x| ==> IsAscii(x[i]);
    UnquotePlain(a, e + c);
    UnquotePercentText(Encode(t), c);
    assert UnquoteBytes(x) == Encode(a) + (Encode(t) + UnquoteBytes(c));
    RunBytes(c);
    EncodeConcat(t, c);
    EncodeConcat(a, t + c);
    assert a + e + c == x && a + (t + c) == a + t + c;
    DecodeEncode(a + t + c);
  }

  lemma RunBytes(c: string)
    requires '%' !in c && forall i :: 0 <= i < |c| ==> IsAscii(c[i])
    ensures UnquoteBytes(c) == Encode(c)
  {
    hide Encode;
    assert c + "" == c;
    UnquotePlain(c, "");
    assert Encode(c) + UnquoteBytes("") == Encode(c);
  }

  lemma PercentInert(lib: Library, s: Site, t: string)
    requires Harmless(s)
    ensures var x := s.Put(Encoded(Percent, t));
      HtmlEntityDecode(lib, x) == x && Base64DecodeEmbedded(lib, x) == x
  {
    var e := Encoded(Percent, t);
    PercentTextShape(Encode(t));
    forall i | 0 <= i < |e| ensures e[i] != '&' && Span(e[i..], B.InAlphabet) < MIN_B64_LENGTH {
      assert if i % 3 == 0 then e[i] == '%' else IsHex(e[i]);
      PercentRuns(e, i);
    }
    RunsJoin(s.before, e);
    RunsJoin(s.before + e, s.after);
    ShortRunsInert(lib, s.Put(e));
  }

  lemma PercentRuns(e: string, i: nat)
    requires i < |e| && |e| % 3 == 0
    requires forall k :: 0 <= k < |e| && k % 3 == 0 ==> e[k] == '%'
    ensures Span(e[i..], B.InAlphabet) <= 2
  {
    var next := if i % 3 == 0 then i else i + 3 - i % 3;
    assert next < |e| ==> e[i..][next - i] == '%';
  }

  lemma ShortRunsInert(lib: Library, t: string)
    requires ShortRuns(t)
    ensures Base64DecodeEmbedded(lib, t) == t
  {
    forall i | 0 <= i < |t| ensures BlobLength(t[i..]) == 0 {
      assert Span(t[i..], B.InAlphabet) < MIN_B64_LENGTH;
    }
    SubInert(BlobLength, BlobDecoder(lib), t);
  }

  /** Where one of two texts ends or starts outside the alphabet, no run crosses. */
  predicate Apart(x: string, y: string) {
    x == "" || y == "" || !B.InAlphabet(x[|x| - 1]) || !B.InAlphabet(y[0])
  }

  lemma RunStops(x: string, y: string, i: nat)
    requires i < |x| && Apart(x, y)
    ensures Span((x + y)[i..], B.InAlphabet) == Span(x[i..], B.InAlphabet)
  {
    hide B.InAlphabet;
    var n, t := Span(x[i..], B.InAlphabet), (x + y)[i..];
    assert forall k :: 0 <= k < |x| - i ==> t[k] == x[i..][k];
    if i + n < |x| {
      assert t[n] == x[i..][n];
    } else {
      assert x[i..][|x| - i - 1] == x[|x| - 1];
      assert y != "" ==> t[n] == y[0];
    }
  }

  lemma RunsJoin(x: string, y: string)
    requires ShortRuns(x) && ShortRuns(y) && Apart(x, y)
    ensures ShortRuns(x + y)
  {
    forall i | 0 <= i < |x + y| ensures Span((x + y)[i..], B.InAlphabet) < MIN_B64_LENGTH {
      if i < |x| {
        RunStops(x, y, i);
      } else {
        assert (x + y)[i..] == y[i - |x|..];
      }
    }
  }

  // ----- base64 text -----------------------------------------------------------------------

  lemma Base64Shape(t: string)
    ensures var e := Encoded(Base64, t);
      && '%' !in e && '&' !in e
      && Span(e, B.InAlphabet) == |B.Body(Encode(t))|
  {
    var body, pad := B.Body(Encode(t)), B.Padding(|Encode(t)|);
    var e := body + pad;
    forall i | 0 <= i < |e| ensures e[i] != '%' && e[i] != '&' {
      assert i < |body| ==> B.InAlphabet(body[i]);
      assert i >= |body| ==> pad[i - |body|] == '=';
    }
    assert pad != "" ==> e[|body|] == '=';
  }

  /** What the decoder leaves in place of a base64 text: what it encodes, if that is recognised. */
  function Revealed(lib: Library, t: string): string {
    if Recognised(lib, t) then t else Encoded(Base64, t)
  }

  /** A base64 text inside a text is replaced exactly when what it encodes is recognised, and what
      follows is decoded on. */
  lemma Base64Step(lib: Library, s: Site, t: string)
    requires ShortRuns(s.before) && Apart(s.before, "A")
    requires s.after != "" ==> !B.InAlphabet(s.after[0]) && s.after[0] != '='
    ensures Base64DecodeEmbedded(lib, s.Put(Encoded(Base64, t)))
         == s.before + Revealed(lib, t) + Base64DecodeEmbedded(lib, s.after)
  {
    if |B.Body(Encode(t))| < MIN_B64_LENGTH {
      ShortBlob(lib, s, t);
    } else {
      LongBlob(lib, s, t);
      BlobShown(lib, t);
    }
  }

  lemma BlobShown(lib: Library, t: string)
    requires |B.Body(Encode(t))| >= MIN_B64_LENGTH
    ensures BlobDecoder(lib)(Encoded(Base64, t)) == Revealed(lib, t)
  {
    hide DecodeBlob, Encoded, Encode, B.Body, LooksLikeText;
    BlobDecodes(t);
  }

  lemma LongBlob(lib: Library, s: Site, t: string)
    requires ShortRuns(s.before) && Apart(s.before, "A")
    requires s.after != "" ==> !B.InAlphabet(s.after[0]) && s.after[0] != '='
    requires |B.Body(Encode(t))| >= MIN_B64_LENGTH
    ensures Base64DecodeEmbedded(lib, s.Put(Encoded(Base64, t)))
         == s.before + BlobDecoder(lib)(Encoded(Base64, t)) + Base64DecodeEmbedded(lib, s.after)
  {
    hide Encoded, BlobDecoder, B.Body, Encode, Sub;
    var e := Encoded(Base64, t);
    var x := s.before + (e + s.after);
    assert s.Put(e) == x;
    BlobIsWhole(t, s.after);
    forall i | 0 <= i < |s.before| ensures BlobLength(x[i..]) == 0 {
      RunStops(s.before, e + s.after, i);
    }
    SubFirst(BlobLength, BlobDecoder(lib), s.before, e, s.after);
  }

  lemma ShortBlob(lib: Library, s: Site, t: string)
    requires ShortRuns(s.before) && Apart(s.before, "A")
    requires s.after != "" ==> !B.InAlphabet(s.after[0])
    requires |B.Body(Encode(t))| < MIN_B64_LENGTH
    ensures Base64DecodeEmbedded(lib, s.Put(Encoded(Base64, t)))
         == s.Put(Encoded(Base64, t))[..|s.before| + |Encoded(Base64, t)|] + Base64DecodeEmbedded(lib, s.after)
  {
    var e := Encoded(Base64, t);
    Base64Shape(t);
    forall i | 0 <= i < |e| ensures Span(e[i..], B.InAlphabet) < MIN_B64_LENGTH {
      var run := Span(e[i..], B.InAlphabet);
      var n := |B.Body(Encode(t))|;
      if i + run > n {
        assert e[i..][if i < n then n - i else 0] == '=';
      }
    }
    RunsJoin(s.before, e);
    var front := s.before + e;
    forall i | 0 <= i < |front| ensures BlobLength((front + s.after)[i..]) == 0 {
      RunStops(front, s.after, i);
    }
    SubSkips(BlobLength, BlobDecoder(lib), front, s.after);
    assert s.Put(e)[..|front|] == front;
  }

  lemma BlobIsWhole(t: string, after: string)
    requires |B.Body(Encode(t))| >= MIN_B64_LENGTH
    requires after != "" ==> !B.InAlphabet(after[0]) && after[0] != '='
    ensures BlobLength(Encoded(Base64, t) + after) == |Encoded(Base64, t)| > 0
  {
    hide B.Body, B.Padding, B.InAlphabet, Encode;
    EqualsPlain();
    PaddedBlob(B.Body(Encode(t)), B.Padding(|Encode(t)|), after);
  }

  lemma PaddedBlob(body: string, pad: string, after: string)
    requires |body| >= MIN_B64_LENGTH && |pad| <= 2 && !B.InAlphabet('=')
    requires forall i :: 0 <= i < |body| ==> B.InAlphabet(body[i])
    requires forall i :: 0 <= i < |pad| ==> pad[i] == '='
    requires after != "" ==> !B.InAlphabet(after[0]) && after[0] != '='
    ensures BlobLength(body + pad + after) == |body + pad|
  {
    hide B.InAlphabet;
    var x := body + pad + after;
    var tail := pad + after;
    assert x[|body|..] == tail;
    assert |body| < |x| ==> x[|body|] == tail[0];
    SpanIs(x, B.InAlphabet, |body|);
    assert |pad| < |tail| ==> tail[|pad|] == after[0];
    SpanIs(tail, IsPad, |pad|);
  }

  lemma BlobParts(body: string, pad: string)
    requires forall i :: 0 <= i < |body| ==> B.InAlphabet(body[i])
    requires forall i :: 0 <= i < |pad| ==> pad[i] == '='
    requires |body| % 4 != 1 && (|body| + |pad|) % 4 == 0 && |pad| < 3
    ensures DecodeBlob(body + pad) == DecodeStrict(B.DecodeBody(body))
  {
    hide DecodeStrict, B.DecodeBody, Span;
    var e := body + pad;
    assert pad != "" ==> e[|body|] == '=';
    assert Span(e, B.InAlphabet) == |body|;
    assert e[..|body|] == body;
  }

  /** With the padding left out, and with up to two equals signs whether they fit or not; the one
      case that is refused is two of them where one is due. */
  lemma PaddingOptional(t: string, pad: string)
    requires pad in {"", "=", "=="}
    ensures DecodeBlob(B.Body(Encode(t)) + pad)
         == if |Encode(t)| % 3 == 2 && |pad| == 2 then None else Some(t)
  {
    hide DecodeStrict, B.DecodeBody, B.Body, Encode, Span;
    var bytes := Encode(t);
    var body := B.Body(bytes);
    B.DecodeEncode(bytes);
    DecodeEncode(t);
    EqualsPlain();
    var e := body + pad;
    assert |body| < |e| ==> e[|body|] == '=';
    SpanIs(e, B.InAlphabet, |body|);
    assert e[..|body|] == body;
  }

  /** A blob of bytes that are not UTF-8 is left as it is. */
  lemma BinaryBlobKept(lib: Library, bytes: seq<Byte>)
    requires forall t :: Encode(t) != bytes
    ensures BlobDecoder(lib)(B.Encode(bytes)) == B.Encode(bytes)
  {
    hide DecodeStrict, B.DecodeBody, B.Body, B.Padding, Encode;
    B.DecodeEncode(bytes);
    BlobParts(B.Body(bytes), B.Padding(|bytes|));
    StrictIff(bytes);
  }

  lemma BlobDecodes(t: string)
    ensures DecodeBlob(Encoded(Base64, t)) == Some(t)
  {
    hide DecodeStrict, B.DecodeBody, B.Body, B.Padding, Encode, DecodeBlob;
    var bytes := Encode(t);
    B.DecodeEncode(bytes);
    BlobParts(B.Body(bytes), B.Padding(|bytes|));
    DecodeEncode(t);
  }

  // ----- one pass peels the stack ----------------------------------------------------------

  lemma EncodedLonger(layer: Layer, t: string)
    requires t != ""
    ensures |Encoded(layer, t)| > |t|
  {
    PercentTextShape(Encode(t));
  }

  lemma {:induction false} WrapLonger(layers: seq<Layer>, p: string)
    requires p != ""
    ensures |Wrap(layers, p)| >= |p| + |layers|
  {
    if layers != [] {
      WrapLonger(layers[1..], p);
      EncodedLonger(layers[0], Wrap(layers[1..], p));
    }
  }

  /** What the decoders after percent decoding make of a text. */
  function Settle(lib: Library, t: string): string {
    Base64DecodeEmbedded(lib, HtmlEntityDecode(lib, t))
  }

  /** The text under a percent layer, if it is itself encoded. */
  lemma BeneathPercent(lib: Library, s: Site, layers: seq<Layer>, p: string)
    requires layers != [] && Harmless(s)
    ensures Settle(lib, s.Put(Wrap(layers, p)))
         == s.Put(if layers[0] == Base64 && Recognised(lib, Wrap(layers[1..], p))
                  then Wrap(layers[1..], p) else Wrap(layers, p))
  {
    if layers[0] == Percent {
      PercentInert(lib, s, Wrap(layers[1..], p));
    } else {
      Base64Around(lib, s, Wrap(layers[1..], p));
    }
  }

  /** One pass over a base64 text in harmless surroundings. */
  lemma Base64Around(lib: Library, s: Site, t: string)
    requires Harmless(s)
    ensures var x := s.Put(Encoded(Base64, t));
      '%' !in x && HtmlEntityDecode(lib, x) == x && Base64DecodeEmbedded(lib, x) == s.Put(Revealed(lib, t))
  {
    hide ShortRuns;
    Base64Shape(t);
    Base64Step(lib, s, t);
    ShortRunsInert(lib, s.after);
  }

  /** One pass over a stack leaves exactly the peeled stack, but for a last percent layer, where
      the other two decoders run over the plaintext in its place. */
  lemma Peel(lib: Library, s: Site, layers: seq<Layer>, p: string)
    requires p != "" && layers != [] && Harmless(s)
    ensures DecodePass(lib, s.Put(Wrap(layers, p)))
         == if layers == [Percent] then Settle(lib, s.Put(p)) else s.Put(Wrap(Peeled(lib, layers, p), p))
  {
    hide Harmless, Site.Put, ShortRuns;
    var beneath := Wrap(layers[1..], p);
    WrapLonger(layers[1..], p);
    if layers[0] == Percent {
      HarmlessPlain(s);
      UrlUndoesPercent(s, beneath);
      if |layers| > 1 {
        BeneathPercent(lib, s, layers[1..], p);
        assert layers[1..][1..] == layers[2..];
      }
    } else {
      Base64Around(lib, s, beneath);
    }
  }

  lemma HarmlessPlain(s: Site)
    requires Harmless(s)
    ensures '%' !in s.before && '%' !in s.after
  {
  }

  /** A stack whose innermost layer is a percent layer leaves its plaintext to the HTML and base64
      decoders of the same pass. */
  predicate Exposed(layers: seq<Layer>) {
    layers != [] && layers[|layers| - 1] == Percent
  }

  /** These two decoders leave a text alone. */
  predicate Kept(lib: Library, t: string) {
    HtmlEntityDecode(lib, t) == t && Base64DecodeEmbedded(lib, t) == t
  }

  lemma SettleShortens(lib: Library, t: string)
    requires lib.Valid()
    ensures SameOrShorter(t, Settle(lib, t))
    ensures Settle(lib, t) == t <==> Kept(lib, t)
  {
    SubShortens(ReferenceLength, lib.charref, t);
    TryDecodeShortens(lib);
    SubShortens(BlobLength, BlobDecoder(lib), HtmlEntityDecode(lib, t));
  }

  /** At its place, the pass turns every stack over p into its peeled stack, and the last percent
      layer into `last`. */
  ghost predicate Peels(pass: string -> string, lib: Library, s: Site, p: string, last: string) {
    forall layers :: layers != [] ==>
      pass(s.Put(Wrap(layers, p)))
        == if layers == [Percent] then last else s.Put(Wrap(Peeled(lib, layers, p), p))
  }

  lemma {:induction false} Undone(pass: string -> string, lib: Library, s: Site, layers: seq<Layer>,
                                  p: string, last: string, maxDepth: nat)
    requires Peels(pass, lib, s, p, last) && (Exposed(layers) ==> last == s.Put(p))
    requires |layers| <= maxDepth && Decodable(lib, layers, p)
    ensures s.Put(p) in Variants(pass, s.Put(Wrap(layers, p)), maxDepth)
    decreases maxDepth
  {
    hide Encoded, Site.Put;
    if layers != [] {
      PeeledDecodable(lib, layers, p);
      var next := if layers == [Percent] then [] else Peeled(lib, layers, p);
      Undone(pass, lib, s, next, p, last, maxDepth - 1);
      assert pass(s.Put(Wrap(layers, p))) == s.Put(Wrap(next, p));
      VariantsStep(pass, s.Put(Wrap(layers, p)), maxDepth);
    }
  }

  lemma VariantsStep(pass: string -> string, t: string, maxDepth: nat)
    requires maxDepth > 0
    ensures forall v :: v in Variants(pass, pass(t), maxDepth - 1) ==> v in Variants(pass, t, maxDepth)
  {
  }

  lemma PeeledDecodable(lib: Library, layers: seq<Layer>, p: string)
    requires layers != []
    ensures Decodable(lib, layers, p) <==> Decodable(lib, Peeled(lib, layers, p), p)
    ensures Decodable(lib, layers, p) ==> |Peeled(lib, layers, p)| < |layers|
    ensures !Decodable(lib, layers, p) ==> Peeled(lib, layers, p) != [] && layers != [Percent]
    ensures Peeled(lib, layers, p) != [] ==> (Exposed(Peeled(lib, layers, p)) <==> Exposed(layers))
    ensures Peeled(lib, layers, p) == [] && Exposed(layers) ==> layers == [Percent]
  {
    if |layers| > 1 {
      assert layers[1..][1..] == layers[2..];
    }
  }

  lemma NonemptyStack(lib: Library, layers: seq<Layer>, p: string)
    ensures !Decodable(lib, layers, p) ==> layers != []
  {
  }

  lemma PutLonger(s: Site, layers: seq<Layer>, p: string)
    requires p != "" && layers != []
    ensures |s.Put(Wrap(layers, p))| > |s.Put(p)|
  {
    WrapLonger(layers, p);
  }

  /** A stack that gets stuck on a base64 layer never shows its plaintext. */
  lemma {:induction false} Stuck(pass: string -> string, lib: Library, s: Site, layers: seq<Layer>,
                                 p: string, last: string, maxDepth: nat)
    requires Peels(pass, lib, s, p, last)
    requires p != "" && !Decodable(lib, layers, p)
    ensures s.Put(p) !in Variants(pass, s.Put(Wrap(layers, p)), maxDepth)
    decreases maxDepth
  {
    hide Encoded, Recognised, Decodable, Peeled, Site.Put;
    NonemptyStack(lib, layers, p);
    PutLonger(s, layers, p);
    PeeledDecodable(lib, layers, p);
    if maxDepth > 0 {
      Stuck(pass, lib, s, Peeled(lib, layers, p), p, last, maxDepth - 1);
      assert pass(s.Put(Wrap(layers, p))) == s.Put(Wrap(Peeled(lib, layers, p), p));
    }
  }

  /** Neither does one whose plaintext is decoded further in the pass that reaches it. */
  lemma {:induction false} Overrun(pass: string -> string, lib: Library, s: Site, layers: seq<Layer>,
                                   p: string, last: string, maxDepth: nat)
    requires Peels(pass, lib, s, p, last) && Shortening(pass)
    requires p != "" && Exposed(layers) && |last| < |s.Put(p)|
    ensures s.Put(p) !in Variants(pass, s.Put(Wrap(layers, p)), maxDepth)
    decreases maxDepth
  {
    hide Encoded, Recognised, Decodable, Peeled, Site.Put;
    PutLonger(s, layers, p);
    PeeledDecodable(lib, layers, p);
    if maxDepth > 0 {
      if layers == [Percent] {
        VariantsBelow(pass, last, s.Put(p), maxDepth - 1);
      } else {
        Overrun(pass, lib, s, Peeled(lib, layers, p), p, last, maxDepth - 1);
        assert pass(s.Put(Wrap(layers, p))) == s.Put(Wrap(Peeled(lib, layers, p), p));
      }
    }
  }

  lemma VariantsBelow(pass: string -> string, t: string, p: string, maxDepth: nat)
    requires Shortening(pass) && |t| < |p|
    ensures p !in Variants(pass, t, maxDepth)
  {
    VariantsShrink(pass, t, maxDepth);
  }

  /** The main theorem: within the depth cap, a text with a secret in it is among the variants of
      the text with the stack in its place exactly when every base64 layer covers a recognisable
      text and, if the innermost layer is a percent layer, the HTML and base64 decoders leave the
      text with the secret alone. */
  lemma EmbeddedStackUndoneIff(lib: Library, s: Site, layers: seq<Layer>, p: string, maxDepth: nat)
    requires lib.Valid() && Harmless(s)
    requires p != "" && |layers| <= maxDepth
    ensures s.Put(p) in Variants(Decoder(lib), s.Put(Wrap(layers, p)), maxDepth) <==>
            Decodable(lib, layers, p) && (Exposed(layers) ==> Kept(lib, s.Put(p)))
  {
    hide Kept, Settle, Harmless, Site.Put;
    var last := Settle(lib, s.Put(p));
    forall ls | ls != []
      ensures Decoder(lib)(s.Put(Wrap(ls, p)))
           == if ls == [Percent] then last else s.Put(Wrap(Peeled(lib, ls, p), p))
    {
      Peel(lib, s, ls, p);
    }
    assert Peels(Decoder(lib), lib, s, p, last);
    SettleShortens(lib, s.Put(p));
    DecoderShortens(lib);
    if !Decodable(lib, layers, p) {
      Stuck(Decoder(lib), lib, s, layers, p, last, maxDepth);
    } else if Exposed(layers) && !Kept(lib, s.Put(p)) {
      Overrun(Decoder(lib), lib, s, layers, p, last, maxDepth);
    } else {
      Undone(Decoder(lib), lib, s, layers, p, last, maxDepth);
    }
  }

  /** The same for a stack that is the whole text. */
  lemma StackUndoneIff(lib: Library, layers: seq<Layer>, p: string, maxDepth: nat)
    requires lib.Valid()
    requires p != "" && |layers| <= maxDepth
    ensures p in Variants(Decoder(lib), Wrap(layers, p), maxDepth) <==>
            Decodable(lib, layers, p) && (Exposed(layers) ==> Kept(lib, p))
  {
    hide Kept, Wrap, Variants;
    var s := Site("", "");
    assert s.Put(p) == p && s.Put(Wrap(layers, p)) == Wrap(layers, p);
    EmbeddedStackUndoneIff(lib, s, layers, p, maxDepth);
  }

  // ----- long printable plaintexts ---------------------------------------------------------

  lemma {:induction false} GraphicIsText(lib: Library, t: string)
    requires lib.Valid()
    requires forall i :: 0 <= i < |t| ==> 0x20 <= t[i] as int < 0x7F
    ensures PrintableCount(lib, t) == |t|
  {
    if t != "" { GraphicIsText(lib, t[1..]); }
  }

  lemma EncodedIsText(lib: Library, layer: Layer, t: string)
    requires lib.Valid()
    requires t != ""
    ensures LooksLikeText(lib, Encoded(layer, t))
  {
    var e := Encoded(layer, t);
    PercentTextShape(Encode(t));
    forall i | 0 <= i < |e| ensures 0x20 <= e[i] as int < 0x7F {
      if layer == Base64 {
        var body, pad := B.Body(Encode(t)), B.Padding(|Encode(t)|);
        assert i < |body| ==> B.InAlphabet(body[i]);
        assert i >= |body| ==> pad[i - |body|] == '=';
      }
    }
    GraphicIsText(lib, e);
    EncodedLonger(layer, t);
  }

  /** Any stack over a printable plaintext of at least 24 bytes is undone. */
  lemma {:induction false} LongTextDecodable(lib: Library, layers: seq<Layer>, p: string)
    requires lib.Valid()
    requires Recognised(lib, p)
    ensures Decodable(lib, layers, p)
    ensures Recognised(lib, Wrap(layers, p))
  {
    if layers != [] {
      LongTextDecodable(lib, layers[1..], p);
      var t := Wrap(layers[1..], p);
      EncodedIsText(lib, layers[0], t);
      EncodedBytes(layers[0], t);
    }
  }

  lemma EncodedBytes(layer: Layer, t: string)
    ensures |Encode(Encoded(layer, t))| >= |Encode(t)|
  {
    PercentTextShape(Encode(t));
  }

  lemma StackUndone(lib: Library, layers: seq<Layer>, p: string, maxDepth: nat)
    requires lib.Valid()
    requires Recognised(lib, p) && |layers| <= maxDepth
    ensures p in Variants(Decoder(lib), Wrap(layers, p), maxDepth) <==> (Exposed(layers) ==> Kept(lib, p))
  {
    LongTextDecodable(lib, layers, p);
    StackUndoneIff(lib, layers, p, maxDepth);
  }
}
