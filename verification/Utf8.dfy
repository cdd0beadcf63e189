/** UTF-8 (RFC 3629), as used by percent decoding, base64 decoding and the syslog framing:
    the encoder, the strict decoder, and the decoder that replaces each maximal ill-formed
    subpart by U+FFFD. */
module Utf8 {
  import opened Wrappers

  type Byte = b: int | 0 <= b < 256

  const REPLACEMENT: char := '\U{FFFD}'

  function EncodeChar(c: char): (b: seq<Byte>)
    ensures 1 <= |b| <= 4
  {
    var n := c as int;
    if n < 0x80 then [n]
    else if n < 0x800 then [0xC0 + n / 64, 0x80 + n % 64]
    else if n < 0x10000 then [0xE0 + n / 4096, 0x80 + n / 64 % 64, 0x80 + n % 64]
    else [0xF0 + n / 262144, 0x80 + n / 4096 % 64, 0x80 + n / 64 % 64, 0x80 + n % 64]
  }

  function Encode(s: string): (b: seq<Byte>)
    ensures |s| <= |b|
  {
    if s == "" then [] else EncodeChar(s[0]) + Encode(s[1..])
  }

  predicate Continuation(b: Byte) { 0x80 <= b <= 0xBF }

  /** The six payload bits of a continuation byte. */
  function Low(b: Byte): int { b as int - 0x80 }

  /** What a decoder finds at the front of its input: a character or an ill-formed subpart. */
  datatype Front = Front(decoded: Option<char>, length: nat)

  function DecodeFront(b: seq<Byte>): (f: Front)
    requires b != []
    ensures 1 <= f.length <= |b|
  {
    var lead: int := b[0];
    if lead < 0x80 then
      Front(Some(lead as char), 1)
    else if 0xC2 <= lead <= 0xDF then
      if |b| > 1 && Continuation(b[1])
      then Front(Some(((lead - 0xC0) * 64 + Low(b[1])) as char), 2)
      else Front(None, 1)
    else if 0xE0 <= lead <= 0xEF then
      var lo := if lead == 0xE0 then 0xA0 else 0x80;
      var hi := if lead == 0xED then 0x9F else 0xBF;
      if !(|b| > 1 && lo <= b[1] <= hi) then Front(None, 1)
      else if !(|b| > 2 && Continuation(b[2])) then Front(None, 2)
      else Front(Some(((lead - 0xE0) * 4096 + Low(b[1]) * 64 + Low(b[2])) as char), 3)
    else if 0xF0 <= lead <= 0xF4 then
      var lo := if lead == 0xF0 then 0x90 else 0x80;
      var hi := if lead == 0xF4 then 0x8F else 0xBF;
      if !(|b| > 1 && lo <= b[1] <= hi) then Front(None, 1)
      else if !(|b| > 2 && Continuation(b[2])) then Front(None, 2)
      else if !(|b| > 3 && Continuation(b[3])) then Front(None, 3)
      else Front(Some(((lead - 0xF0) * 262144 + Low(b[1]) * 4096
                       + Low(b[2]) * 64 + Low(b[3])) as char), 4)
    else
      Front(None, 1)
  }

  /** `errors="replace"`: never longer than its input. */
  function DecodeReplace(b: seq<Byte>): (s: string)
    ensures |s| <= |b|
  {
    if b == [] then ""
    else
      var f := DecodeFront(b);
      [f.decoded.GetOr(REPLACEMENT)] + DecodeReplace(b[f.length..])
  }

  /** `errors="strict"`: one ill-formed subpart fails the whole input. */
  function DecodeStrict(b: seq<Byte>): (s: Option<string>)
    ensures s.Some? ==> |s.value| <= |b|
  {
    if b == [] then Some("")
    else
      var f := DecodeFront(b);
      var rest := DecodeStrict(b[f.length..]);
      if f.decoded.None? || rest.None? then None else Some([f.decoded.value] + rest.value)
  }

  lemma DecodeReplaceAscii(b: seq<Byte>)
    requires b != [] && b[0] < 0x80
    ensures DecodeReplace(b) == [b[0] as char] + DecodeReplace(b[1..])
  {
  }

  lemma FrontOfEncoded(c: char, rest: seq<Byte>)
    ensures DecodeFront(EncodeChar(c) + rest) == Front(Some(c), |EncodeChar(c)|)
  {
    var n := c as int;
    if n < 0x80 {
    } else if n < 0x800 {
      assert n / 64 * 64 + n % 64 == n;
    } else if n < 0x10000 {
      assert n / 4096 * 4096 + n / 64 % 64 * 64 + n % 64 == n;
    } else {
      assert n / 262144 * 262144 + n / 4096 % 64 * 4096 + n / 64 % 64 * 64 + n % 64 == n;
    }
  }

  /** Both decoders invert the encoder. */
  lemma {:induction false} DecodeEncode(s: string)
    ensures DecodeStrict(Encode(s)) == Some(s)
    ensures DecodeReplace(Encode(s)) == s
  {
    if s != "" {
      FrontOfEncoded(s[0], Encode(s[1..]));
      DecodeEncode(s[1..]);
      assert Encode(s)[|EncodeChar(s[0])|..] == Encode(s[1..]);
      assert [s[0]] + s[1..] == s;
    }
  }

  lemma Payload(a: int, b: int)
    requires 0 <= b < 64
    ensures (a * 64 + b) / 64 == a && (a * 64 + b) % 64 == b
  {
  }

  lemma TwoBytes(b: seq<Byte>)
    requires b != [] && 0xC2 <= b[0] <= 0xDF
    ensures var f := DecodeFront(b);
      f.decoded.Some? ==> EncodeChar(f.decoded.value) == b[..f.length]
  {
    if |b| > 1 {
      Payload(b[0] - 0xC0, Low(b[1]) % 64);
    }
  }

  lemma ThreeBytes(b: seq<Byte>)
    requires b != [] && 0xE0 <= b[0] <= 0xEF
    ensures var f := DecodeFront(b);
      f.decoded.Some? ==> EncodeChar(f.decoded.value) == b[..f.length]
  {
    var f := DecodeFront(b);
    if f.decoded.Some? {
      var x, y, z := b[0] - 0xE0, Low(b[1]), Low(b[2]);
      var n := f.decoded.value as int;
      assert n == (x * 64 + y) * 64 + z;
      Payload(x * 64 + y, z);
      Payload(x, y);
      assert n / 4096 == n / 64 / 64;
    }
  }

  lemma FourBytes(b: seq<Byte>)
    requires b != [] && 0xF0 <= b[0] <= 0xF4
    ensures var f := DecodeFront(b);
      f.decoded.Some? ==> EncodeChar(f.decoded.value) == b[..f.length]
  {
    var f := DecodeFront(b);
    if f.decoded.Some? {
      var w, x, y, z := b[0] - 0xF0, Low(b[1]), Low(b[2]), Low(b[3]);
      var n := f.decoded.value as int;
      assert n == ((w * 64 + x) * 64 + y) * 64 + z;
      Payload((w * 64 + x) * 64 + y, z);
      Payload(w * 64 + x, y);
      Payload(w, x);
      assert n / 4096 == n / 64 / 64 && n / 262144 == n / 64 / 64 / 64;
    }
  }

  /** What the decoder accepts at the front is the encoding of the character it reads: no overlong
      form, no surrogate and nothing above the last code point. */
  lemma FrontIsEncoded(b: seq<Byte>)
    requires b != []
    ensures var f := DecodeFront(b);
      f.decoded.Some? ==> EncodeChar(f.decoded.value) == b[..f.length]
  {
    hide EncodeChar, DecodeFront;
    if b[0] < 0x80 {
      OneByte(b);
    } else if 0xC2 <= b[0] <= 0xDF {
      TwoBytes(b);
    } else if 0xE0 <= b[0] <= 0xEF {
      ThreeBytes(b);
    } else if 0xF0 <= b[0] <= 0xF4 {
      FourBytes(b);
    } else {
      NoFront(b);
    }
  }

  lemma OneByte(b: seq<Byte>)
    requires b != [] && b[0] < 0x80
    ensures DecodeFront(b) == Front(Some(b[0] as char), 1) && EncodeChar(b[0] as char) == b[..1]
  {
  }

  lemma NoFront(b: seq<Byte>)
    requires b != [] && (0x80 <= b[0] < 0xC2 || b[0] > 0xF4)
    ensures DecodeFront(b).decoded == None
  {
  }

  /** Strict decoding succeeds exactly on encodings. */
  lemma StrictIff(b: seq<Byte>)
    ensures DecodeStrict(b).Some? <==> exists s :: Encode(s) == b
    ensures DecodeStrict(b).Some? ==> Encode(DecodeStrict(b).value) == b && DecodeReplace(b) == DecodeStrict(b).value
  {
    hide DecodeFront, EncodeChar;
    StrictSound(b);
    forall s | Encode(s) == b ensures DecodeStrict(b).Some? {
      DecodeEncode(s);
    }
  }

  lemma {:induction false} StrictSound(b: seq<Byte>)
    ensures DecodeStrict(b).Some? ==> Encode(DecodeStrict(b).value) == b && DecodeReplace(b) == DecodeStrict(b).value
    decreases |b|
  {
    hide DecodeFront, EncodeChar;
    if b != [] {
      var f := DecodeFront(b);
      FrontIsEncoded(b);
      StrictSound(b[f.length..]);
      if DecodeStrict(b).Some? {
        var s := DecodeStrict(b).value;
        assert s[1..] == DecodeStrict(b[f.length..]).value;
        assert b == b[..f.length] + b[f.length..];
      }
    }
  }

  // ----- ill-formed input ------------------------------------------------------------------

  /** An encoding cut short and not continued is one ill-formed subpart. */
  lemma CutFront(c: char, k: nat, rest: seq<Byte>)
    requires 0 < k < |EncodeChar(c)| && (rest != [] ==> !Continuation(rest[0]))
    ensures DecodeFront(EncodeChar(c)[..k] + rest) == Front(None, k)
  {
    var b := EncodeChar(c);
    var x := b[..k] + rest;
    assert forall i :: 0 <= i < k ==> x[i] == b[i];
    assert k < |x| ==> x[k] == rest[0];
    FrontOfEncoded(c, []);
    assert b + [] == b;
  }

  /** It is replaced by one character, and so is each byte that can start nothing. */
  lemma ReplacedOnce(c: char, k: nat, stray: Byte, rest: seq<Byte>)
    ensures 0 < k < |EncodeChar(c)| && (rest != [] ==> !Continuation(rest[0])) ==>
      DecodeReplace(EncodeChar(c)[..k] + rest) == ['\U{FFFD}'] + DecodeReplace(rest)
    ensures 0x80 <= stray < 0xC2 || stray > 0xF4 ==>
      DecodeReplace([stray] + rest) == ['\U{FFFD}'] + DecodeReplace(rest)
  {
    hide DecodeFront, EncodeChar;
    if 0 < k < |EncodeChar(c)| && (rest != [] ==> !Continuation(rest[0])) {
      CutFront(c, k, rest);
      assert (EncodeChar(c)[..k] + rest)[k..] == rest;
    }
    if 0x80 <= stray < 0xC2 || stray > 0xF4 {
      StrayFront([stray] + rest);
      assert ([stray] + rest)[1..] == rest;
    }
  }

  lemma StrayFront(b: seq<Byte>)
    requires b != [] && (0x80 <= b[0] < 0xC2 || b[0] > 0xF4)
    ensures DecodeFront(b) == Front(None, 1)
  {
  }
}
