/** Base64 (section 4 of RFC 4648) over bytes: a body of alphabet characters and its padding. */
module Base64 {
  import opened Utf8

  predicate InAlphabet(c: char) {
    'A' <= c <= 'Z' || 'a' <= c <= 'z' || '0' <= c <= '9' || c == '+' || c == '/'
  }

  function Digit(n: int): (c: char)
    requires 0 <= n < 64
    ensures InAlphabet(c) && Value(c) == n
  {
    if n < 26 then (n + 65) as char
    else if n < 52 then (n + 71) as char
    else if n < 62 then (n - 4) as char
    else if n == 62 then '+' else '/'
  }

  function Value(c: char): (n: int)
    requires InAlphabet(c)
    ensures 0 <= n < 64
  {
    if 'A' <= c <= 'Z' then c as int - 65
    else if 'a' <= c <= 'z' then c as int - 71
    else if '0' <= c <= '9' then c as int + 4
    else if c == '+' then 62 else 63
  }

  /** The alphabet in the order of its values, and nothing else in it: the capitals, the small
      letters, the digits, the plus sign and the slash. */
  lemma AlphabetInOrder()
    ensures Digit(0) == 'A' && Digit(26) == 'a' && Digit(52) == '0' && Digit(62) == '+' && Digit(63) == '/'
    ensures forall n :: 0 <= n < 61 && n != 25 && n != 51 ==> Digit(n + 1) as int == Digit(n) as int + 1
    ensures forall c :: InAlphabet(c) <==> exists n :: 0 <= n < 64 && Digit(n) == c
  {
    forall c | InAlphabet(c) ensures exists n :: 0 <= n < 64 && Digit(n) == c {
      assert Digit(Value(c)) == c;
    }
  }

  // A group of three bytes (a, b, c) is four six-bit digits (w, x, y, z), and back.

  function W(a: Byte): (w: int) ensures 0 <= w < 64 { a / 4 }
  function X(a: Byte, b: Byte): (x: int) ensures 0 <= x < 64 { a as int % 4 * 16 + b as int / 16 }
  function Y(b: Byte, c: Byte): (y: int) ensures 0 <= y < 64 { b as int % 16 * 4 + c as int / 64 }
  function Z(c: Byte): (z: int) ensures 0 <= z < 64 { c as int % 64 }

  function First(w: int, x: int): Byte requires 0 <= w < 64 && 0 <= x < 64 { w * 4 + x / 16 }
  function Second(x: int, y: int): Byte requires 0 <= x < 64 && 0 <= y < 64 { x % 16 * 16 + y / 4 }
  function Third(y: int, z: int): Byte requires 0 <= y < 64 && 0 <= z < 64 { y % 4 * 64 + z }

  lemma GroupInverse(a: Byte, b: Byte, c: Byte)
    ensures First(W(a), X(a, b)) == a
    ensures Second(X(a, b), Y(b, c)) == b
    ensures Third(Y(b, c), Z(c)) == c
  {
  }

  /** The encoded text without its padding. */
  function Body(b: seq<Byte>): (s: string)
    ensures |s| == (4 * |b| + 2) / 3
    ensures forall i :: 0 <= i < |s| ==> InAlphabet(s[i])
  {
    if |b| == 0 then ""
    else if |b| == 1 then [Digit(W(b[0])), Digit(X(b[0], 0))]
    else if |b| == 2 then [Digit(W(b[0])), Digit(X(b[0], b[1])), Digit(Y(b[1], 0))]
    else
      [Digit(W(b[0])), Digit(X(b[0], b[1])), Digit(Y(b[1], b[2])), Digit(Z(b[2]))] + Body(b[3..])
  }

  function Padding(n: nat): (s: string)
    ensures |s| == (if n % 3 == 0 then 0 else 3 - n % 3)
    ensures forall i :: 0 <= i < |s| ==> s[i] == '='
  {
    if n % 3 == 0 then "" else if n % 3 == 1 then "==" else "="
  }

  function Encode(b: seq<Byte>): string { Body(b) + Padding(|b|) }

  /** Decodes a body; the low bits that do not fill a byte are dropped, as the decoder does. */
  function DecodeBody(s: string): (b: seq<Byte>)
    requires forall i :: 0 <= i < |s| ==> InAlphabet(s[i])
    requires |s| % 4 != 1
    ensures |b| == 3 * |s| / 4
  {
    if |s| == 0 then []
    else if |s| == 2 then [First(Value(s[0]), Value(s[1]))]
    else if |s| == 3 then [First(Value(s[0]), Value(s[1])), Second(Value(s[1]), Value(s[2]))]
    else
      [First(Value(s[0]), Value(s[1])), Second(Value(s[1]), Value(s[2])), Third(Value(s[2]), Value(s[3]))]
      + DecodeBody(s[4..])
  }

  lemma {:induction false} DecodeEncode(b: seq<Byte>)
    ensures |Body(b)| % 4 != 1
    ensures DecodeBody(Body(b)) == b
  {
    hide Digit, Value, W, X, Y, Z, First, Second, Third;
    if b != [] {
      GroupInverse(b[0], if |b| > 1 then b[1] else 0, if |b| > 2 then b[2] else 0);
    }
    if |b| >= 3 {
      DecodeEncode(b[3..]);
      var s := Body(b);
      assert s[4..] == Body(b[3..]);
      assert DecodeBody(s)[..3] == [b[0], b[1], b[2]];
      assert DecodeBody(s)[3..] == b[3..];
    }
  }
}
