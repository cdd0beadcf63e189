/** Decimal text of integers, as str() and std::to_string print them. */
module Decimal {
  import opened Basics

  function OfNat(n: nat): (s: string)
    ensures s != "" && forall i :: 0 <= i < |s| ==> IsDigit(s[i])
  {
    if n < 10 then [(48 + n) as char] else OfNat(n / 10) + [(48 + n % 10) as char]
  }

  function Of(n: int): string { if n < 0 then "-" + OfNat(-n) else OfNat(n) }

  function Value(s: string): nat
    requires forall i :: 0 <= i < |s| ==> IsDigit(s[i])
  {
    if s == "" then 0
    else
      assert IsDigit(s[|s| - 1]);
      10 * Value(s[..|s| - 1]) + (s[|s| - 1] as int - 48)
  }

  lemma {:induction false} ValueOfNat(n: nat)
    ensures Value(OfNat(n)) == n
  {
    if n < 10 {
      assert OfNat(n)[..0] == "";
    } else {
      ValueOfNat(n / 10);
      var s := OfNat(n);
      assert s[..|s| - 1] == OfNat(n / 10);
    }
  }

  /** Different integers print differently. */
  lemma OfInjective(m: int, n: int)
    ensures Of(m) == Of(n) ==> m == n
  {
    if Of(m) == Of(n) {
      assert IsDigit(OfNat(if m < 0 then -m else m)[0]) && IsDigit(OfNat(if n < 0 then -n else n)[0]);
      assert (m < 0) == (Of(m)[0] == '-') && (n < 0) == (Of(n)[0] == '-');
      if m < 0 {
        assert Of(m)[1..] == OfNat(-m) && Of(n)[1..] == OfNat(-n);
      }
      ValueOfNat(if m < 0 then -m else m);
      ValueOfNat(if n < 0 then -n else n);
    }
  }
}
