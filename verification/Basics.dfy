/** Arithmetic and text helpers that several modules share. */
module Basics {
  function Min(a: int, b: int): int { if a <= b then a else b }

  function Max(a: int, b: int): int { if a <= b then b else a }

  function Max0(n: int): nat { if n < 0 then 0 else n }

  predicate IsDigit(c: char) { '0' <= c <= '9' }

  predicate EndsWith(s: string, suffix: string) {
    |suffix| <= |s| && s[|s| - |suffix|..] == suffix
  }

  /** The positions of the elements that satisfy p. */
  function Where<T>(s: seq<T>, p: T -> bool): set<nat> { set i: nat | i < |s| && p(s[i]) }

  /** Counting them from the front. */
  lemma WhereFirst<T>(s: seq<T>, p: T -> bool)
    requires s != []
    ensures |Where(s, p)| == (if p(s[0]) then 1 else 0) + |Where(s[1..], p)|
  {
    var all, tail := Where(s, p), Where(s[1..], p);
    var shifted := set i: nat | i in tail :: i + 1;
    Shifted(tail);
    var first: set<nat> := if p(s[0]) then {0} else {};
    assert all == first + shifted by {
      forall i: nat ensures i in all <==> i in first + shifted {
        if i > 0 {
          assert i < |s| ==> s[i] == s[1..][i - 1];
          assert i in shifted <==> i - 1 in tail;
        }
      }
    }
  }

  lemma {:induction false} Shifted(s: set<nat>)
    ensures |set i: nat | i in s :: i + 1| == |s|
  {
    if s != {} {
      var x :| x in s;
      Shifted(s - {x});
      var before, after := set i: nat | i in s - {x} :: i + 1, set i: nat | i in s :: i + 1;
      assert after == before + {x + 1} by {
        forall j: nat ensures j in after <==> j in before + {x + 1} {
          if j > 0 {
            var i: nat := j - 1;
            assert j in after <==> i in s;
            assert j in before <==> i in s - {x};
          }
        }
      }
    }
  }
}
