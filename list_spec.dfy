/**
 * Value-level meaning of the operations of bmstu::list<T>.
 *
 * A list is observed through the sequence of values held by its interior
 * nodes (head and tail sentinels excluded).  The functions below say what the
 * two reversals and the lexicographic comparison do to such sequences, in the
 * form the C++ code actually computes them, together with the facts that
 * relate them to the textbook operations.
 */
module ListSpec {

  /** The reversal of a sequence. */
  function Reverse<X>(s: seq<X>): (r: seq<X>)
    ensures |r| == |s|
  {
    if s == [] then [] else Reverse(s[1..]) + [s[0]]
  }

  lemma {:induction false} ReverseAt<X>(s: seq<X>, k: nat)
    requires k < |s|
    ensures Reverse(s)[k] == s[|s| - 1 - k]
  {
    if k < |s| - 1 {
      ReverseAt(s[1..], k);
    }
  }

  /** `s` with the slice `s[lo..hi]` reversed and everything else in place. */
  function ReverseRange<X>(s: seq<X>, lo: nat, hi: nat): (r: seq<X>)
    requires lo <= hi <= |s|
    ensures |r| == |s|
  {
    s[..lo] + Reverse(s[lo..hi]) + s[hi..]
  }

  /** Position by position: inside the slice the mirror element, elsewhere the old one. */
  lemma ReverseRangeAt<X>(s: seq<X>, lo: nat, hi: nat, k: nat)
    requires lo <= hi <= |s| && k < |s|
    ensures |ReverseRange(s, lo, hi)| == |s|
    ensures ReverseRange(s, lo, hi)[k] == if lo <= k < hi then s[lo + hi - 1 - k] else s[k]
  {
    if lo <= k < hi {
      ReverseAt(s[lo..hi], k - lo);
    }
  }

  /** The pointwise description determines ReverseRange. */
  lemma ReverseRangeFromPointwise<X>(s: seq<X>, r: seq<X>, lo: nat, hi: nat)
    requires lo <= hi <= |s| && |r| == |s|
    requires forall k {:trigger r[k]} :: 0 <= k < |s| ==> r[k] == if lo <= k < hi then s[lo + hi - 1 - k] else s[k]
    ensures r == ReverseRange(s, lo, hi)
  {
    forall k | 0 <= k < |s|
      ensures r[k] == ReverseRange(s, lo, hi)[k]
    {
      ReverseRangeAt(s, lo, hi, k);
    }
  }

  /** Reversing the same slice twice gives back the original sequence. */
  lemma ReverseRangeInvolution<X>(s: seq<X>, lo: nat, hi: nat)
    requires lo <= hi <= |s|
    ensures ReverseRange(ReverseRange(s, lo, hi), lo, hi) == s
  {
    var r := ReverseRange(s, lo, hi);
    forall k | 0 <= k < |s|
      ensures ReverseRange(r, lo, hi)[k] == s[k]
    {
      ReverseRangeAt(r, lo, hi, k);
      if lo <= k < hi {
        ReverseRangeAt(s, lo, hi, lo + hi - 1 - k);
      } else {
        ReverseRangeAt(s, lo, hi, k);
      }
    }
  }

  /** Reversing a sequence only rearranges its elements. */
  lemma {:induction false} ReversePermutes<X>(s: seq<X>)
    ensures multiset(Reverse(s)) == multiset(s)
  {
    if s != [] {
      ReversePermutes(s[1..]);
      assert s == [s[0]] + s[1..];
    }
  }

  /**
   * What revers_v computes: the outermost pair of values is exchanged and the
   * walk moves inward while the two cursors are neither equal nor adjacent.
   * For an even length the two middle values are therefore never exchanged.
   */
  function SwapOuter<X>(s: seq<X>): (r: seq<X>)
    ensures |r| == |s|
  {
    if |s| <= 2 then s else [s[|s| - 1]] + SwapOuter(s[1..|s| - 1]) + [s[0]]
  }

  /** Number of value pairs revers_v exchanges in a list of `n` values. */
  function SwappedPairs(n: nat): nat
  {
    if n == 0 then 0 else (n - 1) / 2
  }

  /** Position by position: the first and last SwappedPairs(|s|) values are mirrored, the rest stay. */
  lemma {:induction false} SwapOuterAt<X>(s: seq<X>, k: nat)
    requires k < |s|
    ensures SwapOuter(s)[k] ==
      if k < SwappedPairs(|s|) || k >= |s| - SwappedPairs(|s|) then s[|s| - 1 - k] else s[k]
  {
    var n := |s|;
    if n > 2 {
      var mid, r := s[1..n - 1], SwapOuter(s);
      assert r == [s[n - 1]] + SwapOuter(mid) + [s[0]];
      assert SwappedPairs(n) == SwappedPairs(n - 2) + 1;
      if k == 0 {
        assert r[k] == s[n - 1];
      } else if k == n - 1 {
        assert r[k] == s[0];
      } else {
        SwapOuterAt(mid, k - 1);
        assert r[k] == SwapOuter(mid)[k - 1];
        assert mid[k - 1] == s[k] && mid[n - 2 - 1 - (k - 1)] == s[n - 1 - k];
      }
    }
  }

  /** The pointwise description determines SwapOuter. */
  lemma SwapOuterFromPointwise<X>(s: seq<X>, r: seq<X>)
    requires |r| == |s|
    requires forall k {:trigger r[k]} :: 0 <= k < |s| ==>
      r[k] == if k < SwappedPairs(|s|) || k > |s| - 1 - SwappedPairs(|s|) then s[|s| - 1 - k] else s[k]
    ensures r == SwapOuter(s)
  {
    forall k | 0 <= k < |s|
      ensures r[k] == SwapOuter(s)[k]
    {
      SwapOuterAt(s, k);
    }
  }

  /** For an odd number of values revers_v is an exact reversal. */
  lemma SwapOuterOddIsReverse<X>(s: seq<X>)
    requires |s| % 2 == 1
    ensures SwapOuter(s) == Reverse(s)
  {
    var m := |s| / 2;
    assert |s| == 2 * m + 1;
    forall k | 0 <= k < |s|
      ensures SwapOuter(s)[k] == Reverse(s)[k]
    {
      SwapOuterOddAt(s, m, k);
    }
  }

  lemma {:induction false} SwapOuterOddAt<X>(s: seq<X>, m: nat, k: nat)
    requires |s| == 2 * m + 1 && k < |s|
    ensures SwapOuter(s)[k] == Reverse(s)[k]
  {
    assert SwappedPairs(|s|) == m;
    SwapOuterAt(s, k);
    ReverseAt(s, k);
    if m <= k < |s| - m {
      assert k == m;
    }
  }

  /** For an even number n >= 2 of values the two middle ones keep their places. */
  lemma SwapOuterEvenKeepsMiddle<X>(s: seq<X>)
    requires |s| >= 2 && |s| % 2 == 0
    ensures SwapOuter(s)[|s| / 2 - 1] == s[|s| / 2 - 1]
    ensures SwapOuter(s)[|s| / 2] == s[|s| / 2]
  {
    SwapOuterAt(s, |s| / 2 - 1);
    SwapOuterAt(s, |s| / 2);
  }

  /** {1,2,3,4} becomes {4,2,3,1}, which is not its reversal. */
  lemma SwapOuterOfFour()
    ensures SwapOuter([1, 2, 3, 4]) == [4, 2, 3, 1]
    ensures SwapOuter([1, 2, 3, 4]) != Reverse([1, 2, 3, 4])
  {
    assert Reverse([1, 2, 3, 4])[0] == 4 by { ReverseAt([1, 2, 3, 4], 0); }
    assert Reverse([1, 2, 3, 4])[1] == 3 by { ReverseAt([1, 2, 3, 4], 1); }
  }

  /** Reversing the whole range is the plain reversal. */
  lemma WholeRangeIsReverse<X>(s: seq<X>)
    ensures ReverseRange(s, 0, |s|) == Reverse(s)
  {
    assert s[..0] == [] && s[0..|s|] == s && s[|s|..] == [];
  }

  /**
   * revers_v and revers_n over the whole list leave the same values on every
   * list of odd length; for every even length of 2 or more they differ
   * whenever the two middle values differ, e.g. on {1,2,3,4}.
   */
  lemma ReversalsAgreeOnOdd<X>(s: seq<X>)
    requires |s| % 2 == 1
    ensures SwapOuter(s) == ReverseRange(s, 0, |s|)
  {
    SwapOuterOddIsReverse(s);
    WholeRangeIsReverse(s);
  }

  lemma ReversalsDifferOnEven<X>(s: seq<X>)
    requires |s| >= 2 && |s| % 2 == 0 && s[|s| / 2 - 1] != s[|s| / 2]
    ensures SwapOuter(s) != ReverseRange(s, 0, |s|)
  {
    var m := |s| / 2;
    assert SwapOuter(s)[m] == s[m] by { SwapOuterEvenKeepsMiddle(s); }
    assert ReverseRange(s, 0, |s|)[m] == s[m - 1] by {
      assert |s| - 1 - m == m - 1;
      ReverseRangeAt(s, 0, |s|, m);
    }
  }

  lemma ReversalsDifferOnFour()
    ensures SwapOuter([1, 2, 3, 4]) != ReverseRange([1, 2, 3, 4], 0, 4)
  {
    SwapOuterOfFour();
    WholeRangeIsReverse([1, 2, 3, 4]);
  }

  /** Applying revers_v twice restores the original values. */
  lemma SwapOuterInvolution<X>(s: seq<X>)
    ensures SwapOuter(SwapOuter(s)) == s
  {
    forall k | 0 <= k < |s|
      ensures SwapOuter(SwapOuter(s))[k] == s[k]
    {
      SwapOuterAt(SwapOuter(s), k);
      SwapOuterAt(s, k);
      SwapOuterAt(s, |s| - 1 - k);
    }
  }

  /** revers_v only rearranges the values. */
  lemma {:induction false} SwapOuterPermutes<X>(s: seq<X>)
    ensures multiset(SwapOuter(s)) == multiset(s)
  {
    if |s| > 2 {
      SwapOuterPermutes(s[1..|s| - 1]);
      MultisetOfEnds(s);
      MultisetOfEnds(SwapOuter(s));
    }
  }

  /** A sequence of two or more elements is its two ends plus its middle. */
  lemma MultisetOfEnds<X>(t: seq<X>)
    requires |t| >= 2
    ensures multiset(t) == multiset{t[0], t[|t| - 1]} + multiset(t[1..|t| - 1])
  {
    assert t == [t[0]] + t[1..|t| - 1] + [t[|t| - 1]];
  }

  /**
   * What lexicographical_compare_ computes: the first pair in which one value
   * is below the other decides; if none is found, the answer is whether both
   * sequences ran out together.
   */
  function LexLessAsWritten<X>(a: seq<X>, b: seq<X>, lt: (X, X) -> bool): bool
  {
    if a == [] || b == [] then a == [] && b == []
    else if lt(a[0], b[0]) then true
    else if lt(b[0], a[0]) then false
    else LexLessAsWritten(a[1..], b[1..], lt)
  }

  /** True when no pair among the first k positions has one value below the other. */
  ghost predicate TiedPrefix<X>(a: seq<X>, b: seq<X>, lt: (X, X) -> bool, k: nat)
    requires k <= |a| && k <= |b|
  {
    forall j :: 0 <= j < k ==> !lt(a[j], b[j]) && !lt(b[j], a[j])
  }

  /** After a tied prefix of length k, the comparison is that of the remainders. */
  lemma {:induction false} LexLessAfterTie<X>(a: seq<X>, b: seq<X>, lt: (X, X) -> bool, k: nat)
    requires k <= |a| && k <= |b| && TiedPrefix(a, b, lt, k)
    ensures LexLessAsWritten(a, b, lt) == LexLessAsWritten(a[k..], b[k..], lt)
  {
    if k > 0 {
      assert !lt(a[0], b[0]) && !lt(b[0], a[0]);
      LexLessAfterTie(a[1..], b[1..], lt, k - 1);
      assert a[1..][k - 1..] == a[k..];
      assert b[1..][k - 1..] == b[k..];
    }
  }

  /** The first position where one value is below the other decides `<`. */
  lemma FirstMismatchDecides<X>(a: seq<X>, b: seq<X>, lt: (X, X) -> bool, k: nat)
    requires k < |a| && k < |b| && TiedPrefix(a, b, lt, k)
    requires lt(a[k], b[k]) || lt(b[k], a[k])
    ensures LexLessAsWritten(a, b, lt) == lt(a[k], b[k])
  {
    LexLessAfterTie(a, b, lt, k);
  }

  /** With no deciding pair, `<` holds exactly when the lengths agree. */
  lemma NoMismatchComparesLengths<X>(a: seq<X>, b: seq<X>, lt: (X, X) -> bool)
    requires |a| <= |b| ==> TiedPrefix(a, b, lt, |a|)
    requires |b| < |a| ==> TiedPrefix(a, b, lt, |b|)
    ensures LexLessAsWritten(a, b, lt) == (|a| == |b|)
  {
    if |a| <= |b| {
      LexLessAfterTie(a, b, lt, |a|);
    } else {
      LexLessAfterTie(a, b, lt, |b|);
    }
  }

  /** Hence, for an irreflexive `lt`, every sequence is `<` itself. */
  lemma {:induction false} LexLessAsWrittenReflexive<X>(a: seq<X>, lt: (X, X) -> bool)
    requires forall x :: !lt(x, x)
    ensures LexLessAsWritten(a, a, lt)
  {
    if a != [] {
      LexLessAsWrittenReflexive(a[1..], lt);
    }
  }

  /** ... and a strict prefix is not `<` the longer sequence. */
  lemma {:induction false} LexLessAsWrittenStrictPrefix<X>(a: seq<X>, b: seq<X>, lt: (X, X) -> bool)
    requires forall x :: !lt(x, x)
    requires |a| < |b| && a == b[..|a|]
    ensures !LexLessAsWritten(a, b, lt)
  {
    if a != [] {
      assert a[1..] == b[1..][..|a| - 1];
      LexLessAsWrittenStrictPrefix(a[1..], b[1..], lt);
    }
  }

  /** {1,2,3} < {1,2,4}; {1,2} is not < {1,2,3}; {1,2,3} < {1,2,3}. */
  lemma LexLessAsWrittenExamples()
    ensures LexLessAsWritten([1, 2, 3], [1, 2, 4], (x: int, y: int) => x < y)
    ensures !LexLessAsWritten([1, 2], [1, 2, 3], (x: int, y: int) => x < y)
    ensures LexLessAsWritten([1, 2, 3], [1, 2, 3], (x: int, y: int) => x < y)
  {
    var lt := (x: int, y: int) => x < y;
    assert [1, 2, 3][1..] == [2, 3] && [2, 3][1..] == [3];
    assert [1, 2, 4][1..] == [2, 4] && [2, 4][1..] == [4];
    assert [1, 2][1..] == [2] && [2][1..] == [];
    assert [3][1..] == [] && [4][1..] == [];
  }
}
