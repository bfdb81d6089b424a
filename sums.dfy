/** Sequence helpers: integer sums, reversal, and the positions of the true entries of a boolean sequence. */
module Sums {

  /** The sum of the elements of `s`. */
  function Sum(s: seq<int>): int
  {
    if s == [] then 0 else s[0] + Sum(s[1..])
  }

  /** `s` in reverse order. */
  function Reverse<T>(s: seq<T>): seq<T>
  {
    seq(|s|, i requires 0 <= i < |s| => s[|s| - 1 - i])
  }

  /** Every element negated. */
  function Negate(s: seq<int>): seq<int>
  {
    seq(|s|, i requires 0 <= i < |s| => -s[i])
  }

  lemma {:induction false} SumConcat(a: seq<int>, b: seq<int>)
    ensures Sum(a + b) == Sum(a) + Sum(b)
  {
    if a == [] {
      assert a + b == b;
    } else {
      assert (a + b)[1..] == a[1..] + b;
      SumConcat(a[1..], b);
    }
  }

  /** Extending a prefix by one element adds that element to the total. */
  lemma SumPrefix(s: seq<int>, k: nat)
    requires k < |s|
    ensures Sum(s[..k + 1]) == Sum(s[..k]) + s[k]
  {
    assert s[..k + 1] == s[..k] + [s[k]];
    SumConcat(s[..k], [s[k]]);
  }

  lemma {:induction false} SumReverse(s: seq<int>)
    ensures Sum(Reverse(s)) == Sum(s)
  {
    if s != [] {
      var rest := s[1..];
      assert Reverse(s) == Reverse(rest) + [s[0]];
      SumConcat(Reverse(rest), [s[0]]);
      SumReverse(rest);
    }
  }

  lemma {:induction false} SumNegate(s: seq<int>)
    ensures Sum(Negate(s)) == -Sum(s)
  {
    if s != [] {
      assert Negate(s)[1..] == Negate(s[1..]);
      SumNegate(s[1..]);
    }
  }

  /** Keeping the first element and reversing the rest, all negated, negates the sum. */
  lemma SumHeadAndReversedTail(e: seq<int>)
    requires |e| > 0
    ensures Sum([-e[0]] + Negate(Reverse(e[1..]))) == -Sum(e)
  {
    var rt := Reverse(e[1..]);
    assert ([-e[0]] + Negate(rt))[1..] == Negate(rt);
    SumNegate(rt);
    SumReverse(e[1..]);
  }

  /** The positions of the true entries of `b`, in increasing order. */
  function TrueIndices(b: seq<bool>): seq<int>
  {
    if b == [] then [] else TrueIndices(b[..|b| - 1]) + (if b[|b| - 1] then [|b| - 1] else [])
  }

  lemma {:induction false} TrueIndicesSpec(b: seq<bool>)
    ensures forall m :: 0 <= m < |TrueIndices(b)| ==> 0 <= TrueIndices(b)[m] < |b| && b[TrueIndices(b)[m]]
    ensures forall m, n :: 0 <= m < n < |TrueIndices(b)| ==> TrueIndices(b)[m] < TrueIndices(b)[n]
    ensures forall j :: 0 <= j < |b| && b[j] ==> j in TrueIndices(b)
  {
    if b != [] {
      var init := b[..|b| - 1];
      TrueIndicesSpec(init);
      var t, t' := TrueIndices(init), TrueIndices(b);
      assert t'[..|t|] == t;
      forall m | 0 <= m < |t'|
        ensures 0 <= t'[m] < |b| && b[t'[m]]
      {
        if m < |t| {
          assert t'[m] == t[m];
          assert b[t[m]] == init[t[m]];
        }
      }
      forall j | 0 <= j < |b| && b[j]
        ensures j in t'
      {
        if j < |b| - 1 {
          assert init[j];
          var m :| 0 <= m < |t| && t[m] == j;
          assert t'[m] == j;
        }
      }
    }
  }
}
