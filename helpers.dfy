/** `src/utils/helpers.js`: the Fisher-Yates shuffle and the rounded
    percentage. (Its `formatDate` is the same function as the storage
    layer's and is `Dates.FormatDate`.) */
module Helpers {

  /** `shuffleArray`: copies the input into a fresh array and, for `i` from
      the last index down to 1, swaps position `i` with a position `j` in
      `0..i`. `Math.floor(Math.random() * (i + 1))` is modelled as an
      arbitrary choice of such a `j`, so the contract holds for every
      sequence of random draws. The input, a value, cannot change. */
  method ShuffleArray<T>(s: seq<T>) returns (r: seq<T>)
    ensures |r| == |s|
    ensures multiset(r) == multiset(s)
    ensures |s| <= 1 ==> r == s
  {
    var a := new T[|s|](k requires 0 <= k < |s| => s[k]);
    assert a[..] == s;
    var i := a.Length - 1;
    while i > 0
      invariant -1 <= i < a.Length
      invariant multiset(a[..]) == multiset(s)
      invariant a.Length <= 1 ==> a[..] == s
    {
      var j :| 0 <= j <= i;
      ghost var before := a[..];
      a[i], a[j] := a[j], a[i];
      assert a[..] == before[i := before[j]][j := before[i]];
      SwapPreservesMultiset(before, i, j);
      i := i - 1;
    }
    r := a[..];
  }

  /** Exchanging two positions keeps the same elements. */
  lemma SwapPreservesMultiset<T>(s: seq<T>, i: int, j: int)
    requires 0 <= i < |s| && 0 <= j < |s|
    ensures multiset(s[i := s[j]][j := s[i]]) == multiset(s)
  {
  }

  /** `Math.round(n / d)` for `d != 0`: the nearest integer, halves rounded up,
      that is `r - 1/2 <= n / d < r + 1/2`, written without fractions. */
  function RoundDiv(n: int, d: int): (r: int)
    requires d != 0
    ensures d > 0 ==> 2 * d * r <= 2 * n + d < 2 * d * r + 2 * d
    ensures d < 0 ==> -2 * d * r <= -2 * n - d < -2 * d * r - 2 * d
  {
    if d > 0 then (2 * n + d) / (2 * d) else (-2 * n - d) / (-2 * d)
  }

  /** `calculateAccuracy(correct, total)`: 0 for a zero total, otherwise
      `Math.round(correct / total * 100)` computed exactly. For a positive
      total the result `r` is the integer with `r - 1/2 <= 100 * correct / total < r + 1/2`. */
  function CalculateAccuracy(correct: int, total: int): (r: int)
    ensures total == 0 ==> r == 0
    ensures total > 0 ==> 2 * total * r <= 200 * correct + total < 2 * total * r + 2 * total
  {
    if total == 0 then 0 else RoundDiv(100 * correct, total)
  }

  /** Cancelling a positive factor preserves a strict inequality. */
  lemma CancelPositive(k: int, a: int, b: int)
    requires k > 0 && k * a < k * b
    ensures a < b
  {
  }

  /** For `0 <= correct <= total` the percentage lies in 0..100, is 100 when
      every answer is correct and 0 when none is. */
  lemma AccuracyBounds(correct: int, total: int)
    requires 0 <= correct <= total
    ensures 0 <= CalculateAccuracy(correct, total) <= 100
    ensures total > 0 && correct == total ==> CalculateAccuracy(correct, total) == 100
    ensures correct == 0 ==> CalculateAccuracy(correct, total) == 0
  {
    if total > 0 {
      var r, k := CalculateAccuracy(correct, total), 2 * total;
      assert k * r < k * 101;
      CancelPositive(k, r, 101);
      assert k * (-1) < k * r;
      CancelPositive(k, -1, r);
      if correct == total {
        assert k * 99 < k * r;
        CancelPositive(k, 99, r);
      }
      if correct == 0 {
        assert k * r < k * 1;
        CancelPositive(k, r, 1);
      }
    }
  }

  /** 100 is reached without every answer being correct: 999 of 1000 rounds up. */
  lemma AccuracyHundredBelowAllCorrect()
    ensures CalculateAccuracy(999, 1000) == 100
  {
  }

  /** More correct answers never give a lower percentage. */
  lemma AccuracyMonotone(c1: int, c2: int, total: int)
    requires c1 <= c2 && total >= 0
    ensures CalculateAccuracy(c1, total) <= CalculateAccuracy(c2, total)
  {
    if total > 0 {
      var r1, r2, k := CalculateAccuracy(c1, total), CalculateAccuracy(c2, total), 2 * total;
      assert k * r1 < k * (r2 + 1);
      CancelPositive(k, r1, r2 + 1);
    }
  }
}
