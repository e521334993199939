/**
 * Floating-point values as the evaluation code distinguishes them: NaN, or a
 * number. Arithmetic propagates NaN; rounding is not modelled.
 */
module Numbers {

  datatype Num = NaN | Val(v: real)

  function Sub(a: Num, b: Num): Num {
    if a.NaN? || b.NaN? then NaN else Val(a.v - b.v)
  }

  function Add(a: Num, b: Num): Num {
    if a.NaN? || b.NaN? then NaN else Val(a.v + b.v)
  }

  /** x ** 2 */
  function Square(a: Num): (r: Num)
    ensures r.Val? <==> a.Val?
    ensures r.Val? ==> r.v >= 0.0
  {
    if a.NaN? then NaN else Val(a.v * a.v)
  }

  /**
   * np.sqrt with the square root of a non-negative real given as sqrt: NaN for
   * NaN and for negative arguments.
   */
  function Sqrt(a: Num, sqrt: real -> real): (r: Num)
    ensures r.Val? <==> a.Val? && a.v >= 0.0
  {
    if a.NaN? || a.v < 0.0 then NaN else Val(sqrt(a.v))
  }

  /** The number of entries that are not NaN. */
  function NonNanCount(s: seq<Num>): (n: nat)
    ensures n <= |s|
  {
    if s == [] then 0 else NonNanCount(s[..|s| - 1]) + (if s[|s| - 1].Val? then 1 else 0)
  }

  /** The sum of the entries that are not NaN. */
  function NonNanSum(s: seq<Num>): real {
    if s == [] then 0.0 else NonNanSum(s[..|s| - 1]) + (if s[|s| - 1].Val? then s[|s| - 1].v else 0.0)
  }

  /** np.nanmean: the mean of the entries that are not NaN, NaN when there are none. */
  function NanMean(s: seq<Num>): (r: Num)
    ensures r.NaN? <==> NonNanCount(s) == 0
  {
    var n := NonNanCount(s);
    if n == 0 then NaN else Val(NonNanSum(s) / n as real)
  }

  /** The count is zero exactly when every entry is NaN. */
  lemma {:induction false} NonNanCountZero(s: seq<Num>)
    ensures NonNanCount(s) == 0 <==> forall i :: 0 <= i < |s| ==> s[i].NaN?
  {
    if s != [] {
      var p := s[..|s| - 1];
      NonNanCountZero(p);
      assert forall i :: 0 <= i < |p| ==> p[i] == s[i];
    }
  }

  /** A lower bound on the entries bounds the sum from below by the count. */
  lemma {:induction false} NonNanSumAtLeast(s: seq<Num>, lo: real)
    requires forall i :: 0 <= i < |s| && s[i].Val? ==> lo <= s[i].v
    ensures NonNanCount(s) as real * lo <= NonNanSum(s)
  {
    if s != [] {
      var p := s[..|s| - 1];
      assert forall i :: 0 <= i < |p| ==> p[i] == s[i];
      NonNanSumAtLeast(p, lo);
      if s[|s| - 1].Val? {
        var m := NonNanCount(p) as real;
        assert NonNanCount(s) as real == m + 1.0 && NonNanSum(s) == NonNanSum(p) + s[|s| - 1].v;
        assert (m + 1.0) * lo == m * lo + lo;
      }
    }
  }

  /** An upper bound on the entries bounds the sum from above by the count. */
  lemma {:induction false} NonNanSumAtMost(s: seq<Num>, hi: real)
    requires forall i :: 0 <= i < |s| && s[i].Val? ==> s[i].v <= hi
    ensures NonNanSum(s) <= NonNanCount(s) as real * hi
  {
    if s != [] {
      var p := s[..|s| - 1];
      assert forall i :: 0 <= i < |p| ==> p[i] == s[i];
      NonNanSumAtMost(p, hi);
      if s[|s| - 1].Val? {
        var m := NonNanCount(p) as real;
        assert NonNanCount(s) as real == m + 1.0 && NonNanSum(s) == NonNanSum(p) + s[|s| - 1].v;
        assert (m + 1.0) * hi == m * hi + hi;
      }
    }
  }

  /** The NaN-ignoring mean is at least any lower bound of the entries that are not NaN. */
  lemma NanMeanAtLeast(s: seq<Num>, lo: real)
    requires forall i :: 0 <= i < |s| && s[i].Val? ==> lo <= s[i].v
    ensures NanMean(s).Val? ==> lo <= NanMean(s).v
  {
    var n := NonNanCount(s);
    if n > 0 {
      NonNanSumAtLeast(s, lo);
      var sum := NonNanSum(s);
      assert lo <= sum / n as real by {
        assert lo * n as real <= sum;
      }
    }
  }

  /** The NaN-ignoring mean lies between any lower and upper bound of the entries that are not NaN. */
  lemma NanMeanBounds(s: seq<Num>, lo: real, hi: real)
    requires forall i :: 0 <= i < |s| && s[i].Val? ==> lo <= s[i].v <= hi
    ensures NanMean(s).Val? ==> lo <= NanMean(s).v <= hi
  {
    NanMeanAtLeast(s, lo);
    var n := NonNanCount(s);
    if n > 0 {
      NonNanSumAtMost(s, hi);
      var sum := NonNanSum(s);
      assert sum / n as real <= hi by {
        assert sum <= hi * n as real;
      }
    }
  }

  /** Entries that are not NaN are all c, so the mean is NaN or c. */
  lemma NanMeanOfConstant(s: seq<Num>, c: real)
    requires forall i :: 0 <= i < |s| && s[i].Val? ==> s[i].v == c
    ensures NanMean(s) == NaN || NanMean(s) == Val(c)
  {
    NanMeanBounds(s, c, c);
  }
}
