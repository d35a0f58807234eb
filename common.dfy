/**
 * Shared vocabulary of the feature pipeline: optional values (pandas' NaN, a
 * missing dictionary key), results with an error (a raised exception), the
 * sum of a column of reals, and Python's slicing rule for `s[lo:hi]`, which
 * every core function uses (`iloc[a:b]`, `[:depth]`, `[-k:]`).
 */
module Common {

  datatype Option<+T> = None | Some(value: T) {
    function GetOr(default: T): T {
      match this
      case Some(v) => v
      case None => default
    }
  }

  datatype Result<+T, +E> = Ok(value: T) | Err(error: E)

  /** Sum of a sequence of reals, peeling off the last element (a left fold). */
  function Sum(s: seq<real>): real
    decreases |s|
  {
    if s == [] then 0.0 else Sum(s[..|s| - 1]) + s[|s| - 1]
  }

  lemma {:induction false} SumConcat(a: seq<real>, b: seq<real>)
    ensures Sum(a + b) == Sum(a) + Sum(b)
    decreases |b|
  {
    if b == [] {
      assert a + b == a;
    } else {
      assert (a + b)[..|a + b| - 1] == a + b[..|b| - 1];
      SumConcat(a, b[..|b| - 1]);
    }
  }

  lemma {:induction false} SumNonNegative(s: seq<real>)
    ensures (forall i :: 0 <= i < |s| ==> 0.0 <= s[i]) ==> 0.0 <= Sum(s)
    decreases |s|
  {
    if s != [] {
      SumNonNegative(s[..|s| - 1]);
    }
  }

  /** The position Python uses for a slice bound `x` on a sequence of length `n`:
      a negative bound counts from the end, and both are clamped to `[0, n]`. */
  function SliceBound(x: int, n: nat): (b: nat)
    ensures b <= n
    ensures 0 <= x <= n ==> b == x
    ensures x < 0 && 0 <= x + n ==> b == x + n
    ensures x > n ==> b == n
    ensures x + n < 0 ==> b == 0
  {
    if x < 0 then (if x + n < 0 then 0 else x + n)
    else if x > n then n else x
  }

  /** Python's `s[lo:hi]` with step 1; an omitted bound is `None`. */
  function PySlice<T>(s: seq<T>, lo: Option<int>, hi: Option<int>): (r: seq<T>)
    ensures |r| <= |s|
    ensures var a := SliceBound(lo.GetOr(0), |s|);
            var b := SliceBound(hi.GetOr(|s|), |s|);
            (a < b ==> r == s[a..b]) && (b <= a ==> r == [])
  {
    var a := SliceBound(lo.GetOr(0), |s|);
    var b := SliceBound(hi.GetOr(|s|), |s|);
    if a < b then s[a..b] else []
  }

  /** Cutting at any position `k` and joining the two pieces gives the
      sequence back: `s[:k] + s[k:] == s`, negative `k` included. The two
      pieces have `|s|` elements between them, and `s[:k]` has as many as
      the cut position. */
  lemma PySliceCut<T>(s: seq<T>, k: int)
    ensures PySlice(s, None, Some(k)) + PySlice(s, Some(k), None) == s
    ensures |PySlice(s, None, Some(k))| == SliceBound(k, |s|)
    ensures |PySlice(s, Some(k), None)| == |s| - SliceBound(k, |s|)
  {
    var c := SliceBound(k, |s|);
    assert PySlice(s, None, Some(k)) == s[..c];
    assert PySlice(s, Some(k), None) == s[c..];
  }

  // Integer division facts the counting lemmas rely on.

  lemma MulSign(k: int, d: int)
    requires d > 0
    ensures k >= 1 ==> k * d >= d
    ensures k <= -1 ==> k * d <= -d
  {
    if k >= 1 {
      assert k * d - d == (k - 1) * d;
    } else if k <= -1 {
      assert k * d + d == (k + 1) * d;
    }
  }
  lemma MulSub(a: int, b: int, d: int)
    ensures (a - b) * d == a * d - b * d
  {
  }

  lemma DivUnique(x: int, d: int, q: int, m: int)
    requires d > 0 && 0 <= m < d && x == q * d + m
    ensures x / d == q
  {
    var q' := x / d;
    var m' := x % d;
    assert (q' - q) * d == q' * d - q * d;
    MulSign(q' - q, d);
  }
  lemma DivStep(x: int, step: int)
    requires step > 0 && x >= step
    ensures (x - step) / step + 1 == x / step
  {
    var q := (x - step) / step;
    var m := (x - step) % step;
    assert (q + 1) * step == q * step + step;
    DivUnique(x, step, q + 1, m);
  }
}
