/**
 * Spectral features of one numeric series: detrend, take the one-sided
 * magnitude spectrum on the `rfftfreq` grid, keep the `K` strongest bins,
 * re-sort them by frequency and write them out as
 * `[f1, m1, f2, m2, ...]`.
 *
 * The discrete Fourier transform itself is not modelled: the magnitude
 * spectrum of the detrended series is an input, one value per bin.
 */
module FftFeatures {
  import opened Common

  /** The exceptions the pipeline can raise, in the order it meets them. */
  datatype FftError =
    | EmptySeries          // rfft of a length-0 series
    | ZeroSampleRate       // 1.0 / sample_rate
    | NegativeDimensions   // np.empty(2 * n_features) with n_features < 0
    | BroadcastMismatch    // a strided write whose length neither matches nor is 1

  /** The defaults of `n_features` and `sample_rate`. */
  const DefaultNFeatures: int := 10
  const DefaultSampleRate: real := 1.0

  /* ---------- detrending ---------- */

  function Shifted(y: seq<real>, c: real): (d: seq<real>)
    ensures |d| == |y|
    ensures forall i :: 0 <= i < |y| ==> d[i] == y[i] - c
  {
    seq(|y|, i requires 0 <= i < |y| => y[i] - c)
  }

  lemma {:induction false} SumShifted(y: seq<real>, c: real)
    ensures Sum(Shifted(y, c)) == Sum(y) - (|y| as real) * c
    decreases |y|
  {
    if y != [] {
      var k := |y| - 1;
      assert Shifted(y, c)[..k] == Shifted(y[..k], c);
      SumShifted(y[..k], c);
    }
  }

  /** `y - np.mean(y)`; the mean of an empty series is never used, since
      the transform that follows refuses it. */
  function Detrend(y: seq<real>): (d: seq<real>)
    ensures |d| == |y|
    ensures Sum(d) == 0.0
    ensures forall i, j :: 0 <= i < |y| && 0 <= j < |y| ==> d[i] - d[j] == y[i] - y[j]
  {
    if y == [] then []
    else
      var mean := Sum(y) / (|y| as real);
      SumShifted(y, mean);
      Shifted(y, mean)
  }

  /* ---------- frequency grid ---------- */

  /** `np.fft.rfftfreq(n, d=1.0/rate)`: bin `i` of `n/2 + 1` lies at `i * rate / n`. */
  function RfftFreq(n: nat, rate: real): (f: seq<real>)
    requires n >= 1
    ensures |f| == n / 2 + 1
    ensures f[0] == 0.0
    ensures forall i :: 0 <= i < |f| ==> f[i] == (i as real) * rate / (n as real)
  {
    seq(n / 2 + 1, i requires 0 <= i <= n / 2 => (i as real) * rate / (n as real))
  }

  /** The grid strictly increases for a positive sample rate and never
      repeats a value for a non-zero one. */
  lemma RfftFreqOrder(n: nat, rate: real)
    requires n >= 1
    ensures var f := RfftFreq(n, rate);
            && (0.0 < rate ==> forall i, j :: 0 <= i < j < |f| ==> f[i] < f[j])
            && (rate != 0.0 ==> forall i, j :: 0 <= i < |f| && 0 <= j < |f| && i != j ==> f[i] != f[j])
  {
    GridOrder(RfftFreq(n, rate), n, rate);
  }

  /** Bins further apart differ by a proportionally larger amount, so the
      grid rises with a positive rate and never repeats a value. */
  lemma GridOrder(f: seq<real>, n: nat, rate: real)
    requires n >= 1
    requires forall i :: 0 <= i < |f| ==> f[i] == (i as real) * rate / (n as real)
    ensures 0.0 < rate ==> forall i, j :: 0 <= i < j < |f| ==> f[i] < f[j]
    ensures rate != 0.0 ==> forall i, j :: 0 <= i < |f| && 0 <= j < |f| && i != j ==> f[i] != f[j]
  {
    GridSpacing(f, n, rate);
    var step := rate / (n as real);
    forall i, j | 0 <= i < |f| && 0 <= j < |f| && i != j && rate != 0.0
      ensures f[i] != f[j] && (0.0 < rate && i < j ==> f[i] < f[j])
    {
      assert f[j] - f[i] == ((j - i) as real) * step;
      assert step != 0.0;
      if 0.0 < rate && i < j {
        assert 0.0 < step && 0.0 < (j - i) as real;
      }
    }
  }

  lemma GridSpacing(f: seq<real>, n: nat, rate: real)
    requires n >= 1
    requires forall i :: 0 <= i < |f| ==> f[i] == (i as real) * rate / (n as real)
    ensures forall i, j :: 0 <= i < |f| && 0 <= j < |f| ==>
              f[j] - f[i] == ((j - i) as real) * (rate / (n as real))
  {
    forall i, j | 0 <= i < |f| && 0 <= j < |f|
      ensures f[j] - f[i] == ((j - i) as real) * (rate / (n as real))
    {
      var step := rate / (n as real);
      assert f[i] == (i as real) * step;
      assert f[j] == (j as real) * step;
    }
  }

  /* ---------- argsort ---------- */

  predicate InRange(s: seq<int>, n: int)
  {
    forall i :: 0 <= i < |s| ==> 0 <= s[i] < n
  }

  predicate Distinct(s: seq<int>)
  {
    forall i, j :: 0 <= i < j < |s| ==> s[i] != s[j]
  }

  /** `s` lists indices of `a` in non-decreasing order of their values. */
  predicate SortedBy(a: seq<real>, s: seq<int>)
  {
    InRange(s, |a|) && forall i, j :: 0 <= i < j < |s| ==> a[s[i]] <= a[s[j]]
  }

  /** What `np.argsort(a)` promises: a permutation of the indices of `a` in
      non-decreasing order of value. Which of several equal values comes
      first is left open, as the default (unstable) sort leaves it. */
  predicate IsArgsort(a: seq<real>, order: seq<int>)
  {
    && |order| == |a|
    && SortedBy(a, order)
    && Distinct(order)
    && (forall b :: 0 <= b < |a| ==> b in order)
  }

  function Insert(a: seq<real>, s: seq<int>, x: int): (r: seq<int>)
    requires 0 <= x < |a| && InRange(s, |a|)
    ensures |r| == |s| + 1
    ensures InRange(r, |a|)
    ensures forall e :: e in r <==> e in s || e == x
  {
    if s == [] then [x]
    else if a[x] < a[s[0]] then [x] + s
    else [s[0]] + Insert(a, s[1..], x)
  }

  lemma {:induction false} InsertSorted(a: seq<real>, s: seq<int>, x: int)
    requires 0 <= x < |a| && SortedBy(a, s)
    ensures SortedBy(a, Insert(a, s, x))
    decreases |s|
  {
    if s != [] && a[s[0]] <= a[x] {
      InsertSorted(a, s[1..], x);
      var rest := Insert(a, s[1..], x);
      assert forall e :: e in rest ==> a[s[0]] <= a[e];
      assert Insert(a, s, x) == [s[0]] + rest;
    }
  }

  lemma {:induction false} InsertDistinct(a: seq<real>, s: seq<int>, x: int)
    requires 0 <= x < |a| && InRange(s, |a|) && Distinct(s) && x !in s
    ensures Distinct(Insert(a, s, x))
    decreases |s|
  {
    if s != [] && a[s[0]] <= a[x] {
      InsertDistinct(a, s[1..], x);
      assert s[0] !in s[1..];
    }
  }

  /** The indices `0 .. n-1` of `a` in order of value, by insertion. */
  function OrderPrefix(a: seq<real>, n: nat): (r: seq<int>)
    requires n <= |a|
    ensures |r| == n && InRange(r, |a|)
  {
    if n == 0 then [] else Insert(a, OrderPrefix(a, n - 1), n - 1)
  }

  /** Inserting `0 .. n-1` one by one lists each exactly once, in order of
      value. */
  lemma {:induction false} OrderPrefixSorted(a: seq<real>, n: nat)
    requires n <= |a|
    ensures var r := OrderPrefix(a, n);
            SortedBy(a, r) && Distinct(r) && forall e :: e in r <==> 0 <= e < n
  {
    if n > 0 {
      var prev := OrderPrefix(a, n - 1);
      OrderPrefixSorted(a, n - 1);
      assert n - 1 !in prev;
      InsertSorted(a, prev, n - 1);
      InsertDistinct(a, prev, n - 1);
      assert OrderPrefix(a, n) == Insert(a, prev, n - 1);
    }
  }

  /** One concrete argsort; everything proved below about the features uses
      only `IsArgsort`, so it holds whichever tie order the library picks. */
  function Argsort(a: seq<real>): (order: seq<int>)
    ensures |order| == |a| && InRange(order, |a|)
  {
    OrderPrefix(a, |a|)
  }

  lemma ArgsortSpec(a: seq<real>)
    ensures IsArgsort(a, Argsort(a))
  {
    OrderPrefixSorted(a, |a|);
  }

  /** Fancy indexing `v[idx]`. */
  function Gather<T>(v: seq<T>, idx: seq<int>): (r: seq<T>)
    requires InRange(idx, |v|)
    ensures |r| == |idx|
    ensures forall i :: 0 <= i < |idx| ==> r[i] == v[idx[i]]
  {
    seq(|idx|, i requires 0 <= i < |idx| => v[idx[i]])
  }

  /** Indexing twice is indexing once with the composed indices:
      `v[a][b] == v[a[b]]`. */
  lemma GatherCompose<T>(v: seq<T>, a: seq<int>, b: seq<int>)
    requires InRange(a, |v|) && InRange(b, |a|)
    ensures InRange(Gather(a, b), |v|)
    ensures Gather(Gather(v, a), b) == Gather(v, Gather(a, b))
  {
    var ab := Gather(a, b);
    assert forall j :: 0 <= j < |b| ==> ab[j] == a[b[j]];
  }

  /* ---------- top-K selection ---------- */

  /** `np.argsort(magnitudes)[-k:]`: always a suffix of `order`; the last
      `k` entries for `1 <= k <= len`, and every entry for `k = 0` (the
      slice `[-0:]` is `[0:]`) or `k > len`. */
  function TopBins(order: seq<int>, k: int): (top: seq<int>)
    ensures |top| <= |order| && forall i :: 0 <= i < |top| ==> top[i] == order[|order| - |top| + i]
    ensures 1 <= k <= |order| ==> top == order[|order| - k..]
    ensures k == 0 || k > |order| ==> top == order
    ensures 0 <= k ==> |top| == if 1 <= k <= |order| then k else |order|
    ensures k < 0 ==> |top| == if |order| + k < 0 then 0 else |order| + k
  {
    var top := PySlice(order, Some(-k), None);
    assert order[0..|order|] == order && order[|order|..] == [];
    top
  }

  /** For `1 <= k <= len`, the last `k` of an argsort are `k` distinct bins,
      and no bin left out is stronger than any bin kept. */
  lemma TopBinsSelection(mags: seq<real>, order: seq<int>, k: int)
    requires IsArgsort(mags, order) && 1 <= k <= |mags|
    ensures var sel := TopBins(order, k);
            && |sel| == k && InRange(sel, |mags|) && Distinct(sel)
            && forall j, b :: 0 <= j < k && 0 <= b < |mags| && b !in sel ==> mags[b] <= mags[sel[j]]
  {
    var n := |mags|;
    var sel := TopBins(order, k);
    assert forall j :: 0 <= j < k ==> sel[j] == order[n - k + j];
    assert forall q :: n - k <= q < n ==> order[q] == sel[q - (n - k)];
    forall j, b | 0 <= j < k && 0 <= b < n && b !in sel
      ensures mags[b] <= mags[sel[j]]
    {
      assert b in order;
      var p :| 0 <= p < n && order[p] == b;
      assert p < n - k + j;
    }
  }

  /* ---------- the output vector ---------- */

  /** The strided view `v[0::2]`. */
  function Evens(v: seq<real>): (r: seq<real>)
    ensures |r| == (|v| + 1) / 2
    ensures forall i :: 0 <= i < |r| ==> r[i] == v[2 * i]
  {
    seq((|v| + 1) / 2, i requires 0 <= i < (|v| + 1) / 2 => v[2 * i])
  }

  /** The strided view `v[1::2]`. */
  function Odds(v: seq<real>): (r: seq<real>)
    ensures |r| == |v| / 2
    ensures forall i :: 0 <= i < |r| ==> r[i] == v[2 * i + 1]
  {
    seq(|v| / 2, i requires 0 <= i < |v| / 2 => v[2 * i + 1])
  }

  /** numpy lets `x` be written into `k` slots when it has `k` values, or a
      single value that is repeated. */
  predicate Fits(x: seq<real>, k: nat)
  {
    |x| == k || |x| == 1
  }

  function Broadcast(x: seq<real>, k: nat): (r: seq<real>)
    requires Fits(x, k)
    ensures |r| == k
  {
    if |x| == k then x else seq(k, _ => x[0])
  }

  /** `features = np.empty(2 * k); features[0::2] = freqs; features[1::2] = mags`. */
  method Interleave(freqs: seq<real>, mags: seq<real>, k: int) returns (r: Result<seq<real>, FftError>)
    ensures r.Ok? <==> 0 <= k && Fits(freqs, k) && Fits(mags, k)
    ensures k < 0 ==> r == Err(NegativeDimensions)
    ensures 0 <= k && !(Fits(freqs, k) && Fits(mags, k)) ==> r == Err(BroadcastMismatch)
    ensures r.Ok? ==> && |r.value| == 2 * k
                      && Evens(r.value) == Broadcast(freqs, k)
                      && Odds(r.value) == Broadcast(mags, k)
  {
    if k < 0 {
      return Err(NegativeDimensions);
    }
    var features := new real[2 * k];
    if !Fits(freqs, k) {
      return Err(BroadcastMismatch);
    }
    var evens := Broadcast(freqs, k);
    for j := 0 to k
      invariant forall i :: 0 <= i < j ==> features[2 * i] == evens[i]
    {
      features[2 * j] := evens[j];
    }
    if !Fits(mags, k) {
      return Err(BroadcastMismatch);
    }
    var odds := Broadcast(mags, k);
    for j := 0 to k
      invariant forall i :: 0 <= i < k ==> features[2 * i] == evens[i]
      invariant forall i :: 0 <= i < j ==> features[2 * i + 1] == odds[i]
    {
      features[2 * j + 1] := odds[j];
    }
    r := Ok(features[..]);
  }

  /** The bins chosen at lines 36-43, as their frequencies and magnitudes
      re-sorted by frequency: `k` distinct bins, frequency and magnitude taken
      from the same bin, frequencies strictly increasing, and no bin left
      out stronger than a bin kept. */
  ghost predicate IsSortedSelection(grid: seq<real>, mags: seq<real>, k: nat,
                                    freqs: seq<real>, ms: seq<real>, bins: seq<int>)
  {
    && |grid| == |mags|
    && |freqs| == k && |ms| == k && |bins| == k
    && InRange(bins, |mags|) && Distinct(bins)
    && (forall j :: 0 <= j < k ==> freqs[j] == grid[bins[j]] && ms[j] == mags[bins[j]])
    && (forall j, j' :: 0 <= j < j' < k ==> freqs[j] < freqs[j'])
    && (forall j, b :: 0 <= j < k && 0 <= b < |mags| && b !in bins ==> mags[b] <= mags[bins[j]])
  }

  /** Lines 37-43 for a given ranking `order` of the magnitudes and a given
      ranking `byFreq` of the kept bins' frequencies. */
  function SelectBy(grid: seq<real>, mags: seq<real>, k: int, order: seq<int>, byFreq: seq<int>)
    : (seq<real>, seq<real>)
    requires |grid| == |mags| && InRange(order, |mags|) && InRange(byFreq, |TopBins(order, k)|)
  {
    var idx := TopBins(order, k);
    (Gather(Gather(grid, idx), byFreq), Gather(Gather(mags, idx), byFreq))
  }

  /** Lines 36-43: select the top `k` bins by magnitude, then re-sort the
      chosen frequencies and magnitudes by frequency. There are `k` of each
      for `1 <= k <= len(bins)`, one per bin for `k = 0` or `k > len(bins)`,
      and a negative `k` leaves out `|k|` bins (all of them when `|k|` is
      at least their number). */
  function SelectAndSort(grid: seq<real>, mags: seq<real>, k: int): (r: (seq<real>, seq<real>))
    requires |grid| == |mags|
    ensures 0 <= k ==> |r.0| == |r.1| == if 1 <= k <= |mags| then k else |mags|
    ensures k < 0 ==> |r.0| == |r.1| == if |mags| + k < 0 then 0 else |mags| + k
  {
    var order := Argsort(mags);
    var byFreq := Argsort(Gather(grid, TopBins(order, k)));
    SelectBy(grid, mags, k, order, byFreq)
  }

  /** Re-sorting the selected bins by frequency keeps the same bins: the
      composed indices are distinct, cover the selection, and list it in
      strictly increasing frequency when the grid has no repeated value. */
  lemma ReorderSelection(grid: seq<real>, sel: seq<int>, byFreq: seq<int>)
    requires InRange(sel, |grid|) && Distinct(sel)
    requires forall i, j :: 0 <= i < |grid| && 0 <= j < |grid| && i != j ==> grid[i] != grid[j]
    requires IsArgsort(Gather(grid, sel), byFreq)
    ensures var bins := Gather(sel, byFreq);
            && InRange(bins, |grid|) && Distinct(bins)
            && (forall b :: b in sel ==> b in bins)
            && (forall j, j' :: 0 <= j < j' < |bins| ==> grid[bins[j]] < grid[bins[j']])
  {
    var bins := Gather(sel, byFreq);
    var top := Gather(grid, sel);
    forall b | b in sel
      ensures b in bins
    {
      var p :| 0 <= p < |sel| && sel[p] == b;
      assert p in byFreq;
      var q :| 0 <= q < |byFreq| && byFreq[q] == p;
      assert bins[q] == b;
    }
    forall j, j' | 0 <= j < j' < |bins|
      ensures grid[bins[j]] < grid[bins[j']]
    {
      assert top[byFreq[j]] <= top[byFreq[j']];
      assert byFreq[j] != byFreq[j'];
    }
  }

  /** For `1 <= k <= len(bins)` and a grid without repeated frequencies, the
      selection made with ANY argsort of the magnitudes and ANY argsort of
      the kept frequencies is a sorted top-`k` selection. Every such
      selection has these properties; which of several tied bins is kept
      depends on the sort. */
  lemma SelectionSpec(grid: seq<real>, mags: seq<real>, k: int, order: seq<int>, byFreq: seq<int>)
    requires |grid| == |mags| && 1 <= k <= |mags|
    requires forall i, j :: 0 <= i < |grid| && 0 <= j < |grid| && i != j ==> grid[i] != grid[j]
    requires IsArgsort(mags, order)
    requires IsArgsort(Gather(grid, TopBins(order, k)), byFreq)
    ensures exists bins :: IsSortedSelection(grid, mags, k, SelectBy(grid, mags, k, order, byFreq).0,
                                             SelectBy(grid, mags, k, order, byFreq).1, bins)
  {
    var idx := TopBins(order, k);
    TopBinsSelection(mags, order, k);
    ReorderSelection(grid, idx, byFreq);
    var bins := Gather(idx, byFreq);
    GatherCompose(grid, idx, byFreq);
    GatherCompose(mags, idx, byFreq);
    var (fs, ms) := SelectBy(grid, mags, k, order, byFreq);
    assert fs == Gather(grid, bins) && ms == Gather(mags, bins);
    forall j, b | 0 <= j < k && 0 <= b < |mags| && b !in bins
      ensures mags[b] <= mags[bins[j]]
    {
      assert b !in idx;
      assert bins[j] == idx[byFreq[j]];
    }
    assert IsSortedSelection(grid, mags, k, fs, ms, bins);
  }

  /** The selection the model computes, with its own argsort, is one such
      selection. */
  lemma SelectAndSortSpec(grid: seq<real>, mags: seq<real>, k: int)
    requires |grid| == |mags| && 1 <= k <= |mags|
    requires forall i, j :: 0 <= i < |grid| && 0 <= j < |grid| && i != j ==> grid[i] != grid[j]
    ensures exists bins :: IsSortedSelection(grid, mags, k, SelectAndSort(grid, mags, k).0,
                                             SelectAndSort(grid, mags, k).1, bins)
  {
    var order := Argsort(mags);
    var byFreq := Argsort(Gather(grid, TopBins(order, k)));
    assert SelectAndSort(grid, mags, k) == SelectBy(grid, mags, k, order, byFreq);
    ArgsortSpec(mags);
    ArgsortSpec(Gather(grid, TopBins(order, k)));
    SelectionSpec(grid, mags, k, order, byFreq);
  }

  lemma ArgsortSingle(a: seq<real>)
    requires |a| == 1
    ensures Argsort(a) == [0]
  {
    var order := Argsort(a);
    ArgsortSpec(a);
    assert 0 in order;
  }

  /** With a single bin, every non-negative `k` selects that bin alone. */
  lemma SelectAndSortSingleBin(grid: seq<real>, mags: seq<real>, k: int)
    requires |grid| == |mags| == 1 && 0 <= k
    ensures SelectAndSort(grid, mags, k) == ([grid[0]], [mags[0]])
  {
    ArgsortSingle(mags);
    SelectBySingle(grid, mags, k);
    var topFreqs := Gather(grid, [0]);
    ArgsortSingle(topFreqs);
    assert SelectAndSort(grid, mags, k) == SelectBy(grid, mags, k, [0], [0]);
  }

  lemma SelectBySingle(grid: seq<real>, mags: seq<real>, k: int)
    requires |grid| == |mags| == 1 && 0 <= k
    ensures TopBins([0], k) == [0]
    ensures SelectBy(grid, mags, k, [0], [0]) == ([grid[0]], [mags[0]])
  {
    assert TopBins([0], k) == [0];
    assert Gather(grid, [0]) == [grid[0]];
    assert Gather(mags, [0]) == [mags[0]];
    assert Gather([grid[0]], [0]) == [grid[0]];
    assert Gather([mags[0]], [0]) == [mags[0]];
  }

  /** What a feature vector of `k` bins promises: `k` distinct bins, each
      written as its frequency followed by its own magnitude, frequencies
      strictly increasing, and no bin left out stronger than a bin kept. */
  ghost predicate IsTopKVector(grid: seq<real>, mags: seq<real>, k: nat, v: seq<real>, bins: seq<int>)
  {
    && |grid| == |mags|
    && |v| == 2 * k && |bins| == k
    && InRange(bins, |mags|) && Distinct(bins)
    && (forall j :: 0 <= j < k ==> v[2 * j] == grid[bins[j]] && v[2 * j + 1] == mags[bins[j]])
    && (forall j, j' :: 0 <= j < j' < k ==> v[2 * j] < v[2 * j'])
    && (forall j, b :: 0 <= j < k && 0 <= b < |mags| && b !in bins ==> mags[b] <= mags[bins[j]])
  }

  lemma InterleavedSelection(grid: seq<real>, mags: seq<real>, k: nat, v: seq<real>,
                             fs: seq<real>, ms: seq<real>, bins: seq<int>)
    requires IsSortedSelection(grid, mags, k, fs, ms, bins)
    requires |v| == 2 * k && Evens(v) == fs && Odds(v) == ms
    ensures IsTopKVector(grid, mags, k, v, bins)
  {
    forall j | 0 <= j < k
      ensures v[2 * j] == fs[j] && v[2 * j + 1] == ms[j]
    {
      assert v[2 * j] == Evens(v)[j];
      assert v[2 * j + 1] == Odds(v)[j];
    }
  }

  /**
   * `compute_fft_features(series, n_features, sample_rate)` with the
   * magnitude spectrum of the detrended series given as `spectrum`.
   * It fails exactly when the series is empty, the sample rate is 0,
   * `n_features` is negative, or the selected bins cannot be written into
   * `n_features` slots (more features than bins, or `n_features = 0`,
   * whose slice `[-0:]` selects every bin), unless the spectrum has a
   * single bin, which numpy repeats into every slot.
   */
  method ComputeFftFeatures(values: seq<real>, spectrum: seq<real>, nFeatures: int, sampleRate: real)
    returns (r: Result<seq<real>, FftError>)
    requires |values| >= 1 ==> |spectrum| == |values| / 2 + 1
    ensures |values| == 0 ==> r == Err(EmptySeries)
    ensures |values| >= 1 && sampleRate == 0.0 ==> r == Err(ZeroSampleRate)
    ensures |values| >= 1 && sampleRate != 0.0 && nFeatures < 0 ==> r == Err(NegativeDimensions)
    ensures |values| >= 1 && sampleRate != 0.0 && 0 <= nFeatures && r.Err? ==> r == Err(BroadcastMismatch)
    ensures r.Ok? <==> && |values| >= 1 && sampleRate != 0.0 && 0 <= nFeatures
                       && ((1 <= nFeatures && nFeatures <= |spectrum|) || |spectrum| == 1)
    ensures r.Ok? ==> |r.value| == 2 * nFeatures
    ensures r.Ok? && 1 <= nFeatures <= |spectrum| ==>
              exists bins :: IsTopKVector(RfftFreq(|values|, sampleRate), spectrum, nFeatures, r.value, bins)
    ensures r.Ok? && |spectrum| == 1 ==>
              forall j :: 0 <= j < nFeatures ==> r.value[2 * j] == 0.0 && r.value[2 * j + 1] == spectrum[0]
  {
    if |values| == 0 {
      return Err(EmptySeries);
    }
    if sampleRate == 0.0 {
      return Err(ZeroSampleRate);
    }
    var grid := RfftFreq(|values|, sampleRate);
    var sel := SelectAndSort(grid, spectrum, nFeatures);
    if 0 <= nFeatures {
      SelectionFits(|spectrum|, nFeatures, |sel.0|);
    }
    r := Interleave(sel.0, sel.1, nFeatures);
    if r.Ok? && 1 <= nFeatures <= |spectrum| {
      RfftFreqOrder(|values|, sampleRate);
      TopKFeatures(grid, spectrum, nFeatures, r.value);
    }
    if r.Ok? && |spectrum| == 1 {
      SingleBinOutcome(grid, spectrum, nFeatures, sel, r.value);
    }
  }

  /** With a single bin, whose frequency is 0, the vector repeats that bin. */
  lemma SingleBinOutcome(grid: seq<real>, spectrum: seq<real>, k: int, sel: (seq<real>, seq<real>), v: seq<real>)
    requires |grid| == |spectrum| == 1 && grid[0] == 0.0 && 0 <= k
    requires sel == SelectAndSort(grid, spectrum, k)
    requires |v| == 2 * k && Evens(v) == Broadcast(sel.0, k) && Odds(v) == Broadcast(sel.1, k)
    ensures forall j :: 0 <= j < k ==> v[2 * j] == 0.0 && v[2 * j + 1] == spectrum[0]
  {
    SelectAndSortSingleBin(grid, spectrum, k);
    SingleBinFeatures(v, grid[0], spectrum[0], k);
  }

  /** A selection of `len` values from `n >= 1` bins fits `k` slots exactly
      when `1 <= k <= n` or there is a single bin to repeat. */
  lemma SelectionFits(n: int, k: int, len: int)
    requires 1 <= n && 0 <= k
    requires len == if 1 <= k <= n then k else n
    ensures (len == k || len == 1) <==> (1 <= k <= n || n == 1)
  {
  }

  /** The interleaved selection of `1 <= k <= len(bins)` bins is a top-`k`
      feature vector. */
  lemma TopKFeatures(grid: seq<real>, mags: seq<real>, k: int, v: seq<real>)
    requires |grid| == |mags| && 1 <= k <= |mags|
    requires forall i, j :: 0 <= i < |grid| && 0 <= j < |grid| && i != j ==> grid[i] != grid[j]
    requires |v| == 2 * k
    requires Evens(v) == SelectAndSort(grid, mags, k).0 && Odds(v) == SelectAndSort(grid, mags, k).1
    ensures exists bins :: IsTopKVector(grid, mags, k, v, bins)
  {
    var (fs, ms) := SelectAndSort(grid, mags, k);
    SelectAndSortSpec(grid, mags, k);
    var bins :| IsSortedSelection(grid, mags, k, fs, ms, bins);
    InterleavedSelection(grid, mags, k, v, fs, ms, bins);
  }

  /** A single frequency and magnitude, repeated into `k` slots each, give
      `k` copies of the same pair. */
  lemma SingleBinFeatures(v: seq<real>, f: real, m: real, k: int)
    requires 0 <= k && |v| == 2 * k
    requires Evens(v) == Broadcast([f], k) && Odds(v) == Broadcast([m], k)
    ensures forall j :: 0 <= j < k ==> v[2 * j] == f && v[2 * j + 1] == m
  {
    forall j | 0 <= j < k
      ensures v[2 * j] == f && v[2 * j + 1] == m
    {
      assert v[2 * j] == Evens(v)[j];
      assert v[2 * j + 1] == Odds(v)[j];
    }
  }
}
