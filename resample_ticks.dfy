/**
 * Resampling of trade ticks into one OHLCV bar per fixed-width interval.
 *
 * Timestamps are integer milliseconds and the interval width `freq` is a
 * positive number of milliseconds. A tick at `ts` falls in interval number
 * `floor(ts / freq)`, which covers `[slot * freq, slot * freq + freq)`.
 *
 * The computation is written out in the three steps the table library
 * performs: a left fold over the time-ordered ticks builds one bin per
 * interval from the first tick's to the last tick's (bins with no tick have
 * no prices and volume 0); the bins become bars; and each of the four price
 * columns is forward-filled on its own.
 */
module ResampleTicks {
  import opened Common

  /** Defaults of `resample_tick_data`: a 100 ms interval, columns `price` and `volume`. */
  const DefaultFreqMs: int := 100
  const DefaultPriceColumn: string := "price"
  const DefaultVolumeColumn: string := "volume"

  datatype Tick = Tick(ts: int, price: real, volume: real)

  /* ---------- intervals ---------- */

  /** Number of the interval holding `ts`, counted in whole intervals from
      time 0 (interval 0 is `[0, freq)`); `SlotIsFloorDiv` shows it is
      `floor(ts / freq)`. */
  function Slot(ts: int, freq: int): int
    requires freq > 0
    decreases if ts >= 0 then ts else freq - ts
  {
    if ts < 0 then Slot(ts + freq, freq) - 1
    else if ts < freq then 0
    else Slot(ts - freq, freq) + 1
  }

  lemma {:induction false} SlotBounds(ts: int, freq: int)
    requires freq > 0
    ensures Slot(ts, freq) * freq <= ts < Slot(ts, freq) * freq + freq
    decreases if ts >= 0 then ts else freq - ts
  {
    var s := Slot(ts, freq);
    if ts < 0 {
      SlotBounds(ts + freq, freq);
      assert (s + 1) * freq == s * freq + freq;
    } else if ts >= freq {
      SlotBounds(ts - freq, freq);
      assert (s - 1) * freq == s * freq - freq;
    }
  }

  /** Interval `slot` is the half-open range `[slot * freq, slot * freq + freq)`:
      a timestamp lies in exactly one interval. */
  lemma SlotInterval(ts: int, freq: int, slot: int)
    requires freq > 0
    ensures Slot(ts, freq) == slot <==> slot * freq <= ts < slot * freq + freq
  {
    var s := Slot(ts, freq);
    SlotBounds(ts, freq);
    assert (slot - s) * freq == slot * freq - s * freq;
    MulSign(slot - s, freq);
  }

  /** The interval number is the floor of `ts / freq`. */
  lemma SlotIsFloorDiv(ts: int, freq: int)
    requires freq > 0
    ensures Slot(ts, freq) == ts / freq
  {
    SlotBounds(ts, freq);
    DivUnique(ts, freq, Slot(ts, freq), ts - Slot(ts, freq) * freq);
  }

  lemma SlotMonotone(a: int, b: int, freq: int)
    requires freq > 0 && a <= b
    ensures Slot(a, freq) <= Slot(b, freq)
  {
    var sa, sb := Slot(a, freq), Slot(b, freq);
    if sb < sa {
      SlotBounds(a, freq);
      SlotBounds(b, freq);
      MulSign(sa - sb, freq);
      MulSub(sa, sb, freq);
      assert false;
    }
  }

  /** Start time of interval `slot`, built up one interval at a time;
      `StartIsProduct` shows it is `slot * freq`. */
  function Start(slot: int, freq: int): int
    decreases if slot >= 0 then slot else -slot
  {
    if slot == 0 then 0
    else if slot > 0 then Start(slot - 1, freq) + freq
    else Start(slot + 1, freq) - freq
  }

  lemma {:induction false} StartIsProduct(slot: int, freq: int)
    ensures Start(slot, freq) == slot * freq
    decreases if slot >= 0 then slot else -slot
  {
    if slot > 0 {
      StartIsProduct(slot - 1, freq);
      assert (slot - 1) * freq + freq == slot * freq;
    } else if slot < 0 {
      StartIsProduct(slot + 1, freq);
      assert (slot + 1) * freq - freq == slot * freq;
    }
  }

  ghost predicate Sorted(ticks: seq<Tick>)
  {
    forall i, j :: 0 <= i < j < |ticks| ==> ticks[i].ts <= ticks[j].ts
  }

  /* ---------- reference definition of one interval ---------- */

  /** The ticks of interval `slot`, in arrival order. */
  function Group(ticks: seq<Tick>, slot: int, freq: int): (g: seq<Tick>)
    requires freq > 0
    decreases |ticks|
  {
    if ticks == [] then []
    else
      var last := ticks[|ticks| - 1];
      assert ticks == ticks[..|ticks| - 1] + [last];
      Group(ticks[..|ticks| - 1], slot, freq) + (if Slot(last.ts, freq) == slot then [last] else [])
  }

  function MaxPrice(g: seq<Tick>): (m: real)
    requires g != []
    ensures forall i :: 0 <= i < |g| ==> g[i].price <= m
    ensures exists i :: 0 <= i < |g| && g[i].price == m
    decreases |g|
  {
    if |g| == 1 then g[0].price
    else
      var m := MaxPrice(g[..|g| - 1]);
      if g[|g| - 1].price > m then g[|g| - 1].price else m
  }

  function MinPrice(g: seq<Tick>): (m: real)
    requires g != []
    ensures forall i :: 0 <= i < |g| ==> m <= g[i].price
    ensures exists i :: 0 <= i < |g| && g[i].price == m
    decreases |g|
  {
    if |g| == 1 then g[0].price
    else
      var m := MinPrice(g[..|g| - 1]);
      if g[|g| - 1].price < m then g[|g| - 1].price else m
  }

  datatype Ohlc = Ohlc(open: real, high: real, low: real, close: real)

  /** Open, high, low and close of a group of ticks; none for an empty group. */
  function GroupOhlc(g: seq<Tick>): Option<Ohlc>
  {
    if g == [] then None else Some(Ohlc(g[0].price, MaxPrice(g), MinPrice(g), g[|g| - 1].price))
  }

  function Volumes(g: seq<Tick>): (v: seq<real>)
    ensures |v| == |g|
    ensures forall i :: 0 <= i < |g| ==> v[i] == g[i].volume
  {
    seq(|g|, i requires 0 <= i < |g| => g[i].volume)
  }

  /** What the library computes for one interval: OHLC of its ticks and the
      sum of their volumes (0 for no tick). */
  datatype Bin = Bin(slot: int, ohlc: Option<Ohlc>, volume: real)

  function SpecBin(ticks: seq<Tick>, slot: int, freq: int): Bin
    requires freq > 0
  {
    var g := Group(ticks, slot, freq);
    Bin(slot, GroupOhlc(g), Sum(Volumes(g)))
  }

  /* ---------- the partition, as a left fold ---------- */

  /** Running OHLC of an interval after one more trade at price `p`. */
  function Extend(o: Option<Ohlc>, p: real): Ohlc
  {
    match o
    case None => Ohlc(p, p, p, p)
    case Some(c) => Ohlc(c.open, if p > c.high then p else c.high, if p < c.low then p else c.low, p)
  }

  /** Empty bins for the intervals `from .. to-1`. */
  function Gap(from: int, to: int): (gap: seq<Bin>)
    requires from <= to
    ensures |gap| == to - from
    ensures forall i :: 0 <= i < |gap| ==> gap[i] == Bin(from + i, None, 0.0)
  {
    seq(to - from, i requires 0 <= i < to - from => Bin(from + i, None, 0.0))
  }

  /** Fold step: a tick of the current interval updates its bin; a tick of a
      later interval closes it, adds an empty bin for each interval skipped,
      and opens a bin of its own. */
  function Absorb(bins: seq<Bin>, t: Tick, freq: int): seq<Bin>
    requires freq > 0
    requires bins != [] ==> bins[|bins| - 1].slot <= Slot(t.ts, freq)
  {
    var s := Slot(t.ts, freq);
    if bins == [] then
      [Bin(s, Some(Extend(None, t.price)), t.volume)]
    else
      var last := bins[|bins| - 1];
      if s == last.slot then
        bins[..|bins| - 1] + [Bin(s, Some(Extend(last.ohlc, t.price)), last.volume + t.volume)]
      else
        bins + Gap(last.slot + 1, s) + [Bin(s, Some(Extend(None, t.price)), t.volume)]
  }

  lemma SortedPrefix(ticks: seq<Tick>, k: nat)
    requires Sorted(ticks) && k <= |ticks|
    ensures Sorted(ticks[..k])
  {
  }

  /** The bins of time-ordered ticks; the last bin is the last tick's interval. */
  function Bins(ticks: seq<Tick>, freq: int): (bins: seq<Bin>)
    requires freq > 0 && Sorted(ticks)
    ensures ticks == [] <==> bins == []
    ensures ticks != [] ==> bins[|bins| - 1].slot == Slot(ticks[|ticks| - 1].ts, freq)
    decreases |ticks|
  {
    if ticks == [] then []
    else
      var n := |ticks|;
      SortedPrefix(ticks, n - 1);
      var prev := Bins(ticks[..n - 1], freq);
      assert prev != [] ==> prev[|prev| - 1].slot <= Slot(ticks[n - 1].ts, freq) by {
        if prev != [] {
          SlotMonotone(ticks[n - 2].ts, ticks[n - 1].ts, freq);
        }
      }
      Absorb(prev, ticks[n - 1], freq)
  }

  /** The fold over `ticks` is one more step after the fold over all but
      the last tick. */
  lemma BinsUnfold(ticks: seq<Tick>, freq: int)
    requires freq > 0 && Sorted(ticks) && ticks != []
    ensures var pre := ticks[..|ticks| - 1];
            var t := ticks[|ticks| - 1];
            && Sorted(pre)
            && (Bins(pre, freq) != [] ==> Bins(pre, freq)[|Bins(pre, freq)| - 1].slot <= Slot(t.ts, freq))
            && Bins(ticks, freq) == Absorb(Bins(pre, freq), t, freq)
  {
    var n := |ticks|;
    SortedPrefix(ticks, n - 1);
    if n > 1 {
      SlotMonotone(ticks[n - 2].ts, ticks[n - 1].ts, freq);
    }
  }

  /* ---------- the fold computes the reference bins ---------- */

  /** Bin `x - first` of `bins` is the reference bin of interval `x`. */
  ghost predicate Matches(bins: seq<Bin>, ticks: seq<Tick>, first: int, freq: int)
    requires freq > 0
  {
    forall x :: first <= x < first + |bins| ==> bins[x - first] == SpecBin(ticks, x, freq)
  }

  lemma {:induction false} GroupSnoc(ticks: seq<Tick>, t: Tick, slot: int, freq: int)
    requires freq > 0
    ensures Group(ticks + [t], slot, freq)
         == Group(ticks, slot, freq) + (if Slot(t.ts, freq) == slot then [t] else [])
  {
    assert (ticks + [t])[..|ticks|] == ticks;
  }

  /** No tick of a time-ordered sequence lies beyond its last tick's interval. */
  lemma {:induction false} GroupBeyond(ticks: seq<Tick>, slot: int, freq: int)
    requires freq > 0 && Sorted(ticks) && ticks != []
    requires Slot(ticks[|ticks| - 1].ts, freq) < slot
    ensures Group(ticks, slot, freq) == []
    decreases |ticks|
  {
    var n := |ticks|;
    if n > 1 {
      SortedPrefix(ticks, n - 1);
      SlotMonotone(ticks[n - 2].ts, ticks[n - 1].ts, freq);
      GroupBeyond(ticks[..n - 1], slot, freq);
    }
  }

  lemma {:induction false} ExtendGroup(g: seq<Tick>, t: Tick)
    ensures GroupOhlc(g + [t]).Some?
    ensures Extend(GroupOhlc(g), t.price) == GroupOhlc(g + [t]).value
  {
    if g != [] {
      assert (g + [t])[..|g|] == g;
    }
  }

  lemma {:induction false} VolumeSnoc(g: seq<Tick>, t: Tick)
    ensures Sum(Volumes(g + [t])) == Sum(Volumes(g)) + t.volume
  {
    assert Volumes(g + [t])[..|g|] == Volumes(g);
  }

  /** One more tick changes the reference bin of its own interval only. */
  lemma {:induction false} SpecBinSnoc(pre: seq<Tick>, t: Tick, slot: int, freq: int)
    requires freq > 0
    ensures Slot(t.ts, freq) != slot ==> SpecBin(pre + [t], slot, freq) == SpecBin(pre, slot, freq)
    ensures Slot(t.ts, freq) == slot ==>
              var b := SpecBin(pre, slot, freq);
              SpecBin(pre + [t], slot, freq) == Bin(slot, Some(Extend(b.ohlc, t.price)), b.volume + t.volume)
  {
    var g := Group(pre, slot, freq);
    GroupSnoc(pre, t, slot, freq);
    if Slot(t.ts, freq) == slot {
      assert Group(pre + [t], slot, freq) == g + [t];
      ExtendGroup(g, t);
      VolumeSnoc(g, t);
    } else {
      assert Group(pre + [t], slot, freq) == g;
    }
  }

  /** Bin `k` after a tick of the current interval: the fold's bin `k` is
      `before` (kept, or grown by the tick), and the reference bin agrees. */
  lemma {:induction false} SameSlotAt(pre: seq<Tick>, t: Tick, x: int, freq: int, before: Bin, b: Bin)
    requires freq > 0 && before == SpecBin(pre, x, freq)
    requires Slot(t.ts, freq) != x ==> b == before
    requires Slot(t.ts, freq) == x ==> b == Bin(x, Some(Extend(before.ohlc, t.price)), before.volume + t.volume)
    ensures b == SpecBin(pre + [t], x, freq)
  {
    SpecBinSnoc(pre, t, x, freq);
  }

  lemma {:induction false} AbsorbSameSlot(prev: seq<Bin>, pre: seq<Tick>, t: Tick, first: int, freq: int)
    requires freq > 0 && pre != [] && first <= Slot(pre[|pre| - 1].ts, freq)
    requires |prev| == Slot(pre[|pre| - 1].ts, freq) - first + 1
    requires Matches(prev, pre, first, freq)
    requires Slot(t.ts, freq) == Slot(pre[|pre| - 1].ts, freq)
    ensures prev[|prev| - 1].slot == Slot(t.ts, freq)
    ensures var bins := Absorb(prev, t, freq);
            |bins| == |prev| && Matches(bins, pre + [t], first, freq)
  {
    var s := Slot(t.ts, freq);
    var m := |prev|;
    var last := prev[m - 1];
    assert last == SpecBin(pre, s, freq);
    var bins := Absorb(prev, t, freq);
    assert bins == prev[..m - 1] + [Bin(s, Some(Extend(last.ohlc, t.price)), last.volume + t.volume)];
    forall x | first <= x < first + |bins|
      ensures bins[x - first] == SpecBin(pre + [t], x, freq)
    {
      SameSlotAt(pre, t, x, freq, prev[x - first], bins[x - first]);
    }
  }

  /** Bin `k` after a tick of a later interval: bins before it are kept, the
      skipped intervals are empty, and the tick opens a bin of its own. */
  lemma {:induction false} LaterSlotAt(pre: seq<Tick>, t: Tick, x: int, freq: int, b: Bin)
    requires freq > 0 && Sorted(pre) && pre != [] && Slot(pre[|pre| - 1].ts, freq) < x <= Slot(t.ts, freq)
    requires x < Slot(t.ts, freq) ==> b == Bin(x, None, 0.0)
    requires x == Slot(t.ts, freq) ==> b == Bin(x, Some(Extend(None, t.price)), t.volume)
    ensures b == SpecBin(pre + [t], x, freq)
  {
    GroupBeyond(pre, x, freq);
    SpecBinSnoc(pre, t, x, freq);
  }

  lemma {:induction false} AbsorbLaterSlot(prev: seq<Bin>, pre: seq<Tick>, t: Tick, first: int, freq: int)
    requires freq > 0 && pre != [] && Sorted(pre) && first <= Slot(pre[|pre| - 1].ts, freq)
    requires |prev| == Slot(pre[|pre| - 1].ts, freq) - first + 1
    requires Matches(prev, pre, first, freq)
    requires Slot(pre[|pre| - 1].ts, freq) < Slot(t.ts, freq)
    ensures prev[|prev| - 1].slot < Slot(t.ts, freq)
    ensures var bins := Absorb(prev, t, freq);
            |bins| == Slot(t.ts, freq) - first + 1 && Matches(bins, pre + [t], first, freq)
  {
    var s := Slot(t.ts, freq);
    var lastSlot := Slot(pre[|pre| - 1].ts, freq);
    var m := |prev|;
    assert prev[m - 1] == SpecBin(pre, lastSlot, freq);
    var gap := Gap(lastSlot + 1, s);
    var newBin := Bin(s, Some(Extend(None, t.price)), t.volume);
    var bins := Absorb(prev, t, freq);
    assert bins == prev + gap + [newBin];
    forall x | first <= x < first + |bins|
      ensures bins[x - first] == SpecBin(pre + [t], x, freq)
    {
      if x < first + m {
        SameSlotAt(pre, t, x, freq, prev[x - first], bins[x - first]);
      } else {
        LaterSlotAt(pre, t, x, freq, bins[x - first]);
      }
    }
  }

  /** For time-ordered ticks, the fold yields one bin per interval from the
      first tick's to the last tick's, and bin `k` is the reference bin of
      interval `floor(first / freq) + k`. */
  lemma {:induction false} BinsMatch(ticks: seq<Tick>, freq: int)
    requires freq > 0 && Sorted(ticks) && ticks != []
    ensures |Bins(ticks, freq)| == Slot(ticks[|ticks| - 1].ts, freq) - Slot(ticks[0].ts, freq) + 1
    ensures Matches(Bins(ticks, freq), ticks, Slot(ticks[0].ts, freq), freq)
    decreases |ticks|
  {
    if |ticks| == 1 {
      BinsMatchOne(ticks, freq);
    } else {
      SortedPrefix(ticks, |ticks| - 1);
      BinsMatch(ticks[..|ticks| - 1], freq);
      BinsMatchStep(ticks, freq);
    }
  }

  /** A single tick gives one bin, its own. */
  lemma BinsMatchOne(ticks: seq<Tick>, freq: int)
    requires freq > 0 && Sorted(ticks) && |ticks| == 1
    ensures |Bins(ticks, freq)| == 1
    ensures Matches(Bins(ticks, freq), ticks, Slot(ticks[0].ts, freq), freq)
  {
    var t := ticks[0];
    var s := Slot(t.ts, freq);
    var b := Bin(s, Some(Extend(None, t.price)), t.volume);
    assert ticks == [] + [t];
    assert Bins(ticks, freq) == [b];
    GroupSnoc([], t, s, freq);
    assert Group(ticks, s, freq) == [t];
    ExtendGroup([], t);
    VolumeSnoc([], t);
    assert SpecBin(ticks, s, freq) == b;
    MatchesSingle([b], ticks, s, freq);
  }

  /** A single bin matches when it is the reference bin of its interval. */
  lemma MatchesSingle(bins: seq<Bin>, ticks: seq<Tick>, first: int, freq: int)
    requires freq > 0 && |bins| == 1 && bins[0] == SpecBin(ticks, first, freq)
    ensures Matches(bins, ticks, first, freq)
  {
    forall x | first <= x < first + 1
      ensures bins[x - first] == SpecBin(ticks, x, freq)
    {
      assert x == first;
    }
  }

  /** The fold step keeps the bins in agreement with the reference bins. */
  lemma BinsMatchStep(ticks: seq<Tick>, freq: int)
    requires freq > 0 && Sorted(ticks) && |ticks| >= 2
    requires var pre := ticks[..|ticks| - 1];
             && Sorted(pre)
             && |Bins(pre, freq)| == Slot(pre[|pre| - 1].ts, freq) - Slot(pre[0].ts, freq) + 1
             && Matches(Bins(pre, freq), pre, Slot(pre[0].ts, freq), freq)
    ensures |Bins(ticks, freq)| == Slot(ticks[|ticks| - 1].ts, freq) - Slot(ticks[0].ts, freq) + 1
    ensures Matches(Bins(ticks, freq), ticks, Slot(ticks[0].ts, freq), freq)
  {
    var n := |ticks|;
    var t := ticks[n - 1];
    var pre := ticks[..n - 1];
    assert ticks == pre + [t];
    assert pre[0] == ticks[0];
    var first := Slot(ticks[0].ts, freq);
    SlotMonotone(pre[n - 2].ts, t.ts, freq);
    BinsUnfold(ticks, freq);
    var prev := Bins(pre, freq);
    if Slot(t.ts, freq) == Slot(pre[n - 2].ts, freq) {
      AbsorbSameSlot(prev, pre, t, first, freq);
    } else {
      AbsorbLaterSlot(prev, pre, t, first, freq);
    }
  }

  /** A tick belongs to the group of an interval exactly when it is one of
      the ticks and its timestamp lies in that interval. */
  lemma {:induction false} GroupMembers(ticks: seq<Tick>, slot: int, freq: int)
    requires freq > 0
    ensures forall t :: t in Group(ticks, slot, freq) <==> t in ticks && Slot(t.ts, freq) == slot
    decreases |ticks|
  {
    if ticks != [] {
      var n := |ticks|;
      var pre := ticks[..n - 1];
      assert ticks == pre + [ticks[n - 1]];
      GroupMembers(pre, slot, freq);
      GroupSnoc(pre, ticks[n - 1], slot, freq);
    }
  }

  /* ---------- volume is conserved by the fold ---------- */

  function BinVolumes(bins: seq<Bin>): (v: seq<real>)
    ensures |v| == |bins|
    ensures forall i :: 0 <= i < |bins| ==> v[i] == bins[i].volume
  {
    seq(|bins|, i requires 0 <= i < |bins| => bins[i].volume)
  }

  lemma {:induction false} SumZeros(s: seq<real>)
    requires forall i :: 0 <= i < |s| ==> s[i] == 0.0
    ensures Sum(s) == 0.0
    decreases |s|
  {
    if s != [] {
      SumZeros(s[..|s| - 1]);
    }
  }

  /** Each fold step adds exactly the new tick's volume to the bins' total. */
  lemma {:induction false} AbsorbVolume(bins: seq<Bin>, t: Tick, freq: int)
    requires freq > 0
    requires bins != [] ==> bins[|bins| - 1].slot <= Slot(t.ts, freq)
    ensures Sum(BinVolumes(Absorb(bins, t, freq))) == Sum(BinVolumes(bins)) + t.volume
  {
    var s := Slot(t.ts, freq);
    var v := BinVolumes(bins);
    if bins == [] {
      SumConcat([], [t.volume]);
      assert BinVolumes(Absorb(bins, t, freq)) == [] + [t.volume];
    } else {
      var m := |bins|;
      var last := bins[m - 1];
      assert v == v[..m - 1] + [last.volume];
      SumConcat(v[..m - 1], [last.volume]);
      if s == last.slot {
        var grown := Bin(s, Some(Extend(last.ohlc, t.price)), last.volume + t.volume);
        assert BinVolumes(Absorb(bins, t, freq)) == v[..m - 1] + [grown.volume];
        SumConcat(v[..m - 1], [grown.volume]);
      } else {
        var gap := Gap(last.slot + 1, s);
        SumZeros(BinVolumes(gap));
        assert BinVolumes(Absorb(bins, t, freq)) == v + BinVolumes(gap) + [t.volume];
        SumConcat(v, BinVolumes(gap));
        SumConcat(v + BinVolumes(gap), [t.volume]);
      }
    }
  }

  /** The bins hold, between them, exactly the volume of all ticks. */
  lemma {:induction false} BinsVolume(ticks: seq<Tick>, freq: int)
    requires freq > 0 && Sorted(ticks)
    ensures Sum(BinVolumes(Bins(ticks, freq))) == Sum(Volumes(ticks))
    decreases |ticks|
  {
    if ticks != [] {
      var n := |ticks|;
      var pre, t := ticks[..n - 1], ticks[n - 1];
      BinsUnfold(ticks, freq);
      BinsVolume(pre, freq);
      VolumesUnfold(ticks);
      BinsVolumeStep(Bins(pre, freq), Bins(ticks, freq), Volumes(pre), t, freq);
    }
  }

  lemma VolumesUnfold(ticks: seq<Tick>)
    requires ticks != []
    ensures Volumes(ticks) == Volumes(ticks[..|ticks| - 1]) + [ticks[|ticks| - 1].volume]
  {
  }

  /** One fold step keeps the bins' total equal to the ticks' total. */
  lemma BinsVolumeStep(before: seq<Bin>, after: seq<Bin>, v: seq<real>, t: Tick, freq: int)
    requires freq > 0
    requires before != [] ==> before[|before| - 1].slot <= Slot(t.ts, freq)
    requires after == Absorb(before, t, freq)
    requires Sum(BinVolumes(before)) == Sum(v)
    ensures Sum(BinVolumes(after)) == Sum(v + [t.volume])
  {
    AbsorbVolume(before, t, freq);
    SumConcat(v, [t.volume]);
  }

  /* ---------- bars and the column-wise forward fill ---------- */

  /** One output row: the interval's start time, the four price columns
      (missing when no trade has been seen) and the traded volume. */
  datatype Bar = Bar(start: int, open: Option<real>, high: Option<real>, low: Option<real>,
                     close: Option<real>, volume: real)

  /** The OHLC frame and the volume series joined on the interval start. */
  function BarOf(b: Bin, freq: int): Bar
  {
    match b.ohlc
    case None => Bar(Start(b.slot, freq), None, None, None, None, b.volume)
    case Some(o) => Bar(Start(b.slot, freq), Some(o.open), Some(o.high), Some(o.low), Some(o.close), b.volume)
  }

  function Concat(bins: seq<Bin>, freq: int): (bars: seq<Bar>)
    ensures |bars| == |bins|
  {
    seq(|bins|, i requires 0 <= i < |bins| => BarOf(bins[i], freq))
  }

  datatype PriceColumn = Open | High | Low | Close

  function Price(b: Bar, c: PriceColumn): Option<real>
  {
    match c
    case Open => b.open
    case High => b.high
    case Low => b.low
    case Close => b.close
  }

  function Column(bars: seq<Bar>, c: PriceColumn): (col: seq<Option<real>>)
    ensures |col| == |bars|
    ensures forall i :: 0 <= i < |bars| ==> col[i] == Price(bars[i], c)
  {
    seq(|bars|, i requires 0 <= i < |bars| => Price(bars[i], c))
  }

  /** Forward fill of one column: a missing value takes the value above it;
      a missing value with nothing above stays missing. */
  function FFill(col: seq<Option<real>>): (r: seq<Option<real>>)
    ensures |r| == |col|
    ensures forall i :: 0 <= i < |col| && col[i].Some? ==> r[i] == col[i]
    ensures forall i :: 0 < i < |col| && col[i].None? ==> r[i] == r[i - 1]
    ensures 0 < |col| && col[0].None? ==> r[0].None?
    decreases |col|
  {
    if col == [] then []
    else
      var n := |col|;
      var prev := FFill(col[..n - 1]);
      prev + [if col[n - 1].Some? || n == 1 then col[n - 1] else prev[n - 2]]
  }

  /** A filled value is the nearest value present at or above it. */
  lemma {:induction false} FFillLastKnown(col: seq<Option<real>>, j: int, i: int)
    requires 0 <= j <= i < |col| && col[j].Some?
    requires forall k :: j < k <= i ==> col[k].None?
    ensures FFill(col)[i] == col[j]
    decreases i - j
  {
    if j < i {
      FFillLastKnown(col, j, i - 1);
    }
  }

  /** With the first value present, forward fill leaves nothing missing. */
  lemma {:induction false} FFillDefined(col: seq<Option<real>>, i: int)
    requires 0 <= i < |col| && col[0].Some?
    ensures FFill(col)[i].Some?
    decreases i
  {
    if 0 < i && col[i].None? {
      FFillDefined(col, i - 1);
    }
  }

  /** Forward fill applied to each of the four price columns separately;
      the start times and volumes are left as they are. */
  function FillPrices(bars: seq<Bar>): (filled: seq<Bar>)
    ensures |filled| == |bars|
  {
    var o := FFill(Column(bars, Open));
    var h := FFill(Column(bars, High));
    var l := FFill(Column(bars, Low));
    var c := FFill(Column(bars, Close));
    seq(|bars|, i requires 0 <= i < |bars| => Bar(bars[i].start, o[i], h[i], l[i], c[i], bars[i].volume))
  }

  /** Each price column of the filled bars is the forward fill of that column
      alone, and nothing else changes. */
  lemma FillPricesColumns(bars: seq<Bar>)
    ensures var filled := FillPrices(bars);
            && (forall c :: Column(filled, c) == FFill(Column(bars, c)))
            && forall i :: 0 <= i < |bars| ==> filled[i].start == bars[i].start && filled[i].volume == bars[i].volume
  {
    var filled := FillPrices(bars);
    forall c
      ensures Column(filled, c) == FFill(Column(bars, c))
    {
      forall i | 0 <= i < |bars|
        ensures Column(filled, c)[i] == FFill(Column(bars, c))[i]
      {
        FillPricesAt(bars, i);
      }
    }
    forall i | 0 <= i < |bars|
      ensures filled[i].start == bars[i].start && filled[i].volume == bars[i].volume
    {
      FillPricesAt(bars, i);
    }
  }

  /** The resampled bars of time-ordered ticks. */
  function Resample(ticks: seq<Tick>, freq: int): (bars: seq<Bar>)
    requires freq > 0 && Sorted(ticks)
    ensures ticks == [] <==> bars == []
  {
    FillPrices(Concat(Bins(ticks, freq), freq))
  }

  /* ---------- properties of the resampled bars ---------- */

  lemma ResampleLength(ticks: seq<Tick>, freq: int)
    requires freq > 0 && Sorted(ticks) && ticks != []
    ensures |Resample(ticks, freq)| == |Bins(ticks, freq)|
                                   == Slot(ticks[|ticks| - 1].ts, freq) - Slot(ticks[0].ts, freq) + 1
  {
    BinsMatch(ticks, freq);
  }

  /** Row `i` of the filled bars keeps its start and volume, and each of its
      prices is that column's forward fill at row `i`. */
  lemma FillPricesAt(bars: seq<Bar>, i: int)
    requires 0 <= i < |bars|
    ensures var filled := FillPrices(bars);
            && filled[i].start == bars[i].start && filled[i].volume == bars[i].volume
            && forall c :: Price(filled[i], c) == FFill(Column(bars, c))[i]
  {
    var filled := FillPrices(bars);
    var o, h := FFill(Column(bars, Open)), FFill(Column(bars, High));
    var l, c := FFill(Column(bars, Low)), FFill(Column(bars, Close));
    assert filled[i] == Bar(bars[i].start, o[i], h[i], l[i], c[i], bars[i].volume);
    forall col
      ensures Price(filled[i], col) == FFill(Column(bars, col))[i]
    {
      match col
      case Open =>
      case High =>
      case Low =>
      case Close =>
    }
  }

  /** Row `i` after the fill: a price present before stays, a missing one is
      the same column of the row above. */
  lemma FillPricesRow(bars: seq<Bar>, i: int)
    requires 0 <= i < |bars|
    ensures var filled := FillPrices(bars);
            && filled[i].start == bars[i].start && filled[i].volume == bars[i].volume
            && (forall c :: Price(bars[i], c).Some? ==> Price(filled[i], c) == Price(bars[i], c))
            && (forall c :: 0 < i && Price(bars[i], c).None? ==> Price(filled[i], c) == Price(filled[i - 1], c))
  {
    FillPricesAt(bars, i);
    if 0 < i {
      FillPricesAt(bars, i - 1);
    }
    forall c
      ensures Column(bars, c)[i] == Price(bars[i], c)
    {
    }
  }

  /** A row that has all four prices is left as it is by the fill. */
  lemma FillPricesKeep(bars: seq<Bar>, i: int)
    requires 0 <= i < |bars|
    requires bars[i].open.Some? && bars[i].high.Some? && bars[i].low.Some? && bars[i].close.Some?
    ensures FillPrices(bars)[i] == bars[i]
  {
    FillPricesRow(bars, i);
    assert Price(bars[i], Open).Some? && Price(bars[i], High).Some?;
    assert Price(bars[i], Low).Some? && Price(bars[i], Close).Some?;
  }

  /** A row with no price at all takes all four from the filled row above. */
  lemma FillPricesCarry(bars: seq<Bar>, i: int)
    requires 0 < i < |bars|
    requires bars[i].open.None? && bars[i].high.None? && bars[i].low.None? && bars[i].close.None?
    ensures var filled := FillPrices(bars);
            && filled[i].open == filled[i - 1].open && filled[i].high == filled[i - 1].high
            && filled[i].low == filled[i - 1].low && filled[i].close == filled[i - 1].close
  {
    var filled := FillPrices(bars);
    FillPricesRow(bars, i);
    assert Price(bars[i], Open).None? && Price(bars[i], High).None?;
    assert Price(bars[i], Low).None? && Price(bars[i], Close).None?;
    assert Price(filled[i], Open) == Price(filled[i - 1], Open);
    assert Price(filled[i], High) == Price(filled[i - 1], High);
    assert Price(filled[i], Low) == Price(filled[i - 1], Low);
    assert Price(filled[i], Close) == Price(filled[i - 1], Close);
  }

  /** When the first row has all four prices, no filled row misses one. */
  lemma FillPricesDefined(bars: seq<Bar>, i: int)
    requires 0 <= i < |bars|
    requires bars[0].open.Some? && bars[0].high.Some? && bars[0].low.Some? && bars[0].close.Some?
    ensures forall c :: Price(FillPrices(bars)[i], c).Some?
  {
    FillPricesAt(bars, i);
    forall c
      ensures FFill(Column(bars, c))[i].Some?
    {
      assert Column(bars, c)[0] == Price(bars[0], c);
      FFillDefined(Column(bars, c), i);
    }
  }

  /** The unfilled bar of interval `slot` starts at the interval's start... */
  lemma BarOfStart(ticks: seq<Tick>, slot: int, freq: int)
    requires freq > 0
    ensures BarOf(SpecBin(ticks, slot, freq), freq).start == Start(slot, freq)
  {
  }

  /** ... holds the summed volume of the interval's ticks ... */
  lemma BarOfVolume(ticks: seq<Tick>, slot: int, freq: int)
    requires freq > 0
    ensures BarOf(SpecBin(ticks, slot, freq), freq).volume == Sum(Volumes(Group(ticks, slot, freq)))
  {
  }

  /** ... has no price when the interval holds no trade ... */
  lemma BarOfNoTrade(ticks: seq<Tick>, slot: int, freq: int)
    requires freq > 0 && Group(ticks, slot, freq) == []
    ensures var bar := BarOf(SpecBin(ticks, slot, freq), freq);
            bar.open.None? && bar.high.None? && bar.low.None? && bar.close.None?
  {
  }

  /** ... and otherwise the prices of its first, highest, lowest and last
      trade. */
  lemma BarOfTrades(ticks: seq<Tick>, slot: int, freq: int)
    requires freq > 0 && Group(ticks, slot, freq) != []
    ensures var bar := BarOf(SpecBin(ticks, slot, freq), freq);
            var g := Group(ticks, slot, freq);
            && bar.open == Some(g[0].price) && bar.high == Some(MaxPrice(g))
            && bar.low == Some(MinPrice(g)) && bar.close == Some(g[|g| - 1].price)
  {
  }

  /** Bin `x - first` of the fold is the reference bin of interval `x`. */
  lemma BinAt(ticks: seq<Tick>, freq: int, x: int)
    requires freq > 0 && Sorted(ticks) && ticks != []
    requires Slot(ticks[0].ts, freq) <= x <= Slot(ticks[|ticks| - 1].ts, freq)
    ensures |Bins(ticks, freq)| == Slot(ticks[|ticks| - 1].ts, freq) - Slot(ticks[0].ts, freq) + 1
    ensures Bins(ticks, freq)[x - Slot(ticks[0].ts, freq)] == SpecBin(ticks, x, freq)
  {
    BinsMatch(ticks, freq);
  }

  /** The bar of interval `x`, before the fill, is built from the reference
      bin of that interval. */
  lemma RawAt(ticks: seq<Tick>, freq: int, x: int)
    requires freq > 0 && Sorted(ticks) && ticks != []
    requires Slot(ticks[0].ts, freq) <= x <= Slot(ticks[|ticks| - 1].ts, freq)
    ensures |Concat(Bins(ticks, freq), freq)| == Slot(ticks[|ticks| - 1].ts, freq) - Slot(ticks[0].ts, freq) + 1
    ensures Concat(Bins(ticks, freq), freq)[x - Slot(ticks[0].ts, freq)] == BarOf(SpecBin(ticks, x, freq), freq)
  {
    var bins := Bins(ticks, freq);
    var i := x - Slot(ticks[0].ts, freq);
    BinAt(ticks, freq, x);
    assert Concat(bins, freq)[i] == BarOf(bins[i], freq);
  }

  /** The bar of interval `x` starts where the interval does, at
      `Start(x, freq)`, which is `x * freq` (`StartIsProduct`). */
  lemma ResampleStart(ticks: seq<Tick>, freq: int, x: int)
    requires freq > 0 && Sorted(ticks) && ticks != []
    requires Slot(ticks[0].ts, freq) <= x <= Slot(ticks[|ticks| - 1].ts, freq)
    ensures |Resample(ticks, freq)| == Slot(ticks[|ticks| - 1].ts, freq) - Slot(ticks[0].ts, freq) + 1
    ensures Resample(ticks, freq)[x - Slot(ticks[0].ts, freq)].start == Start(x, freq)
  {
    var raw := Concat(Bins(ticks, freq), freq);
    var i := x - Slot(ticks[0].ts, freq);
    RawAt(ticks, freq, x);
    BarOfStart(ticks, x, freq);
    FillPricesAt(raw, i);
    assert Resample(ticks, freq)[i].start == raw[i].start;
  }

  /** Interval `x` starts `freq` after interval `x - 1`. */
  lemma StartStep(x: int, freq: int)
    ensures Start(x, freq) == Start(x - 1, freq) + freq
  {
    if x <= 0 {
      assert Start(x - 1, freq) == Start(x, freq) - freq;
    }
  }

  /** A timestamp lies in the interval that starts at `Start(Slot(ts))`. */
  lemma StartBounds(ts: int, freq: int)
    requires freq > 0
    ensures Start(Slot(ts, freq), freq) <= ts < Start(Slot(ts, freq), freq) + freq
  {
    SlotBounds(ts, freq);
    StartIsProduct(Slot(ts, freq), freq);
  }

  /** Bin `i` of the fold is that of interval `floor(first / freq) + i`. */
  lemma BinSlot(ticks: seq<Tick>, freq: int, i: int)
    requires freq > 0 && Sorted(ticks) && ticks != []
    requires 0 <= i < |Bins(ticks, freq)|
    ensures Bins(ticks, freq)[i].slot == Slot(ticks[0].ts, freq) + i
  {
    BinsMatch(ticks, freq);
    MatchesSlots(Bins(ticks, freq), ticks, Slot(ticks[0].ts, freq), freq);
  }

  /** Bins that match the reference bins from interval `first` on are
      numbered `first, first + 1, ...`. */
  lemma MatchesSlots(bins: seq<Bin>, ticks: seq<Tick>, first: int, freq: int)
    requires freq > 0 && Matches(bins, ticks, first, freq)
    ensures forall i :: 0 <= i < |bins| ==> bins[i].slot == first + i
  {
    forall i | 0 <= i < |bins|
      ensures bins[i].slot == first + i
    {
      var x := first + i;
      assert x - first == i;
      assert bins[x - first] == SpecBin(ticks, x, freq);
    }
  }

  /** Each bar starts `freq` after the bar before it. */
  lemma ResampleSpacing(ticks: seq<Tick>, freq: int, i: int)
    requires freq > 0 && Sorted(ticks) && ticks != []
    requires 0 < i < |Resample(ticks, freq)|
    ensures Resample(ticks, freq)[i].start == Resample(ticks, freq)[i - 1].start + freq
  {
    var bins := Bins(ticks, freq);
    BinSlot(ticks, freq, i);
    BinSlot(ticks, freq, i - 1);
    FilledSpacing(bins, freq, i);
    assert Resample(ticks, freq) == FillPrices(Concat(bins, freq));
  }

  /** Bars of consecutive intervals start `freq` apart, before and after
      the fill. */
  lemma FilledSpacing(bins: seq<Bin>, freq: int, i: int)
    requires 0 < i < |bins| && bins[i].slot == bins[i - 1].slot + 1
    ensures var filled := FillPrices(Concat(bins, freq));
            filled[i].start == filled[i - 1].start + freq
  {
    var raw := Concat(bins, freq);
    var s := bins[i].slot;
    assert raw[i].start == Start(s, freq);
    assert raw[i - 1].start == Start(s - 1, freq);
    StartStep(s, freq);
    FillPricesAt(raw, i);
    FillPricesAt(raw, i - 1);
  }

  /** The bars are the consecutive intervals from the first tick's to the
      last tick's: `floor(last / freq) - floor(first / freq) + 1` of them,
      each `freq` after the one before (`ResampleTickInterval` places the
      first and the last tick in the first and the last bar). */
  lemma ResampleIntervals(ticks: seq<Tick>, freq: int)
    requires freq > 0 && Sorted(ticks) && ticks != []
    ensures var bars := Resample(ticks, freq);
            var last := |ticks| - 1;
            && |bars| == ticks[last].ts / freq - ticks[0].ts / freq + 1
            && (forall i :: 0 < i < |bars| ==> bars[i].start == bars[i - 1].start + freq)
  {
    var bars := Resample(ticks, freq);
    ResampleLength(ticks, freq);
    SlotIsFloorDiv(ticks[0].ts, freq);
    SlotIsFloorDiv(ticks[|ticks| - 1].ts, freq);
    forall i | 0 < i < |bars|
      ensures bars[i].start == bars[i - 1].start + freq
    {
      ResampleSpacing(ticks, freq, i);
    }
  }

  /** Every tick lies in the interval of its bar, number
      `floor(ts / freq) - floor(first / freq)`. */
  lemma ResampleTickInterval(ticks: seq<Tick>, freq: int, j: int)
    requires freq > 0 && Sorted(ticks) && 0 <= j < |ticks|
    ensures var bars := Resample(ticks, freq);
            var i := ticks[j].ts / freq - ticks[0].ts / freq;
            0 <= i < |bars| && bars[i].start <= ticks[j].ts < bars[i].start + freq
  {
    var x := Slot(ticks[j].ts, freq);
    var i := x - Slot(ticks[0].ts, freq);
    SlotIsFloorDiv(ticks[0].ts, freq);
    SlotIsFloorDiv(ticks[j].ts, freq);
    SlotMonotone(ticks[0].ts, ticks[j].ts, freq);
    SlotMonotone(ticks[j].ts, ticks[|ticks| - 1].ts, freq);
    ResampleStart(ticks, freq, x);
    StartBounds(ticks[j].ts, freq);
    assert i == ticks[j].ts / freq - ticks[0].ts / freq;
  }

  /** The volume of the bar of interval `x` is the sum of the volumes of
      the interval's ticks, and 0 when the interval holds none. */
  lemma ResampleBarVolume(ticks: seq<Tick>, freq: int, x: int)
    requires freq > 0 && Sorted(ticks) && ticks != []
    requires Slot(ticks[0].ts, freq) <= x <= Slot(ticks[|ticks| - 1].ts, freq)
    ensures |Resample(ticks, freq)| == Slot(ticks[|ticks| - 1].ts, freq) - Slot(ticks[0].ts, freq) + 1
    ensures var bar := Resample(ticks, freq)[x - Slot(ticks[0].ts, freq)];
            var g := Group(ticks, x, freq);
            && bar.volume == Sum(Volumes(g))
            && (g == [] ==> bar.volume == 0.0)
  {
    var raw := Concat(Bins(ticks, freq), freq);
    var i := x - Slot(ticks[0].ts, freq);
    RawAt(ticks, freq, x);
    BarOfVolume(ticks, x, freq);
    FillPricesAt(raw, i);
    assert Resample(ticks, freq)[i].volume == raw[i].volume;
  }

  /** The bar of an interval holding ticks: open is the first tick's price,
      close the last one's, high the largest and low the smallest. */
  lemma ResampleBarPrices(ticks: seq<Tick>, freq: int, x: int)
    requires freq > 0 && Sorted(ticks) && ticks != []
    requires Slot(ticks[0].ts, freq) <= x <= Slot(ticks[|ticks| - 1].ts, freq)
    requires Group(ticks, x, freq) != []
    ensures |Resample(ticks, freq)| == Slot(ticks[|ticks| - 1].ts, freq) - Slot(ticks[0].ts, freq) + 1
    ensures var bar := Resample(ticks, freq)[x - Slot(ticks[0].ts, freq)];
            var g := Group(ticks, x, freq);
            && bar.open == Some(g[0].price)
            && bar.high == Some(MaxPrice(g))
            && bar.low == Some(MinPrice(g))
            && bar.close == Some(g[|g| - 1].price)
  {
    var raw := Concat(Bins(ticks, freq), freq);
    var i := x - Slot(ticks[0].ts, freq);
    var bar := BarOf(SpecBin(ticks, x, freq), freq);
    RawAt(ticks, freq, x);
    assert raw[i] == bar;
    BarOfTrades(ticks, x, freq);
    assert bar.open.Some? && bar.high.Some? && bar.low.Some? && bar.close.Some?;
    FillPricesKeep(raw, i);
    assert Resample(ticks, freq)[i] == bar;
  }

  /** Open and close of a group lie between its low and its high. */
  lemma OhlcRange(g: seq<Tick>)
    requires g != []
    ensures MinPrice(g) <= g[0].price <= MaxPrice(g)
    ensures MinPrice(g) <= g[|g| - 1].price <= MaxPrice(g)
  {
  }

  /** Every trade of an interval is priced between the low and the high of
      the interval's group. */
  lemma GroupPriceBounds(ticks: seq<Tick>, slot: int, freq: int, j: int)
    requires freq > 0 && 0 <= j < |ticks| && Slot(ticks[j].ts, freq) == slot
    ensures var g := Group(ticks, slot, freq);
            g != [] && MinPrice(g) <= ticks[j].price <= MaxPrice(g)
  {
    var g := Group(ticks, slot, freq);
    GroupMembers(ticks, slot, freq);
    assert ticks[j] in g;
    var k :| 0 <= k < |g| && g[k] == ticks[j];
  }

  /** In a bar with trades, open and close lie between low and high. */
  lemma ResampleBarRange(ticks: seq<Tick>, freq: int, x: int)
    requires freq > 0 && Sorted(ticks) && ticks != []
    requires Slot(ticks[0].ts, freq) <= x <= Slot(ticks[|ticks| - 1].ts, freq)
    requires Group(ticks, x, freq) != []
    ensures |Resample(ticks, freq)| == Slot(ticks[|ticks| - 1].ts, freq) - Slot(ticks[0].ts, freq) + 1
    ensures var bar := Resample(ticks, freq)[x - Slot(ticks[0].ts, freq)];
            && bar.open.Some? && bar.high.Some? && bar.low.Some? && bar.close.Some?
            && bar.low.value <= bar.open.value <= bar.high.value
            && bar.low.value <= bar.close.value <= bar.high.value
  {
    ResampleBarPrices(ticks, freq, x);
    OhlcRange(Group(ticks, x, freq));
  }

  /** Every trade is priced between the low and the high of its own bar. */
  lemma ResampleTradeInRange(ticks: seq<Tick>, freq: int, j: int)
    requires freq > 0 && Sorted(ticks) && 0 <= j < |ticks|
    ensures var i := Slot(ticks[j].ts, freq) - Slot(ticks[0].ts, freq);
            var bars := Resample(ticks, freq);
            && 0 <= i < |bars|
            && bars[i].low.Some? && bars[i].high.Some?
            && bars[i].low.value <= ticks[j].price <= bars[i].high.value
  {
    var x := Slot(ticks[j].ts, freq);
    SlotMonotone(ticks[0].ts, ticks[j].ts, freq);
    SlotMonotone(ticks[j].ts, ticks[|ticks| - 1].ts, freq);
    GroupPriceBounds(ticks, x, freq, j);
    ResampleBarPrices(ticks, freq, x);
  }

  /** The bar of an interval holding no trade copies each price column from
      the bar before it, column by column. */
  lemma ResampleCarry(ticks: seq<Tick>, freq: int, x: int)
    requires freq > 0 && Sorted(ticks) && ticks != []
    requires Slot(ticks[0].ts, freq) < x <= Slot(ticks[|ticks| - 1].ts, freq)
    requires Group(ticks, x, freq) == []
    ensures |Resample(ticks, freq)| == Slot(ticks[|ticks| - 1].ts, freq) - Slot(ticks[0].ts, freq) + 1
    ensures var bars := Resample(ticks, freq);
            var i := x - Slot(ticks[0].ts, freq);
            && bars[i].open == bars[i - 1].open && bars[i].high == bars[i - 1].high
            && bars[i].low == bars[i - 1].low && bars[i].close == bars[i - 1].close
  {
    var raw := Concat(Bins(ticks, freq), freq);
    var bars := Resample(ticks, freq);
    assert bars == FillPrices(raw);
    var i := x - Slot(ticks[0].ts, freq);
    RawNoTrade(ticks, freq, x);
    FillPricesCarry(raw, i);
  }

  /** The unfilled bar of an interval without trades has no price. */
  lemma RawNoTrade(ticks: seq<Tick>, freq: int, x: int)
    requires freq > 0 && Sorted(ticks) && ticks != []
    requires Slot(ticks[0].ts, freq) <= x <= Slot(ticks[|ticks| - 1].ts, freq)
    requires Group(ticks, x, freq) == []
    ensures var raw := Concat(Bins(ticks, freq), freq);
            var i := x - Slot(ticks[0].ts, freq);
            && |raw| == Slot(ticks[|ticks| - 1].ts, freq) - Slot(ticks[0].ts, freq) + 1
            && raw[i].open.None? && raw[i].high.None? && raw[i].low.None? && raw[i].close.None?
  {
    var raw := Concat(Bins(ticks, freq), freq);
    var i := x - Slot(ticks[0].ts, freq);
    var bar := BarOf(SpecBin(ticks, x, freq), freq);
    RawAt(ticks, freq, x);
    assert raw[i] == bar;
    BarOfNoTrade(ticks, x, freq);
  }

  /** The first interval holds the first tick, so its unfilled bar has all
      four prices. */
  lemma FirstBarPriced(ticks: seq<Tick>, freq: int)
    requires freq > 0 && Sorted(ticks) && ticks != []
    ensures var raw := Concat(Bins(ticks, freq), freq);
            0 < |raw| && raw[0].open.Some? && raw[0].high.Some? && raw[0].low.Some? && raw[0].close.Some?
  {
    var raw := Concat(Bins(ticks, freq), freq);
    var first := Slot(ticks[0].ts, freq);
    var bar := BarOf(SpecBin(ticks, first, freq), freq);
    SlotMonotone(ticks[0].ts, ticks[|ticks| - 1].ts, freq);
    GroupPriceBounds(ticks, first, freq, 0);
    RawAt(ticks, freq, first);
    assert first - first == 0;
    assert raw[0] == bar;
    BarOfTrades(ticks, first, freq);
  }

  /** The first and last intervals hold a trade, so after the fill no bar
      has a missing price. */
  lemma ResampleNoMissingPrice(ticks: seq<Tick>, freq: int)
    requires freq > 0 && Sorted(ticks) && ticks != []
    ensures var bars := Resample(ticks, freq);
            var last := |ticks| - 1;
            && Group(ticks, Slot(ticks[0].ts, freq), freq) != []
            && Group(ticks, Slot(ticks[last].ts, freq), freq) != []
            && forall i, c :: 0 <= i < |bars| ==> Price(bars[i], c).Some?
  {
    var raw := Concat(Bins(ticks, freq), freq);
    GroupPriceBounds(ticks, Slot(ticks[0].ts, freq), freq, 0);
    GroupPriceBounds(ticks, Slot(ticks[|ticks| - 1].ts, freq), freq, |ticks| - 1);
    FirstBarPriced(ticks, freq);
    forall i | 0 <= i < |raw|
      ensures forall c :: Price(FillPrices(raw)[i], c).Some?
    {
      FillPricesDefined(raw, i);
    }
  }

  function BarVolumes(bars: seq<Bar>): (v: seq<real>)
    ensures |v| == |bars|
    ensures forall i :: 0 <= i < |bars| ==> v[i] == bars[i].volume
  {
    seq(|bars|, i requires 0 <= i < |bars| => bars[i].volume)
  }

  /** The volume column sums to the total volume of the ticks. */
  lemma ResampleVolumeTotal(ticks: seq<Tick>, freq: int)
    requires freq > 0 && Sorted(ticks)
    ensures Sum(BarVolumes(Resample(ticks, freq))) == Sum(Volumes(ticks))
  {
    var bins := Bins(ticks, freq);
    var raw := Concat(bins, freq);
    FillPricesColumns(raw);
    BinsVolume(ticks, freq);
    assert BarVolumes(Resample(ticks, freq)) == BinVolumes(bins);
  }

  /* ---------- the table interface ---------- */

  /** The input table: its row index of times, an optional `timestamp`
      column, and the numeric columns by name. */
  datatype Frame = Frame(index: seq<int>, timestamp: Option<seq<int>>, columns: map<string, seq<real>>)

  /** A rectangular table: every column has one value per row, and the
      `timestamp` column is kept apart from the numeric ones. */
  ghost predicate WellFormed(df: Frame)
  {
    && (df.timestamp.Some? ==> |df.timestamp.value| == |df.index|)
    && TimestampColumn !in df.columns
    && forall name :: name in df.columns ==> |df.columns[name]| == |df.index|
  }

  const TimestampColumn: string := "timestamp"

  /** A present `timestamp` column replaces the row index and leaves the
      columns; otherwise the table is used as it is. */
  function SetTimestampIndex(df: Frame): (data: Frame)
    ensures data.timestamp.None? && data.columns == df.columns
    ensures df.timestamp.Some? ==> data.index == df.timestamp.value
    ensures df.timestamp.None? ==> data == df
    ensures WellFormed(df) ==> WellFormed(data)
  {
    match df.timestamp
    case Some(ts) => Frame(ts, None, df.columns)
    case None => df
  }

  /** Moving the timestamp to the index a second time changes nothing. */
  lemma SetTimestampIndexIdempotent(df: Frame)
    ensures SetTimestampIndex(SetTimestampIndex(df)) == SetTimestampIndex(df)
  {
  }

  /** The ticks of a table, row by row. */
  function Rows(times: seq<int>, prices: seq<real>, volumes: seq<real>): (ticks: seq<Tick>)
    requires |prices| == |times| && |volumes| == |times|
    ensures |ticks| == |times|
    ensures forall i :: 0 <= i < |times| ==> ticks[i] == Tick(times[i], prices[i], volumes[i])
  {
    seq(|times|, i requires 0 <= i < |times| => Tick(times[i], prices[i], volumes[i]))
  }

  ghost predicate Ascending(times: seq<int>)
  {
    forall i, j :: 0 <= i < j < |times| ==> times[i] <= times[j]
  }

  /** The time index of the table, after the timestamp column has been moved. */
  function Times(df: Frame): seq<int>
  {
    SetTimestampIndex(df).index
  }

  datatype ResampleError = MissingColumn(name: string)

  /** `resample_tick_data`: the price column is looked up first, then the
      volume column; either missing is a lookup error naming it. */
  function ResampleTickData(df: Frame, freq: int, priceCol: string, volumeCol: string)
    : (r: Result<seq<Bar>, ResampleError>)
    requires freq > 0 && WellFormed(df) && Ascending(Times(df))
    ensures priceCol !in df.columns ==> r == Err(MissingColumn(priceCol))
    ensures priceCol in df.columns && volumeCol !in df.columns ==> r == Err(MissingColumn(volumeCol))
    ensures r.Ok? <==> priceCol in df.columns && volumeCol in df.columns
    ensures r.Ok? ==>
              var data := SetTimestampIndex(df);
              var ticks := Rows(data.index, data.columns[priceCol], data.columns[volumeCol]);
              && Sorted(ticks)
              && r.value == Resample(ticks, freq)
              && (|data.index| == 0 <==> r.value == [])
  {
    var data := SetTimestampIndex(df);
    if priceCol !in data.columns then
      Err(MissingColumn(priceCol))
    else if volumeCol !in data.columns then
      Err(MissingColumn(volumeCol))
    else
      var ticks := Rows(data.index, data.columns[priceCol], data.columns[volumeCol]);
      assert Sorted(ticks) by {
        forall i, j | 0 <= i < j < |ticks|
          ensures ticks[i].ts <= ticks[j].ts
        {
          assert ticks[i].ts == data.index[i] && ticks[j].ts == data.index[j];
        }
      }
      Ok(Resample(ticks, freq))
  }

  /** A table whose times sit in a `timestamp` column resamples exactly like
      the same table with those times as its index. */
  lemma TimestampColumnAsIndex(df: Frame, freq: int, priceCol: string, volumeCol: string)
    requires freq > 0 && WellFormed(df) && Ascending(Times(df))
    ensures Times(SetTimestampIndex(df)) == Times(df)
    ensures ResampleTickData(df, freq, priceCol, volumeCol)
         == ResampleTickData(SetTimestampIndex(df), freq, priceCol, volumeCol)
  {
    SetTimestampIndexIdempotent(df);
  }

  /** With the default 100 ms interval, trades at 0, 50 and 250 ms give three
      bars at 0, 100 and 200 ms; the empty middle one repeats the first
      bar's open, high, low and close, column by column, and has volume 0. */
  lemma ResampleExample()
    ensures var ticks := [Tick(0, 10.0, 1.0), Tick(50, 12.0, 2.0), Tick(250, 11.0, 4.0)];
            Sorted(ticks) &&
            Resample(ticks, DefaultFreqMs)
              == [Bar(0, Some(10.0), Some(12.0), Some(10.0), Some(12.0), 3.0),
                  Bar(100, Some(10.0), Some(12.0), Some(10.0), Some(12.0), 0.0),
                  Bar(200, Some(11.0), Some(11.0), Some(11.0), Some(11.0), 4.0)]
  {
    var ticks := [Tick(0, 10.0, 1.0), Tick(50, 12.0, 2.0), Tick(250, 11.0, 4.0)];
    var bins := [Bin(0, Some(Ohlc(10.0, 12.0, 10.0, 12.0)), 3.0), Bin(1, None, 0.0),
                 Bin(2, Some(Ohlc(11.0, 11.0, 11.0, 11.0)), 4.0)];
    ExampleBins();
    StartIsProduct(0, 100);
    StartIsProduct(1, 100);
    StartIsProduct(2, 100);
    var raw := Concat(bins, 100);
    assert raw == [Bar(0, Some(10.0), Some(12.0), Some(10.0), Some(12.0), 3.0),
                   Bar(100, None, None, None, None, 0.0),
                   Bar(200, Some(11.0), Some(11.0), Some(11.0), Some(11.0), 4.0)];
    FillPricesKeep(raw, 0);
    FillPricesCarry(raw, 1);
    FillPricesKeep(raw, 2);
    FillPricesAt(raw, 1);
  }

  /** The fold over the example's ticks: the trades at 0 and 50 ms share
      interval 0, interval 1 is empty, and the trade at 250 ms opens
      interval 2. */
  lemma ExampleBins()
    ensures var ticks := [Tick(0, 10.0, 1.0), Tick(50, 12.0, 2.0), Tick(250, 11.0, 4.0)];
            Sorted(ticks) &&
            Bins(ticks, 100)
              == [Bin(0, Some(Ohlc(10.0, 12.0, 10.0, 12.0)), 3.0), Bin(1, None, 0.0),
                  Bin(2, Some(Ohlc(11.0, 11.0, 11.0, 11.0)), 4.0)]
  {
    var t0, t1, t2 := Tick(0, 10.0, 1.0), Tick(50, 12.0, 2.0), Tick(250, 11.0, 4.0);
    var ticks := [t0, t1, t2];
    SlotIsFloorDiv(0, 100);
    SlotIsFloorDiv(50, 100);
    SlotIsFloorDiv(250, 100);
    assert ticks[..2] == [t0, t1] && [t0, t1][..1] == [t0] && [t0][..0] == [];
    assert Bins([t0], 100) == [Bin(0, Some(Ohlc(10.0, 10.0, 10.0, 10.0)), 1.0)];
    assert Bins([t0, t1], 100) == [Bin(0, Some(Ohlc(10.0, 12.0, 10.0, 12.0)), 3.0)];
    assert Gap(1, 2) == [Bin(1, None, 0.0)];
  }
}
