# Tick-data feature pipeline, modelled in Dafny

This project models the numeric core of a crypto-market feature pipeline. It covers four functions:

- **Resampling** (`resample_tick_data`). Trade ticks (timestamp, price, volume) become one OHLCV bar per fixed-width time interval. The bars run from the first tick's interval to the last tick's. Each price column is forward-filled on its own, and an interval without trades has volume 0.
- **Sliding windows** (`sliding_window`). The generator yields `(start, rows[start:start + w])` for every `start` in `range(0, len(rows) - w + 1, step)`. The step defaults to the window size.
- **Spectral features** (`compute_fft_features`). The series is detrended. The `n_features` strongest bins of its one-sided magnitude spectrum are kept, re-sorted by frequency, and written out as `[f1, m1, f2, m2, ...]`.
- **Order-book imbalance** (`compute_orderbook_imbalance`). This is `(bid - ask) / (bid + ask)` over the volumes of the best `depth` levels of each side, and 0 when both sides hold no volume.

All four functions are pure: the resampler works on `df.copy()` and the others only read their inputs. So they are modelled on values, as datatypes, functions and lemmas. There are two exceptions, both written imperatively:

- **`Interleave`** allocates `np.empty(2 * n)` and fills its even and odd slots. It is a method over an `array`.
- **`ComputeFftFeatures`** is a method that calls it.

A generator is modelled by the finite sequence of values it yields. Python exceptions become the `Err` case of a `Result`.

Files:

| file | module | models |
|---|---|---|
| `common.dfy` | `Common` | `Option`, `Result`, sums of reals, and Python's slice rule `s[lo:hi]` (negative bounds count from the end; bounds are clamped) |
| `resample_ticks.dfy` | `ResampleTicks` | `preprocessing/resample_ticks.py` |
| `windowing.dfy` | `Windowing` | `feature_extraction/windowing.py` |
| `fft_features.dfy` | `FftFeatures` | `feature_extraction/fft_features.py` |
| `orderbook_features.dfy` | `OrderbookFeatures` | `preprocessing/orderbook_features.py` |

## How the resampler is modelled

- **Times and intervals.** Times are integer milliseconds, and the interval width `freq` is a positive number of milliseconds. A tick at `ts` falls in interval `floor(ts / freq)`, which covers `[slot * freq, slot * freq + freq)`. So intervals are anchored at time 0. The bar is labelled with the interval's start.
- **The fold (`Bins`).** A left fold over the time-ordered ticks (`Absorb`) builds one bin per interval. A tick in the current interval extends that bin's OHLC and adds its volume. A tick in a later interval first emits an empty bin for every skipped interval (`Gap`), then opens its own bin.
- **The reference definition (`SpecBin`).** It filters the ticks of one interval (`Group`) and takes their first, maximum, minimum and last price and the sum of their volumes. `BinsMatch` proves that the fold computes exactly the reference bins.
- **Bars and fill.** The bins become bars (`Concat`). Then each of the four price columns is forward-filled separately (`FFill`, `FillPrices`).

## Model

| member | source | states |
|---|---|---|
| `ResampleTicks.SlotIsFloorDiv` | preprocessing/resample_ticks.py:30 | The interval number of a timestamp is `floor(ts / freq)`. |
| `ResampleTicks.SlotInterval` | preprocessing/resample_ticks.py:30 | A timestamp is in interval `s` if and only if `s * freq <= ts < s * freq + freq`. So every timestamp lies in exactly one half-open interval. |
| `ResampleTicks.StartIsProduct` | preprocessing/resample_ticks.py:30-34 | The label of interval `s` is `s * freq`. |
| `ResampleTicks.SlotMonotone` | preprocessing/resample_ticks.py:30 | Later timestamps never fall in earlier intervals. |
| `ResampleTicks.GroupMembers` | preprocessing/resample_ticks.py:30-32 | A tick belongs to an interval's group if and only if it is one of the ticks and its timestamp lies in that interval. |
| `ResampleTicks.Bins` | preprocessing/resample_ticks.py:30-32 | The fold yields no bins exactly when there are no ticks, and its last bin is the last tick's interval. What every bin holds is stated by `BinsMatch`. |
| `ResampleTicks.BinsMatch` | preprocessing/resample_ticks.py:30-34 | The fold over sorted ticks yields one bin per interval, from the first tick's interval to the last tick's. The bin of interval `x` equals the reference bin: the OHLC of the ticks in `x` (none if there are none) and the sum of their volumes. |
| `ResampleTicks.BinsVolume` | preprocessing/resample_ticks.py:32 | The bins together hold exactly the total volume of the ticks. |
| `ResampleTicks.Concat` | preprocessing/resample_ticks.py:34 | Joining the OHLC frame and the volume series gives one bar per bin. `RawAt` states that the bar of interval `x` is the reference bin of `x` labelled with the interval's start. |
| `ResampleTicks.FFill` | preprocessing/resample_ticks.py:36 | Forward fill keeps a present value. A missing value takes the filled value above it. A leading missing value stays missing. |
| `ResampleTicks.FFillLastKnown` | preprocessing/resample_ticks.py:36 | A filled value is the nearest present value at or above it. |
| `ResampleTicks.FFillDefined` | preprocessing/resample_ticks.py:36 | If the first value is present, nothing is missing after the fill. |
| `ResampleTicks.FillPrices` | preprocessing/resample_ticks.py:36 | The fill keeps one bar per bar. `FillPricesColumns` states what it does to each column. |
| `ResampleTicks.FillPricesColumns` | preprocessing/resample_ticks.py:36 | Each filled price column is the forward fill of that column alone. Start times and volumes are unchanged. |
| `ResampleTicks.Resample` | preprocessing/resample_ticks.py:30-36 | There are no bars exactly when there are no ticks. |
| `ResampleTicks.ResampleIntervals` | preprocessing/resample_ticks.py:30-34 | There are `floor(last / freq) - floor(first / freq) + 1` bars, and each starts `freq` after the previous one. |
| `ResampleTicks.ResampleStart` | preprocessing/resample_ticks.py:30-34 | The bar of interval `x` is at index `x - floor(first / freq)`, and its label is the interval's start. |
| `ResampleTicks.ResampleTickInterval` | preprocessing/resample_ticks.py:30-34 | Every tick lies within `[start, start + freq)` of the bar at index `floor(ts / freq) - floor(first / freq)`. |
| `ResampleTicks.ResampleBarPrices` | preprocessing/resample_ticks.py:30 | In an interval with trades, the bar's open is the first trade's price, high the largest price, low the smallest and close the last trade's price. |
| `ResampleTicks.ResampleBarRange` | preprocessing/resample_ticks.py:30 | In a bar with trades, open and close lie between low and high. |
| `ResampleTicks.ResampleTradeInRange` | preprocessing/resample_ticks.py:30 | Every trade's price lies between the low and the high of its own bar. |
| `ResampleTicks.ResampleBarVolume` | preprocessing/resample_ticks.py:32-38 | A bar's volume is the sum of its interval's trade volumes, and 0 when the interval has no trades. |
| `ResampleTicks.ResampleVolumeTotal` | preprocessing/resample_ticks.py:32-38 | The volume column sums to the total volume of the ticks. |
| `ResampleTicks.ResampleCarry` | preprocessing/resample_ticks.py:36 | The bar of an interval without trades copies each of its four prices from the same column of the bar before it. |
| `ResampleTicks.ResampleNoMissingPrice` | preprocessing/resample_ticks.py:30-36 | The first and last intervals always hold a trade. After the fill, no bar has a missing price. |
| `ResampleTicks.SetTimestampIndex` | preprocessing/resample_ticks.py:27-28 | A `timestamp` column becomes the row index and leaves the columns. Without one, the table is unchanged. A well-formed table stays well formed. |
| `ResampleTicks.SetTimestampIndexIdempotent` | preprocessing/resample_ticks.py:27-28 | Moving the timestamp to the index twice is the same as doing it once. |
| `ResampleTicks.TimestampColumnAsIndex` | preprocessing/resample_ticks.py:25-28 | A table with its times in a `timestamp` column resamples exactly like the same table with those times as its index. |
| `ResampleTicks.ResampleTickData` | preprocessing/resample_ticks.py:25-39 | A missing price column is an error naming it and is checked first, then a missing volume column. The call succeeds exactly when both columns exist. It then returns the bars of the table's rows, and no bars exactly when the table has no rows. |
| `ResampleTicks.ResampleExample` | preprocessing/resample_ticks.py:4-39 | At the default 100 ms width, trades at 0, 50 and 250 ms give bars at 0, 100 and 200 ms. The empty middle bar repeats the first bar's four prices and has volume 0. |
| `Common.PySliceCut` | feature_extraction/windowing.py:30 | Python's slice rule (negative bounds count from the end, bounds are clamped): cutting at any `k`, `s[:k] + s[k:]` is `s` again, and `s[:k]` has as many elements as the clamped position of `k`. |
| `Windowing.Window` | feature_extraction/windowing.py:30 | `rows[start:start + w]` is the `w` rows from `start` when they all exist, and empty for `w = 0`. |
| `Windowing.PyRangeUp` | feature_extraction/windowing.py:29 | With a positive step, `range(start, stop, step)` yields `(stop - start - 1) / step + 1` values, `start + i * step`, all below `stop` (and none when `start >= stop`). |
| `Windowing.PyRangeDownEmpty` | feature_extraction/windowing.py:29 | A negative step from `start <= stop` yields nothing. |
| `Windowing.SlidingWindow` | feature_extraction/windowing.py:26-30 | A zero step (explicit, or `window_size = 0` as the default) is a `ValueError`. With positive window and step, there are `(len - w) / step + 1` windows (none when `len < w`), and window `i` starts at `i * step` and holds rows `[i * step, i * step + w)`. With `w = 0` and a positive step there are `len / step + 1` windows, each an empty slice at `i * step`. A negative step yields nothing when `w <= len + 1`. |
| `Windowing.DefaultStepWindows` | feature_extraction/windowing.py:26-30 | With the step omitted there are `len / w` windows, and window `i` holds rows `[i * w, i * w + w)`. |
| `Windowing.DefaultStepAdjacent` | feature_extraction/windowing.py:26-30 | With the step omitted, each window starts where the previous one ends. |
| `Windowing.DefaultStepJoined` | feature_extraction/windowing.py:26-30 | With the step omitted, the windows laid end to end are exactly the first `len / w * w` rows. |
| `FftFeatures.Detrend` | feature_extraction/fft_features.py:27-28 | Subtracting the mean keeps the length, makes the values sum to 0 and keeps every pairwise difference. |
| `FftFeatures.RfftFreq` | feature_extraction/fft_features.py:32 | The grid has `n / 2 + 1` bins, and bin `i` lies at `i * rate / n`, so the first is 0. |
| `FftFeatures.RfftFreqOrder` | feature_extraction/fft_features.py:32 | The grid strictly increases for a positive sample rate and never repeats a value for a non-zero one. |
| `FftFeatures.GridOrder` | feature_extraction/fft_features.py:32 | An evenly spaced grid rises with a positive rate and has no repeated value for a non-zero one. |
| `FftFeatures.Argsort` | feature_extraction/fft_features.py:36-41 | The result has one entry per value, each a valid index. Its order is stated by `ArgsortSpec`. |
| `FftFeatures.ArgsortSpec` | feature_extraction/fft_features.py:36-41 | The result is a permutation of the indices, in non-decreasing order of value. |
| `FftFeatures.OrderPrefixSorted` | feature_extraction/fft_features.py:36-41 | Inserting the indices `0 .. n-1` one at a time lists each of them exactly once, in non-decreasing order of value. |
| `FftFeatures.TopBins` | feature_extraction/fft_features.py:36 | `order[-k:]` is a suffix of `order`: its last `k` entries for `1 <= k <= len`, and all entries for `k = 0` or `k > len`. A negative `k` drops the first `|k|` entries. |
| `FftFeatures.TopBinsSelection` | feature_extraction/fft_features.py:36-38 | The last `k` of an argsort are `k` distinct bins, and no bin left out is stronger than a bin kept. |
| `FftFeatures.GatherCompose` | feature_extraction/fft_features.py:37-43 | Fancy indexing twice, `v[a][b]`, is fancy indexing once with the composed indices `v[a[b]]`. |
| `FftFeatures.ReorderSelection` | feature_extraction/fft_features.py:41-43 | Re-sorting the selected bins by frequency keeps the same bins and lists them in strictly increasing frequency. |
| `FftFeatures.SelectAndSort` | feature_extraction/fft_features.py:36-43 | The selection has `k` frequencies and `k` magnitudes for `1 <= k <= bins`, and one of each per bin for `k = 0` or `k > bins`. A negative `k` leaves out `|k|` bins, or all of them when `|k|` is at least their number. What it selects is stated by `SelectionSpec`. |
| `FftFeatures.SelectionSpec` | feature_extraction/fft_features.py:36-43 | For `1 <= k <= bins` and a grid without repeats, the selection made with ANY argsort of the magnitudes and ANY argsort of the kept frequencies takes `k` distinct bins, each magnitude from the same bin as its frequency. Frequencies strictly increase, and no bin left out is stronger than a bin kept. Every such selection has these properties; which of several tied bins is kept depends on the sort. |
| `FftFeatures.SelectAndSortSpec` | feature_extraction/fft_features.py:36-43 | The selection computed with the model's own argsort is one such selection. |
| `FftFeatures.SelectAndSortSingleBin` | feature_extraction/fft_features.py:36-43 | With a single bin, any non-negative `k` selects that bin alone. |
| `FftFeatures.Interleave` | feature_extraction/fft_features.py:45-47 | A negative `n` is `NegativeDimensions`. Otherwise a strided write whose length is neither `n` nor 1 is `BroadcastMismatch`. Otherwise the even slots hold the frequencies and the odd slots the magnitudes, a single value repeated into every slot. |
| `FftFeatures.InterleavedSelection` | feature_extraction/fft_features.py:45-47 | Interleaving a sorted top-`k` selection gives a vector of `k` (frequency, magnitude) pairs from distinct, strongest bins in increasing frequency. |
| `FftFeatures.TopKFeatures` | feature_extraction/fft_features.py:36-47 | Interleaving the computed selection for `1 <= k <= bins` over a grid without repeats gives a top-`k` feature vector. |
| `FftFeatures.SingleBinFeatures` | feature_extraction/fft_features.py:45-47 | A single frequency and magnitude written into `k` slots each give `k` copies of the same pair. |
| `FftFeatures.ComputeFftFeatures` | feature_extraction/fft_features.py:10-48 | The call fails exactly for an empty series, a zero sample rate, a negative `n_features`, or a selection that cannot fill `n_features` slots, and it names each case, in that order: `EmptySeries`, `ZeroSampleRate`, `NegativeDimensions`, `BroadcastMismatch`. On success the vector has `2 * n_features` entries. For `1 <= n_features <= bins` it holds the strongest bins as (frequency, magnitude) pairs in increasing frequency. With a single bin, that bin is repeated. |
| `OrderbookFeatures.TopLevels` | preprocessing/orderbook_features.py:26-27 | A missing side is empty. Otherwise `[:depth]` keeps a prefix: `depth` levels, or all of them if fewer, with a negative depth dropping that many from the end. |
| `OrderbookFeatures.SideVolume` | preprocessing/orderbook_features.py:28-29 | A missing side holds volume 0, and a side with no negative volume has a non-negative total. |
| `OrderbookFeatures.OrderbookImbalance` | preprocessing/orderbook_features.py:26-33 | A zero total gives 0; otherwise `r * (bid + ask) = bid - ask`. With non-negative volumes, `-1 <= r <= 1`, `r > 0` if and only if bids dominate, `r < 0` if and only if asks dominate, and `r = 0` if and only if the sides are equal. |
| `OrderbookFeatures.BoundedRatio` | preprocessing/orderbook_features.py:33 | `(bid - ask) / (bid + ask)` of non-negative volumes with a non-zero sum lies in `[-1, 1]`, with the sign of `bid - ask`. |
| `OrderbookFeatures.ImbalanceSwapSides` | preprocessing/orderbook_features.py:28-33 | Swapping bids and asks negates the imbalance. |
| `OrderbookFeatures.ImbalanceIgnoresPrices` | preprocessing/orderbook_features.py:26-29 | Snapshots whose sides have the same volumes level by level have the same imbalance, whatever the prices. |
| `OrderbookFeatures.ImbalanceIgnoresDeeperLevels` | preprocessing/orderbook_features.py:26-27 | Levels below the first `depth` never change the imbalance. |
| `OrderbookFeatures.ImbalanceExample` | preprocessing/orderbook_features.py:10-33 | One bid level of volume 5 against one ask level of volume 3, at the default depth 5, gives 0.25. |

## Left out

- **The discrete Fourier transform and `np.abs`.** `ComputeFftFeatures` takes the magnitude spectrum of the detrended series as an input, `spectrum`, one value per bin, so no property of the transform itself is proved.
- **Floating point.** All prices, volumes, magnitudes and frequencies are exact reals. Rounding is not modelled, and neither are NaN or infinite inputs.
- **Offset aliases.** The interval width is a positive number of milliseconds rather than a parsed alias such as `"100ms"` or `"1min"`, and an alias the library rejects is not modelled.
- **Anchor.** Intervals are anchored at time 0. The library anchors them at midnight of the first tick's day. The two give the same intervals whenever the width divides a day (86 400 000 ms), as `100ms`, `1s` and `1min` do, but not for other widths.
- **Out-of-order ticks.** The resampler requires ticks sorted by time (`Ascending`). The library would sort them itself, and that sort is not modelled.
- **Non-datetime index.** A table whose index is not a time index (which the library refuses with a type error) is not modelled. Times are integers.
- **Missing volumes (line 38).** `fillna(0)` has nothing to fill in the model: the sum over an interval without trades is already 0, and no input volume is missing.
- **Argsort tie order.** The library's default sort is not stable, so it promises no order for equal values. `Argsort` is one concrete order, a stable insertion sort, and `ComputeFftFeatures` computes its vector with it. With tied magnitudes that vector may therefore keep different tied bins than the library does. `SelectionSpec` proves the selection properties for every argsort, so the library's vector satisfies the same contract, but the model does not claim to equal it.
- **Input checks the code does not make.** An empty tick table gives no bars rather than an error, because the code raises nothing for it. A window size or step below 1 is not rejected either: a zero step is `range`'s own error, and a negative one yields nothing when `w <= len + 1`. For a negative step with `w > len + 1`, the model yields the same windows `range` does, but no property is stated about them.
- SlidingWindow: no property is stated for a negative window size with a positive step. The model computes what the code does there (starts up to `len - w`, each slice `rows[start:start + w]` with its negative end counted from the back), but its contract says nothing about those windows.
- **Per-column forward fill.** An empty interval copies each price column from the bar before it: the previous open, high, low and close, not four copies of the previous close. That is what the column-wise `ffill` on line 36 does.
- **Window contents as tables.** Windows are sequences of rows. The index and labels a table slice carries are not modelled.
- **I/O.** No I/O is modelled. None of the four functions reads files or the network.
