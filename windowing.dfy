/**
 * Sliding windows over the rows of a table: the generator yields
 * `(start, rows[start:start + w])` for every `start` of
 * `range(0, len(rows) - w + 1, step)`, where the step defaults to the window
 * size. The generator is modelled by the finite sequence it yields.
 */
module Windowing {
  import opened Common

  /** `range()` refuses a zero step with a ValueError when iteration starts. */
  datatype WindowError = ZeroStep

  /** Python's `range(start, stop, step)` for a non-zero step. */
  function PyRange(start: int, stop: int, step: int): (r: seq<int>)
    requires step != 0
    decreases if step > 0 then stop - start else start - stop
  {
    if (step > 0 && start < stop) || (step < 0 && start > stop) then
      [start] + PyRange(start + step, stop, step)
    else
      []
  }

  /** With a positive step, `range` yields `start, start + step, ...` below
      `stop`: exactly `(stop - start - 1) / step + 1` values when
      `start < stop`, and none otherwise. */
  lemma {:induction false} PyRangeUp(start: int, stop: int, step: int)
    requires step > 0
    ensures |PyRange(start, stop, step)| == if start < stop then (stop - start - 1) / step + 1 else 0
    ensures forall i :: 0 <= i < |PyRange(start, stop, step)| ==>
              && PyRange(start, stop, step)[i] == start + i * step
              && start <= PyRange(start, stop, step)[i] < stop
    decreases stop - start
  {
    if start < stop {
      var r := PyRange(start, stop, step);
      var tail := PyRange(start + step, stop, step);
      assert r == [start] + tail;
      PyRangeUp(start + step, stop, step);
      if start + step < stop {
        DivStep(stop - start - 1, step);
      } else {
        DivUnique(stop - start - 1, step, 0, stop - start - 1);
      }
      forall i | 1 <= i < |r|
        ensures r[i] == start + i * step
      {
        assert r[i] == tail[i - 1] == start + step + (i - 1) * step;
        assert step + (i - 1) * step == i * step;
      }
    }
  }

  lemma PyRangeDownEmpty(start: int, stop: int, step: int)
    requires step < 0 && start <= stop
    ensures PyRange(start, stop, step) == []
  {
  }

  /** The window starting at `start`, as `df.iloc[start:start + w]` takes it. */
  function Window<T>(rows: seq<T>, start: int, windowSize: int): (w: seq<T>)
    ensures |w| <= |rows|
    ensures 0 <= start && 0 <= windowSize && start + windowSize <= |rows| ==>
              w == rows[start .. start + windowSize]
    ensures 0 <= start && windowSize == 0 ==> w == []
  {
    PySlice(rows, Some(start), Some(start + windowSize))
  }

  function SlidingWindow<T>(rows: seq<T>, windowSize: int, stepSize: Option<int>)
    : (r: Result<seq<(int, seq<T>)>, WindowError>)
    ensures r.Err? <==> stepSize.GetOr(windowSize) == 0
    // the common case: positive window and step
    ensures 1 <= windowSize && 1 <= stepSize.GetOr(windowSize) ==>
              var step := stepSize.GetOr(windowSize);
              && r.Ok?
              && |r.value| == (if |rows| >= windowSize then (|rows| - windowSize) / step + 1 else 0)
              && forall i :: 0 <= i < |r.value| ==>
                   && r.value[i].0 == i * step
                   && r.value[i].0 + windowSize <= |rows|
                   && r.value[i].1 == rows[i * step .. i * step + windowSize]
    // an empty window: one empty slice at every step up to the end
    ensures windowSize == 0 && 1 <= stepSize.GetOr(windowSize) ==>
              var step := stepSize.GetOr(windowSize);
              && r.Ok?
              && |r.value| == |rows| / step + 1
              && forall i :: 0 <= i < |r.value| ==> r.value[i] == (i * step, [])
    // a negative step never gets below a non-negative stop
    ensures stepSize.GetOr(windowSize) < 0 && windowSize <= |rows| + 1 ==> r == Ok([])
  {
    var step := stepSize.GetOr(windowSize);
    if step == 0 then
      Err(ZeroStep)
    else
      var starts := PyRange(0, |rows| - windowSize + 1, step);
      var windows := seq(|starts|, i requires 0 <= i < |starts| =>
                           (starts[i], Window(rows, starts[i], windowSize)));
      if step > 0 then
        PyRangeUp(0, |rows| - windowSize + 1, step);
        Ok(windows)
      else if 0 <= |rows| - windowSize + 1 then
        PyRangeDownEmpty(0, |rows| - windowSize + 1, step);
        Ok(windows)
      else
        Ok(windows)
  }

  /** The rows covered by a sequence of windows, one after the other. */
  function Joined<T>(windows: seq<(int, seq<T>)>): seq<T>
    decreases |windows|
  {
    if windows == [] then [] else Joined(windows[..|windows| - 1]) + windows[|windows| - 1].1
  }

  lemma {:induction false} JoinedPrefix<T>(rows: seq<T>, windows: seq<(int, seq<T>)>, w: int, m: nat)
    requires 1 <= w && m <= |windows|
    requires forall i :: 0 <= i < |windows| ==> i * w + w <= |rows| && windows[i].1 == rows[i * w .. i * w + w]
    ensures m * w <= |rows|
    ensures Joined(windows[..m]) == rows[..m * w]
    decreases m
  {
    if m > 0 {
      var lo := (m - 1) * w;
      assert lo + w == m * w;
      assert lo + w <= |rows| && windows[m - 1].1 == rows[lo .. lo + w];
      JoinedPrefix(rows, windows, w, m - 1);
      assert windows[..m][..m - 1] == windows[..m - 1];
      calc {
        Joined(windows[..m]);
        Joined(windows[..m - 1]) + windows[m - 1].1;
        rows[..lo] + rows[lo .. lo + w];
        rows[..lo + w];
      }
    }
  }

  lemma DefaultStepWindows<T>(rows: seq<T>, w: int)
    requires 1 <= w
    ensures SlidingWindow(rows, w, None).Ok?
    ensures var windows := SlidingWindow(rows, w, None).value;
            && |windows| == |rows| / w
            && forall i :: 0 <= i < |windows| ==>
                 windows[i].0 == i * w && i * w + w <= |rows| && windows[i].1 == rows[i * w .. i * w + w]
  {
    assert None.GetOr(w) == w;
    if |rows| >= w {
      DivStep(|rows|, w);
    } else {
      DivUnique(|rows|, w, 0, |rows|);
    }
  }

  /** With the step omitted, there are `len(rows) / w` windows and each
      starts exactly where the previous one ends. */
  lemma DefaultStepAdjacent<T>(rows: seq<T>, w: int)
    requires 1 <= w
    ensures SlidingWindow(rows, w, None).Ok?
    ensures var windows := SlidingWindow(rows, w, None).value;
            && |windows| == |rows| / w
            && forall i :: 0 <= i < |windows| - 1 ==> windows[i].0 + w == windows[i + 1].0
  {
    DefaultStepWindows(rows, w);
    var windows := SlidingWindow(rows, w, None).value;
    forall i | 0 <= i < |windows| - 1
      ensures windows[i].0 + w == windows[i + 1].0
    {
      assert i * w + w == (i + 1) * w;
    }
  }

  /** With the step omitted, the windows laid end to end are the first
      `len(rows) / w * w` rows: they tile the rows without overlap. */
  lemma DefaultStepJoined<T>(rows: seq<T>, w: int)
    requires 1 <= w
    ensures SlidingWindow(rows, w, None).Ok?
    ensures var windows := SlidingWindow(rows, w, None).value;
            Joined(windows) == rows[..|windows| * w]
  {
    DefaultStepWindows(rows, w);
    var windows := SlidingWindow(rows, w, None).value;
    JoinedPrefix(rows, windows, w, |windows|);
    assert windows[..|windows|] == windows;
  }
}
