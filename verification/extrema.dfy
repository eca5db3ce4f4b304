/**
  The extrema scan: a cursor walks over the bars and, at each position, tries
  pattern widths 4 to 11, testing a peak shape and then a valley shape. A hit
  records the most extreme bar of the window and moves the cursor past the
  window; otherwise the cursor moves on by one bar.
 */
module Extrema {
  import opened Wrappers
  import opened Bars

  /** The two directions of `mymax`: 1 looks for the highest close, -1 for the lowest. */
  datatype Direction = Highest | Lowest

  /** `a` is strictly more extreme than `b` in direction `dir`. */
  predicate Beats(dir: Direction, a: real, b: real) {
    if dir.Highest? then a > b else a < b
  }

  const MinWidth: nat := 4
  const MaxWidth: nat := 11
  /** The cursor only runs while it is below `|bars| - Lookahead`. */
  const Lookahead: nat := 12

  /** What `mymax` returns: the index of the chosen bar and its close. */
  datatype Best = Best(pos: nat, close: real)

  /**
    Index and close of the most extreme bar among `bars[start..start + width]`,
    scanning from the left; a later bar replaces the best one only when it is
    strictly more extreme.
   */
  function MyMax(dir: Direction, bars: seq<Bar>, start: nat, width: nat): (r: Best)
    requires 1 <= width && start + width <= |bars|
    ensures start <= r.pos < start + width
    decreases width
  {
    if width == 1 then Best(start, bars[start].close)
    else
      var best := MyMax(dir, bars, start, width - 1);
      var last := start + width - 1;
      if Beats(dir, bars[last].close, best.close) then Best(last, bars[last].close) else best
  }

  /**
    `MyMax` finds the first most extreme bar: its value is that bar's close, no bar of the window beats it,
    and every bar before it is strictly beaten by it (ties go to the first).
   */
  lemma {:induction false} MyMaxIsFirstExtreme(dir: Direction, bars: seq<Bar>, start: nat, width: nat)
    requires 1 <= width && start + width <= |bars|
    ensures var r := MyMax(dir, bars, start, width);
      && r.close == bars[r.pos].close
      && (forall j :: start <= j < start + width ==> !Beats(dir, bars[j].close, r.close))
      && (forall j :: start <= j < r.pos ==> Beats(dir, r.close, bars[j].close))
    decreases width
  {
    if width > 1 {
      MyMaxIsFirstExtreme(dir, bars, start, width - 1);
    }
  }

  /** The height a shape must clear, as a share `minHt` percent of the cursor bar's close. */
  function Threshold(bars: seq<Bar>, idx: nat, minHt: real): real
    requires idx < |bars|
  {
    bars[idx].close * minHt / 100.0
  }

  /**
    The window `bars[idx..idx + width]` is a peak: its highest close is more
    than `th` above the first and last bars and strictly above the second and
    second-to-last bars.
   */
  predicate IsPeak(bars: seq<Bar>, idx: nat, width: nat, th: real)
    requires 2 <= width && idx + width <= |bars|
  {
    var v := MyMax(Highest, bars, idx, width).close;
    && v - bars[idx].close > th
    && v - bars[idx + width - 1].close > th
    && v > bars[idx + 1].close
    && v > bars[idx + width - 2].close
  }

  /** The mirror image of `IsPeak`: a valley with its lowest close. */
  predicate IsValley(bars: seq<Bar>, idx: nat, width: nat, th: real)
    requires 2 <= width && idx + width <= |bars|
  {
    var v := MyMax(Lowest, bars, idx, width).close;
    && bars[idx].close - v > th
    && bars[idx + width - 1].close - v > th
    && v < bars[idx + 1].close
    && v < bars[idx + width - 2].close
  }

  /** The threshold is `minHt` percent of the cursor bar's close. */
  lemma ThresholdIsPercent(bars: seq<Bar>, idx: nat, minHt: real)
    requires idx < |bars|
    ensures Threshold(bars, idx, minHt) * 100.0 == bars[idx].close * minHt
  {
  }

  /** Bar `p` has the highest close of the window `bars[idx..idx + width]`. */
  predicate HighestIn(bars: seq<Bar>, idx: nat, width: nat, p: nat)
    requires idx + width <= |bars|
  {
    idx <= p < idx + width && forall j :: idx <= j < idx + width ==> bars[j].close <= bars[p].close
  }

  /** Bar `p` has the lowest close of the window `bars[idx..idx + width]`. */
  predicate LowestIn(bars: seq<Bar>, idx: nat, width: nat, p: nat)
    requires idx + width <= |bars|
  {
    idx <= p < idx + width && forall j :: idx <= j < idx + width ==> bars[p].close <= bars[j].close
  }

  /**
    A window is a peak exactly when a highest bar of it closes more than `th`
    above the first and last bars and strictly above the second and
    second-to-last bars.
   */
  lemma PeakShape(bars: seq<Bar>, idx: nat, width: nat, th: real)
    requires 2 <= width && idx + width <= |bars|
    ensures IsPeak(bars, idx, width, th) <==>
      exists p: nat :: && HighestIn(bars, idx, width, p)
                  && bars[p].close - bars[idx].close > th
                  && bars[p].close - bars[idx + width - 1].close > th
                  && bars[p].close > bars[idx + 1].close
                  && bars[p].close > bars[idx + width - 2].close
  {
    MyMaxIsFirstExtreme(Highest, bars, idx, width);
    var m := MyMax(Highest, bars, idx, width);
    assert HighestIn(bars, idx, width, m.pos);
    forall p: nat | HighestIn(bars, idx, width, p)
      ensures bars[p].close == m.close
    {
      assert !Beats(Highest, bars[p].close, m.close);
    }
  }

  /**
    A window is a valley exactly when a lowest bar of it closes more than `th`
    below the first and last bars and strictly below the second and
    second-to-last bars.
   */
  lemma ValleyShape(bars: seq<Bar>, idx: nat, width: nat, th: real)
    requires 2 <= width && idx + width <= |bars|
    ensures IsValley(bars, idx, width, th) <==>
      exists p: nat :: && LowestIn(bars, idx, width, p)
                  && bars[idx].close - bars[p].close > th
                  && bars[idx + width - 1].close - bars[p].close > th
                  && bars[p].close < bars[idx + 1].close
                  && bars[p].close < bars[idx + width - 2].close
  {
    MyMaxIsFirstExtreme(Lowest, bars, idx, width);
    var m := MyMax(Lowest, bars, idx, width);
    assert LowestIn(bars, idx, width, m.pos);
    forall p: nat | LowestIn(bars, idx, width, p)
      ensures bars[p].close == m.close
    {
      assert !Beats(Lowest, bars[p].close, m.close);
    }
  }

  /** A pattern found at a cursor: the recorded bar's position and the window width. */
  datatype Hit = Hit(pos: nat, width: nat)

  /** One width at cursor `idx`: a peak is recorded at its highest bar, else a valley at its lowest. */
  function WidthHit(bars: seq<Bar>, idx: nat, th: real, width: nat): (r: Option<Hit>)
    requires MinWidth <= width <= MaxWidth
    requires idx + MaxWidth <= |bars|
    ensures r.Some? ==> r.value.width == width && idx <= r.value.pos < idx + width
  {
    if IsPeak(bars, idx, width, th) then Some(Hit(MyMax(Highest, bars, idx, width).pos, width))
    else if IsValley(bars, idx, width, th) then Some(Hit(MyMax(Lowest, bars, idx, width).pos, width))
    else None
  }

  /** Which widths show a shape at one cursor; widths outside `MinWidth..MaxWidth` never do. */
  type WidthTest = nat -> bool

  /** The widths showing a peak or a valley at cursor `idx`. */
  function ShapeWidths(bars: seq<Bar>, idx: nat, th: real): WidthTest
    requires idx + MaxWidth <= |bars|
  {
    w => MinWidth <= w <= MaxWidth && WidthHit(bars, idx, th, w).Some?
  }

  /** Width `w` passes the shape test exactly when its outcome is a hit. */
  lemma ShapeWidthsAt(bars: seq<Bar>, idx: nat, th: real, w: nat)
    requires MinWidth <= w <= MaxWidth
    requires idx + MaxWidth <= |bars|
    ensures ShapeWidths(bars, idx, th)(w) == WidthHit(bars, idx, th, w).Some?
  {
  }

  /** The first of the widths `width..MaxWidth` that passes `test`, if any. */
  function FirstWidth(test: WidthTest, width: nat): (r: Option<nat>)
    requires width <= MaxWidth + 1
    ensures r.Some? ==> width <= r.value <= MaxWidth && test(r.value)
    ensures r.Some? ==> forall w :: width <= w < r.value ==> !test(w)
    ensures r.None? ==> forall w :: width <= w <= MaxWidth ==> !test(w)
    decreases MaxWidth + 1 - width
  {
    if width == MaxWidth + 1 then None
    else if test(width) then Some(width)
    else FirstWidth(test, width + 1)
  }

  /** When every width below `width` fails, the search from `from` ends as the search from `width` does. */
  lemma {:induction false} FirstWidthAfterMisses(test: WidthTest, from: nat, width: nat)
    requires from <= width <= MaxWidth + 1
    requires forall w :: from <= w < width ==> !test(w)
    ensures FirstWidth(test, from) == FirstWidth(test, width)
    decreases width - from
  {
    if from < width {
      FirstWidthAfterMisses(test, from + 1, width);
    }
  }

  /**
    The inner loop over widths `width..MaxWidth` at cursor `idx`: the first
    width whose window is a peak, or else a valley, wins.
   */
  function FirstHit(bars: seq<Bar>, idx: nat, th: real, width: nat): (r: Option<Hit>)
    requires MinWidth <= width <= MaxWidth + 1
    requires idx + MaxWidth <= |bars|
    ensures r.Some? ==> width <= r.value.width <= MaxWidth && idx <= r.value.pos < idx + r.value.width
  {
    var w := FirstWidth(ShapeWidths(bars, idx, th), width);
    if w.Some? then WidthHit(bars, idx, th, w.value) else None
  }

  /** No width in `width..MaxWidth` shows a peak or a valley at cursor `idx`. */
  ghost predicate NoShapeFrom(bars: seq<Bar>, idx: nat, th: real, width: nat)
    requires MinWidth <= width
    requires idx + MaxWidth <= |bars|
  {
    forall w :: width <= w <= MaxWidth ==> !IsPeak(bars, idx, w, th) && !IsValley(bars, idx, w, th)
  }

  /** A width's outcome is a hit exactly when it shows a peak or a valley. */
  lemma WidthHitShape(bars: seq<Bar>, idx: nat, th: real, w: nat)
    requires MinWidth <= w <= MaxWidth
    requires idx + MaxWidth <= |bars|
    ensures ShapeWidths(bars, idx, th)(w) <==> IsPeak(bars, idx, w, th) || IsValley(bars, idx, w, th)
  {
  }

  /**
    The inner loop finds nothing exactly when no width shows either shape;
    when it finds something, every narrower width failed both tests, and the
    winning width is a peak recorded at its highest bar, or else a valley
    recorded at its lowest bar.
   */
  lemma {:induction false} FirstHitIsFirstShape(bars: seq<Bar>, idx: nat, th: real, width: nat)
    requires MinWidth <= width <= MaxWidth + 1
    requires idx + MaxWidth <= |bars|
    ensures FirstHit(bars, idx, th, width).None? <==> NoShapeFrom(bars, idx, th, width)
    ensures FirstHit(bars, idx, th, width).Some? ==>
      var h := FirstHit(bars, idx, th, width).value;
      && (forall w :: width <= w < h.width ==> !IsPeak(bars, idx, w, th) && !IsValley(bars, idx, w, th))
      && (|| (IsPeak(bars, idx, h.width, th) && h.pos == MyMax(Highest, bars, idx, h.width).pos)
          || (!IsPeak(bars, idx, h.width, th) && IsValley(bars, idx, h.width, th)
              && h.pos == MyMax(Lowest, bars, idx, h.width).pos))
  {
    var test := ShapeWidths(bars, idx, th);
    var r := FirstWidth(test, width);
    forall w | width <= w <= MaxWidth && (r.None? || w < r.value)
      ensures !IsPeak(bars, idx, w, th) && !IsValley(bars, idx, w, th)
    {
      assert !test(w);
      WidthHitShape(bars, idx, th, w);
    }
    if r.Some? {
      assert test(r.value);
    } else {
      assert FirstHit(bars, idx, th, width).None?;
    }
  }

  /**
    A table of width-loop outcomes for cursors `0..|hits|` over `n` bars is
    well formed when every hit lies inside its window and the window inside
    the bars.
   */
  predicate WellFormedHits(hits: seq<Option<Hit>>, n: nat) {
    forall c :: 0 <= c < |hits| && hits[c].Some? ==>
      c <= hits[c].value.pos < c + hits[c].value.width <= n
  }

  /** The number of cursor positions the scan can visit: those below `|bars| - Lookahead`. */
  function CursorCount(bars: seq<Bar>): nat {
    if |bars| > Lookahead then |bars| - Lookahead else 0
  }

  /** The outcome of the width loop at cursors `0..m`. */
  function HitsBelow(bars: seq<Bar>, minHt: real, m: nat): (t: seq<Option<Hit>>)
    requires m <= CursorCount(bars)
    ensures |t| == m
    ensures WellFormedHits(t, |bars|)
    decreases m
  {
    if m == 0 then []
    else HitsBelow(bars, minHt, m - 1) + [FirstHit(bars, m - 1, Threshold(bars, m - 1, minHt), MinWidth)]
  }

  /** The outcome of the width loop at every cursor the scan can visit. */
  function HitTable(bars: seq<Bar>, minHt: real): (t: seq<Option<Hit>>)
    ensures |t| == CursorCount(bars)
    ensures WellFormedHits(t, |bars|)
  {
    HitsBelow(bars, minHt, CursorCount(bars))
  }

  /** Entry `c` of the table is the width loop run at cursor `c`. */
  lemma {:induction false} HitTableAt(bars: seq<Bar>, minHt: real, c: nat)
    requires c < CursorCount(bars)
    ensures HitTable(bars, minHt)[c] == FirstHit(bars, c, Threshold(bars, c, minHt), MinWidth)
  {
    HitsBelowAt(bars, minHt, CursorCount(bars), c);
  }

  lemma {:induction false} HitsBelowAt(bars: seq<Bar>, minHt: real, m: nat, c: nat)
    requires c < m <= CursorCount(bars)
    ensures HitsBelow(bars, minHt, m)[c] == FirstHit(bars, c, Threshold(bars, c, minHt), MinWidth)
    decreases m
  {
    if c < m - 1 {
      HitsBelowAt(bars, minHt, m - 1, c);
    }
  }

  /**
    The cursor walk from `idx`: a hit records its position and moves the
    cursor past its window, a miss moves the cursor on by one. Recorded
    positions lie at or after `idx`, inside the bars, and strictly increase.
   */
  function ScanHits(hits: seq<Option<Hit>>, n: nat, idx: nat): (r: seq<nat>)
    requires WellFormedHits(hits, n)
    ensures forall k :: 0 <= k < |r| ==> idx <= r[k] < n
    ensures forall i, j :: 0 <= i < j < |r| ==> r[i] < r[j]
    decreases |hits| - idx
  {
    if idx < |hits| then
      var h := hits[idx];
      if h.Some? then [h.value.pos] + ScanHits(hits, n, idx + h.value.width)
      else ScanHits(hits, n, idx + 1)
    else []
  }

  /** Positions of the bars `find_extrema` records. */
  function ExtremaPositions(bars: seq<Bar>, minHt: real): (r: seq<nat>)
    ensures |bars| <= Lookahead ==> r == []
    ensures forall k :: 0 <= k < |r| ==> r[k] < |bars|
    ensures forall i, j :: 0 <= i < j < |r| ==> r[i] < r[j]
  {
    ScanHits(HitTable(bars, minHt), |bars|, 0)
  }

  /** The bars at the given positions, in order. */
  function BarsAt(bars: seq<Bar>, ps: seq<nat>): (r: seq<Bar>)
    requires forall k :: 0 <= k < |ps| ==> ps[k] < |bars|
    ensures |r| == |ps|
    ensures forall k :: 0 <= k < |ps| ==> r[k] == bars[ps[k]]
  {
    seq(|ps|, k requires 0 <= k < |ps| => bars[ps[k]])
  }

  /**
    The loop over widths at cursor `idx`: tries widths `MinWidth..MaxWidth`,
    a peak before a valley at each, and stops at the first hit.
   */
  method ScanWidths(bars: seq<Bar>, idx: nat, th: real) returns (hit: Option<Hit>)
    requires idx + MaxWidth <= |bars|
    ensures hit == FirstHit(bars, idx, th, MinWidth)
  {
    ghost var test := ShapeWidths(bars, idx, th);
    var width := MinWidth;
    while width <= MaxWidth
      invariant MinWidth <= width <= MaxWidth + 1
      invariant FirstWidth(test, MinWidth) == FirstWidth(test, width)
    {
      hit := WidthHit(bars, idx, th, width);
      ShapeWidthsAt(bars, idx, th, width);
      if hit.Some? {
        return;
      }
      FirstWidthAfterMisses(test, width, width + 1);
      width := width + 1;
    }
    hit := None;
  }

  /** The work done at cursor `idx` of the scan: its entry of the hit table. */
  method TryWidths(bars: seq<Bar>, minHt: real, idx: nat, th: real, ghost hits: seq<Option<Hit>>)
    returns (found: bool, pos: nat, width: nat)
    requires hits == HitTable(bars, minHt)
    requires idx < |hits|
    requires th == Threshold(bars, idx, minHt)
    ensures found <==> hits[idx].Some?
    ensures found ==> hits[idx] == Some(Hit(pos, width))
  {
    var hit := ScanWidths(bars, idx, th);
    HitTableAt(bars, minHt, idx);
    if hit.Some? {
      return true, hit.value.pos, hit.value.width;
    }
    return false, 0, 0;
  }

  /** The bars the cursor walk from `idx` records, in order. */
  function ScanBars(bars: seq<Bar>, hits: seq<Option<Hit>>, idx: nat): (r: seq<Bar>)
    requires WellFormedHits(hits, |bars|)
    decreases |hits| - idx
  {
    if idx < |hits| then
      var h := hits[idx];
      if h.Some? then [bars[h.value.pos]] + ScanBars(bars, hits, idx + h.value.width)
      else ScanBars(bars, hits, idx + 1)
    else []
  }

  /**
    One move of the cursor walk, seen from the bars recorded so far (`acc`): a hit records its
    bar and jumps past its window, a miss steps by one.
  */
  lemma WalkStep(bars: seq<Bar>, hits: seq<Option<Hit>>, idx: nat, acc: seq<Bar>, pos: nat, width: nat)
    requires WellFormedHits(hits, |bars|)
    requires idx < |hits|
    ensures hits[idx] == Some(Hit(pos, width)) ==>
      acc + [bars[pos]] + ScanBars(bars, hits, idx + width) == acc + ScanBars(bars, hits, idx)
    ensures hits[idx].None? ==> acc + ScanBars(bars, hits, idx + 1) == acc + ScanBars(bars, hits, idx)
  {
    if hits[idx] == Some(Hit(pos, width)) {
      assert ScanBars(bars, hits, idx) == [bars[pos]] + ScanBars(bars, hits, idx + width);
    }
  }

  /** Prepending a position prepends its bar. */
  lemma BarsAtCons(bars: seq<Bar>, p: nat, ps: seq<nat>)
    requires p < |bars|
    requires forall k :: 0 <= k < |ps| ==> ps[k] < |bars|
    ensures BarsAt(bars, [p] + ps) == [bars[p]] + BarsAt(bars, ps)
  {
  }

  /** The recorded bars are the bars at the recorded positions. */
  lemma {:induction false} ScanBarsAtPositions(bars: seq<Bar>, hits: seq<Option<Hit>>, idx: nat)
    requires WellFormedHits(hits, |bars|)
    ensures ScanBars(bars, hits, idx) == BarsAt(bars, ScanHits(hits, |bars|, idx))
    decreases |hits| - idx
  {
    if idx < |hits| {
      var h := hits[idx];
      if h.Some? {
        ScanBarsAtPositions(bars, hits, idx + h.value.width);
        BarsAtCons(bars, h.value.pos, ScanHits(hits, |bars|, idx + h.value.width));
      } else {
        ScanBarsAtPositions(bars, hits, idx + 1);
      }
    }
  }

  /** The cursor loop of `find_extrema`, given the table of width-loop outcomes it will meet. */
  method Walk(bars: seq<Bar>, minHt: real, ghost hits: seq<Option<Hit>>) returns (extrema: seq<Bar>)
    requires hits == HitTable(bars, minHt)
    ensures extrema == ScanBars(bars, hits, 0)
  {
    extrema := [];
    var idx: nat := 0;
    while idx < |bars| - Lookahead
      invariant idx <= |bars|
      invariant extrema + ScanBars(bars, hits, idx) == ScanBars(bars, hits, 0)
      decreases |bars| - idx
    {
      var th := Threshold(bars, idx, minHt);
      var found, pos, width := TryWidths(bars, minHt, idx, th, hits);
      WalkStep(bars, hits, idx, extrema, pos, width);
      if found {
        extrema := extrema + [bars[pos]];
        idx := idx + width;
      } else {
        idx := idx + 1;
      }
    }
  }

  /** `find_extrema`: the recorded bars, in scan order. */
  method FindExtrema(bars: seq<Bar>, minHt: real) returns (extrema: seq<Bar>)
    ensures |bars| <= Lookahead ==> extrema == []
    ensures extrema == BarsAt(bars, ExtremaPositions(bars, minHt))
  {
    extrema := Walk(bars, minHt, HitTable(bars, minHt));
    ScanBarsAtPositions(bars, HitTable(bars, minHt), 0);
  }

  /** The cursors the walk from `idx` visits, in order: a hit jumps past its window, a miss steps by one. */
  function VisitedCursors(hits: seq<Option<Hit>>, n: nat, idx: nat): (r: seq<nat>)
    requires WellFormedHits(hits, n)
    ensures forall k :: 0 <= k < |r| ==> idx <= r[k] < |hits|
    ensures forall i, j :: 0 <= i < j < |r| ==> r[i] < r[j]
    ensures idx < |hits| ==> |r| > 0 && r[0] == idx
    decreases |hits| - idx
  {
    if idx < |hits| then
      var h := hits[idx];
      [idx] + (if h.Some? then VisitedCursors(hits, n, idx + h.value.width) else VisitedCursors(hits, n, idx + 1))
    else []
  }

  /**
    The cursor at which the walk from `idx` recorded its `k`-th position: a
    cursor it visited, at or before that position, whose table entry is a hit
    at exactly that position.
   */
  function RecordingCursor(hits: seq<Option<Hit>>, n: nat, idx: nat, k: nat): (c: nat)
    requires WellFormedHits(hits, n)
    requires k < |ScanHits(hits, n, idx)|
    ensures idx <= c <= ScanHits(hits, n, idx)[k]
    ensures c in VisitedCursors(hits, n, idx)
    ensures HitRecords(hits, c, ScanHits(hits, n, idx)[k])
    decreases |hits| - idx
  {
    var h := hits[idx];
    if h.Some? then
      if k == 0 then idx else RecordingCursor(hits, n, idx + h.value.width, k - 1)
    else RecordingCursor(hits, n, idx + 1, k)
  }

  /** Cursor `c` of the table holds a hit recorded at position `p`. */
  predicate HitRecords(hits: seq<Option<Hit>>, c: nat, p: nat) {
    c < |hits| && hits[c].Some? && hits[c].value.pos == p
  }

  /**
    At cursor `c`, width `w` is the first of `MinWidth..MaxWidth` to show a
    peak or a valley, and `p` is the bar recorded for it: the first highest
    bar of a peak, or else the first lowest bar of a valley.
   */
  ghost predicate WinningWindow(bars: seq<Bar>, minHt: real, c: nat, w: nat, p: nat) {
    && c + Lookahead < |bars|
    && MinWidth <= w <= MaxWidth
    && c <= p < c + w
    && (var th := Threshold(bars, c, minHt);
        && (forall w' :: MinWidth <= w' < w ==> !IsPeak(bars, c, w', th) && !IsValley(bars, c, w', th))
        && (|| (IsPeak(bars, c, w, th) && p == MyMax(Highest, bars, c, w).pos)
            || (!IsPeak(bars, c, w, th) && IsValley(bars, c, w, th) && p == MyMax(Lowest, bars, c, w).pos)))
  }

  /** Where the walk goes after cursor `idx`: past the window of a hit, or on by one. */
  function NextCursor(hits: seq<Option<Hit>>, n: nat, idx: nat): (next: nat)
    requires WellFormedHits(hits, n)
    requires idx < |hits|
    ensures idx < next
  {
    if hits[idx].Some? then idx + hits[idx].value.width else idx + 1
  }

  /** The walk from `idx` visits `idx` and then the walk from the next cursor. */
  lemma {:induction false} VisitedStep(hits: seq<Option<Hit>>, n: nat, idx: nat, c: nat)
    requires WellFormedHits(hits, n)
    requires c in VisitedCursors(hits, n, idx)
    ensures idx < |hits|
    ensures c != idx ==> c in VisitedCursors(hits, n, NextCursor(hits, n, idx))
  {
    if idx < |hits| {
      assert VisitedCursors(hits, n, idx) == [idx] + VisitedCursors(hits, n, NextCursor(hits, n, idx));
    }
  }

  /** The walk from `idx` records the hit at `idx`, if any, and everything the walk from the next cursor records. */
  lemma {:induction false} ScanHitsStep(hits: seq<Option<Hit>>, n: nat, idx: nat, p: nat)
    requires WellFormedHits(hits, n)
    requires idx < |hits|
    ensures hits[idx].Some? ==> hits[idx].value.pos in ScanHits(hits, n, idx)
    ensures p in ScanHits(hits, n, NextCursor(hits, n, idx)) ==> p in ScanHits(hits, n, idx)
  {
    var rest := ScanHits(hits, n, NextCursor(hits, n, idx));
    if hits[idx].Some? {
      assert ScanHits(hits, n, idx) == [hits[idx].value.pos] + rest;
    } else {
      assert ScanHits(hits, n, idx) == rest;
    }
  }

  /** Every visited cursor whose table entry is a hit has that hit's position recorded. */
  lemma {:induction false} VisitedHitsRecorded(hits: seq<Option<Hit>>, n: nat, idx: nat, c: nat)
    requires WellFormedHits(hits, n)
    requires c < |hits| && hits[c].Some?
    requires c in VisitedCursors(hits, n, idx)
    ensures hits[c].value.pos in ScanHits(hits, n, idx)
    decreases |hits| - idx
  {
    VisitedStep(hits, n, idx, c);
    ScanHitsStep(hits, n, idx, hits[c].value.pos);
    if c != idx {
      VisitedHitsRecorded(hits, n, NextCursor(hits, n, idx), c);
    }
  }

  /**
    Every bar `find_extrema` records sits in the winning window of a cursor
    the scan visits.
   */
  lemma ExtremaAreWindowExtremes(bars: seq<Bar>, minHt: real, k: nat)
    requires k < |ExtremaPositions(bars, minHt)|
    ensures exists c: nat, w: nat ::
      && c in VisitedCursors(HitTable(bars, minHt), |bars|, 0)
      && WinningWindow(bars, minHt, c, w, ExtremaPositions(bars, minHt)[k])
  {
    var hits := HitTable(bars, minHt);
    var p := ExtremaPositions(bars, minHt)[k];
    var c := RecordingCursor(hits, |bars|, 0, k);
    var th := Threshold(bars, c, minHt);
    HitTableAt(bars, minHt, c);
    FirstHitIsFirstShape(bars, c, th, MinWidth);
    var w := hits[c].value.width;
    assert WinningWindow(bars, minHt, c, w, p);
  }

  /**
    When width `w` is the first to show a shape at cursor `c` and `p` is the
    bar chosen for it, the width loop at `c` returns exactly that hit.
   */
  lemma {:induction false} FirstShapeIsFirstHit(bars: seq<Bar>, c: nat, th: real, w: nat, p: nat)
    requires c + MaxWidth <= |bars|
    requires MinWidth <= w <= MaxWidth
    requires forall w' :: MinWidth <= w' < w ==> !IsPeak(bars, c, w', th) && !IsValley(bars, c, w', th)
    requires || (IsPeak(bars, c, w, th) && p == MyMax(Highest, bars, c, w).pos)
             || (!IsPeak(bars, c, w, th) && IsValley(bars, c, w, th) && p == MyMax(Lowest, bars, c, w).pos)
    ensures FirstHit(bars, c, th, MinWidth).Some?
    ensures FirstHit(bars, c, th, MinWidth).value.width == w
    ensures FirstHit(bars, c, th, MinWidth).value.pos == p
  {
    FirstHitIsFirstShape(bars, c, th, MinWidth);
    assert !NoShapeFrom(bars, c, th, MinWidth);
    assert FirstHit(bars, c, th, MinWidth).value.width == w;
  }

  /** A winning window at cursor `c` is the table's entry for `c`. */
  lemma {:induction false} WinnerInTable(bars: seq<Bar>, minHt: real, c: nat, w: nat, p: nat)
    requires WinningWindow(bars, minHt, c, w, p)
    ensures c < |HitTable(bars, minHt)|
    ensures HitTable(bars, minHt)[c] == Some(Hit(p, w))
  {
    HitTableAt(bars, minHt, c);
    FirstShapeIsFirstHit(bars, c, Threshold(bars, c, minHt), w, p);
  }

  /** A hit in the table at a cursor the scan visits has its position `p` among the recorded positions. */
  lemma {:induction false} TableHitRecorded(bars: seq<Bar>, minHt: real, c: nat, p: nat)
    requires c in VisitedCursors(HitTable(bars, minHt), |bars|, 0)
    requires c < |HitTable(bars, minHt)| && HitTable(bars, minHt)[c].Some? && HitTable(bars, minHt)[c].value.pos == p
    ensures p in ExtremaPositions(bars, minHt)
  {
    VisitedHitsRecorded(HitTable(bars, minHt), |bars|, 0, c);
  }

  /**
    Conversely, every visited cursor with a winning window has the bar of
    that window recorded: the scan drops no hit it meets.
   */
  lemma {:induction false} VisitedWinnersRecorded(bars: seq<Bar>, minHt: real, c: nat, w: nat, p: nat)
    requires c in VisitedCursors(HitTable(bars, minHt), |bars|, 0)
    requires WinningWindow(bars, minHt, c, w, p)
    ensures p in ExtremaPositions(bars, minHt)
  {
    WinnerInTable(bars, minHt, c, w, p);
    TableHitRecorded(bars, minHt, c, p);
  }
}
