/** The arithmetic of GenerateScreens (src/main.cpp): the size of one frame on
    the sheet, the time step between frames, and where each frame and the
    header go on the canvas. Frames are laid out `rowCount` across and
    `colCount` down, under a header band of fixed height. */
module Layout {
  import opened Base

  /** Height of the header band on top of the sheet. */
  const HeaderHeight: int := 120

  datatype Size = Size(width: int, height: int)

  /** The size derivation divides by the native height when only a height is
      given, and by the native width when only a width is given. */
  predicate SizeDerivable(native: Size, requested: Size)
  {
    var s1 := if requested.width == 0 && requested.height == 0 then native else requested;
    && (s1.width == 0 && s1.height != 0 ==> native.height != 0)
    && (s1.width != 0 && s1.height == 0 ==> native.width != 0)
  }

  /** The frame size as the three steps of GenerateScreens compute it: no size
      given takes the native size; a missing width or height is derived from
      the other by the native aspect ratio, truncated toward zero. */
  function FrameSize(native: Size, requested: Size): Size
    requires SizeDerivable(native, requested)
  {
    var s1 := if requested.width == 0 && requested.height == 0 then native else requested;
    var s2 :=
      if s1.width == 0 && s1.height != 0
      then Size(TruncDiv(native.width * s1.height, native.height), s1.height)
      else s1;
    if s2.width != 0 && s2.height == 0
    then Size(s2.width, TruncDiv(native.height * s2.width, native.width))
    else s2
  }

  /** What the size derivation gives in each case: the native size when
      nothing is requested, the request when both sides are given, and
      otherwise the given side with the other side the given side scaled by
      the native aspect ratio and truncated toward zero: the exact quotient's
      sign, and for positive sizes the floor of the exact quotient. */
  lemma FrameSizeCases(native: Size, requested: Size)
    requires SizeDerivable(native, requested)
    ensures requested.width == 0 && requested.height == 0 ==> FrameSize(native, requested) == native
    ensures requested.width != 0 && requested.height != 0 ==> FrameSize(native, requested) == requested
    ensures requested.width == 0 && requested.height != 0 ==>
      && FrameSize(native, requested).height == requested.height
      && var w := FrameSize(native, requested).width;
         && Abs(w) * Abs(native.height) <= Abs(native.width * requested.height) < (Abs(w) + 1) * Abs(native.height)
         && (w != 0 ==> (w < 0 <==> (native.width * requested.height < 0) != (native.height < 0)))
         && (native.width >= 0 && native.height > 0 && requested.height > 0 ==>
               w == (native.width * requested.height) / native.height)
    ensures requested.width != 0 && requested.height == 0 ==>
      && FrameSize(native, requested).width == requested.width
      && var h := FrameSize(native, requested).height;
         && Abs(h) * Abs(native.width) <= Abs(native.height * requested.width) < (Abs(h) + 1) * Abs(native.width)
         && (h != 0 ==> (h < 0 <==> (native.height * requested.width < 0) != (native.width < 0)))
         && (native.height >= 0 && native.width > 0 && requested.width > 0 ==>
               h == (native.height * requested.width) / native.width)
  {
    if requested.width == 0 && requested.height != 0 && native.width >= 0 && native.height > 0 && requested.height > 0 {
      MultiplyMonotone(native.width, 0, requested.height);
      TruncMatchesEuclid(native.width * requested.height, native.height);
    }
    if requested.width != 0 && requested.height == 0 && native.height >= 0 && native.width > 0 && requested.width > 0 {
      MultiplyMonotone(native.height, 0, requested.width);
      TruncMatchesEuclid(native.height * requested.width, native.width);
    }
    if requested.width == 0 && requested.height == 0 {
      if native.width == 0 && native.height != 0 {
        assert native.width * native.height == 0;
      } else if native.width != 0 && native.height == 0 {
        assert native.height * native.width == 0;
      }
    }
  }

  /** The time between two frames: the whole seconds of the duration shared
      into `rowCount * colCount + 2` parts, so that no frame is taken at the
      very start or the very end. */
  function TimeStep(durationSeconds: int, rowCount: int, colCount: int): (step: int)
    requires rowCount * colCount + 2 != 0
    ensures var parts := rowCount * colCount + 2;
      && Abs(step) * Abs(parts) <= Abs(durationSeconds) < (Abs(step) + 1) * Abs(parts)
      && (step != 0 ==> (step < 0 <==> (durationSeconds < 0) != (parts < 0)))
  {
    TruncDiv(durationSeconds, rowCount * colCount + 2)
  }

  /** The seek times: the n-th frame (from 1) is taken at `n * step`. */
  function SeekTimes(step: int, count: nat): (times: seq<int>)
    ensures |times| == count
  {
    if count == 0 then [] else SeekTimes(step, count - 1) + [step * count]
  }

  /** The `n`-th seek (from 0) is at `(n + 1) * step`. */
  lemma {:induction false} SeekTimesAt(step: int, count: nat)
    ensures forall n :: 0 <= n < count ==> SeekTimes(step, count)[n] == step * (n + 1)
  {
    if count > 0 {
      SeekTimesAt(step, count - 1);
    }
  }

  /** The first `n` seeks of a longer schedule are the schedule of `n`. */
  lemma SeekTimesPrefix(step: int, n: nat, total: nat)
    requires n <= total
    ensures SeekTimes(step, total)[..n] == SeekTimes(step, n)
  {
    SeekTimesAt(step, n);
    SeekTimesAt(step, total);
  }

  /** For a known duration and non-negative counts the step is not negative,
      and `rowCount * colCount` steps leave at least two steps of the
      duration over. */
  lemma StepBounds(durationSeconds: int, rowCount: int, colCount: int)
    requires durationSeconds >= 0 && rowCount >= 0 && colCount >= 0
    ensures var step := TimeStep(durationSeconds, rowCount, colCount);
      && 0 <= step
      && step * (rowCount * colCount) <= durationSeconds - 2 * step
      && (durationSeconds < rowCount * colCount + 2 <==> step == 0)
  {
    var cells := rowCount * colCount;
    TruncMatchesEuclid(durationSeconds, cells + 2);
    ShareBounds(durationSeconds, cells);
  }

  /** `StepBounds` on Euclidean division, kept apart so that the proof sees
      only the product it needs. */
  lemma ShareBounds(d: nat, cells: nat)
    ensures var step := d / (cells + 2);
      && 0 <= step
      && step * cells <= d - 2 * step
      && (d < cells + 2 <==> step == 0)
  {
    var parts := cells + 2;
    DivBounds(d, parts);
    var step := d / parts;
    assert step * parts == step * cells + 2 * step;
  }

  /** The seek times climb strictly when the step is positive, are all zero
      when the duration is shorter than `rowCount * colCount + 2` seconds, and
      lie in `[0, duration - 2 * step]`, so strictly inside the duration when
      the step is positive. */
  lemma ScheduleBounds(durationSeconds: int, rowCount: int, colCount: int)
    requires durationSeconds >= 0 && rowCount >= 0 && colCount >= 0
    ensures var step := TimeStep(durationSeconds, rowCount, colCount);
      var times := SeekTimes(step, rowCount * colCount);
      && (step > 0 ==> forall m, n :: 0 <= m < n < |times| ==> times[m] < times[n])
      && (durationSeconds < rowCount * colCount + 2 ==> forall n :: 0 <= n < |times| ==> times[n] == 0)
      && (forall n :: 0 <= n < |times| ==> 0 <= times[n] <= durationSeconds - 2 * step)
      && (step > 0 ==> forall n :: 0 <= n < |times| ==> 0 < times[n] < durationSeconds)
  {
    var step := TimeStep(durationSeconds, rowCount, colCount);
    StepBounds(durationSeconds, rowCount, colCount);
    var times := SeekTimes(step, rowCount * colCount);
    SeekTimesAt(step, rowCount * colCount);
    forall m, n | 0 <= m < n < |times| && step > 0
      ensures times[m] < times[n]
    {
      MultiplyStrict(step, m + 1, n + 1);
    }
    forall n | 0 <= n < |times|
      ensures 0 <= times[n] <= durationSeconds - 2 * step
    {
      MultiplyMonotone(step, n + 1, rowCount * colCount);
    }
    forall n | 0 <= n < |times| && step > 0
      ensures 0 < times[n]
    {
      MultiplyStrict(step, 0, n + 1);
    }
  }

  lemma MultiplyMonotone(k: int, a: int, b: int)
    requires k >= 0 && 0 <= a <= b
    ensures 0 <= k * a <= k * b
  {
  }

  lemma MultiplyLe(k: int, a: int, b: int)
    requires k >= 0 && a <= b
    ensures a * k <= b * k
  {
  }

  lemma MultiplyStrict(k: int, a: int, b: int)
    requires k > 0 && a < b
    ensures k * a < k * b
  {
  }

  datatype Rect = Rect(x: int, y: int, width: int, height: int)

  predicate Contains(r: Rect, px: int, py: int)
  {
    r.x <= px < r.x + r.width && r.y <= py < r.y + r.height
  }

  /** The whole sheet. */
  function CanvasRect(frameSize: Size, rowCount: int, colCount: int): Rect
  {
    Rect(0, 0, frameSize.width * rowCount, frameSize.height * colCount + HeaderHeight)
  }

  /** The header band across the top. */
  function HeaderRect(frameSize: Size, rowCount: int): Rect
  {
    Rect(0, 0, frameSize.width * rowCount, HeaderHeight)
  }

  /** Where frame `(i, j)` is painted: column `i`, row `j`, below the header. */
  function CellRect(frameSize: Size, i: int, j: int): Rect
  {
    Rect(i * frameSize.width, j * frameSize.height + HeaderHeight, frameSize.width, frameSize.height)
  }

  /** A point lies in slot `a` of width `w` for exactly one `a`. */
  lemma SlotUnique(a: int, b: int, w: int, p: int)
    requires w > 0
    requires a * w <= p < a * w + w && b * w <= p < b * w + w
    ensures a == b
  {
    if a < b {
      MultiplyLe(w, a + 1, b);
      assert false;
    }
    if b < a {
      MultiplyLe(w, b + 1, a);
      assert false;
    }
  }

  /** Two different cells of the sheet share no point, and no cell reaches
      into the header. */
  lemma CellsDisjoint(frameSize: Size, rowCount: int, colCount: int, i1: int, j1: int, i2: int, j2: int, px: int, py: int)
    requires frameSize.width > 0 && frameSize.height > 0
    requires 0 <= i1 < rowCount && 0 <= j1 < colCount && 0 <= i2 < rowCount && 0 <= j2 < colCount
    requires Contains(CellRect(frameSize, i1, j1), px, py) && Contains(CellRect(frameSize, i2, j2), px, py)
    ensures i1 == i2 && j1 == j2
    ensures !Contains(HeaderRect(frameSize, rowCount), px, py)
  {
    SlotUnique(i1, i2, frameSize.width, px);
    SlotUnique(j1, j2, frameSize.height, py - HeaderHeight);
    MultiplyMonotone(frameSize.height, 0, j1);
  }

  /** Every cell and the header lie on the sheet. */
  lemma CellsInCanvas(frameSize: Size, rowCount: int, colCount: int, i: int, j: int, px: int, py: int)
    requires frameSize.width > 0 && frameSize.height > 0 && colCount >= 0
    requires 0 <= i < rowCount && 0 <= j < colCount
    ensures Contains(CellRect(frameSize, i, j), px, py) ==> Contains(CanvasRect(frameSize, rowCount, colCount), px, py)
    ensures Contains(HeaderRect(frameSize, rowCount), px, py) ==> Contains(CanvasRect(frameSize, rowCount, colCount), px, py)
  {
    MultiplyLe(frameSize.width, i + 1, rowCount);
    MultiplyLe(frameSize.height, j + 1, colCount);
    MultiplyLe(frameSize.width, 0, i);
    MultiplyLe(frameSize.height, 0, j);
  }

  /** A point of the sheet below the header lies in the cell its position
      divides down to. */
  lemma PointInCell(frameSize: Size, rowCount: int, colCount: int, px: int, py: int)
    requires frameSize.width > 0 && frameSize.height > 0 && rowCount >= 0 && colCount >= 0
    requires Contains(CanvasRect(frameSize, rowCount, colCount), px, py) && py >= HeaderHeight
    ensures var i, j := px / frameSize.width, (py - HeaderHeight) / frameSize.height;
      0 <= i < rowCount && 0 <= j < colCount && Contains(CellRect(frameSize, i, j), px, py)
  {
    var w, h := frameSize.width, frameSize.height;
    var i, j := px / w, (py - HeaderHeight) / h;
    DivBounds(px, w);
    DivBounds(py - HeaderHeight, h);
    if rowCount <= i {
      MultiplyLe(w, rowCount, i);
      assert false;
    }
    if colCount <= j {
      MultiplyLe(h, colCount, j);
      assert false;
    }
  }

  /** The header and the `rowCount * colCount` cells cover the sheet exactly:
      a point is on the sheet if and only if it is in the header or in a cell. */
  lemma CellsCoverCanvas(frameSize: Size, rowCount: int, colCount: int, px: int, py: int)
    requires frameSize.width > 0 && frameSize.height > 0 && rowCount >= 0 && colCount >= 0
    ensures Contains(CanvasRect(frameSize, rowCount, colCount), px, py) <==>
      || Contains(HeaderRect(frameSize, rowCount), px, py)
      || exists i, j :: 0 <= i < rowCount && 0 <= j < colCount && Contains(CellRect(frameSize, i, j), px, py)
  {
    if Contains(CanvasRect(frameSize, rowCount, colCount), px, py) && py >= HeaderHeight {
      PointInCell(frameSize, rowCount, colCount, px, py);
    }
    if exists i, j :: 0 <= i < rowCount && 0 <= j < colCount && Contains(CellRect(frameSize, i, j), px, py) {
      var i, j :| 0 <= i < rowCount && 0 <= j < colCount && Contains(CellRect(frameSize, i, j), px, py);
      CellsInCanvas(frameSize, rowCount, colCount, i, j, px, py);
    }
    if Contains(HeaderRect(frameSize, rowCount), px, py) {
      MultiplyLe(frameSize.height, 0, colCount);
    }
  }
}
