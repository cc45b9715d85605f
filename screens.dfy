/** GenerateScreens (src/main.cpp): open a video, work out the frame size and
    the time step, then for every cell of a `rowCount` by `colCount` grid seek,
    decode one frame and paint it into its cell; finally paint the header band
    and write the video information into it.

    The header lines are rendered to text by boost::format, which is outside
    the model: `render` stands for it. Text extents come from the font and are
    an input as well. Saving the sheet as a PNG file is not modelled. */
module Screens {
  import opened Base
  import opened Frames
  import opened HeaderInfo
  import opened Decoding
  import opened Canvas
  import opened Layout

  /** A count as the `for` loops use it: a negative count runs no iteration. */
  function Clamp(n: int): nat
  {
    if n < 0 then 0 else n
  }

  /** What the cells of a sheet are made from: the file, its first video
      stream, the time step, the frame size and the number of frames per row. */
  datatype Grid = Grid(file: MediaFile, videoStream: nat, step: int, frameSize: Size, rows: nat)

  /** The contents of the frame buffer after a seek to `t` and one
      DecodeFrame: the first picture completed after the landing point, scaled
      to the frame size, or the previous contents when no picture completes. */
  function Grab(g: Grid, t: int, prev: Image): Image
  {
    match g.file.seek(t)
    case Landed(ps) =>
      var d := DecodeRun(ps, g.videoStream);
      if d.filled.Some? then Scaled(d.filled.value, g.frameSize.width, g.frameSize.height) else prev
    case SeekFailed(_) => prev
  }

  /** The contents of the frame buffer once `n` frames have been taken, the
      `k`-th of them (from 1) at `k * step` seconds. */
  function Shown(g: Grid, n: nat): Image
  {
    if n == 0 then Uninitialized else Grab(g, g.step * n, Shown(g, n - 1))
  }

  /** The drawing calls that paint cell `(i, j)`: the frame taken for it,
      placed on the cell's rectangle of the sheet. */
  function CellOps(g: Grid, i: nat, j: nat): seq<Op>
  {
    var cell := CellRect(g.frameSize, i, j);
    ImageOps(Shown(g, j * g.rows + i + 1), g.frameSize.width, g.frameSize.height,
      cell.x, cell.y, cell.width, cell.height)
  }

  /** The calls for the first `i` cells of row `j`, left to right. */
  function RowOps(g: Grid, j: nat, i: nat): seq<Op>
  {
    if i == 0 then [] else RowOps(g, j, i - 1) + CellOps(g, i - 1, j)
  }

  /** The calls for the first `j` rows, top to bottom. */
  function GridOps(g: Grid, j: nat): seq<Op>
  {
    if j == 0 then [] else GridOps(g, j - 1) + RowOps(g, j - 1, g.rows)
  }

  /** Row `j`'s calls are six per cell, cell `k` at offset `6 * k`. */
  lemma {:induction false} RowOpsAt(g: Grid, j: nat, i: nat)
    ensures |RowOps(g, j, i)| == 6 * i
    ensures forall k :: 0 <= k < i ==> RowOps(g, j, i)[6 * k..6 * k + 6] == CellOps(g, k, j)
  {
    if i > 0 {
      RowOpsAt(g, j, i - 1);
      var prefix := RowOps(g, j, i - 1);
      assert RowOps(g, j, i) == prefix + CellOps(g, i - 1, j);
      forall k | 0 <= k < i
        ensures RowOps(g, j, i)[6 * k..6 * k + 6] == CellOps(g, k, j)
      {
        if k < i - 1 {
          SliceOfPrefix(prefix, CellOps(g, i - 1, j), 6 * k, 6 * k + 6);
        } else {
          assert (prefix + CellOps(g, i - 1, j))[|prefix|..|prefix| + 6] == CellOps(g, i - 1, j);
        }
      }
    }
  }

  /** The sheet's calls are one row after the other, row `r` at offset
      `r` times the length of a row. */
  lemma GridOpsAt(g: Grid, j: nat)
    ensures |GridOps(g, j)| == 6 * g.rows * j
    ensures forall r :: 0 <= r < j ==>
      && 0 <= 6 * g.rows * r <= 6 * g.rows * r + 6 * g.rows <= |GridOps(g, j)|
      && GridOps(g, j)[6 * g.rows * r..6 * g.rows * r + 6 * g.rows] == RowOps(g, r, g.rows)
  {
    GridLength(g, j);
    forall r | 0 <= r < j
      ensures 0 <= 6 * g.rows * r <= 6 * g.rows * r + 6 * g.rows <= |GridOps(g, j)|
      ensures GridOps(g, j)[6 * g.rows * r..6 * g.rows * r + 6 * g.rows] == RowOps(g, r, g.rows)
    {
      GridRowAt(g, j, r);
    }
  }

  lemma {:induction false} GridLength(g: Grid, j: nat)
    ensures |GridOps(g, j)| == 6 * g.rows * j
  {
    if j > 0 {
      GridLength(g, j - 1);
      RowLength(g, j - 1, g.rows);
      assert 6 * g.rows * j == 6 * g.rows * (j - 1) + 6 * g.rows;
    }
  }

  lemma {:induction false} GridRowAt(g: Grid, j: nat, r: nat)
    requires r < j
    ensures 0 <= 6 * g.rows * r <= 6 * g.rows * r + 6 * g.rows <= |GridOps(g, j)|
    ensures GridOps(g, j)[6 * g.rows * r..6 * g.rows * r + 6 * g.rows] == RowOps(g, r, g.rows)
  {
    var len := 6 * g.rows;
    var prefix, row := GridOps(g, j - 1), RowOps(g, j - 1, g.rows);
    assert GridOps(g, j) == prefix + row;
    RowLength(g, j - 1, g.rows);
    if r < j - 1 {
      GridRowAt(g, j - 1, r);
      SliceOfPrefix(prefix, row, len * r, len * r + len);
    } else {
      GridLength(g, r);
      MultiplyMonotone(len, 0, r);
      assert (prefix + row)[|prefix|..|prefix| + |row|] == row;
    }
  }

  lemma {:induction false} RowLength(g: Grid, j: nat, i: nat)
    ensures |RowOps(g, j, i)| == 6 * i
  {
    if i > 0 {
      RowLength(g, j, i - 1);
    }
  }

  /** The number of cells in `count` rows of `rows` cells each. */
  function CellsIn(rows: nat, count: nat): nat
  {
    count * rows
  }

  /** Row `j` of a sheet of `cols` rows ends within the sheet. */
  lemma RowBound(rows: nat, cols: nat, j: nat)
    requires j < cols
    ensures CellsIn(rows, j + 1) == CellsIn(rows, j) + rows <= CellsIn(rows, cols)
  {
    MultiplyLe(rows, j + 1, cols);
  }

  lemma SliceOfPrefix<T>(a: seq<T>, b: seq<T>, lo: nat, hi: nat)
    requires lo <= hi <= |a|
    ensures (a + b)[lo..hi] == a[lo..hi]
  {
  }

  /** Painting the cells leaves the drawing state as it was. */
  lemma {:induction false} GridRestores(c: Context, g: Grid, j: nat)
    ensures Run(c, GridOps(g, j)) == Some(c)
  {
    if j > 0 {
      GridRestores(c, g, j - 1);
      RowRestores(c, g, j - 1, g.rows);
      RunAppend(c, GridOps(g, j - 1), RowOps(g, j - 1, g.rows));
    }
  }

  lemma {:induction false} RowRestores(c: Context, g: Grid, j: nat, i: nat)
    ensures Run(c, RowOps(g, j, i)) == Some(c)
  {
    if i > 0 {
      RowRestores(c, g, j, i - 1);
      var cell := CellRect(g.frameSize, i - 1, j);
      ImageRestores(c, Shown(g, j * g.rows + i), g.frameSize.width, g.frameSize.height,
        cell.x, cell.y, cell.width, cell.height);
      RunAppend(c, RowOps(g, j, i - 1), CellOps(g, i - 1, j));
    }
  }

  /** What a seek to `t` reports: the failure when the file rejects it. */
  function SeekOutcome(file: MediaFile, t: int): Option<Failure>
  {
    match file.seek(t)
    case SeekFailed(code) => Some(SeekFailure(code))
    case Landed(_) => None
  }

  /** The failure of the first seek in `times` that the file rejects. */
  function FirstFailedSeek(file: MediaFile, times: seq<int>): Option<Failure>
  {
    if times == [] then None
    else if SeekOutcome(file, times[0]).Some? then SeekOutcome(file, times[0])
    else FirstFailedSeek(file, times[1..])
  }

  /** One more seek: the first failure stays the first, and otherwise the new
      seek's outcome decides. */
  lemma {:induction false} FailedSeekSnoc(file: MediaFile, times: seq<int>, t: int)
    ensures FirstFailedSeek(file, times + [t]) ==
      if FirstFailedSeek(file, times).Some? then FirstFailedSeek(file, times) else SeekOutcome(file, t)
  {
    if times == [] {
      assert [] + [t] == [t];
      assert [t][1..] == [];
    } else {
      assert (times + [t])[1..] == times[1..] + [t];
      FailedSeekSnoc(file, times[1..], t);
    }
  }

  /** A failure among the first `k` seeks is the first failure of all of them. */
  lemma {:induction false} FailedSeekPrefix(file: MediaFile, times: seq<int>, k: nat)
    requires k <= |times|
    requires FirstFailedSeek(file, times[..k]).Some?
    ensures FirstFailedSeek(file, times) == FirstFailedSeek(file, times[..k])
  {
    assert times[..k][1..] == times[1..][..k - 1];
    if SeekOutcome(file, times[0]).None? {
      FailedSeekPrefix(file, times[1..], k - 1);
    }
  }

  /** The header text: every rendered line followed by a newline (std::endl). */
  function HeaderText(lines: seq<HeaderLine>, render: HeaderLine -> string): string
  {
    if lines == [] then "" else render(lines[0]) + "\n" + HeaderText(lines[1..], render)
  }

  function Rendered(lines: seq<HeaderLine>, render: HeaderLine -> string): (texts: seq<string>)
    ensures |texts| == |lines|
    ensures forall k :: 0 <= k < |lines| ==> texts[k] == render(lines[k])
  {
    if lines == [] then [] else [render(lines[0])] + Rendered(lines[1..], render)
  }

  lemma {:induction false} HeaderTextJoins(lines: seq<HeaderLine>, render: HeaderLine -> string)
    ensures HeaderText(lines, render) == JoinLines(Rendered(lines, render) + [""])
  {
    if lines != [] {
      HeaderTextJoins(lines[1..], render);
      var texts := Rendered(lines, render) + [""];
      assert texts[1..] == Rendered(lines[1..], render) + [""];
    }
  }

  /** WriteText reads the header text back as the rendered lines and, after
      the final newline, one empty line. */
  lemma HeaderTextLines(lines: seq<HeaderLine>, render: HeaderLine -> string)
    requires forall k :: 0 <= k < |lines| ==> '\n' !in render(lines[k])
    ensures SplitLines(HeaderText(lines, render)) == Rendered(lines, render) + [""]
  {
    HeaderTextJoins(lines, render);
    var texts := Rendered(lines, render) + [""];
    forall k | 0 <= k < |texts|
      ensures '\n' !in texts[k]
    {
      if k < |lines| {
        assert texts[k] == render(lines[k]);
      }
    }
    JoinThenSplit(texts);
  }

  /** The first three steps of GenerateScreens: no size given takes the
      native size, then a missing width or height is derived from the other. */
  method DeriveFrameSize(decoder: Decoder, frameWidth: int, frameHeight: int) returns (width: int, height: int)
    requires decoder.Valid()
    requires SizeDerivable(Size(decoder.Width(), decoder.Height()), Size(frameWidth, frameHeight))
    ensures Size(width, height) == FrameSize(Size(decoder.Width(), decoder.Height()), Size(frameWidth, frameHeight))
  {
    width, height := frameWidth, frameHeight;
    if width == 0 && height == 0 {
      width, height := decoder.Width(), decoder.Height();
    }
    if width == 0 && height != 0 {
      width := TruncDiv(decoder.Width() * height, decoder.Height());
    }
    if width != 0 && height == 0 {
      height := TruncDiv(decoder.Height() * width, decoder.Width());
    }
  }

  /** One pass of the inner loop: seek to the cell's time, decode a frame
      into the buffer and paint the buffer into cell `(i, j)`. A rejected
      seek stops here with its failure, the first of the sheet so far. */
  method PaintCell(decoder: Decoder, imageBuffer: ImageBuffer, builder: ImageBuilder,
                   step: int, width: int, height: int, rowCount: int, i: int, j: int, ghost g: Grid, ghost n: nat, ghost start: seq<Op>)
    returns (failure: Option<Failure>)
    requires decoder.Valid() && builder.Valid()
    requires g == Grid(decoder.file, decoder.videoStream, step, Size(width, height), g.rows) && g.rows == rowCount
    requires imageBuffer.width == width && imageBuffer.height == height
    requires 0 <= i < rowCount && 0 <= j && n == j * g.rows + i
    requires decoder.seeks == SeekTimes(step, n)
    requires FirstFailedSeek(decoder.file, decoder.seeks) == None
    requires imageBuffer.contents == Shown(g, n)
    requires builder.ops == start + RowOps(g, j, i)
    modifies decoder, imageBuffer, builder
    ensures decoder.Valid() && builder.Valid()
    ensures builder.state == old(builder.state) && builder.stack == old(builder.stack)
    ensures decoder.seeks == SeekTimes(step, n + 1)
    ensures failure == FirstFailedSeek(decoder.file, decoder.seeks)
    ensures failure.None? ==>
      && imageBuffer.contents == Shown(g, n + 1)
      && builder.ops == start + RowOps(g, j, i + 1)
  {
    FailedSeekSnoc(decoder.file, decoder.seeks, step * (n + 1));
    failure := decoder.Seek(step * (j * rowCount + i + 1));
    if failure.Some? {
      return;
    }
    decoder.DecodeFrame(imageBuffer);
    builder.WriteImageBuffer(imageBuffer, i * width, j * height + HeaderHeight, width, height);
    ConcatAssoc(start, RowOps(g, j, i), CellOps(g, i, j));
  }

  /** A rejected seek among the first `n` is the first rejected seek of all
      `total` cells. */
  lemma SheetFailure(file: MediaFile, step: int, n: nat, total: nat)
    requires n <= total
    requires FirstFailedSeek(file, SeekTimes(step, n)).Some?
    ensures FirstFailedSeek(file, SeekTimes(step, total)) == FirstFailedSeek(file, SeekTimes(step, n))
  {
    SeekTimesPrefix(step, n, total);
    FailedSeekPrefix(file, SeekTimes(step, total), n);
  }

  /** The inner loop of GenerateScreens for row `j` of the sheet: cells `i`
      left to right, the `n`-th cell of the sheet (from 1) taken at
      `n * step` seconds; the row starts after the first `base` cells. It
      stops at the first rejected seek, which is then the first rejected seek
      of all `total` cells of the sheet. */
  method PaintRow(decoder: Decoder, imageBuffer: ImageBuffer, builder: ImageBuilder,
                  step: int, width: int, height: int, rowCount: int, j: int,
                  ghost g: Grid, ghost base: nat, ghost total: nat)
    returns (failure: Option<Failure>)
    requires decoder.Valid() && builder.Valid()
    requires g == Grid(decoder.file, decoder.videoStream, step, Size(width, height), g.rows) && g.rows == Clamp(rowCount)
    requires 0 <= j && base == CellsIn(g.rows, j) && base + g.rows <= total
    requires decoder.seeks == SeekTimes(step, base)
    requires FirstFailedSeek(decoder.file, decoder.seeks) == None
    requires imageBuffer.width == width && imageBuffer.height == height
    requires imageBuffer.contents == Shown(g, base)
    modifies decoder, imageBuffer, builder
    ensures decoder.Valid() && builder.Valid()
    ensures builder.state == old(builder.state) && builder.stack == old(builder.stack)
    ensures failure.Some? ==> failure == FirstFailedSeek(decoder.file, SeekTimes(step, total))
    ensures failure.None? ==>
      && decoder.seeks == SeekTimes(step, base + g.rows)
      && FirstFailedSeek(decoder.file, decoder.seeks) == None
      && imageBuffer.contents == Shown(g, base + g.rows)
      && builder.ops == old(builder.ops) + RowOps(g, j, g.rows)
  {
    hide Shown, Grab, CellOps, Run;
    ghost var start := builder.ops;
    ghost var state, stack := builder.state, builder.stack;
    failure := None;
    var i := 0;
    while i < rowCount
      invariant 0 <= i <= g.rows && failure == None
      invariant decoder.Valid() && decoder.seeks == SeekTimes(step, base + i)
      invariant FirstFailedSeek(decoder.file, decoder.seeks) == None
      invariant imageBuffer.width == width && imageBuffer.height == height
      invariant imageBuffer.contents == Shown(g, base + i)
      invariant builder.Valid() && builder.state == state && builder.stack == stack
      invariant builder.ops == start + RowOps(g, j, i)
    {
      failure := PaintCell(decoder, imageBuffer, builder, step, width, height, rowCount, i, j, g, base + i, start);
      if failure.Some? {
        SheetFailure(decoder.file, step, base + i + 1, total);
        return;
      }
      i := i + 1;
    }
  }

  /** The outer loop of GenerateScreens: the rows of the sheet top to bottom.
      It stops at the first rejected seek. */
  method PaintCells(decoder: Decoder, imageBuffer: ImageBuffer, builder: ImageBuilder,
                    step: int, width: int, height: int, rowCount: int, colCount: int)
    returns (failure: Option<Failure>)
    requires decoder.Valid() && builder.Valid() && decoder.seeks == []
    requires imageBuffer.width == width && imageBuffer.height == height && imageBuffer.contents == Uninitialized
    modifies decoder, imageBuffer, builder
    ensures decoder.Valid() && builder.Valid()
    ensures builder.state == old(builder.state) && builder.stack == old(builder.stack)
    ensures failure == FirstFailedSeek(decoder.file, SeekTimes(step, CellsIn(Clamp(rowCount), Clamp(colCount))))
    ensures failure.None? ==>
      && decoder.seeks == SeekTimes(step, CellsIn(Clamp(rowCount), Clamp(colCount)))
      && builder.ops == old(builder.ops) +
           GridOps(Grid(decoder.file, decoder.videoStream, step, Size(width, height), Clamp(rowCount)), Clamp(colCount))
  {
    assert Shown(Grid(decoder.file, decoder.videoStream, step, Size(width, height), Clamp(rowCount)), 0) == Uninitialized;
    ghost var rows, cols := Clamp(rowCount), Clamp(colCount);
    assert CellsIn(rows, 0) == 0;
    hide Shown, Grab, CellOps, RowOps, Run, CellsIn;
    ghost var g := Grid(decoder.file, decoder.videoStream, step, Size(width, height), rows);
    ghost var start := builder.ops;
    ghost var state, stack := builder.state, builder.stack;
    ghost var painted: nat := 0;
    failure := None;
    var j := 0;
    while j < colCount
      invariant 0 <= j <= cols && painted == CellsIn(rows, j) && failure == None
      invariant decoder.Valid() && decoder.seeks == SeekTimes(step, painted)
      invariant FirstFailedSeek(decoder.file, decoder.seeks) == None
      invariant imageBuffer.width == width && imageBuffer.height == height
      invariant imageBuffer.contents == Shown(g, painted)
      invariant builder.Valid() && builder.state == state && builder.stack == stack
      invariant builder.ops == start + GridOps(g, j)
    {
      RowBound(rows, cols, j);
      failure := PaintRow(decoder, imageBuffer, builder, step, width, height, rowCount, j, g, painted, CellsIn(rows, cols));
      if failure.Some? {
        return;
      }
      assert builder.ops == start + GridOps(g, j + 1) by {
        ConcatAssoc(start, GridOps(g, j), RowOps(g, j, rows));
      }
      painted := painted + rows;
      j := j + 1;
    }
    assert j == cols;
  }

  /** A finished contact sheet: the decoder it was taken from, the drawing it
      holds, the frame size and time step used, and the header lines. */
  datatype Sheet = Sheet(decoder: Decoder, builder: ImageBuilder, frameSize: Size, step: int, header: seq<HeaderLine>)

  /** GenerateScreens. A failure to open the file or a rejected seek ends it
      with that failure (the C++ code catches the exception and prints it). */
  method GenerateScreens(file: MediaFile, frameWidth: int, frameHeight: int, rowCount: int, colCount: int,
                         render: HeaderLine -> string, extents: TextExtents)
    returns (r: Result<Sheet, Failure>)
    requires OpenFailure(file).None? ==> rowCount * colCount + 2 != 0
    requires OpenFailure(file).None? ==> forall k :: IsFirstVideo(file.streams, k) ==>
      SizeDerivable(Size(file.streams[k].width, file.streams[k].height), Size(frameWidth, frameHeight))
    ensures OpenFailure(file).Some? ==> r == Err(OpenFailure(file).value)
    ensures OpenFailure(file).None? ==>
      var step := TimeStep(Int32Of(TruncDiv(file.duration, TimeBase)), rowCount, colCount);
      var failed := FirstFailedSeek(file, SeekTimes(step, Clamp(rowCount) * Clamp(colCount)));
      && (failed.Some? ==> r == Err(failed.value))
      && (failed.None? ==> r.Ok?)
    ensures r.Ok? ==>
      var s := r.value;
      var g := Grid(file, s.decoder.videoStream, s.step, s.frameSize, Clamp(rowCount));
      && fresh(s.decoder) && fresh(s.builder)
      && s.decoder.file == file && s.decoder.Valid()
      && s.frameSize == FrameSize(Size(s.decoder.codec.width, s.decoder.codec.height), Size(frameWidth, frameHeight))
      && s.step == TimeStep(Int32Of(TruncDiv(file.duration, TimeBase)), rowCount, colCount)
      && s.decoder.seeks == SeekTimes(s.step, Clamp(rowCount) * Clamp(colCount))
      && VideoInfo(file, s.decoder.codec, file.name, s.header)
      && s.builder.width == s.frameSize.width * rowCount
      && s.builder.height == s.frameSize.height * colCount + HeaderHeight
      && s.builder.Valid() && s.builder.state == DefaultGState && s.builder.stack == []
      && s.builder.ops ==
           GridOps(g, Clamp(colCount))
           + FilledRectOps(Rgb(255.0 / 255.0, 255.0 / 255.0, 240.0 / 255.0), 0, 0, s.frameSize.width * rowCount, HeaderHeight)
           + TextOps(10.0, 0.0, "San", 20.0, 10.0, HeaderText(s.header, render), extents)
  {
    var decoderOrFailure := OpenDecoder(file);
    if decoderOrFailure.Err? {
      return Err(decoderOrFailure.error);
    }
    var decoder := decoderOrFailure.value;
    assert IsFirstVideo(file.streams, decoder.videoStream);
    var width, height := DeriveFrameSize(decoder, frameWidth, frameHeight);
    var imageBuffer := decoder.CreateImageBuffer(width, height);
    var step := TimeStep(decoder.DurationInSeconds(), rowCount, colCount);
    assert step == TimeStep(Int32Of(TruncDiv(file.duration, TimeBase)), rowCount, colCount);
    hide TimeStep, Int32Of;
    var builder := new ImageBuilder(width * rowCount, height * colCount + HeaderHeight);
    var failure := PaintCells(decoder, imageBuffer, builder, step, width, height, rowCount, colCount);
    assert CellsIn(Clamp(rowCount), Clamp(colCount)) == Clamp(rowCount) * Clamp(colCount);
    if failure.Some? {
      return Err(failure.value);
    }
    ghost var cells := GridOps(Grid(file, decoder.videoStream, step, Size(width, height), Clamp(rowCount)), Clamp(colCount));
    assert builder.ops == cells;
    builder.DrawFilledRect(255.0 / 255.0, 255.0 / 255.0, 240.0 / 255.0, 0, 0, width * rowCount, HeaderHeight);
    ghost var headerOps := builder.ops;
    var header := decoder.GetVideoInfo(file.name);
    builder.WriteText(10.0, 0.0, "San", 20.0, 10.0, HeaderText(header, render), extents);
    assert builder.ops == headerOps + TextOps(10.0, 0.0, "San", 20.0, 10.0, HeaderText(header, render), extents);
    r := Ok(Sheet(decoder, builder, Size(width, height), step, header));
  }
}
