# ffmpeg-screens in Dafny

ffmpeg-screens makes a contact sheet for a video file. It opens the file with
ffmpeg and takes `rowCount * colCount` frames at evenly spaced times. It paints
them with cairo onto a grid that is `rowCount` frames across and `colCount`
frames down. Above the grid it draws a header band holding the file's name,
duration, resolution and size.

This project models the core of the program:

- the `Decoder` class of `src/main.cpp`: stream selection, codec opening,
  seeking, the packet loop of `DecodeFrame`, and the header lines of
  `GetVideoInfo`, with their duration and file-size arithmetic;
- `GenerateScreens`: the frame size, the time step and seek schedule, the two
  nested loops that paint the grid, and the header;
- the `ImageBuilder` class of `src/ImageBuilder.hpp`: filled rectangles, the
  line-by-line text writer, and image placement.

Modules, one per file:

- **Base** (`base.dfy`): `Option`/`Result`, and C++ integer `/` and `%`
  (both truncate toward zero).
- **Frames** (`frames.dfy`): the scaled frame buffer of `src/ImageBuffer.hpp`.
- **HeaderInfo** (`header_info.dfy`): the duration clock and the file-size
  scaling of `GetVideoInfo`.
- **Decoding** (`decoding.dfy`): the `Decoder` class.
  - ffmpeg is replaced by a `MediaFile` value. It says whether the file opens,
    what its streams are, its duration and size, which packets a read
    returns, and what each seek target does: it lands on a packet sequence or
    fails with an error code.
  - `DecodeRun` is the pure reference definition of the `DecodeFrame` loop,
    and the method is proved against it.
- **Canvas** (`canvas.dfy`): the `ImageBuilder` class.
  - cairo is replaced by a log of the calls made on the context, together with
    the graphics state those calls change and cairo's save/restore stack.
  - A small interpreter (`Step`/`Run`) replays the log.
  - The builder's invariant is that replaying its log from a fresh context
    gives its current state.
- **Layout** (`layout.dfy`): the arithmetic of `GenerateScreens`: frame size,
  time step, seek times, and the rectangles of the header and the cells.
- **Screens** (`screens.dfy`): `GenerateScreens` and its loops, proved against
  pure definitions:
  - `Shown` is the buffer contents after the `n`-th seek and decode;
  - `GridOps` is the calls that paint the grid;
  - `FirstFailedSeek` is the first rejected seek.

The C++ code signals errors by throwing `FException`. Here each error is an
`Err(Failure)` result that records the API name, message and error code the
exception carries.

## Model

| member | source | states |
|---|---|---|
| `Base.TruncDiv` | src/main.cpp:122-127 | The C++ quotient: its magnitude is the floor of the magnitudes' quotient, and a non-zero quotient is negative exactly when the operands' signs differ. |
| `Base.TruncRem` | src/main.cpp:122-127 | The C++ remainder: it recombines with the quotient to the dividend, is smaller than the divisor in magnitude, and takes the dividend's sign. |
| `Base.Int32Of` | src/main.cpp:64 | The conversion of a 64-bit value to the 32-bit `int` a function returns: the result lies in [−2^31, 2^31), agrees with the input modulo 2^32, and equals the input when the input fits. |
| `Frames.ImageBuffer.constructor` | src/ImageBuffer.hpp:27-44 | A new buffer has the requested size and holds no picture yet. |
| `Frames.ImageBuffer.Fill` | src/ImageBuffer.hpp:46-56 | The buffer afterwards holds the given picture scaled to the buffer's own size. |
| `HeaderInfo.ClockOf` | src/main.cpp:119-129 | Hours, minutes and seconds recompose to the whole seconds of duration + 5000 µs (truncated); minutes and seconds stay below 60 and hundredths below 100 in magnitude, for any duration. |
| `HeaderInfo.ClockRoundsToHundredths` | src/main.cpp:119-129 | For a non-negative duration every field is non-negative, and the clock shows the duration rounded to the nearest hundredth of a second, halves rounding up. |
| `HeaderInfo.ScaleFileSizeAsWritten` | src/main.cpp:135-146 | The loop as written: size × 1024^index equals the size in KB; the size is ≤ 1024 unless the index is 4, and > 1 once scaled. The index reaches 4, one past the unit table, exactly when the size in KB exceeds 1024^4. |
| `HeaderInfo.UnitIndexOverrun` | src/main.cpp:140-150 | A 2^51-byte file drives the as-written loop to index 4, which `unit[]` does not have. |
| `HeaderInfo.ScaleFileSize` | src/main.cpp:135-150 | With the loop capped at the last unit, the index names an entry of `unit[]`, size × 1024^index equals the size in KB, and the size is at most 1024 unless the unit is TB. |
| `HeaderInfo.ScaledSizeUnique` | src/main.cpp:140-146 | Those conditions pin down a single (size, unit) pair for every file size. |
| `HeaderInfo.CappedMatchesAsWritten` | src/main.cpp:135-150 | The loop as written and the capped loop give the same size and unit for every file up to 1024^4 KB. Above that the loop as written ends at index 4, past the table, while the capped loop stops at TB. |
| `Decoding.FindFirstVideoStream` | src/main.cpp:189-202 | Succeeds if and only if some stream is a video stream, with the index of the first one; otherwise fails with "couldn't find video stream". |
| `Decoding.FirstVideoUnique` | src/main.cpp:209-212 | The first video stream is unique. So the constructor's own lookup for `videoStream_`, which runs after OpenCodec's, returns the stream whose codec OpenCodec opened. |
| `Decoding.OpenCodec` | src/main.cpp:204-229 | No video stream gives "couldn't find video stream". A missing decoder gives "codec is not supported". A failed open gives the `avcodec_find_decoder2` failure. Otherwise it returns the first video stream's codec context. |
| `Decoding.OpenDecoder` | src/main.cpp:52-59 | Members initialise in declaration order (src/main.cpp:234-237): format, then codec (with its own stream lookup), then stream index. The first failure is, in order: open, stream info, video stream, decoder, codec open. On success the decoder is on the first video stream, has made no reads or seeks, and reads from the start of the file. |
| `Decoding.OpenFormat` | src/main.cpp:169-187 | Succeeds if and only if the file opens and its stream information is found. A file that does not open fails with `avformat_open_input`; missing stream information fails with `avformat_find_stream_info`. |
| `Decoding.Decoder.Width` | src/main.cpp:61 | The codec's frame width, which is that of the file's first video stream. |
| `Decoding.Decoder.Height` | src/main.cpp:62 | The codec's frame height, which is that of the file's first video stream. |
| `Decoding.Decoder.DurationInSeconds` | src/main.cpp:64 | The 64-bit duration divided by 10^6, truncated toward zero, then narrowed to a 32-bit `int`. The result is in `int` range and agrees with the quotient modulo 2^32. For a duration under 2^31 seconds in magnitude it is the quotient itself: \|s\| × 10^6 ≤ \|duration\| < (\|s\|+1) × 10^6, with the duration's sign. For an unknown duration (`AV_NOPTS_VALUE`) the quotient −9223372036854 narrows to −2077252342. |
| `Decoding.Decoder.Seek` | src/main.cpp:66-82 | Records the target. A landing seek makes the following reads return the packets from the landing point. A rejected seek fails with `avformat_seek_file` and its code, leaving the read position unchanged. |
| `Decoding.Decoder.ReadFrame` | src/main.cpp:89 | Takes the next packet if there is one and records it as read; reports false at the end. |
| `Decoding.Decoder.HandlePacket` | src/main.cpp:91-104 | Only a video-stream packet goes to the decoder. The buffer is filled exactly when that packet completes a picture. Every packet is freed. |
| `Decoding.Decoder.DecodeFrame` | src/main.cpp:84-106 | Read position, packets read, packets freed, packets decoded, buffer contents and fill count all match the `DecodeRun` reference, including the extra packet read after completion. |
| `Decoding.VideoPacketsFilter` | src/main.cpp:92 | The packets passed to the decoder are exactly the packets of the selected stream. |
| `Decoding.DecodeFeedsVideoOnly` | src/main.cpp:89-104 | Of the packets that enter the loop body, exactly the video-stream ones reach the decoder, in order. |
| `Decoding.DecodeFillsFirstFrame` | src/main.cpp:89-100 | The buffer is filled if and only if some packet completes a video picture. It gets the first such picture, and the loop body stops right after it. Otherwise every packet is consumed and the buffer keeps its contents. |
| `Decoding.DecodeExtraRead` | src/main.cpp:89 | After a completed picture, one more packet is read, and neither examined nor freed, exactly when packets remain. |
| `Decoding.Decoder.CreateImageBuffer` | src/main.cpp:108-111 | A fresh, empty buffer of the requested size. |
| `Decoding.Decoder.GetVideoInfo` | src/main.cpp:113-161 | Header lines in order: the file name; the duration clock only when the duration is known; the codec's resolution; the file size scaled by the corrected unit loop of the Findings row, which agrees with the loop as written for every size up to 1024^4 KB (`HeaderInfo.CappedMatchesAsWritten`). |
| `Layout.FrameSizeCases` | src/main.cpp:250-263 | No size requested gives the native size. Both sides requested are kept. One side requested keeps it, and the other side is the requested side times the native aspect ratio, truncated toward zero: its magnitude is the floor of the exact quotient's, its sign is the quotient's, and for a positive requested side, a positive native divisor and a non-negative native dividend it is exactly `native.width * height / native.height` (resp. `native.height * width / native.width`). |
| `Screens.DeriveFrameSize` | src/main.cpp:250-263 | The three size steps of GenerateScreens compute `Layout.FrameSize`. |
| `Layout.TimeStep` | src/main.cpp:269 | C++'s truncating `DurationInSeconds() / (rowCount * colCount + 2)`: the step's magnitude is the floor of the magnitudes' quotient, and a non-zero step is negative exactly when the duration and the divisor differ in sign. |
| `Layout.StepBounds` | src/main.cpp:269 | For a known duration the step is non-negative; rowCount × colCount steps fit within the duration less two steps; the step is zero exactly when the duration is shorter than rowCount × colCount + 2 seconds. |
| `Layout.SeekTimesAt` | src/main.cpp:282 | The n-th seek (from 0) is at (n+1) × step seconds. |
| `Layout.ScheduleBounds` | src/main.cpp:269-283 | The seek times increase strictly for a positive step, are all 0 for a short video, lie in [0, duration − 2·step], and lie strictly inside the video when the step is positive. |
| `Layout.CellsDisjoint` | src/main.cpp:285-288 | Two cells of the grid never overlap, and no cell reaches into the header. |
| `Layout.CellsInCanvas` | src/main.cpp:273-296 | Every cell and the header band lie on the canvas that the builder is created with. |
| `Layout.PointInCell` | src/main.cpp:273-288 | A canvas point below the header lies in the cell found by dividing its position by the frame size. |
| `Layout.CellsCoverCanvas` | src/main.cpp:273-296 | A point is on the canvas if and only if it is in the header or in some cell. |
| `Screens.RowOpsAt` | src/main.cpp:280-288 | A row's calls are six per cell, and cell k's calls sit at offset 6k. |
| `Screens.GridOpsAt` | src/main.cpp:278-290 | The grid's calls are the rows one after another: row r sits at offset r × (6 × rowCount). |
| `Screens.GridRestores` | src/main.cpp:278-290 | Painting the whole grid leaves the graphics state and the save stack as they were. |
| `Screens.FailedSeekSnoc` | src/main.cpp:282 | One more seek keeps an earlier first failure; otherwise the new seek's outcome decides. |
| `Screens.FailedSeekPrefix` | src/main.cpp:278-290 | A failure among the first k seeks is the first failure of the whole schedule. |
| `Screens.SheetFailure` | src/main.cpp:278-290 | A rejected seek among the first n cells is the first rejected seek of the whole sheet. |
| `Screens.PaintCell` | src/main.cpp:281-288 | Seeks to (n+1) × step. If rejected, returns that failure, the first of the sheet. Otherwise the buffer holds the picture taken for the next cell, and the builder's log gains that cell's calls. |
| `Screens.PaintRow` | src/main.cpp:280-289 | Paints one row cell by cell, or stops at the first rejected seek. That seek is then the first rejected seek of the whole sheet. |
| `Screens.PaintCells` | src/main.cpp:278-290 | Returns the first rejected seek of the whole schedule, if any. Otherwise all rowCount × colCount seeks are made in schedule order, and the log holds the cells row by row. |
| `Screens.HeaderTextLines` | src/main.cpp:297-298 | WriteText reads the header text back as the rendered header lines followed by one empty line, since every line ends in a newline. |
| `Screens.GenerateScreens` | src/main.cpp:240-306 | Open failures and the first rejected seek end the run with that failure. A completed sheet has the derived frame size, the time step taken from the 32-bit `DurationInSeconds`, all seeks in schedule order, and a canvas of rowCount × frame width by colCount × frame height + 120. Its calls are the grid, the header band, then the header text. It ends with the builder's drawing state back at cairo's defaults. |
| `Canvas.ImageBuilder.constructor` | src/ImageBuilder.hpp:26-30 | A new surface of the given size with a fresh context: no calls yet, cairo's default state, nothing saved. |
| `Canvas.ImageBuilder.SaveState` | src/ImageBuilder.hpp:41 | `cairo_save` pushes the current graphics state. |
| `Canvas.ImageBuilder.RestoreState` | src/ImageBuilder.hpp:50 | `cairo_restore` pops the state last saved. |
| `Canvas.ImageBuilder.DrawFilledRect` | src/ImageBuilder.hpp:38-51 | Logs exactly the rectangle's calls (save, colour, line width, rectangle, stroke, fill, restore) and leaves the state and stack as they were. |
| `Canvas.FilledRectRestores` | src/ImageBuilder.hpp:41-50 | Replaying the rectangle's calls from any context returns that context. |
| `Canvas.ImageBuilder.WriteText` | src/ImageBuilder.hpp:53-79 | Logs save, font face, font size, then a move and a show for every line of the text, then restore. The state and stack end as they were. |
| `Canvas.ImageBuilder.WriteLines` | src/ImageBuilder.hpp:67-76 | The loop draws exactly the lines of the text, in order, each on its own baseline. |
| `Canvas.ImageBuilder.WriteLine` | src/ImageBuilder.hpp:72-75 | One iteration moves the cursor down one row, then reads and shows the next line, keeping the rest of the text still to read. |
| `Canvas.GetLine` | src/ImageBuilder.hpp:74 | `std::getline` never moves backwards, and it advances unless it hits end of input. |
| `Canvas.GetLineSplits` | src/ImageBuilder.hpp:74 | The line read is the first line of the rest of the text; the lines after it remain, or none at end of input. |
| `Canvas.LineOpsAt` | src/ImageBuilder.hpp:70-76 | Line k (from 0) is shown at x − x-bearing on baseline y + (k+1)(rowPitch − y-bearing); there are two calls per line and no others. |
| `Canvas.BaselineClosedForm` | src/ImageBuilder.hpp:72 | After k cursor updates the baseline is y + k(rowPitch − y-bearing). |
| `Canvas.SplitLinesCount` | src/ImageBuilder.hpp:70-76 | The loop draws one line more than the text has newlines. |
| `Canvas.SplitLinesNoNewline` | src/ImageBuilder.hpp:74 | No line that is shown contains a newline. |
| `Canvas.SplitThenJoin` | src/ImageBuilder.hpp:67-76 | Joining the lines that are shown with newlines gives the text back. |
| `Canvas.JoinThenSplit` | src/ImageBuilder.hpp:67-76 | Newline-free lines joined with newlines are read back as exactly those lines. |
| `Canvas.TextRestores` | src/ImageBuilder.hpp:59-78 | Replaying WriteText's calls from any context returns that context, whatever the number of lines. |
| `Canvas.ImageBuilder.WriteImageBuffer` | src/ImageBuilder.hpp:81-87 | The template overload paints the buffer's contents with the buffer's own width and height. |
| `Canvas.ImageBuilder.WriteImage` | src/ImageBuilder.hpp:89-116 | Logs save, translate, scale, set source, paint, restore, and leaves the state and stack as they were. |
| `Canvas.ImageRestores` | src/ImageBuilder.hpp:99-115 | Replaying WriteImage's calls from any context returns that context: the translation and scaling do not leak. |
| `Canvas.PlacedAt` | src/ImageBuilder.hpp:100-103 | Source point (u, v) lands at the offset plus (u, v) scaled by target over source size. |
| `Canvas.ImageCtmAtPaint` | src/ImageBuilder.hpp:99-114 | When WriteImage paints, the transformation in effect is the caller's followed by the translation and scaling that `PlacedAt` and `ImagePlacement` reason about, and the source is the image at its own size. |
| `Canvas.ImagePlacement` | src/ImageBuilder.hpp:100-103 | The source rectangle lands exactly on the target rectangle at the offset. When the sizes are equal, the image is only moved. |

## Left out

- ffmpeg and cairo themselves are not modelled. That covers decoding, pixel conversion (`sws_scale`), rasterising, glyph shaping and the PNG file written by `SaveToPng` (src/ImageBuilder.hpp:118-121, src/main.cpp:300-301).
  - A decoded picture is known by an identity only.
  - A drawing is known by the list of calls that produced it.
- `cairo_text_extents` (src/ImageBuilder.hpp:65) measures the text with the font. Here the measured bearings are an input (`TextExtents`), and font slant and weight are not recorded.
- Rendering each header line to text (boost::format, `%02d`, `%0.2f`) is an input function `render`. The newline that `std::endl` ends each line with is modelled, by `Screens.HeaderText`. This also covers taking the file name's last path component (src/main.cpp:117): the model's file-name line holds the name as passed.
- Decoding.Decoder.Seek: the conversion of seconds to the stream's time base (`av_rescale`, src/main.cpp:68-70) and `avcodec_flush_buffers` are not modelled. The file's `seek` map says directly what a seek to a whole second does.
- Decoding.Decoder.DecodeFrame: whether a packet completes a picture is a property of the packet, not of decoder state carried across packets. An `av_read_frame` error is treated like end of file, as the loop condition treats it.
- Decoding.Decoder.GetVideoInfo: uses the corrected unit loop (`HeaderInfo.ScaleFileSize`). Above 1024^4 KB the source reads `unit[4]`, past the end of the table (see Findings), and the model does not reproduce that out-of-bounds read.
- Decoding.Decoder.DurationInSeconds: the narrowing to `int` is taken to wrap modulo 2^32, as two's-complement compilers do; before C++20 the standard leaves it implementation-defined.
- HeaderInfo.ClockOf: the narrowing of `duration / AV_TIME_BASE` to `int` (src/main.cpp:120-122) is not modelled; it only matters for durations beyond about 68 years.
- Layout.FrameSize: the source computes `(double) width / height * requested` and converts it to `int`. The model takes the exact quotient truncated toward zero. The two can differ by one when the floating-point product rounds across an integer.
- Layout.FrameSizeCases: a zero native side that a one-sided request divides by, which makes the source divide by zero in floating point, is excluded by `SizeDerivable`. A zero native side is otherwise accepted.
- Screens.GenerateScreens: for a file that opens, requires `rowCount * colCount + 2 != 0`, since the source then divides by it (src/main.cpp:269), and a derivable frame size (src/main.cpp:255-263). A file that fails to open is accepted with any arguments. The 32-bit overflow of `step*(j*rowCount+i+1)`, `frameWidth * rowCount` and of the file size's `int`/`double` conversions is not modelled: integers are unbounded.
- HeaderInfo.ScaleFileSize: the `double` divisions are exact real divisions; rounding is not modelled.
- Coordinates passed to cairo as `double` are kept as integers, or as reals where the source computes them in `double`.
- The console messages of GenerateScreens (src/main.cpp:243, 304) are not modelled. The caught exception becomes the method's `Err` result.
- The `frame_` AVFrame shared between the decoder and the buffer, and the smart-pointer lifetimes and destructors, are not modelled.
- `main` and its command-line parsing (src/main.cpp:308-359) are not modelled. Note that its `col-count` option is bound to `rowCount` (src/main.cpp:324), so the column count always keeps its default.
- src/ffmpeg.h is not part of this model.

## Findings

| source | as written | input that shows it | evidently intended | confidence | as-written member | corrected member |
|---|---|---|---|---|---|---|
| src/main.cpp:140-150 | The unit loop allows four divisions by 1024, so `unitIndex` can reach 4; `unit[unitIndex]` then reads past the four-entry table. | A file of 2^51 bytes (2^41 KB): after four divisions the size is 2.0 and the index is 4. | Stop dividing at the last unit, so TB absorbs every larger size. | not executed | `HeaderInfo.ScaleFileSizeAsWritten`, `HeaderInfo.UnitIndexOverrun` | `HeaderInfo.ScaleFileSize` |
