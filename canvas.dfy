/** The ImageBuilder class of src/ImageBuilder.hpp: a cairo surface and its
    drawing context.

    cairo itself is outside the model. The context is modelled by what the
    builder asks of it: the log of cairo calls in order, and the part of the
    graphics state those calls change (source, line width, font, and the
    transformations of the current transformation matrix), with the stack that
    cairo_save pushes onto and cairo_restore pops from. Pixels, stroking and
    glyph shaping are not modelled; text extents, which cairo measures, are
    inputs. */
module Canvas {
  import opened Base
  import opened Frames

  datatype Rgb = Rgb(red: real, green: real, blue: real)

  datatype Source = SolidColor(color: Rgb) | SurfacePattern(image: Image, width: int, height: int)

  /** A transformation appended to the current transformation matrix; a
      scaling keeps the two integers of each `static_cast<double>(tgt)/src`. */
  datatype Transform =
    | Translation(dx: int, dy: int)
    | Scaling(tgtWidth: int, srcWidth: int, tgtHeight: int, srcHeight: int)

  datatype GState = GState(source: Source, lineWidth: real, fontFace: string, fontSize: real, ctm: seq<Transform>)

  /** cairo's defaults for a new context: opaque black, line width 2, font size 10. */
  const DefaultGState := GState(SolidColor(Rgb(0.0, 0.0, 0.0)), 2.0, "", 10.0, [])

  /** One cairo call on the context. */
  datatype Op =
    | Save
    | Restore
    | SetSourceRgb(color: Rgb)
    | SetLineWidth(lineWidth: real)
    | Rectangle(x: int, y: int, width: int, height: int)
    | StrokePreserve
    | FillPath
    | SelectFontFace(family: string)
    | SetFontSize(size: real)
    | MoveTo(toX: real, toY: real)
    | ShowText(text: string)
    | Translate(dx: int, dy: int)
    | Scale(tgtWidth: int, srcWidth: int, tgtHeight: int, srcHeight: int)
    | SetSourceSurface(surface: Image, surfaceWidth: int, surfaceHeight: int)
    | Paint

  /** The graphics state and the stack of saved states. */
  datatype Context = Context(state: GState, stack: seq<GState>)

  /** What one call does to the graphics state. A restore with nothing saved
      puts cairo into an error state, here `None`. Path building, stroking,
      filling, text and painting draw but leave the graphics state alone. */
  function Step(c: Context, op: Op): Option<Context>
  {
    match op
    case Save => Some(Context(c.state, c.stack + [c.state]))
    case Restore =>
      if c.stack == [] then None
      else Some(Context(c.stack[|c.stack| - 1], c.stack[..|c.stack| - 1]))
    case SetSourceRgb(color) => Some(c.(state := c.state.(source := SolidColor(color))))
    case SetLineWidth(w) => Some(c.(state := c.state.(lineWidth := w)))
    case SelectFontFace(family) => Some(c.(state := c.state.(fontFace := family)))
    case SetFontSize(size) => Some(c.(state := c.state.(fontSize := size)))
    case Translate(dx, dy) => Some(c.(state := c.state.(ctm := c.state.ctm + [Translation(dx, dy)])))
    case Scale(tw, sw, th, sh) => Some(c.(state := c.state.(ctm := c.state.ctm + [Scaling(tw, sw, th, sh)])))
    case SetSourceSurface(image, w, h) => Some(c.(state := c.state.(source := SurfacePattern(image, w, h))))
    case _ => Some(c)
  }

  /** The calls that draw or build the path rather than set up the state. */
  predicate Draws(op: Op)
  {
    op.Rectangle? || op.StrokePreserve? || op.FillPath? || op.MoveTo? || op.ShowText? || op.Paint?
  }

  /** The graphics state after a sequence of calls. */
  function Run(c: Context, ops: seq<Op>): Option<Context>
  {
    if ops == [] then Some(c)
    else
      match Run(c, ops[..|ops| - 1])
      case None => None
      case Some(c') => Step(c', ops[|ops| - 1])
  }

  lemma {:induction false} RunAppend(c: Context, a: seq<Op>, b: seq<Op>)
    ensures Run(c, a + b) == match Run(c, a) case None => None case Some(c') => Run(c', b)
    decreases |b|
  {
    if b == [] {
      assert a + b == a;
    } else {
      assert (a + b)[..|a + b| - 1] == a + b[..|b| - 1];
      RunAppend(c, a, b[..|b| - 1]);
    }
  }

  /** No save and no restore among `ops`. */
  ghost predicate Unbracketed(ops: seq<Op>)
  {
    forall i :: 0 <= i < |ops| ==> !ops[i].Save? && !ops[i].Restore?
  }

  /** Calls other than save and restore never fail and leave the stack alone. */
  lemma {:induction false} UnbracketedKeepsStack(c: Context, body: seq<Op>)
    requires Unbracketed(body)
    ensures Run(c, body).Some? && Run(c, body).value.stack == c.stack
  {
    if body != [] {
      UnbracketedKeepsStack(c, body[..|body| - 1]);
    }
  }

  /** A save, calls without save or restore, and a restore: the graphics state
      and the stack come back to what they were, whatever the calls changed. */
  lemma BracketRestores(c: Context, body: seq<Op>)
    requires Unbracketed(body)
    ensures Run(c, [Save] + body + [Restore]) == Some(c)
  {
    var saved := Context(c.state, c.stack + [c.state]);
    assert Run(c, [Save]) == Some(saved) by {
      assert [Save][..0] == [];
    }
    UnbracketedKeepsStack(saved, body);
    RunAppend(c, [Save], body);
    assert ([Save] + body + [Restore])[..|body| + 1] == [Save] + body;
  }

  /** The calls of DrawFilledRect. */
  function FilledRectOps(color: Rgb, x: int, y: int, width: int, height: int): seq<Op>
  {
    [Save, SetSourceRgb(color), SetLineWidth(1.0), Rectangle(x, y, width, height), StrokePreserve, FillPath, Restore]
  }

  /** The calls of WriteImage: move the origin to the offset, scale the source
      size to the target size, paint the buffer. */
  function ImageOps(image: Image, srcWidth: int, srcHeight: int, offsetX: int, offsetY: int, tgtWidth: int, tgtHeight: int): seq<Op>
  {
    [Save, Translate(offsetX, offsetY), Scale(tgtWidth, srcWidth, tgtHeight, srcHeight),
     SetSourceSurface(image, srcWidth, srcHeight), Paint, Restore]
  }

  /** A move to each line's baseline and the line, for every line in order. */
  function LineOps(lines: seq<string>, x: real, y: real, yBearing: real, rowPitch: real): seq<Op>
  {
    if lines == [] then []
    else
      LineOps(lines[..|lines| - 1], x, y, yBearing, rowPitch) +
      [MoveTo(x, Baseline(y, |lines|, yBearing, rowPitch)), ShowText(lines[|lines| - 1])]
  }

  /** The baseline after `k` steps down from `y`, each step the row pitch less
      the y-bearing. */
  function Baseline(y: real, k: nat, yBearing: real, rowPitch: real): real
  {
    if k == 0 then y else Baseline(y, k - 1, yBearing, rowPitch) - yBearing + rowPitch
  }

  lemma {:induction false} BaselineClosedForm(y: real, k: nat, yBearing: real, rowPitch: real)
    ensures Baseline(y, k, yBearing, rowPitch) == y + (k as real) * (rowPitch - yBearing)
  {
    if k > 0 {
      BaselineClosedForm(y, k - 1, yBearing, rowPitch);
      assert (k as real) * (rowPitch - yBearing) == ((k - 1) as real) * (rowPitch - yBearing) + (rowPitch - yBearing);
    }
  }

  /** Drawing one more line extends a log of the lines before it. */
  lemma LineOpsSnoc(log: seq<Op>, lines: seq<string>, line: string, x: real, y: real, yBearing: real, rowPitch: real)
    ensures log + LineOps(lines + [line], x, y, yBearing, rowPitch) ==
      ((log + LineOps(lines, x, y, yBearing, rowPitch)) + [MoveTo(x, Baseline(y, |lines| + 1, yBearing, rowPitch))]) + [ShowText(line)]
  {
    assert (lines + [line])[..|lines|] == lines;
  }

  /** Every line starts at the same x; line `k` (from 0) sits on the baseline
      `y + (k + 1) * (rowPitch - yBearing)`, and no other call is made. */
  lemma {:induction false} LineOpsAt(lines: seq<string>, x: real, y: real, yBearing: real, rowPitch: real)
    ensures |LineOps(lines, x, y, yBearing, rowPitch)| == 2 * |lines|
    ensures forall k :: 0 <= k < |lines| ==>
      && LineOps(lines, x, y, yBearing, rowPitch)[2 * k] == MoveTo(x, y + (k + 1) as real * (rowPitch - yBearing))
      && LineOps(lines, x, y, yBearing, rowPitch)[2 * k + 1] == ShowText(lines[k])
  {
    if lines != [] {
      LineOpsAt(lines[..|lines| - 1], x, y, yBearing, rowPitch);
      BaselineClosedForm(y, |lines|, yBearing, rowPitch);
    }
  }

  /** The calls of WriteText, measured extents given. */
  function TextOps(x: real, y: real, font: string, size: real, rowPitch: real, text: string, extents: TextExtents): seq<Op>
  {
    [Save, SelectFontFace(font), SetFontSize(size)] +
    LineOps(SplitLines(text), x - extents.xBearing, y, extents.yBearing, rowPitch) +
    [Restore]
  }

  /** DrawFilledRect saves first and restores last, with no other save or
      restore between, so it leaves the graphics state and the stack as it
      found them. */
  lemma FilledRectRestores(c: Context, color: Rgb, x: int, y: int, width: int, height: int)
    ensures Run(c, FilledRectOps(color, x, y, width, height)) == Some(c)
  {
    var body := [SetSourceRgb(color), SetLineWidth(1.0), Rectangle(x, y, width, height), StrokePreserve, FillPath];
    assert FilledRectOps(color, x, y, width, height) == [Save] + body + [Restore];
    BracketRestores(c, body);
  }

  /** WriteImage likewise: its translation and scaling are undone by its restore. */
  lemma ImageRestores(c: Context, image: Image, srcWidth: int, srcHeight: int, offsetX: int, offsetY: int, tgtWidth: int, tgtHeight: int)
    ensures Run(c, ImageOps(image, srcWidth, srcHeight, offsetX, offsetY, tgtWidth, tgtHeight)) == Some(c)
  {
    var body := [Translate(offsetX, offsetY), Scale(tgtWidth, srcWidth, tgtHeight, srcHeight), SetSourceSurface(image, srcWidth, srcHeight), Paint];
    assert ImageOps(image, srcWidth, srcHeight, offsetX, offsetY, tgtWidth, tgtHeight) == [Save] + body + [Restore];
    BracketRestores(c, body);
  }

  /** WriteText likewise, however many lines the text has: its font settings
      are undone by its restore. */
  lemma TextRestores(c: Context, x: real, y: real, font: string, size: real, rowPitch: real, text: string, extents: TextExtents)
    ensures Run(c, TextOps(x, y, font, size, rowPitch, text, extents)) == Some(c)
  {
    var lines := LineOps(SplitLines(text), x - extents.xBearing, y, extents.yBearing, rowPitch);
    LineOpsAt(SplitLines(text), x - extents.xBearing, y, extents.yBearing, rowPitch);
    var body := [SelectFontFace(font), SetFontSize(size)] + lines;
    assert Unbracketed(body) by {
      forall i | 2 <= i < |body|
        ensures !body[i].Save? && !body[i].Restore?
      {
        var k := (i - 2) / 2;
        assert body[i] == lines[2 * k] || body[i] == lines[2 * k + 1];
      }
    }
    assert TextOps(x, y, font, size, rowPitch, text, extents) == [Save] + body + [Restore];
    BracketRestores(c, body);
  }

  /** Calls that restore what they change extend a log without changing the
      state the log replays to. */
  lemma ReplayExtends(c0: Context, log: seq<Op>, c: Context, calls: seq<Op>)
    requires Run(c0, log) == Some(c) && Run(c, calls) == Some(c)
    ensures Run(c0, log + calls) == Some(c)
  {
    RunAppend(c0, log, calls);
  }

  /** What cairo_text_extents measures for the whole text. */
  datatype TextExtents = TextExtents(xBearing: real, yBearing: real)

  /** Index of the first newline of `s`, or `|s|` if it has none. */
  function NewlineIndex(s: string): (i: nat)
    ensures i <= |s|
    ensures i < |s| ==> s[i] == '\n'
  {
    if s == [] then 0
    else if s[0] == '\n' then 0
    else 1 + NewlineIndex(s[1..])
  }

  /** No newline comes before the one found. */
  lemma {:induction false} NewlineIndexFirst(s: string)
    ensures forall k :: 0 <= k < NewlineIndex(s) ==> s[k] != '\n'
  {
    if s != [] && s[0] != '\n' {
      NewlineIndexFirst(s[1..]);
    }
  }

  /** The lines of `s`: the pieces between newlines, including a last piece
      after the last newline (empty when `s` ends with one). */
  function SplitLines(s: string): seq<string>
    decreases |s|
  {
    var i := NewlineIndex(s);
    if i == |s| then [s] else [s[..i]] + SplitLines(s[i + 1..])
  }

  /** The lines joined back with a newline between each two. */
  function JoinLines(lines: seq<string>): string
  {
    if lines == [] then ""
    else if |lines| == 1 then lines[0]
    else lines[0] + "\n" + JoinLines(lines[1..])
  }

  function CountNewlines(s: string): nat
  {
    if s == [] then 0 else (if s[0] == '\n' then 1 else 0) + CountNewlines(s[1..])
  }

  lemma CountNewlinesAppend(a: string, b: string)
    ensures CountNewlines(a + b) == CountNewlines(a) + CountNewlines(b)
  {
    if a != [] {
      assert (a + b)[1..] == a[1..] + b;
    } else {
      assert a + b == b;
    }
  }

  /** The split has one line more than the text has newlines. */
  lemma {:induction false} SplitLinesCount(s: string)
    ensures |SplitLines(s)| == CountNewlines(s) + 1
    decreases |s|
  {
    var i := NewlineIndex(s);
    NewlineIndexFirst(s);
    if i == |s| {
      NoNewlineCount(s);
    } else {
      SplitLinesCount(s[i + 1..]);
      assert s == s[..i] + ("\n" + s[i + 1..]);
      CountNewlinesAppend(s[..i], "\n" + s[i + 1..]);
      CountNewlinesAppend("\n", s[i + 1..]);
      assert CountNewlines("\n") == 1 by {
        assert "\n"[1..] == "";
      }
      NoNewlineCount(s[..i]);
    }
  }

  /** No line of the split holds a newline. */
  lemma {:induction false} SplitLinesNoNewline(s: string)
    ensures forall k :: 0 <= k < |SplitLines(s)| ==> '\n' !in SplitLines(s)[k]
    decreases |s|
  {
    var i := NewlineIndex(s);
    NewlineIndexFirst(s);
    if i < |s| {
      SplitLinesNoNewline(s[i + 1..]);
      var rest := SplitLines(s[i + 1..]);
      assert SplitLines(s) == [s[..i]] + rest;
      forall k | 0 <= k < |SplitLines(s)|
        ensures '\n' !in SplitLines(s)[k]
      {
        if k > 0 {
          assert SplitLines(s)[k] == rest[k - 1];
        }
      }
    }
  }

  /** Joining the lines of the split gives the text back. */
  lemma {:induction false} SplitThenJoin(s: string)
    ensures JoinLines(SplitLines(s)) == s
    decreases |s|
  {
    var i := NewlineIndex(s);
    if i < |s| {
      var rest := SplitLines(s[i + 1..]);
      assert SplitLines(s) == [s[..i]] + rest;
      SplitThenJoin(s[i + 1..]);
      SplitLinesNonEmpty(s[i + 1..]);
      JoinCons(s[..i], rest);
      CutAtNewline(s, i);
    }
  }

  lemma NoNewlineCount(s: string)
    requires forall k :: 0 <= k < |s| ==> s[k] != '\n'
    ensures CountNewlines(s) == 0
  {
    if s != [] {
      NoNewlineCount(s[1..]);
    }
  }

  /** Lines without newlines, joined and split again, come back unchanged. */
  lemma {:induction false} JoinThenSplit(lines: seq<string>)
    requires |lines| > 0
    requires forall k :: 0 <= k < |lines| ==> '\n' !in lines[k]
    ensures SplitLines(JoinLines(lines)) == lines
  {
    if |lines| == 1 {
      FirstNewline(lines[0], "");
      assert NewlineIndex(lines[0]) == |lines[0]|;
    } else {
      SplitFirstLine(lines[0], JoinLines(lines[1..]));
      JoinThenSplit(lines[1..]);
      assert lines == [lines[0]] + lines[1..];
    }
  }

  /** A line without newline, a newline and a rest split into that line and
      the lines of the rest. */
  lemma SplitFirstLine(a: string, rest: string)
    requires '\n' !in a
    ensures SplitLines(a + "\n" + rest) == [a] + SplitLines(rest)
  {
    var s := a + "\n" + rest;
    assert s == a + ("\n" + rest);
    FirstNewline(a, "\n" + rest);
    assert s[..|a|] == a;
    assert s[|a| + 1..] == rest;
  }

  lemma SplitLinesNonEmpty(s: string)
    ensures SplitLines(s) != []
  {
  }

  lemma JoinCons(line: string, rest: seq<string>)
    requires rest != []
    ensures JoinLines([line] + rest) == line + "\n" + JoinLines(rest)
  {
    assert ([line] + rest)[1..] == rest;
  }

  lemma CutAtNewline(s: string, i: nat)
    requires i < |s| && s[i] == '\n'
    ensures s == s[..i] + "\n" + s[i + 1..]
  {
  }

  lemma FirstNewline(a: string, b: string)
    requires '\n' !in a
    requires b == [] || b[0] == '\n'
    ensures NewlineIndex(a + b) == |a|
  {
    if a != [] {
      assert (a + b)[1..] == a[1..] + b;
      FirstNewline(a[1..], b);
    } else {
      assert a + b == b;
    }
  }

  /** std::getline on a string stream at position `pos`: the characters up to
      the next newline, which is consumed, or up to the end, which sets eof. */
  function GetLine(text: string, pos: nat): (r: (string, nat, bool))
    requires pos <= |text|
    ensures pos <= r.1 <= |text|
    ensures !r.2 ==> pos < r.1
  {
    var i := pos + NewlineIndex(text[pos..]);
    if i == |text| then (text[pos..], |text|, true) else (text[pos..i], i + 1, false)
  }

  /** Reading one line takes the first line of the rest of the text. */
  lemma GetLineSplits(text: string, pos: nat)
    requires pos <= |text|
    ensures var (line, next, eof) := GetLine(text, pos);
      SplitLines(text[pos..]) == [line] + (if eof then [] else SplitLines(text[next..]))
  {
    var t := text[pos..];
    var i := NewlineIndex(t);
    if pos + i < |text| {
      assert GetLine(text, pos) == (text[pos..pos + i], pos + i + 1, false);
      assert t[..i] == text[pos..pos + i];
      assert t[i + 1..] == text[pos + i + 1..];
    } else {
      assert GetLine(text, pos) == (t, |text|, true);
    }
  }

  /** The calls of WriteText in the order a log records them. */
  lemma TextOpsInOrder(log: seq<Op>, x: real, y: real, font: string, size: real, rowPitch: real, text: string, extents: TextExtents)
    ensures log + TextOps(x, y, font, size, rowPitch, text, extents) ==
      ((((log + [Save]) + [SelectFontFace(font)]) + [SetFontSize(size)]) +
        LineOps(SplitLines(text), x - extents.xBearing, y, extents.yBearing, rowPitch)) + [Restore]
  {
  }

  /** After the lines `done`, reading one more line leaves the lines after it
      still to read, or none at the end of the text. */
  lemma ReadLineStep(text: string, pos: nat, done: seq<string>)
    requires pos <= |text|
    requires SplitLines(text) == done + SplitLines(text[pos..])
    ensures var (line, next, eof) := GetLine(text, pos);
      && (!eof ==> SplitLines(text) == (done + [line]) + SplitLines(text[next..]))
      && (eof ==> SplitLines(text) == done + [line])
  {
    GetLineSplits(text, pos);
    var (line, next, eof) := GetLine(text, pos);
    ConcatAssoc(done, [line], if eof then [] else SplitLines(text[next..]));
  }

  /** The surface and its drawing context. */
  class ImageBuilder {
    const width: int
    const height: int
    /** The calls made on the context so far. */
    var ops: seq<Op>
    var state: GState
    var stack: seq<GState>

    ghost predicate Valid()
      reads this
    {
      Run(Context(DefaultGState, []), ops) == Some(Context(state, stack))
    }

    /** A new ARGB32 surface of the given size with a fresh context. */
    constructor (width: int, height: int)
      ensures Valid()
      ensures this.width == width && this.height == height
      ensures ops == [] && state == DefaultGState && stack == []
    {
      this.width := width;
      this.height := height;
      ops := [];
      state := DefaultGState;
      stack := [];
    }

    /** cairo_save: push a copy of the graphics state. */
    method SaveState()
      modifies this
      ensures ops == old(ops) + [Save]
      ensures state == old(state) && stack == old(stack) + [old(state)]
    {
      ops := ops + [Save];
      stack := stack + [state];
    }

    /** cairo_restore: pop the graphics state last saved. */
    method RestoreState()
      requires stack != []
      modifies this
      ensures ops == old(ops) + [Restore]
      ensures state == old(stack)[|old(stack)| - 1] && stack == old(stack)[..|old(stack)| - 1]
    {
      ops := ops + [Restore];
      state, stack := stack[|stack| - 1], stack[..|stack| - 1];
    }

    /** A call that builds the path or draws (rectangle, stroke, fill, move,
        text, paint): the graphics state is used, not changed. */
    method Draw(op: Op)
      requires Draws(op)
      modifies this
      ensures ops == old(ops) + [op]
      ensures state == old(state) && stack == old(stack)
    {
      ops := ops + [op];
    }

    /** Any other call on the context: it may change the current graphics
        state, never the saved ones. */
    method Call(op: Op)
      requires !op.Save? && !op.Restore?
      modifies this
      ensures ops == old(ops) + [op]
      ensures stack == old(stack)
      ensures Some(Context(state, stack)) == Step(old(Context(state, stack)), op)
    {
      var c := Step(Context(state, stack), op).value;
      ops := ops + [op];
      state := c.state;
    }

    method DrawFilledRect(red: real, green: real, blue: real, x: int, y: int, width: int, height: int)
      requires Valid()
      modifies this
      ensures Valid()
      ensures ops == old(ops) + FilledRectOps(Rgb(red, green, blue), x, y, width, height)
      ensures state == old(state) && stack == old(stack)
    {
      ghost var log := ops;
      SaveState();
      Call(SetSourceRgb(Rgb(red, green, blue)));
      Call(SetLineWidth(1.0));
      Draw(Rectangle(x, y, width, height));
      Draw(StrokePreserve);
      Draw(FillPath);
      RestoreState();
      assert ops == log + FilledRectOps(Rgb(red, green, blue), x, y, width, height);
      assert Run(Context(DefaultGState, []), log) == Some(Context(state, stack)) by {
        assert old(Valid());
      }
      FilledRectRestores(Context(state, stack), Rgb(red, green, blue), x, y, width, height);
      ReplayExtends(Context(DefaultGState, []), log, Context(state, stack), FilledRectOps(Rgb(red, green, blue), x, y, width, height));
    }

    /** Draw `text` line by line: before each line the cursor moves down by
        `rowPitch` less the y-bearing of the whole text, and every line starts
        at `x` less its x-bearing. */
    method WriteText(x: real, y: real, font: string, size: real, rowPitch: real, text: string, extents: TextExtents)
      requires Valid()
      modifies this
      ensures Valid()
      ensures ops == old(ops) + TextOps(x, y, font, size, rowPitch, text, extents)
      ensures state == old(state) && stack == old(stack)
    {
      ghost var log := ops;
      SaveState();
      Call(SelectFontFace(font));
      Call(SetFontSize(size));
      WriteLines(text, x - extents.xBearing, y, extents.yBearing, rowPitch);
      RestoreState();
      assert ops == log + TextOps(x, y, font, size, rowPitch, text, extents) by {
        TextOpsInOrder(log, x, y, font, size, rowPitch, text, extents);
      }
      assert state == old(state) && stack == old(stack);
      assert Valid() by {
        assert Run(Context(DefaultGState, []), log) == Some(Context(state, stack)) by {
          assert old(Valid());
        }
        TextRestores(Context(state, stack), x, y, font, size, rowPitch, text, extents);
        ReplayExtends(Context(DefaultGState, []), log, Context(state, stack), TextOps(x, y, font, size, rowPitch, text, extents));
      }
    }

    /** The loop of WriteText: each line of `text` in turn, one row further
        down. */
    method WriteLines(text: string, x: real, y: real, yBearing: real, rowPitch: real)
      modifies this
      ensures ops == old(ops) + LineOps(SplitLines(text), x, y, yBearing, rowPitch)
      ensures state == old(state) && stack == old(stack)
    {
      ghost var start := ops;
      ghost var saved := Context(state, stack);
      ghost var done: seq<string> := [];
      var cursor := y;
      var pos := 0;
      var eof := false;
      while !eof
        invariant Context(state, stack) == saved
        invariant pos <= |text|
        invariant !eof ==> SplitLines(text) == done + SplitLines(text[pos..])
        invariant eof ==> SplitLines(text) == done
        invariant cursor == Baseline(y, |done|, yBearing, rowPitch)
        invariant ops == start + LineOps(done, x, y, yBearing, rowPitch)
        decreases |text| - pos + (if eof then 0 else 1)
      {
        var line;
        pos, eof, cursor, line := WriteLine(text, pos, cursor, x, yBearing, rowPitch, y, start, done);
        done := done + [line];
      }
    }

    /** One turn of the WriteText loop: move the cursor down one row and show
        the next line of `text`, read from `pos`. */
    method WriteLine(text: string, pos: nat, cursor: real, x: real, yBearing: real, rowPitch: real,
                     ghost y: real, ghost start: seq<Op>, ghost done: seq<string>)
      returns (next: nat, eof: bool, nextCursor: real, line: string)
      requires pos <= |text|
      requires SplitLines(text) == done + SplitLines(text[pos..])
      requires cursor == Baseline(y, |done|, yBearing, rowPitch)
      requires ops == start + LineOps(done, x, y, yBearing, rowPitch)
      modifies this
      ensures state == old(state) && stack == old(stack)
      ensures pos <= next <= |text| && (!eof ==> pos < next)
      ensures nextCursor == Baseline(y, |done| + 1, yBearing, rowPitch)
      ensures ops == start + LineOps(done + [line], x, y, yBearing, rowPitch)
      ensures !eof ==> SplitLines(text) == (done + [line]) + SplitLines(text[next..])
      ensures eof ==> SplitLines(text) == done + [line]
    {
      nextCursor := cursor - yBearing + rowPitch;
      Draw(MoveTo(x, nextCursor));
      var read := GetLine(text, pos);
      line := read.0;
      next, eof := read.1, read.2;
      Draw(ShowText(line));
      LineOpsSnoc(start, done, line, x, y, yBearing, rowPitch);
      ReadLineStep(text, pos, done);
    }

    /** The template WriteImage: paint an image buffer with its own data and size. */
    method WriteImageBuffer(frameData: ImageBuffer, offsetX: int, offsetY: int, tgtWidth: int, tgtHeight: int)
      requires Valid()
      modifies this
      ensures Valid()
      ensures ops == old(ops) + ImageOps(frameData.contents, frameData.width, frameData.height, offsetX, offsetY, tgtWidth, tgtHeight)
      ensures state == old(state) && stack == old(stack)
    {
      WriteImage(frameData.contents, frameData.width, frameData.height, offsetX, offsetY, tgtWidth, tgtHeight);
    }

    /** Paint `srcData`, translated to the offset and scaled from the source
        size to the target size. */
    method WriteImage(srcData: Image, srcWidth: int, srcHeight: int, offsetX: int, offsetY: int, tgtWidth: int, tgtHeight: int)
      requires Valid()
      modifies this
      ensures Valid()
      ensures ops == old(ops) + ImageOps(srcData, srcWidth, srcHeight, offsetX, offsetY, tgtWidth, tgtHeight)
      ensures state == old(state) && stack == old(stack)
    {
      ghost var log := ops;
      SaveState();
      Call(Translate(offsetX, offsetY));
      Call(Scale(tgtWidth, srcWidth, tgtHeight, srcHeight));
      Call(SetSourceSurface(srcData, srcWidth, srcHeight));
      Draw(Paint);
      RestoreState();
      assert ops == log + ImageOps(srcData, srcWidth, srcHeight, offsetX, offsetY, tgtWidth, tgtHeight);
      assert Run(Context(DefaultGState, []), log) == Some(Context(state, stack)) by {
        assert old(Valid());
      }
      ImageRestores(Context(state, stack), srcData, srcWidth, srcHeight, offsetX, offsetY, tgtWidth, tgtHeight);
      ReplayExtends(Context(DefaultGState, []), log, Context(state, stack),
                    ImageOps(srcData, srcWidth, srcHeight, offsetX, offsetY, tgtWidth, tgtHeight));
    }
  }

  /** A point on the surface or in user space. */
  datatype Point = Point(x: real, y: real)

  /** No scaling in `ctm` divides by zero. */
  predicate Invertible(ctm: seq<Transform>)
  {
    forall k :: 0 <= k < |ctm| ==> ctm[k].Scaling? ==> ctm[k].srcWidth != 0 && ctm[k].srcHeight != 0
  }

  /** One transformation applied to a point. */
  function Apply(t: Transform, p: Point): Point
    requires t.Scaling? ==> t.srcWidth != 0 && t.srcHeight != 0
  {
    match t
    case Translation(dx, dy) => Point(p.x + dx as real, p.y + dy as real)
    case Scaling(tw, sw, th, sh) => Point(p.x * (tw as real / sw as real), p.y * (th as real / sh as real))
  }

  /** Where a point of user space lands on the surface under `ctm`; the last
      transformation appended applies first. */
  function UserToDevice(ctm: seq<Transform>, p: Point): Point
    requires Invertible(ctm)
  {
    if ctm == [] then p
    else UserToDevice(ctm[..|ctm| - 1], Apply(ctm[|ctm| - 1], p))
  }

  /** The transformations WriteImage appends, on an untransformed context. */
  function PlacementCtm(offsetX: int, offsetY: int, tgtWidth: int, srcWidth: int, tgtHeight: int, srcHeight: int): (ctm: seq<Transform>)
    requires srcWidth != 0 && srcHeight != 0
    ensures Invertible(ctm)
  {
    [Translation(offsetX, offsetY), Scaling(tgtWidth, srcWidth, tgtHeight, srcHeight)]
  }

  /** Source pixel `(u, v)` lands at the offset plus its position scaled by
      target over source size. */
  lemma PlacedAt(offsetX: int, offsetY: int, tgtWidth: int, srcWidth: int, tgtHeight: int, srcHeight: int, u: real, v: real)
    requires srcWidth != 0 && srcHeight != 0
    ensures UserToDevice(PlacementCtm(offsetX, offsetY, tgtWidth, srcWidth, tgtHeight, srcHeight), Point(u, v)) ==
      Point(offsetX as real + u * (tgtWidth as real / srcWidth as real),
            offsetY as real + v * (tgtHeight as real / srcHeight as real))
  {
    var ctm := PlacementCtm(offsetX, offsetY, tgtWidth, srcWidth, tgtHeight, srcHeight);
    var scaled := Point(u * (tgtWidth as real / srcWidth as real), v * (tgtHeight as real / srcHeight as real));
    assert ctm[..1] == [Translation(offsetX, offsetY)];
    assert ctm[..1][..0] == [];
    assert Apply(ctm[1], Point(u, v)) == scaled;
    assert UserToDevice(ctm, Point(u, v)) == UserToDevice(ctm[..1], scaled);
    var first := ctm[..1];
    assert |first| == 1 && first[0] == Translation(offsetX, offsetY) && first[..0] == [];
    assert UserToDevice(first, scaled) == UserToDevice([], Apply(Translation(offsetX, offsetY), scaled));
  }

  /** When WriteImage paints, the transformation in effect is the one it was
      called under followed by the placement, with the buffer as the source. */
  lemma ImageCtmAtPaint(c: Context, image: Image, srcWidth: int, srcHeight: int, offsetX: int, offsetY: int, tgtWidth: int, tgtHeight: int)
    requires srcWidth != 0 && srcHeight != 0
    ensures var ops := ImageOps(image, srcWidth, srcHeight, offsetX, offsetY, tgtWidth, tgtHeight);
      && ops[4] == Paint
      && Run(c, ops[..4]).Some?
      && Run(c, ops[..4]).value.state.ctm == c.state.ctm + PlacementCtm(offsetX, offsetY, tgtWidth, srcWidth, tgtHeight, srcHeight)
      && Run(c, ops[..4]).value.state.source == SurfacePattern(image, srcWidth, srcHeight)
  {
    var ops := ImageOps(image, srcWidth, srcHeight, offsetX, offsetY, tgtWidth, tgtHeight);
    var saved := Context(c.state, c.stack + [c.state]);
    var moved := saved.(state := saved.state.(ctm := c.state.ctm + [Translation(offsetX, offsetY)]));
    var scaled := moved.(state := moved.state.(ctm := moved.state.ctm + [Scaling(tgtWidth, srcWidth, tgtHeight, srcHeight)]));
    var p1 := [Save];
    var p2 := p1 + [Translate(offsetX, offsetY)];
    var p3 := p2 + [Scale(tgtWidth, srcWidth, tgtHeight, srcHeight)];
    assert ops[..4] == p3 + [SetSourceSurface(image, srcWidth, srcHeight)];
    assert p1[..0] == [];
    assert Run(c, p1) == Some(saved);
    assert p2[..1] == p1;
    assert Run(c, p2) == Some(moved);
    assert p3[..2] == p2;
    assert Run(c, p3) == Some(scaled);
    assert c.state.ctm + [Translation(offsetX, offsetY)] + [Scaling(tgtWidth, srcWidth, tgtHeight, srcHeight)] ==
      c.state.ctm + PlacementCtm(offsetX, offsetY, tgtWidth, srcWidth, tgtHeight, srcHeight);
  }

  lemma RatioCancels(a: int, b: int)
    requires b != 0
    ensures b as real * (a as real / b as real) == a as real
  {
  }

  /** WriteImage on an untransformed context: the source rectangle fills the
      target rectangle at the offset exactly, and at equal sizes the image is
      only moved. */
  lemma ImagePlacement(offsetX: int, offsetY: int, tgtWidth: int, srcWidth: int, tgtHeight: int, srcHeight: int, u: real, v: real)
    requires srcWidth != 0 && srcHeight != 0
    ensures var ctm := PlacementCtm(offsetX, offsetY, tgtWidth, srcWidth, tgtHeight, srcHeight);
      && UserToDevice(ctm, Point(0.0, 0.0)) == Point(offsetX as real, offsetY as real)
      && UserToDevice(ctm, Point(srcWidth as real, srcHeight as real)) ==
           Point((offsetX + tgtWidth) as real, (offsetY + tgtHeight) as real)
      && (tgtWidth == srcWidth && tgtHeight == srcHeight ==>
            UserToDevice(ctm, Point(u, v)) == Point(offsetX as real + u, offsetY as real + v))
  {
    PlacedAt(offsetX, offsetY, tgtWidth, srcWidth, tgtHeight, srcHeight, 0.0, 0.0);
    PlacedAt(offsetX, offsetY, tgtWidth, srcWidth, tgtHeight, srcHeight, srcWidth as real, srcHeight as real);
    PlacedAt(offsetX, offsetY, tgtWidth, srcWidth, tgtHeight, srcHeight, u, v);
    RatioCancels(tgtWidth, srcWidth);
    RatioCancels(tgtHeight, srcHeight);
  }
}
