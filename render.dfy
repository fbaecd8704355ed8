/**
 * Drawing a layout onto an RGBA canvas (`Layout::render`, `Line::render`).
 *
 * The rasteriser's pixel callback is represented by each glyph's `coverage` list, and the
 * colour mix (`weighted_sum(pixel, color, 1 - v, v)` from imageproc) by the function
 * parameter `blend`. The canvas is indexed `canvas[x, y]`.
 */
module Render {
  import opened Common
  import opened Glyphs
  import opened TextLayout

  type u8 = x: int | 0 <= x < 256

  datatype Rgba = Rgba(r: u8, g: u8, b: u8, a: u8)

  /** One pixel the rasteriser reports for a glyph, at its image position (possibly off the canvas). */
  datatype Write = Write(x: int, y: int, coverage: real)

  /** The image positions of a glyph's covered pixels, offset by `left` and `top`; none without a pixel box. */
  function GlyphWrites(g: PositionedGlyph, left: int, top: int): seq<Write>
  {
    match g.pixelMin
    case None => []
    case Some(min) =>
      seq(|g.coverage|, k requires 0 <= k < |g.coverage| =>
        Write(g.coverage[k].dx + min.x + left, g.coverage[k].dy + min.y + top, g.coverage[k].value))
  }

  /** The writes of a run of glyphs, glyph after glyph. */
  function LineWrites(glyphs: seq<PositionedGlyph>, left: int, top: int): seq<Write>
  {
    if glyphs == [] then []
    else LineWrites(glyphs[..|glyphs| - 1], left, top) + GlyphWrites(glyphs[|glyphs| - 1], left, top)
  }

  /** The horizontal offset `Line::render` adds to every glyph pixel: `x` and the line's padding, both as `i32`. */
  function LineLeft(line: Line, x: u32, alignment: Alignment): int
    requires alignment.CenterAligned? ==> LineWidth(line) <= alignment.maxWidth
  {
    AsI32(x) + AsI32(LeftPadding(alignment, LineWidth(line)))
  }

  /** `w` lands inside an image whose dimensions, read as `i32`, are `imageWidth` x `imageHeight`. */
  predicate Visible(w: Write, imageWidth: int, imageHeight: int)
  {
    0 <= w.x < imageWidth && 0 <= w.y < imageHeight
  }

  /**
   * The colour of pixel (i, j) after the writes `ws` are drawn over `p` in order: each
   * visible write that targets (i, j) mixes `color` into it with the write's coverage.
   */
  function Composite(p: Rgba, ws: seq<Write>, i: int, j: int, imageWidth: int, imageHeight: int,
                     color: Rgba, blend: (Rgba, Rgba, real) -> Rgba): Rgba
  {
    if ws == [] then p
    else
      var q := Composite(p, ws[..|ws| - 1], i, j, imageWidth, imageHeight, color, blend);
      var w := ws[|ws| - 1];
      if Visible(w, imageWidth, imageHeight) && w.x == i && w.y == j then blend(q, color, w.coverage) else q
  }

  lemma CompositeSnoc(p: Rgba, ws: seq<Write>, w: Write, i: int, j: int, imageWidth: int, imageHeight: int,
                      color: Rgba, blend: (Rgba, Rgba, real) -> Rgba)
    ensures Composite(p, ws + [w], i, j, imageWidth, imageHeight, color, blend)
            == var q := Composite(p, ws, i, j, imageWidth, imageHeight, color, blend);
               if Visible(w, imageWidth, imageHeight) && w.x == i && w.y == j then blend(q, color, w.coverage) else q
  {
    assert (ws + [w])[..|ws|] == ws;
  }

  /** Drawing two runs of writes one after the other is drawing their concatenation. */
  lemma {:induction false} CompositeAppend(p: Rgba, a: seq<Write>, b: seq<Write>, i: int, j: int,
                                           imageWidth: int, imageHeight: int, color: Rgba, blend: (Rgba, Rgba, real) -> Rgba)
    ensures Composite(p, a + b, i, j, imageWidth, imageHeight, color, blend)
            == Composite(Composite(p, a, i, j, imageWidth, imageHeight, color, blend), b, i, j, imageWidth, imageHeight, color, blend)
    decreases |b|
  {
    if b == [] {
      assert a + b == a;
    } else {
      var b0 := b[..|b| - 1];
      CompositeAppend(p, a, b0, i, j, imageWidth, imageHeight, color, blend);
      assert a + b == (a + b0) + [b[|b| - 1]];
      CompositeSnoc(p, a + b0, b[|b| - 1], i, j, imageWidth, imageHeight, color, blend);
    }
  }

  /** A pixel that no visible write targets keeps its colour: clipped writes are dropped. */
  lemma {:induction false} UntouchedPixelKept(p: Rgba, ws: seq<Write>, i: int, j: int, imageWidth: int, imageHeight: int,
                                              color: Rgba, blend: (Rgba, Rgba, real) -> Rgba)
    requires forall k :: 0 <= k < |ws| && Visible(ws[k], imageWidth, imageHeight) ==> ws[k].x != i || ws[k].y != j
    ensures Composite(p, ws, i, j, imageWidth, imageHeight, color, blend) == p
  {
    if ws != [] {
      var prefix := ws[..|ws| - 1];
      assert forall k :: 0 <= k < |prefix| ==> prefix[k] == ws[k];
      UntouchedPixelKept(p, prefix, i, j, imageWidth, imageHeight, color, blend);
    }
  }

  /** `moved` is `writes` with every write moved right by `shift`. */
  ghost predicate Shifted(writes: seq<Write>, moved: seq<Write>, shift: int)
  {
    && |moved| == |writes|
    && forall k :: 0 <= k < |writes| ==> moved[k] == writes[k].(x := writes[k].x + shift)
  }

  lemma ShiftedAppend(a: seq<Write>, movedA: seq<Write>, b: seq<Write>, movedB: seq<Write>, shift: int)
    requires Shifted(a, movedA, shift) && Shifted(b, movedB, shift)
    ensures Shifted(a + b, movedA + movedB, shift)
  {
    assert forall k :: |a| <= k < |a| + |b| ==> (a + b)[k] == b[k - |a|] && (movedA + movedB)[k] == movedB[k - |a|];
  }

  /**
   * Padding a line moves every one of its writes right by the padding and changes nothing
   * else: a centred line is the left-aligned line, shifted.
   */
  lemma {:induction false} LineWritesShift(glyphs: seq<PositionedGlyph>, left: int, top: int, shift: int)
    ensures Shifted(LineWrites(glyphs, left, top), LineWrites(glyphs, left + shift, top), shift)
  {
    if glyphs != [] {
      var last := glyphs[|glyphs| - 1];
      LineWritesShift(glyphs[..|glyphs| - 1], left, top, shift);
      ShiftedAppend(LineWrites(glyphs[..|glyphs| - 1], left, top), LineWrites(glyphs[..|glyphs| - 1], left + shift, top),
                    GlyphWrites(last, left, top), GlyphWrites(last, left + shift, top), shift);
    }
  }

  /**
   * The body of `Line::render` for one glyph: each covered pixel that lands on the canvas is
   * mixed with `color`, in drawing order; a glyph without a pixel box draws nothing.
   */
  method DrawGlyph(canvas: array2<Rgba>, g: PositionedGlyph, left: int, top: int, color: Rgba,
                   blend: (Rgba, Rgba, real) -> Rgba)
    requires canvas.Length0 < U32_LIMIT && canvas.Length1 < U32_LIMIT
    modifies canvas
    ensures forall i, j :: 0 <= i < canvas.Length0 && 0 <= j < canvas.Length1 ==>
              canvas[i, j] == Composite(old(canvas[i, j]), GlyphWrites(g, left, top),
                                        i, j, AsI32(canvas.Length0), AsI32(canvas.Length1), color, blend)
  {
    if g.pixelMin.None? {
      return;
    }
    var min := g.pixelMin.value;
    var imageWidth := AsI32(canvas.Length0);
    var imageHeight := AsI32(canvas.Length1);
    ghost var writes := GlyphWrites(g, left, top);
    var k := 0;
    while k < |g.coverage|
      invariant 0 <= k <= |g.coverage|
      invariant forall i, j :: 0 <= i < canvas.Length0 && 0 <= j < canvas.Length1 ==>
                  canvas[i, j] == Composite(old(canvas[i, j]), writes[..k], i, j, imageWidth, imageHeight, color, blend)
    {
      var c := g.coverage[k];
      var imageX := c.dx + min.x + left;
      var imageY := c.dy + min.y + top;
      assert writes[k] == Write(imageX, imageY, c.value);
      assert writes[..k + 1] == writes[..k] + [writes[k]];
      forall i, j | 0 <= i < canvas.Length0 && 0 <= j < canvas.Length1 {
        CompositeSnoc(old(canvas[i, j]), writes[..k], writes[k], i, j, imageWidth, imageHeight, color, blend);
      }
      if 0 <= imageX < imageWidth && 0 <= imageY < imageHeight {
        canvas[imageX, imageY] := blend(canvas[imageX, imageY], color, c.value);
      }
      k := k + 1;
    }
    assert writes[..k] == writes;
  }

  /**
   * `Line::render`: the glyphs are drawn one after the other, each shifted right by `x` and
   * the line's padding and down by `y`; the result at each pixel is the composite of the line's writes.
   */
  method RenderLine(canvas: array2<Rgba>, line: Line, color: Rgba, x: u32, y: u32, alignment: Alignment,
                    blend: (Rgba, Rgba, real) -> Rgba)
    requires canvas.Length0 < U32_LIMIT && canvas.Length1 < U32_LIMIT
    requires alignment.CenterAligned? ==> LineWidth(line) <= alignment.maxWidth
    modifies canvas
    ensures forall i, j :: 0 <= i < canvas.Length0 && 0 <= j < canvas.Length1 ==>
              canvas[i, j] == Composite(old(canvas[i, j]), LineWrites(line.glyphs, LineLeft(line, x, alignment), AsI32(y)),
                                        i, j, AsI32(canvas.Length0), AsI32(canvas.Length1), color, blend)
  {
    var left := LineLeft(line, x, alignment);
    var top := AsI32(y);
    var imageWidth := AsI32(canvas.Length0);
    var imageHeight := AsI32(canvas.Length1);
    var n := 0;
    while n < |line.glyphs|
      invariant 0 <= n <= |line.glyphs|
      invariant forall i, j :: 0 <= i < canvas.Length0 && 0 <= j < canvas.Length1 ==>
                  canvas[i, j] == Composite(old(canvas[i, j]), LineWrites(line.glyphs[..n], left, top),
                                            i, j, imageWidth, imageHeight, color, blend)
    {
      ghost var done := LineWrites(line.glyphs[..n], left, top);
      ghost var glyphWrites := GlyphWrites(line.glyphs[n], left, top);
      DrawGlyph(canvas, line.glyphs[n], left, top, color, blend);
      forall i, j | 0 <= i < canvas.Length0 && 0 <= j < canvas.Length1
        ensures canvas[i, j] == Composite(old(canvas[i, j]), done + glyphWrites, i, j, imageWidth, imageHeight, color, blend)
      {
        CompositeAppend(old(canvas[i, j]), done, glyphWrites, i, j, imageWidth, imageHeight, color, blend);
      }
      assert line.glyphs[..n + 1][..n] == line.glyphs[..n];
      n := n + 1;
    }
    assert line.glyphs[..n] == line.glyphs;
  }

  /** Every line is at most as wide as the centring width: the padding of each line is defined. */
  predicate PaddingDefined(alignment: Alignment, lines: seq<Line>)
  {
    alignment.CenterAligned? ==> forall i :: 0 <= i < |lines| ==> LineWidth(lines[i]) <= alignment.maxWidth
  }

  /** The writes of the first `n` lines of a layout, in order, each with its own padding. */
  function LayoutWrites(lines: seq<Line>, n: nat, alignment: Alignment, x: u32, y: u32): seq<Write>
    requires n <= |lines| && PaddingDefined(alignment, lines)
  {
    if n == 0 then []
    else LayoutWrites(lines, n - 1, alignment, x, y) + LineWrites(lines[n - 1].glyphs, LineLeft(lines[n - 1], x, alignment), AsI32(y))
  }

  /**
   * `Layout::render`: the block's alignment is chosen once and every line is drawn with it,
   * at the same `x` and `y` (each glyph already carries its own baseline).
   */
  method RenderLayout(canvas: array2<Rgba>, layout: Layout, color: Rgba, x: u32, y: u32,
                      blend: (Rgba, Rgba, real) -> Rgba)
    requires canvas.Length0 < U32_LIMIT && canvas.Length1 < U32_LIMIT
    modifies canvas
    ensures PaddingDefined(CalculatePadding(layout.lines), layout.lines)
    ensures forall i, j :: 0 <= i < canvas.Length0 && 0 <= j < canvas.Length1 ==>
              canvas[i, j] == Composite(old(canvas[i, j]),
                                        LayoutWrites(layout.lines, |layout.lines|, CalculatePadding(layout.lines), x, y),
                                        i, j, AsI32(canvas.Length0), AsI32(canvas.Length1), color, blend)
  {
    var alignment := CalculatePadding(layout.lines);
    var imageWidth := AsI32(canvas.Length0);
    var imageHeight := AsI32(canvas.Length1);
    var n := 0;
    while n < |layout.lines|
      invariant 0 <= n <= |layout.lines|
      invariant forall i, j :: 0 <= i < canvas.Length0 && 0 <= j < canvas.Length1 ==>
                  canvas[i, j] == Composite(old(canvas[i, j]), LayoutWrites(layout.lines, n, alignment, x, y),
                                            i, j, imageWidth, imageHeight, color, blend)
    {
      var line := layout.lines[n];
      ghost var done := LayoutWrites(layout.lines, n, alignment, x, y);
      ghost var lineWrites := LineWrites(line.glyphs, LineLeft(line, x, alignment), AsI32(y));
      RenderLine(canvas, line, color, x, y, alignment, blend);
      forall i, j | 0 <= i < canvas.Length0 && 0 <= j < canvas.Length1
        ensures canvas[i, j] == Composite(old(canvas[i, j]), done + lineWrites, i, j, imageWidth, imageHeight, color, blend)
      {
        CompositeAppend(old(canvas[i, j]), done, lineWrites, i, j, imageWidth, imageHeight, color, blend);
      }
      n := n + 1;
    }
  }
}
