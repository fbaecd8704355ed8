/**
 * The font as the layout engine sees it, with integer metrics.
 *
 * The rasteriser (rusttype) is not part of this model: a `Font` is an oracle that, for a
 * point size, gives the (already truncated) glyph height, descent and space advance, and
 * lays a word out as positioned glyphs from a given origin.
 */
module Glyphs {
  import opened Common

  datatype Point = Point(x: int, y: int)

  /** One covered pixel of a rasterised glyph: its offset inside the glyph's pixel box and its coverage. */
  datatype Coverage = Coverage(dx: nat, dy: nat, value: real)

  /**
   * A glyph placed at `position`. `exactWidth` is the width of its exact bounding box and
   * `pixelMin` the top-left corner of its pixel bounding box; both are absent for glyphs
   * without an outline (a space, say). `coverage` lists the pixels its rasterisation draws,
   * in drawing order.
   */
  datatype PositionedGlyph = PositionedGlyph(
    position: Point,
    exactWidth: Option<int>,
    leftSideBearing: int,
    pixelMin: Option<Point>,
    coverage: seq<Coverage>)

  /** Per point size: ascent minus descent, descent, advance of ' ', and the layout of a word from an origin. */
  datatype Font = Font(
    glyphHeight: nat -> int,
    descent: nat -> int,
    spaceAdvance: nat -> int,
    layout: (nat, string, Point) -> seq<PositionedGlyph>)

  /** One visual row of glyphs. */
  datatype Line = Line(glyphs: seq<PositionedGlyph>)

  datatype MeasureError = NoFirstLetter | NoLastLetter

  /** `k` is the last glyph of `word` that has an exact bounding box. */
  ghost predicate IsLastBounded(word: seq<PositionedGlyph>, k: int)
  {
    && 0 <= k < |word|
    && word[k].exactWidth.Some?
    && forall j :: k < j < |word| ==> word[j].exactWidth.None?
  }

  /** Index of the last glyph with an exact bounding box (the `filter(..).last()` of `word_width`). */
  function LastBounded(word: seq<PositionedGlyph>): (r: Option<nat>)
    ensures r.Some? ==> r.value < |word| && word[r.value].exactWidth.Some?
  {
    if word == [] then None
    else if word[|word| - 1].exactWidth.Some? then Some(|word| - 1)
    else LastBounded(word[..|word| - 1])
  }

  /** `LastBounded` finds the last bounded glyph, and finds none only when no glyph is bounded. */
  lemma {:induction false} LastBoundedMeaning(word: seq<PositionedGlyph>)
    ensures LastBounded(word).Some? ==> IsLastBounded(word, LastBounded(word).value)
    ensures LastBounded(word).None? ==> forall j :: 0 <= j < |word| ==> word[j].exactWidth.None?
  {
    if word != [] && word[|word| - 1].exactWidth.None? {
      var prefix := word[..|word| - 1];
      LastBoundedMeaning(prefix);
      assert forall j :: 0 <= j < |prefix| ==> prefix[j] == word[j];
    }
  }

  /**
   * `word_width`: the exact width of the last bounded glyph plus the distance from the first
   * glyph's origin to that glyph's origin. An empty run and a run without any bounded glyph
   * are errors.
   */
  function WordWidth(word: seq<PositionedGlyph>): Result<int, MeasureError>
  {
    if word == [] then Err(NoFirstLetter)
    else match LastBounded(word)
      case None => Err(NoLastLetter)
      case Some(k) => Ok(word[k].exactWidth.value + (word[k].position.x - word[0].position.x))
  }

  /** What `WordWidth` measures, and exactly when it fails. */
  lemma WordWidthMeaning(word: seq<PositionedGlyph>)
    ensures word == [] ==> WordWidth(word) == Err(NoFirstLetter)
    ensures word != [] && (forall j :: 0 <= j < |word| ==> word[j].exactWidth.None?) ==> WordWidth(word) == Err(NoLastLetter)
    ensures WordWidth(word).Err? ==> word == [] || forall j :: 0 <= j < |word| ==> word[j].exactWidth.None?
    ensures WordWidth(word).Ok? ==>
              exists k :: IsLastBounded(word, k)
                && WordWidth(word).value == word[k].exactWidth.value + (word[k].position.x - word[0].position.x)
  {
    LastBoundedMeaning(word);
  }

  /** The width of `word` as the font lays it out at `size` from `origin`. */
  function MeasureAt(font: Font, size: nat, word: string, origin: Point): Result<int, MeasureError>
  {
    WordWidth(font.layout(size, word, origin))
  }

  /**
   * `Line::calculated_width`: the first glyph's left side bearing plus the width of the whole
   * run (both 0 when absent or unmeasurable), reinterpreted as `u32`.
   */
  function LineWidth(line: Line): (r: u32)
    ensures line.glyphs == [] ==> r == 0
    ensures line.glyphs != [] && WordWidth(line.glyphs).Err? ==> r == AsU32(line.glyphs[0].leftSideBearing)
  {
    var bearing := if line.glyphs == [] then 0 else line.glyphs[0].leftSideBearing;
    var span := match WordWidth(line.glyphs) case Ok(w) => w case Err(_) => 0;
    AsU32(bearing + span)
  }
}
