/**
 * The greedy line breaker of one layout attempt at a fixed point size
 * (`Layout::layout_at_font_size`).
 *
 * `Fit` is the loop written as a function over the loop's state; it yields a plan: for each
 * line, the words placed on it with their horizontal origins. `Realise` turns a plan into the
 * glyph lines the source builds, and `LayoutAtFontSize` is the loop itself, proved to compute
 * `Realise` of the plan.
 */
module LineBreak {
  import opened Common
  import opened Glyphs

  /** A word placed on a line, with the x of its layout origin. */
  datatype Placement = Placement(word: string, x: int)

  datatype AttemptError =
    | MalformedWord(word: string, cause: MeasureError)  // `word_width` failed
    | NoRoom(fontSize: nat)                             // the height budget ran out on a line break

  /** A successful attempt: the lines and the height of one line. */
  datatype Attempt = Attempt(lines: seq<Line>, lineHeight: int)

  /** The metrics one attempt reads from the font once, at its point size. */
  datatype Metrics = Metrics(glyphHeight: int, descent: int, spaceWidth: int)

  function MetricsAt(font: Font, size: nat): Metrics
  {
    Metrics(font.glyphHeight(size), font.descent(size), font.spaceAdvance(size))
  }

  /** The y of the layout origin of row `row`: (row + 1) line heights plus the (negative) descent. */
  function Baseline(m: Metrics, row: nat): int
  {
    (row + 1) * m.glyphHeight + m.descent
  }

  /**
   * The breaking loop from the state (`queue`, closed lines, current line, remaining width,
   * remaining height). A word is placed when it is strictly narrower than the remaining width;
   * otherwise it goes back to the queue, the current line is closed, the width is reset and the
   * height budget shrinks by one line, failing once it is no longer positive.
   */
  function Fit(font: Font, size: nat, m: Metrics, width: int, queue: seq<string>,
               closed: seq<seq<Placement>>, current: seq<Placement>,
               remainingWidth: int, remainingHeight: int): Result<seq<seq<Placement>>, AttemptError>
    requires m.glyphHeight > 0
    decreases if remainingHeight > 0 then remainingHeight else 0, |queue|
  {
    if queue == [] then Ok(closed + [current])
    else
      var origin := Point(width - remainingWidth, Baseline(m, |closed|));
      match MeasureAt(font, size, queue[0], origin)
      case Err(e) => Err(MalformedWord(queue[0], e))
      case Ok(w) =>
        if w < remainingWidth then
          Fit(font, size, m, width, queue[1..], closed, current + [Placement(queue[0], origin.x)],
              remainingWidth - w - m.spaceWidth, remainingHeight)
        else if remainingHeight - m.glyphHeight <= 0 then Err(NoRoom(size))
        else
          Fit(font, size, m, width, queue, closed + [current], [], width, remainingHeight - m.glyphHeight)
  }

  /** The plan of the attempt at `size` for the target `width` x `height`. */
  function LayoutPlan(font: Font, size: nat, words: seq<string>, width: u32, height: u32): Result<seq<seq<Placement>>, AttemptError>
    requires font.glyphHeight(size) > 0
  {
    var m := MetricsAt(font, size);
    Fit(font, size, m, AsI32(width), words, [], [], AsI32(width), AsI32(height) - m.glyphHeight)
  }

  /** The glyphs of one planned line in row `row`: each word laid out from its origin, in order. */
  function LineGlyphs(font: Font, size: nat, m: Metrics, row: nat, placements: seq<Placement>): seq<PositionedGlyph>
  {
    if placements == [] then []
    else
      var last := placements[|placements| - 1];
      LineGlyphs(font, size, m, row, placements[..|placements| - 1])
        + font.layout(size, last.word, Point(last.x, Baseline(m, row)))
  }

  /** The glyph lines of a plan. */
  function Realise(font: Font, size: nat, m: Metrics, plan: seq<seq<Placement>>): (r: seq<Line>)
    ensures |r| == |plan|
  {
    if plan == [] then []
    else Realise(font, size, m, plan[..|plan| - 1]) + [Line(LineGlyphs(font, size, m, |plan| - 1, plan[|plan| - 1]))]
  }

  /** The outcome of the attempt at `size`, as glyph lines. */
  function AttemptAt(font: Font, size: nat, words: seq<string>, width: u32, height: u32): Result<Attempt, AttemptError>
    requires font.glyphHeight(size) > 0
  {
    match LayoutPlan(font, size, words, width, height)
    case Ok(plan) => Ok(Attempt(Realise(font, size, MetricsAt(font, size), plan), font.glyphHeight(size)))
    case Err(e) => Err(e)
  }

  /** `Layout::layout_at_font_size`: a single pass over a word queue with push-back. */
  method LayoutAtFontSize(font: Font, words: seq<string>, width: u32, height: u32, size: nat)
    returns (r: Result<Attempt, AttemptError>)
    requires font.glyphHeight(size) > 0
    ensures r == AttemptAt(font, size, words, width, height)
  {
    var m := MetricsAt(font, size);
    var glyphHeight := m.glyphHeight;
    var spaceWidth := m.spaceWidth;
    var w := AsI32(width);
    var lines: seq<Line> := [];
    var remainingWidth := w;
    var remainingHeight := AsI32(height) - glyphHeight;
    var currentLine: seq<PositionedGlyph> := [];
    var queue := words;
    ghost var closed: seq<seq<Placement>> := [];
    ghost var current: seq<Placement> := [];
    ghost var plan := LayoutPlan(font, size, words, width, height);
    while queue != []
      invariant lines == Realise(font, size, m, closed)
      invariant currentLine == LineGlyphs(font, size, m, |closed|, current)
      invariant Fit(font, size, m, w, queue, closed, current, remainingWidth, remainingHeight) == plan
      decreases if remainingHeight > 0 then remainingHeight else 0, |queue|
    {
      var word := queue[0];
      var origin := Point(w - remainingWidth, Baseline(m, |lines|));
      var layout := font.layout(size, word, origin);
      var measured := WordWidth(layout);
      if measured.Err? {
        MalformedStep(font, size, m, w, queue, closed, current, remainingWidth, remainingHeight, measured.error);
        return Err(MalformedWord(word, measured.error));
      }
      var wordWidth := measured.value;
      if wordWidth < remainingWidth {
        ghost var queue0, current0, width0 := queue, current, remainingWidth;
        queue := queue[1..];
        remainingWidth := remainingWidth - wordWidth;
        currentLine := currentLine + layout;
        remainingWidth := remainingWidth - spaceWidth;
        current := current + [Placement(word, w - width0)];
        PlaceStep(font, size, m, w, queue0, closed, current0, width0, remainingHeight, wordWidth,
                  queue, current, remainingWidth);
      } else {
        // the word goes back to the front of the queue: `queue` is left as it is
        ghost var closed0, current0, width0, height0 := closed, current, remainingWidth, remainingHeight;
        lines := lines + [Line(currentLine)];
        remainingHeight := remainingHeight - glyphHeight;
        if remainingHeight <= 0 {
          NoRoomStep(font, size, m, w, queue, closed, current, remainingWidth, height0, wordWidth);
          return Err(NoRoom(size));
        }
        closed := closed + [current];
        currentLine := [];
        current := [];
        remainingWidth := w;
        BreakStep(font, size, m, w, queue, closed0, current0, width0, height0, wordWidth, closed, remainingHeight);
      }
    }
    RealiseAppend(font, size, m, closed, current);
    lines := lines + [Line(currentLine)];
    return Ok(Attempt(lines, glyphHeight));
  }

  /** Placing the head word: the loop goes on from the shortened queue and the longer line. */
  lemma PlaceStep(font: Font, size: nat, m: Metrics, width: int, queue: seq<string>, closed: seq<seq<Placement>>,
                  current: seq<Placement>, remainingWidth: int, remainingHeight: int, w: int,
                  nextQueue: seq<string>, nextCurrent: seq<Placement>, nextWidth: int)
    requires m.glyphHeight > 0
    requires queue != []
    requires MeasureAt(font, size, queue[0], Point(width - remainingWidth, Baseline(m, |closed|))) == Ok(w)
    requires w < remainingWidth
    requires nextQueue == queue[1..]
    requires nextWidth == remainingWidth - w - m.spaceWidth
    requires nextCurrent == current + [Placement(queue[0], width - remainingWidth)]
    ensures Fit(font, size, m, width, queue, closed, current, remainingWidth, remainingHeight)
         == Fit(font, size, m, width, nextQueue, closed, nextCurrent, nextWidth, remainingHeight)
    ensures LineGlyphs(font, size, m, |closed|, nextCurrent)
         == LineGlyphs(font, size, m, |closed|, current)
            + font.layout(size, queue[0], Point(width - remainingWidth, Baseline(m, |closed|)))
  {
    LineGlyphsAppend(font, size, m, |closed|, current, Placement(queue[0], width - remainingWidth));
  }

  /** Breaking the line: the same queue goes on in a fresh line with one line less of height. */
  lemma BreakStep(font: Font, size: nat, m: Metrics, width: int, queue: seq<string>, closed: seq<seq<Placement>>,
                  current: seq<Placement>, remainingWidth: int, remainingHeight: int, w: int,
                  nextClosed: seq<seq<Placement>>, nextHeight: int)
    requires m.glyphHeight > 0 && queue != []
    requires MeasureAt(font, size, queue[0], Point(width - remainingWidth, Baseline(m, |closed|))) == Ok(w)
    requires w >= remainingWidth && nextHeight == remainingHeight - m.glyphHeight && nextHeight > 0
    requires nextClosed == closed + [current]
    ensures Fit(font, size, m, width, queue, closed, current, remainingWidth, remainingHeight)
         == Fit(font, size, m, width, queue, nextClosed, [], width, nextHeight)
    ensures Realise(font, size, m, nextClosed) == Realise(font, size, m, closed) + [Line(LineGlyphs(font, size, m, |closed|, current))]
  {
    RealiseAppend(font, size, m, closed, current);
  }

  lemma MalformedStep(font: Font, size: nat, m: Metrics, width: int, queue: seq<string>, closed: seq<seq<Placement>>,
                      current: seq<Placement>, remainingWidth: int, remainingHeight: int, e: MeasureError)
    requires m.glyphHeight > 0 && queue != []
    requires MeasureAt(font, size, queue[0], Point(width - remainingWidth, Baseline(m, |closed|))) == Err(e)
    ensures Fit(font, size, m, width, queue, closed, current, remainingWidth, remainingHeight) == Err(MalformedWord(queue[0], e))
  {
  }

  lemma NoRoomStep(font: Font, size: nat, m: Metrics, width: int, queue: seq<string>, closed: seq<seq<Placement>>,
                   current: seq<Placement>, remainingWidth: int, remainingHeight: int, w: int)
    requires m.glyphHeight > 0 && queue != []
    requires MeasureAt(font, size, queue[0], Point(width - remainingWidth, Baseline(m, |closed|))) == Ok(w)
    requires w >= remainingWidth && remainingHeight - m.glyphHeight <= 0
    ensures Fit(font, size, m, width, queue, closed, current, remainingWidth, remainingHeight) == Err(NoRoom(size))
  {
  }

  lemma LineGlyphsAppend(font: Font, size: nat, m: Metrics, row: nat, placements: seq<Placement>, p: Placement)
    ensures LineGlyphs(font, size, m, row, placements + [p])
         == LineGlyphs(font, size, m, row, placements) + font.layout(size, p.word, Point(p.x, Baseline(m, row)))
  {
    assert (placements + [p])[..|placements|] == placements;
  }

  lemma RealiseAppend(font: Font, size: nat, m: Metrics, plan: seq<seq<Placement>>, line: seq<Placement>)
    ensures Realise(font, size, m, plan + [line]) == Realise(font, size, m, plan) + [Line(LineGlyphs(font, size, m, |plan|, line))]
  {
    assert (plan + [line])[..|plan|] == plan;
  }

  // ---------------------------------------------------------------------------------------
  // What a plan says about the words

  /** The words of one planned line, in order. */
  function LineWords(line: seq<Placement>): (r: seq<string>)
    ensures |r| == |line|
  {
    seq(|line|, j requires 0 <= j < |line| => line[j].word)
  }

  /** The words of a plan, line after line. */
  function Words(plan: seq<seq<Placement>>): seq<string>
  {
    if plan == [] then [] else Words(plan[..|plan| - 1]) + LineWords(plan[|plan| - 1])
  }

  lemma WordsAppend(plan: seq<seq<Placement>>, line: seq<Placement>)
    ensures Words(plan + [line]) == Words(plan) + LineWords(line)
  {
    assert (plan + [line])[..|plan|] == plan;
  }

  lemma LineWordsAppend(line: seq<Placement>, p: Placement)
    ensures LineWords(line + [p]) == LineWords(line) + [p.word]
  {
    assert forall j :: 0 <= j < |line| ==> (line + [p])[j] == line[j];
  }

  /** Moving the head of the queue onto the current line keeps the word sequence. */
  lemma PlacingKeepsWords(closed: seq<seq<Placement>>, current: seq<Placement>, queue: seq<string>, x: int)
    requires queue != []
    ensures Words(closed + [current + [Placement(queue[0], x)]]) + queue[1..] == Words(closed + [current]) + queue
  {
    var next := current + [Placement(queue[0], x)];
    var before, words := Words(closed), LineWords(current);
    WordsAppend(closed, next);
    WordsAppend(closed, current);
    LineWordsAppend(current, Placement(queue[0], x));
    assert Words(closed + [next]) == before + (words + [queue[0]]);
    assert queue == [queue[0]] + queue[1..];
    assert (before + (words + [queue[0]])) + queue[1..] == (before + words) + ([queue[0]] + queue[1..]);
  }

  /**
   * Every queued word ends up in the plan exactly once and in queue order, after the words
   * already placed; the plan has at least one line more than the lines already closed.
   */
  lemma {:induction false} FitKeepsWords(font: Font, size: nat, m: Metrics, width: int, queue: seq<string>,
                                         closed: seq<seq<Placement>>, current: seq<Placement>,
                                         remainingWidth: int, remainingHeight: int)
    requires m.glyphHeight > 0
    requires Fit(font, size, m, width, queue, closed, current, remainingWidth, remainingHeight).Ok?
    ensures |Fit(font, size, m, width, queue, closed, current, remainingWidth, remainingHeight).value| > |closed|
    ensures Words(Fit(font, size, m, width, queue, closed, current, remainingWidth, remainingHeight).value)
         == Words(closed + [current]) + queue
    decreases if remainingHeight > 0 then remainingHeight else 0, |queue|
  {
    if queue == [] {
    } else {
      var origin := Point(width - remainingWidth, Baseline(m, |closed|));
      var w := MeasureAt(font, size, queue[0], origin).value;
      if w < remainingWidth {
        var next := current + [Placement(queue[0], origin.x)];
        FitKeepsWords(font, size, m, width, queue[1..], closed, next, remainingWidth - w - m.spaceWidth, remainingHeight);
        PlacingKeepsWords(closed, current, queue, origin.x);
      } else {
        FitKeepsWords(font, size, m, width, queue, closed + [current], [], width, remainingHeight - m.glyphHeight);
        WordsAppend(closed + [current], []);
      }
    }
  }

  /**
   * Each line break the loop survives leaves a positive height budget, so the n lines added
   * after the first satisfy n * glyphHeight < remainingHeight.
   */
  lemma {:induction false} FitHeightBudget(font: Font, size: nat, m: Metrics, width: int, queue: seq<string>,
                                           closed: seq<seq<Placement>>, current: seq<Placement>,
                                           remainingWidth: int, remainingHeight: int)
    requires m.glyphHeight > 0
    requires Fit(font, size, m, width, queue, closed, current, remainingWidth, remainingHeight).Ok?
    ensures var n := |Fit(font, size, m, width, queue, closed, current, remainingWidth, remainingHeight).value| - 1 - |closed|;
            n >= 0 && (n > 0 ==> n * m.glyphHeight < remainingHeight)
    decreases if remainingHeight > 0 then remainingHeight else 0, |queue|
  {
    if queue != [] {
      var origin := Point(width - remainingWidth, Baseline(m, |closed|));
      var w := MeasureAt(font, size, queue[0], origin).value;
      if w < remainingWidth {
        FitHeightBudget(font, size, m, width, queue[1..], closed, current + [Placement(queue[0], origin.x)],
                        remainingWidth - w - m.spaceWidth, remainingHeight);
      } else {
        var h := remainingHeight - m.glyphHeight;
        FitHeightBudget(font, size, m, width, queue, closed + [current], [], width, h);
        var n := |Fit(font, size, m, width, queue, closed + [current], [], width, h).value| - 1 - |closed|;
        assert n * m.glyphHeight == (n - 1) * m.glyphHeight + m.glyphHeight;
      }
    }
  }

  /** A placement at row `row` whose word, measured where it was laid out, ends left of `width`. */
  ghost predicate PlacementFits(font: Font, size: nat, m: Metrics, width: int, row: nat, p: Placement)
  {
    var measured := MeasureAt(font, size, p.word, Point(p.x, Baseline(m, row)));
    measured.Ok? && p.x + measured.value < width
  }

  /** Every word of the line fits, and the line's first word starts at the left edge. */
  ghost predicate LineFits(font: Font, size: nat, m: Metrics, width: int, row: nat, line: seq<Placement>)
  {
    && (forall j :: 0 <= j < |line| ==> PlacementFits(font, size, m, width, row, line[j]))
    && (line != [] ==> line[0].x == 0)
  }

  ghost predicate PlanFits(font: Font, size: nat, m: Metrics, width: int, plan: seq<seq<Placement>>)
  {
    forall row :: 0 <= row < |plan| ==> LineFits(font, size, m, width, row, plan[row])
  }

  /**
   * In a successful plan every line starts at x = 0 and every word, measured at its own
   * origin, ends strictly before the target width.
   */
  lemma {:induction false} FitPlacesWithinWidth(font: Font, size: nat, m: Metrics, width: int, queue: seq<string>,
                                                closed: seq<seq<Placement>>, current: seq<Placement>,
                                                remainingWidth: int, remainingHeight: int)
    requires m.glyphHeight > 0
    requires Fit(font, size, m, width, queue, closed, current, remainingWidth, remainingHeight).Ok?
    requires PlanFits(font, size, m, width, closed)
    requires LineFits(font, size, m, width, |closed|, current)
    requires current == [] ==> remainingWidth == width
    ensures PlanFits(font, size, m, width, Fit(font, size, m, width, queue, closed, current, remainingWidth, remainingHeight).value)
    decreases if remainingHeight > 0 then remainingHeight else 0, |queue|
  {
    if queue == [] {
      var plan := closed + [current];
      forall row | 0 <= row < |plan| ensures LineFits(font, size, m, width, row, plan[row]) {
        if row < |closed| {
          assert plan[row] == closed[row];
        }
      }
    } else {
      var origin := Point(width - remainingWidth, Baseline(m, |closed|));
      var w := MeasureAt(font, size, queue[0], origin).value;
      if w < remainingWidth {
        var p := Placement(queue[0], origin.x);
        assert PlacementFits(font, size, m, width, |closed|, p);
        var next := current + [p];
        assert forall j :: 0 <= j < |current| ==> next[j] == current[j];
        FitPlacesWithinWidth(font, size, m, width, queue[1..], closed, next, remainingWidth - w - m.spaceWidth, remainingHeight);
      } else {
        var more := closed + [current];
        forall row | 0 <= row < |more| ensures LineFits(font, size, m, width, row, more[row]) {
          if row < |closed| {
            assert more[row] == closed[row];
          }
        }
        FitPlacesWithinWidth(font, size, m, width, queue, more, [], width, remainingHeight - m.glyphHeight);
      }
    }
  }

  // ---------------------------------------------------------------------------------------
  // Where words go: running origins and the greedy break rule

  /** The x the cursor moves to after placing `p` in row `row`: past the word and one space advance. */
  ghost function Advance(font: Font, size: nat, m: Metrics, row: nat, p: Placement): int
  {
    match MeasureAt(font, size, p.word, Point(p.x, Baseline(m, row)))
    case Ok(w) => p.x + w + m.spaceWidth
    case Err(_) => p.x
  }

  /** The cursor at the end of a line: 0 for an empty line, else just past its last word and a space. */
  ghost function LineEnd(font: Font, size: nat, m: Metrics, row: nat, line: seq<Placement>): int
  {
    if line == [] then 0 else Advance(font, size, m, row, line[|line| - 1])
  }

  /**
   * The words of a line sit at running origins: the first at x = 0 and each next one at the
   * previous one's x plus its measured width plus one space advance.
   */
  ghost predicate RunningOrigins(font: Font, size: nat, m: Metrics, row: nat, line: seq<Placement>)
  {
    && (line != [] ==> line[0].x == 0)
    && (forall j :: 0 <= j < |line| ==> MeasureAt(font, size, line[j].word, Point(line[j].x, Baseline(m, row))).Ok?)
    && (forall j :: 0 <= j < |line| - 1 ==> line[j + 1].x == Advance(font, size, m, row, line[j]))
  }

  ghost predicate RowsRun(font: Font, size: nat, m: Metrics, rows: seq<seq<Placement>>)
  {
    forall r :: 0 <= r < |rows| ==> RunningOrigins(font, size, m, r, rows[r])
  }

  /**
   * Row `r` was closed because the word that follows it in `words` (the next word tried), laid
   * out at the row's end cursor, measured at least the width left: end + width >= `width`.
   */
  ghost predicate BreakForced(font: Font, size: nat, m: Metrics, width: int, rows: seq<seq<Placement>>, r: nat,
                              words: seq<string>)
    requires r < |rows|
  {
    var k := |Words(rows[..r + 1])|;
    var end := LineEnd(font, size, m, r, rows[r]);
    && k < |words|
    && MeasureAt(font, size, words[k], Point(end, Baseline(m, r))).Ok?
    && end + MeasureAt(font, size, words[k], Point(end, Baseline(m, r))).value >= width
  }

  /** Each of the first `count` rows was closed only because the next word did not fit on it. */
  ghost predicate ClosedGreedily(font: Font, size: nat, m: Metrics, width: int, rows: seq<seq<Placement>>,
                                 count: nat, words: seq<string>)
    requires count <= |rows|
  {
    forall r :: 0 <= r < count ==> BreakForced(font, size, m, width, rows, r, words)
  }

  lemma ClosedGreedilyPrefix(font: Font, size: nat, m: Metrics, width: int, rows: seq<seq<Placement>>,
                             longer: seq<seq<Placement>>, words: seq<string>)
    requires |rows| <= |longer| && longer[..|rows|] == rows
    requires ClosedGreedily(font, size, m, width, rows, |rows|, words)
    ensures ClosedGreedily(font, size, m, width, longer, |rows|, words)
  {
    forall r | 0 <= r < |rows| ensures BreakForced(font, size, m, width, longer, r, words) {
      assert longer[..r + 1] == rows[..r + 1];
      assert longer[r] == rows[r];
      assert BreakForced(font, size, m, width, rows, r, words);
    }
  }

  lemma RowsRunAppend(font: Font, size: nat, m: Metrics, rows: seq<seq<Placement>>, line: seq<Placement>)
    requires RowsRun(font, size, m, rows) && RunningOrigins(font, size, m, |rows|, line)
    ensures RowsRun(font, size, m, rows + [line])
  {
    forall r | 0 <= r < |rows| + 1 ensures RunningOrigins(font, size, m, r, (rows + [line])[r]) {
      if r < |rows| {
        assert (rows + [line])[r] == rows[r];
      }
    }
  }

  /** Placing a word at the end cursor keeps the origins running and moves the cursor past it. */
  lemma PlaceKeepsOrigins(font: Font, size: nat, m: Metrics, width: int, row: nat, line: seq<Placement>,
                          remainingWidth: int, p: Placement, w: int)
    requires RunningOrigins(font, size, m, row, line)
    requires remainingWidth == width - LineEnd(font, size, m, row, line)
    requires p.x == width - remainingWidth
    requires MeasureAt(font, size, p.word, Point(p.x, Baseline(m, row))) == Ok(w)
    ensures RunningOrigins(font, size, m, row, line + [p])
    ensures remainingWidth - w - m.spaceWidth == width - LineEnd(font, size, m, row, line + [p])
  {
    var next := line + [p];
    assert forall j :: 0 <= j < |line| ==> next[j] == line[j];
  }

  /** When the queue is empty, the final plan inherits both rules from the state. */
  lemma FinishKeepsRules(font: Font, size: nat, m: Metrics, width: int, closed: seq<seq<Placement>>, current: seq<Placement>)
    requires RowsRun(font, size, m, closed) && RunningOrigins(font, size, m, |closed|, current)
    requires ClosedGreedily(font, size, m, width, closed, |closed|, Words(closed + [current]))
    ensures RowsRun(font, size, m, closed + [current])
    ensures ClosedGreedily(font, size, m, width, closed + [current], |closed|, Words(closed + [current]))
  {
    RowsRunAppend(font, size, m, closed, current);
    ClosedGreedilyPrefix(font, size, m, width, closed, closed + [current], Words(closed + [current]));
  }

  /** A row closed in front of a word that did not fit extends a greedy prefix by one row. */
  lemma ClosedGreedilyExtend(font: Font, size: nat, m: Metrics, width: int, rows: seq<seq<Placement>>, count: nat,
                             words: seq<string>)
    requires count < |rows|
    requires ClosedGreedily(font, size, m, width, rows, count, words)
    requires BreakForced(font, size, m, width, rows, count, words)
    ensures ClosedGreedily(font, size, m, width, rows, count + 1, words)
  {
  }

  /** The last row of `rows` was closed in front of the word of `words` that follows it, which did not fit. */
  lemma ForcedAtLastRow(font: Font, size: nat, m: Metrics, width: int, rows: seq<seq<Placement>>, words: seq<string>,
                        remainingWidth: int, w: int)
    requires rows != [] && |Words(rows)| < |words|
    requires LineEnd(font, size, m, |rows| - 1, rows[|rows| - 1]) == width - remainingWidth
    requires MeasureAt(font, size, words[|Words(rows)|], Point(width - remainingWidth, Baseline(m, |rows| - 1))) == Ok(w)
    requires w >= remainingWidth
    ensures BreakForced(font, size, m, width, rows, |rows| - 1, words)
  {
    assert rows[..|rows|] == rows;
  }

  /** Closing the current line in front of a word that does not fit keeps both rules. */
  lemma {:induction false} BreakKeepsRules(font: Font, size: nat, m: Metrics, width: int, queue: seq<string>,
                                             closed: seq<seq<Placement>>, current: seq<Placement>, remainingWidth: int, w: int)
    requires queue != []
    requires MeasureAt(font, size, queue[0], Point(width - remainingWidth, Baseline(m, |closed|))) == Ok(w)
    requires w >= remainingWidth
    requires RowsRun(font, size, m, closed) && RunningOrigins(font, size, m, |closed|, current)
    requires remainingWidth == width - LineEnd(font, size, m, |closed|, current)
    requires ClosedGreedily(font, size, m, width, closed, |closed|, Words(closed + [current]) + queue)
    ensures RowsRun(font, size, m, closed + [current])
    ensures ClosedGreedily(font, size, m, width, closed + [current], |closed| + 1, Words(closed + [current] + [[]]) + queue)
  {
    var more := closed + [current];
    var all := Words(more) + queue;
    assert more[..|closed|] == closed;
    ClosedGreedilyPrefix(font, size, m, width, closed, more, all);
    assert all[|Words(more)|] == queue[0];
    ForcedAtLastRow(font, size, m, width, more, all, remainingWidth, w);
    ClosedGreedilyExtend(font, size, m, width, more, |closed|, all);
    WordsAppend(more, []);
    assert Words(more + [[]]) + queue == all;
    RowsRunAppend(font, size, m, closed, current);
  }

  /**
   * The loop from a state whose closed rows and current line already obey the two rules
   * yields a plan that obeys them: words at running origins in every row, and every row but
   * the last closed only because the next word did not fit.
   */
  lemma {:induction false} FitBreaksGreedily(font: Font, size: nat, m: Metrics, width: int, queue: seq<string>,
                                             closed: seq<seq<Placement>>, current: seq<Placement>,
                                             remainingWidth: int, remainingHeight: int)
    requires m.glyphHeight > 0
    requires Fit(font, size, m, width, queue, closed, current, remainingWidth, remainingHeight).Ok?
    requires RowsRun(font, size, m, closed) && RunningOrigins(font, size, m, |closed|, current)
    requires remainingWidth == width - LineEnd(font, size, m, |closed|, current)
    requires ClosedGreedily(font, size, m, width, closed, |closed|, Words(closed + [current]) + queue)
    ensures var plan := Fit(font, size, m, width, queue, closed, current, remainingWidth, remainingHeight).value;
            && |plan| >= 1
            && RowsRun(font, size, m, plan)
            && ClosedGreedily(font, size, m, width, plan, |plan| - 1, Words(plan))
    decreases if remainingHeight > 0 then remainingHeight else 0, |queue|
  {
    if queue == [] {
      assert Words(closed + [current]) + queue == Words(closed + [current]);
      FinishKeepsRules(font, size, m, width, closed, current);
    } else {
      var origin := Point(width - remainingWidth, Baseline(m, |closed|));
      var w := MeasureAt(font, size, queue[0], origin).value;
      if w < remainingWidth {
        var p := Placement(queue[0], origin.x);
        PlaceKeepsOrigins(font, size, m, width, |closed|, current, remainingWidth, p, w);
        PlacingKeepsWords(closed, current, queue, origin.x);
        FitBreaksGreedily(font, size, m, width, queue[1..], closed, current + [p], remainingWidth - w - m.spaceWidth,
                          remainingHeight);
      } else {
        BreakKeepsRules(font, size, m, width, queue, closed, current, remainingWidth, w);
        FitBreaksGreedily(font, size, m, width, queue, closed + [current], [], width, remainingHeight - m.glyphHeight);
      }
    }
  }

  /** The font never measures a word as negatively wide. */
  ghost predicate NonNegativeMeasures(font: Font, size: nat)
  {
    forall word, origin :: MeasureAt(font, size, word, origin).Ok? ==> MeasureAt(font, size, word, origin).value >= 0
  }

  /** Wherever it is laid out, `word` measures at least `width` (or cannot be measured). */
  ghost predicate NeverFits(font: Font, size: nat, width: int, word: string)
  {
    forall origin :: MeasureAt(font, size, word, origin).Ok? ==> MeasureAt(font, size, word, origin).value >= width
  }

  /**
   * A word at least as wide as the target is never placed: the loop closes (empty) lines in
   * front of it until the height budget runs out, so the attempt fails.
   */
  lemma {:induction false} OverWideWordFails(font: Font, size: nat, m: Metrics, width: int, queue: seq<string>,
                                             closed: seq<seq<Placement>>, current: seq<Placement>,
                                             remainingWidth: int, remainingHeight: int, i: nat)
    requires m.glyphHeight > 0 && m.spaceWidth >= 0 && NonNegativeMeasures(font, size)
    requires i < |queue| && NeverFits(font, size, width, queue[i])
    requires remainingWidth <= width
    ensures Fit(font, size, m, width, queue, closed, current, remainingWidth, remainingHeight).Err?
    decreases if remainingHeight > 0 then remainingHeight else 0, |queue|
  {
    var origin := Point(width - remainingWidth, Baseline(m, |closed|));
    var measured := MeasureAt(font, size, queue[0], origin);
    if measured.Ok? {
      var w := measured.value;
      if w < remainingWidth {
        if i == 0 {
          assert false;
        }
        OverWideWordFails(font, size, m, width, queue[1..], closed, current + [Placement(queue[0], origin.x)],
                          remainingWidth - w - m.spaceWidth, remainingHeight, i - 1);
      } else if remainingHeight - m.glyphHeight > 0 {
        OverWideWordFails(font, size, m, width, queue, closed + [current], [], width, remainingHeight - m.glyphHeight, i);
      }
    }
  }

  /** `word` cannot be measured wherever it is laid out. */
  ghost predicate AlwaysMalformed(font: Font, size: nat, word: string)
  {
    forall origin :: MeasureAt(font, size, word, origin).Err?
  }

  /** An unmeasurable word makes the attempt fail, however far back in the queue it is. */
  lemma {:induction false} MalformedWordFails(font: Font, size: nat, m: Metrics, width: int, queue: seq<string>,
                                              closed: seq<seq<Placement>>, current: seq<Placement>,
                                              remainingWidth: int, remainingHeight: int, i: nat)
    requires m.glyphHeight > 0
    requires i < |queue| && AlwaysMalformed(font, size, queue[i])
    ensures Fit(font, size, m, width, queue, closed, current, remainingWidth, remainingHeight).Err?
    decreases if remainingHeight > 0 then remainingHeight else 0, |queue|
  {
    var origin := Point(width - remainingWidth, Baseline(m, |closed|));
    var measured := MeasureAt(font, size, queue[0], origin);
    if measured.Ok? {
      var w := measured.value;
      if w < remainingWidth {
        MalformedWordFails(font, size, m, width, queue[1..], closed, current + [Placement(queue[0], origin.x)],
                           remainingWidth - w - m.spaceWidth, remainingHeight, i - 1);
      } else if remainingHeight - m.glyphHeight > 0 {
        MalformedWordFails(font, size, m, width, queue, closed + [current], [], width, remainingHeight - m.glyphHeight, i);
      }
    }
  }

  // ---------------------------------------------------------------------------------------
  // The same facts for a whole attempt

  /**
   * A successful attempt is the realisation of its plan, has at least one line (the last line
   * is flushed even when empty), and its lines hold every input word once, in input order.
   */
  lemma AttemptKeepsWords(font: Font, size: nat, words: seq<string>, width: u32, height: u32)
    requires font.glyphHeight(size) > 0
    requires AttemptAt(font, size, words, width, height).Ok?
    ensures LayoutPlan(font, size, words, width, height).Ok?
    ensures AttemptAt(font, size, words, width, height).value.lines
         == Realise(font, size, MetricsAt(font, size), LayoutPlan(font, size, words, width, height).value)
    ensures Words(LayoutPlan(font, size, words, width, height).value) == words
    ensures |AttemptAt(font, size, words, width, height).value.lines| >= 1
  {
    var m := MetricsAt(font, size);
    FitKeepsWords(font, size, m, AsI32(width), words, [], [], AsI32(width), AsI32(height) - m.glyphHeight);
    assert Words([[]]) == Words([]) + LineWords([]);
  }

  /** A successful attempt with two lines or more is strictly less tall than the target. */
  lemma AttemptFitsHeight(font: Font, size: nat, words: seq<string>, width: u32, height: u32)
    requires font.glyphHeight(size) > 0
    requires AttemptAt(font, size, words, width, height).Ok?
    requires |AttemptAt(font, size, words, width, height).value.lines| >= 2
    ensures |AttemptAt(font, size, words, width, height).value.lines| * AttemptAt(font, size, words, width, height).value.lineHeight
            < AsI32(height) <= height
  {
    var m := MetricsAt(font, size);
    var k := |AttemptAt(font, size, words, width, height).value.lines|;
    FitHeightBudget(font, size, m, AsI32(width), words, [], [], AsI32(width), AsI32(height) - m.glyphHeight);
    assert k * m.glyphHeight == (k - 1) * m.glyphHeight + m.glyphHeight;
  }

  /** In a successful attempt every line starts at x = 0 and every word ends before the target width. */
  lemma AttemptFitsWidth(font: Font, size: nat, words: seq<string>, width: u32, height: u32)
    requires font.glyphHeight(size) > 0
    requires LayoutPlan(font, size, words, width, height).Ok?
    ensures PlanFits(font, size, MetricsAt(font, size), AsI32(width), LayoutPlan(font, size, words, width, height).value)
  {
    var m := MetricsAt(font, size);
    FitPlacesWithinWidth(font, size, m, AsI32(width), words, [], [], AsI32(width), AsI32(height) - m.glyphHeight);
  }

  /**
   * In a successful attempt the words of each line sit at running origins (x = 0 first, then
   * each previous x plus the previous word's width and one space advance), and every line but
   * the last was closed only because the next input word, tried at that line's end cursor,
   * did not fit in the width left.
   */
  lemma AttemptBreaksGreedily(font: Font, size: nat, words: seq<string>, width: u32, height: u32)
    requires font.glyphHeight(size) > 0
    requires LayoutPlan(font, size, words, width, height).Ok?
    ensures var m, plan := MetricsAt(font, size), LayoutPlan(font, size, words, width, height).value;
            && |plan| >= 1
            && RowsRun(font, size, m, plan)
            && ClosedGreedily(font, size, m, AsI32(width), plan, |plan| - 1, words)
  {
    var m := MetricsAt(font, size);
    var none: seq<seq<Placement>> := [];
    FitBreaksGreedily(font, size, m, AsI32(width), words, none, [], AsI32(width), AsI32(height) - m.glyphHeight);
    FitKeepsWords(font, size, m, AsI32(width), words, none, [], AsI32(width), AsI32(height) - m.glyphHeight);
    assert Words(none + [[]]) == Words(none) + LineWords([]);
    assert Words(none + [[]]) + words == words;
  }

  /**
   * The height budget is only consulted on a line break: a text that fits on one line is laid
   * out whatever the target height, even one smaller than a glyph.
   */
  lemma OneLineIgnoresHeight(font: Font, size: nat, word: string, width: u32, height: u32)
    requires font.glyphHeight(size) > 0
    requires MeasureAt(font, size, word, Point(0, Baseline(MetricsAt(font, size), 0))).Ok?
    requires MeasureAt(font, size, word, Point(0, Baseline(MetricsAt(font, size), 0))).value < AsI32(width)
    ensures LayoutPlan(font, size, [], width, height) == Ok([[]])
    ensures LayoutPlan(font, size, [word], width, height) == Ok([[Placement(word, 0)]])
  {
    var m := MetricsAt(font, size);
    var w := AsI32(width);
    var h := AsI32(height) - m.glyphHeight;
    var measured := MeasureAt(font, size, word, Point(0, Baseline(m, 0)));
    assert [word][1..] == [];
    assert [] + [Placement(word, 0)] == [Placement(word, 0)];
    assert Fit(font, size, m, w, [word], [], [], w, h)
        == Fit(font, size, m, w, [], [], [Placement(word, 0)], w - measured.value - m.spaceWidth, h);
    var none: seq<seq<Placement>> := [];
    assert Fit(font, size, m, w, [], [], [Placement(word, 0)], w - measured.value - m.spaceWidth, h)
        == Ok(none + [[Placement(word, 0)]]);
    assert none + [[Placement(word, 0)]] == [[Placement(word, 0)]];
    assert Fit(font, size, m, w, [], [], [], w, h) == Ok(none + [[]]);
    assert none + [[]] == [[]];
  }

  /**
   * A run of the loop that never breaks does not depend on the height budget: if it ends in a
   * single line under one budget, it ends in the same line under any other.
   */
  lemma {:induction false} SingleLineIgnoresBudget(font: Font, size: nat, m: Metrics, width: int, queue: seq<string>,
                                                   current: seq<Placement>, remainingWidth: int,
                                                   budget: int, otherBudget: int, line: seq<Placement>)
    requires m.glyphHeight > 0
    requires Fit(font, size, m, width, queue, [], current, remainingWidth, budget) == Ok([line])
    ensures Fit(font, size, m, width, queue, [], current, remainingWidth, otherBudget) == Ok([line])
    decreases |queue|
  {
    if queue != [] {
      var origin := Point(width - remainingWidth, Baseline(m, 0));
      var w := MeasureAt(font, size, queue[0], origin).value;
      if w < remainingWidth {
        SingleLineIgnoresBudget(font, size, m, width, queue[1..], current + [Placement(queue[0], origin.x)],
                                remainingWidth - w - m.spaceWidth, budget, otherBudget, line);
      } else if budget - m.glyphHeight > 0 {
        assert [] + [current] == [current];
        FitKeepsWords(font, size, m, width, queue, [current], [], width, budget - m.glyphHeight);
      }
    }
  }

  /**
   * The height is only consulted on a line break: a text laid out on one line at some height is
   * laid out on that same line at every height, however many words it holds.
   */
  lemma OneLineLayoutIgnoresHeight(font: Font, size: nat, words: seq<string>, width: u32, height: u32,
                                   otherHeight: u32, line: seq<Placement>)
    requires font.glyphHeight(size) > 0
    requires LayoutPlan(font, size, words, width, height) == Ok([line])
    ensures LayoutPlan(font, size, words, width, otherHeight) == Ok([line])
  {
    var m := MetricsAt(font, size);
    SingleLineIgnoresBudget(font, size, m, AsI32(width), words, [], AsI32(width),
                            AsI32(height) - m.glyphHeight, AsI32(otherHeight) - m.glyphHeight, line);
  }
}
