/**
 * The layout of a title inside a `width` x `height` box (`Layout` in layout.rs): the search
 * for the largest point size whose attempt succeeds, the block's measures and the choice
 * between left-aligned and centred lines.
 */
module TextLayout {
  import opened Common
  import opened Glyphs
  import opened LineBreak

  const MAX_FONT_SIZE: nat := 120
  const MIN_FONT_SIZE: nat := 20
  const MIN_DISTANCE_TO_CENTER_TEXT: nat := 70

  /** The lines of the successful attempt and the height they share. */
  datatype Layout = Layout(lines: seq<Line>, lineHeight: int)

  datatype LayoutError = NoFittingSize(width: u32, height: u32)

  // ---------------------------------------------------------------------------------------
  // Splitting the text into words (`str::split_ascii_whitespace`)

  /** Space, tab, line feed, form feed and carriage return. */
  predicate IsAsciiWhitespace(c: char)
  {
    c == ' ' || c == '\t' || c == '\n' || c == '\U{000C}' || c == '\r'
  }

  /** The length of the run of non-whitespace characters that `s` starts with. */
  function WordEnd(s: string): (n: nat)
    ensures n <= |s|
    ensures forall i :: 0 <= i < n ==> !IsAsciiWhitespace(s[i])
    ensures n < |s| ==> IsAsciiWhitespace(s[n])
  {
    if s == [] || IsAsciiWhitespace(s[0]) then 0 else 1 + WordEnd(s[1..])
  }

  /** The maximal runs of non-whitespace characters of `s`, in order; empty words are never produced. */
  function SplitAsciiWhitespace(s: string): (words: seq<string>)
    ensures forall i :: 0 <= i < |words| ==> words[i] != []
    ensures forall i, j :: 0 <= i < |words| && 0 <= j < |words[i]| ==> !IsAsciiWhitespace(words[i][j])
    decreases |s|
  {
    if s == [] then []
    else if IsAsciiWhitespace(s[0]) then SplitAsciiWhitespace(s[1..])
    else
      var n := WordEnd(s);
      [s[..n]] + SplitAsciiWhitespace(s[n..])
  }

  function Concat(words: seq<string>): string
  {
    if words == [] then [] else words[0] + Concat(words[1..])
  }

  /** `s` with every whitespace character removed. */
  function StripWhitespace(s: string): string
  {
    if s == [] then []
    else (if IsAsciiWhitespace(s[0]) then [] else [s[0]]) + StripWhitespace(s[1..])
  }

  lemma {:induction false} StripAfterWord(s: string, n: nat)
    requires n <= |s|
    requires forall i :: 0 <= i < n ==> !IsAsciiWhitespace(s[i])
    ensures StripWhitespace(s) == s[..n] + StripWhitespace(s[n..])
  {
    if n > 0 {
      StripAfterWord(s[1..], n - 1);
      assert s[1..][n - 1..] == s[n..];
      assert [s[0]] + s[1..][..n - 1] == s[..n];
    }
  }

  /** Splitting drops whitespace and nothing else: the words put back together are the text without its whitespace. */
  lemma {:induction false} SplitKeepsText(s: string)
    ensures Concat(SplitAsciiWhitespace(s)) == StripWhitespace(s)
    decreases |s|
  {
    if s != [] {
      if IsAsciiWhitespace(s[0]) {
        SplitKeepsText(s[1..]);
      } else {
        var n := WordEnd(s);
        SplitKeepsText(s[n..]);
        StripAfterWord(s, n);
        var words := [s[..n]] + SplitAsciiWhitespace(s[n..]);
        assert words[1..] == SplitAsciiWhitespace(s[n..]);
      }
    }
  }

  /** A non-empty run without whitespace is a single word. */
  lemma OneWord(w: string)
    requires w != [] && forall i :: 0 <= i < |w| ==> !IsAsciiWhitespace(w[i])
    ensures SplitAsciiWhitespace(w) == [w]
  {
    assert w[..WordEnd(w)] == w;
  }

  lemma {:induction false} WordEndBeforeSpace(a: string, c: char, b: string)
    requires IsAsciiWhitespace(c)
    ensures WordEnd(a + [c] + b) == WordEnd(a)
  {
    if a != [] && !IsAsciiWhitespace(a[0]) {
      assert (a + [c] + b)[1..] == a[1..] + [c] + b;
      WordEndBeforeSpace(a[1..], c, b);
    }
  }

  /**
   * Words end only at whitespace: splitting at a whitespace character splits the text into the
   * words before it followed by the words after it, and no word spans it.
   */
  lemma {:induction false} SplitAtSpace(a: string, c: char, b: string)
    requires IsAsciiWhitespace(c)
    ensures SplitAsciiWhitespace(a + [c] + b) == SplitAsciiWhitespace(a) + SplitAsciiWhitespace(b)
    decreases |a|
  {
    var s := a + [c] + b;
    if a == [] {
      assert s[1..] == b;
    } else if IsAsciiWhitespace(a[0]) {
      assert s[1..] == a[1..] + [c] + b;
      SplitAtSpace(a[1..], c, b);
    } else {
      var n := WordEnd(a);
      WordEndBeforeSpace(a, c, b);
      assert s[..n] == a[..n];
      assert s[n..] == a[n..] + [c] + b;
      SplitAtSpace(a[n..], c, b);
    }
  }

  // ---------------------------------------------------------------------------------------
  // The font-size search (`Layout::new`)

  /**
   * Tries the sizes 120, 119, ..., 20 in turn and keeps the first attempt that succeeds, so
   * every larger size failed; any failure of an attempt, a malformed word included, only moves
   * on to the next size. When all 101 sizes fail the error names the box.
   */
  method New(font: Font, text: string, width: u32, height: u32) returns (r: Result<Layout, LayoutError>, ghost chosen: nat)
    requires forall s :: MIN_FONT_SIZE <= s <= MAX_FONT_SIZE ==> font.glyphHeight(s) > 0
    ensures r.Ok? ==> MIN_FONT_SIZE <= chosen <= MAX_FONT_SIZE
    ensures r.Ok? ==> AttemptAt(font, chosen, SplitAsciiWhitespace(text), width, height)
                      == Ok(Attempt(r.value.lines, r.value.lineHeight))
    ensures r.Ok? ==> forall s :: chosen < s <= MAX_FONT_SIZE ==> AttemptAt(font, s, SplitAsciiWhitespace(text), width, height).Err?
    ensures r.Err? ==> r.error == NoFittingSize(width, height)
    ensures r.Err? ==> forall s :: MIN_FONT_SIZE <= s <= MAX_FONT_SIZE ==> AttemptAt(font, s, SplitAsciiWhitespace(text), width, height).Err?
  {
    var words := SplitAsciiWhitespace(text);
    var size := MAX_FONT_SIZE;
    while size >= MIN_FONT_SIZE
      invariant MIN_FONT_SIZE - 1 <= size <= MAX_FONT_SIZE
      invariant forall s :: size < s <= MAX_FONT_SIZE ==> AttemptAt(font, s, words, width, height).Err?
    {
      var attempt := LayoutAtFontSize(font, words, width, height, size);
      if attempt.Ok? {
        r, chosen := Ok(Layout(attempt.value.lines, attempt.value.lineHeight)), size;
        return;
      }
      size := size - 1;
    }
    r, chosen := Err(NoFittingSize(width, height)), 0;
  }

  /**
   * A word the font cannot measure at any size makes every attempt fail, so the search ends
   * with `NoFittingSize` rather than with the word's own error.
   */
  lemma MalformedWordFailsEverySize(font: Font, text: string, width: u32, height: u32, i: nat)
    requires forall s :: MIN_FONT_SIZE <= s <= MAX_FONT_SIZE ==> font.glyphHeight(s) > 0
    requires i < |SplitAsciiWhitespace(text)|
    requires forall s :: MIN_FONT_SIZE <= s <= MAX_FONT_SIZE ==> AlwaysMalformed(font, s, SplitAsciiWhitespace(text)[i])
    ensures forall s :: MIN_FONT_SIZE <= s <= MAX_FONT_SIZE ==> AttemptAt(font, s, SplitAsciiWhitespace(text), width, height).Err?
  {
    var words := SplitAsciiWhitespace(text);
    forall s | MIN_FONT_SIZE <= s <= MAX_FONT_SIZE
      ensures AttemptAt(font, s, words, width, height).Err?
    {
      var m := MetricsAt(font, s);
      MalformedWordFails(font, s, m, AsI32(width), words, [], [], AsI32(width), AsI32(height) - m.glyphHeight, i);
    }
  }

  // ---------------------------------------------------------------------------------------
  // Measures of the block

  /** `Layout::calculated_width`: the widest line, or 0 without lines. */
  function CalculatedWidth(lines: seq<Line>): (r: u32)
    ensures forall i :: 0 <= i < |lines| ==> LineWidth(lines[i]) <= r
    ensures lines == [] ==> r == 0
    ensures lines != [] ==> exists i :: 0 <= i < |lines| && r == LineWidth(lines[i])
  {
    if lines == [] then 0
    else
      var rest := CalculatedWidth(lines[1..]);
      assert forall i :: 1 <= i < |lines| ==> lines[i] == lines[1..][i - 1];
      if LineWidth(lines[0]) >= rest then LineWidth(lines[0]) else rest
  }

  /** `Layout::calculated_height`: one line height per line. */
  function CalculatedHeight(layout: Layout): int
  {
    |layout.lines| * layout.lineHeight
  }

  /** A layout the search can return, taller than one line, is strictly less tall than the box. */
  lemma LayoutFitsHeight(font: Font, size: nat, words: seq<string>, width: u32, height: u32, layout: Layout)
    requires font.glyphHeight(size) > 0
    requires AttemptAt(font, size, words, width, height) == Ok(Attempt(layout.lines, layout.lineHeight))
    requires |layout.lines| >= 2
    ensures CalculatedHeight(layout) < height
  {
    AttemptFitsHeight(font, size, words, width, height);
  }

  // ---------------------------------------------------------------------------------------
  // Alignment (`calculate_padding`, `HorizontalLayoutCalculator::left_padding`)

  /** `HorizontalLayoutCalculator`: the centring closure is represented by the width it captured. */
  datatype Alignment = LeftAligned | CenterAligned(maxWidth: u32)

  /** Some line is more than the threshold narrower than `maxWidth` (the `any` of `calculate_padding`). */
  function AnyFarFromWidest(lines: seq<Line>, maxWidth: u32): (r: bool)
    requires forall i :: 0 <= i < |lines| ==> LineWidth(lines[i]) <= maxWidth
    ensures r <==> exists i :: 0 <= i < |lines| && maxWidth - LineWidth(lines[i]) > MIN_DISTANCE_TO_CENTER_TEXT
  {
    if lines == [] then false
    else
      assert forall i :: 1 <= i < |lines| ==> lines[i] == lines[1..][i - 1];
      maxWidth - LineWidth(lines[0]) > MIN_DISTANCE_TO_CENTER_TEXT || AnyFarFromWidest(lines[1..], maxWidth)
  }

  /** The block is centred exactly when some line is more than 70 px narrower than the widest one. */
  function CalculatePadding(lines: seq<Line>): (r: Alignment)
    ensures r.CenterAligned? <==>
              exists i :: 0 <= i < |lines| && CalculatedWidth(lines) - LineWidth(lines[i]) > MIN_DISTANCE_TO_CENTER_TEXT
    ensures r.CenterAligned? ==> r.maxWidth == CalculatedWidth(lines)
  {
    var maxWidth := CalculatedWidth(lines);
    if AnyFarFromWidest(lines, maxWidth) then CenterAligned(maxWidth) else LeftAligned
  }

  /** Left padding of a line: none when left-aligned, half the gap to the widest line (rounded down) when centred. */
  function LeftPadding(alignment: Alignment, lineWidth: u32): (r: u32)
    requires alignment.CenterAligned? ==> lineWidth <= alignment.maxWidth
    ensures alignment.LeftAligned? ==> r == 0
    ensures alignment.CenterAligned? ==> 2 * r + lineWidth <= alignment.maxWidth < 2 * r + lineWidth + 2
  {
    match alignment
    case LeftAligned => 0
    case CenterAligned(maxWidth) => (maxWidth - lineWidth) / 2
  }

  /**
   * Under the block's alignment every line stays inside the block, the widest line is never
   * moved, and lines are moved only when some line is more than the threshold narrower.
   */
  lemma PaddingKeepsLinesInBlock(lines: seq<Line>, i: nat)
    requires i < |lines|
    ensures var pad := LeftPadding(CalculatePadding(lines), LineWidth(lines[i]));
            && pad + LineWidth(lines[i]) <= CalculatedWidth(lines)
            && (LineWidth(lines[i]) == CalculatedWidth(lines) ==> pad == 0)
            && ((forall j :: 0 <= j < |lines| ==> CalculatedWidth(lines) - LineWidth(lines[j]) <= MIN_DISTANCE_TO_CENTER_TEXT)
                  ==> pad == 0)
  {
  }
}
