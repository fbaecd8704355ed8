# Title layout engine of blog-opengraph-image, in Dafny

This project models the core of the program that draws a blog post's title onto its
OpenGraph image. It covers two things.

**Laying out the title** (`src/layout.rs`):

- It searches the point sizes from 120 down to 20 for the largest one at which the words fit a `width` x `height` box.
- It uses a greedy line breaker: one pass over a queue of words, with push-back.
- It measures the resulting block.
- It chooses between left-aligned and centred lines.
- It draws every covered glyph pixel onto an RGBA canvas, clipping pixels that fall outside the canvas.

**Reading the article's front matter** (`src/article.rs`):

- The line pipeline keeps the block between `+++` fences and joins it with line feeds.
- The fallbacks of `retrieve` cover the slug, the tags, and a path that is not a file.

The font is an oracle with integer outputs. For each point size it gives the glyph height, the descent and the advance of a space. It also lays a word out as positioned glyphs from a given origin. Each glyph has an optional exact width, a left side bearing, an optional pixel box and the list of pixels its rasterisation covers. The modules are:

- `Common`: `Option`, `Result`, and the `as u32` / `as i32` reinterpretations of Rust.
- `Glyphs`: the font oracle, glyphs, `word_width` and `Line::calculated_width`.
- `LineBreak`: `layout_at_font_size`. The loop is `LayoutAtFontSize`. `Fit` is the same loop written as a function over the loop's state. It yields a plan: for each line, the words placed on it and their x origins. `Realise` turns a plan into glyph lines. The method is proved to return exactly the `Realise` of `Fit`'s plan, and the properties of an attempt are proved about `Fit`.
- `TextLayout`: `split_ascii_whitespace`, `Layout::new`, the measures, `calculate_padding` and `left_padding`. The boxed closure is the datatype `LeftAligned | CenterAligned(maxWidth)`.
- `Render`: `Line::render` and `Layout::render`, on a canvas of type `array2<Rgba>` indexed `[x, y]`. The method is specified pixel by pixel. Each pixel's final colour is the result of drawing, in order, every write of the line or layout that targets it and lands on the canvas.
- `Article`: `parse_article`'s pipeline and `ArticleInformation::retrieve`.

Three behaviours of the code are easy to misread; the model follows the code:

- **A word at least as wide as the box is never placed.** It is pushed back in front of an empty line again and again until the height budget runs out. The attempt at that size then fails (`LineBreak.OverWideWordFails`). It is not drawn overflowing.
- **A malformed word does not end the search.** `Layout::new` treats every failed attempt alike and tries the next smaller size (`TextLayout.New`, `TextLayout.MalformedWordFailsEverySize`). The final error is the box-size error.
- **The height budget is only checked when a line breaks.** A text that fits on one line at size 120 is therefore laid out at 120 whatever the box height, even a height of 1 (`LineBreak.OneLineLayoutIgnoresHeight`, `LineBreak.OneLineIgnoresHeight`). "Calculated height is at most the box height" holds only for layouts of two lines or more, where it is strict (`LineBreak.AttemptFitsHeight`, `TextLayout.LayoutFitsHeight`).

## Model

| member | source | states |
|---|---|---|
| Glyphs.LastBoundedMeaning | src/layout.rs:215-219 | the `filter(..).last()` search finds the last glyph with an exact bounding box, and finds none only when no glyph has one |
| Glyphs.WordWidthMeaning | src/layout.rs:211-226 | the width of a word is the exact width of its last bounded glyph plus that glyph's x minus the first glyph's x; it is an error exactly when the word is empty (no first letter) or no glyph is bounded (no last letter) |
| Glyphs.LineWidth | src/layout.rs:201-208 | the width of a line is 0 without glyphs; when the run cannot be measured it is the first glyph's left side bearing alone; the sum is reinterpreted as `u32` |
| LineBreak.LayoutAtFontSize | src/layout.rs:52-113 | the queue loop returns exactly the attempt given by the breaking plan: the realised lines and the glyph height, or the plan's error (malformed word, no room) |
| LineBreak.FitBreaksGreedily | src/layout.rs:75-106 | from a state that already obeys them, the loop yields a plan obeying the two placement rules: in each row the first word is at x = 0 and each next word at the previous word's x plus its measured width plus one space advance; every row but the last was closed only because the next word, tried at the row's end cursor, measured at least the width left |
| LineBreak.AttemptBreaksGreedily | src/layout.rs:80-106 | in a successful attempt the words of each line sit at those running origins, and every line but the last was closed only because the next input word did not fit after it |
| LineBreak.FitKeepsWords | src/layout.rs:73-112 | every queued word ends up in the plan exactly once and in queue order, after the words already placed, and the plan has at least one line more than those already closed |
| LineBreak.AttemptKeepsWords | src/layout.rs:109-112 | a successful attempt has at least one line (the last line is flushed even when empty) and its lines hold the input words, once each, in order |
| LineBreak.FitHeightBudget | src/layout.rs:100-106 | the n lines closed after the first satisfy n · glyph height < remaining height |
| LineBreak.AttemptFitsHeight | src/layout.rs:70-106 | a successful attempt with k ≥ 2 lines has k · line height < height (read as `i32`) ≤ height |
| LineBreak.FitPlacesWithinWidth | src/layout.rs:80-91 | in a successful plan every line starts at x = 0, and every word, measured where it was laid out, ends strictly before the width |
| LineBreak.AttemptFitsWidth | src/layout.rs:66-91 | the same width property for the plan of a whole attempt |
| LineBreak.OverWideWordFails | src/layout.rs:87-106 | with non-negative measures and space advance, a queued word measuring at least the width wherever it is laid out makes the attempt fail |
| LineBreak.MalformedWordFails | src/layout.rs:86 | a queued word that cannot be measured makes the attempt fail, however far back it is |
| LineBreak.OneLineIgnoresHeight | src/layout.rs:70-112 | zero words give one empty line, and one word narrower than the width gives one line holding it at x = 0, whatever the height |
| LineBreak.SingleLineIgnoresBudget | src/layout.rs:92-106 | a run of the loop that ends in a single line ends in the same line under any other height budget, because the budget is read only on a break |
| LineBreak.OneLineLayoutIgnoresHeight | src/layout.rs:70-112 | a text laid out on one line at some height is laid out on that same line at every height, whatever the number of words |
| TextLayout.SplitAsciiWhitespace | src/layout.rs:35 | the words are non-empty and hold no ASCII whitespace |
| TextLayout.SplitKeepsText | src/layout.rs:35 | concatenating the words gives the text with its whitespace removed, so nothing else is dropped and the order is kept |
| TextLayout.OneWord | src/layout.rs:35 | a non-empty run without ASCII whitespace is a single word |
| TextLayout.SplitAtSpace | src/layout.rs:35 | splitting a text at a whitespace character gives the words before it followed by the words after it, so words end only at whitespace or at the end of the text |
| TextLayout.New | src/layout.rs:34-50 | sizes are tried from 120 down; on success the layout is the attempt at the chosen size and every larger size failed; otherwise the error names width and height and every size from 20 to 120 failed |
| TextLayout.MalformedWordFailsEverySize | src/layout.rs:36-44 | a word that is malformed at every size makes every attempt fail, so the search ends with the box-size error |
| TextLayout.CalculatedWidth | src/layout.rs:115-121 | the block width is at least every line's width and equals one of them; it is 0 without lines |
| TextLayout.LayoutFitsHeight | src/layout.rs:139-141 | the calculated height (lines × line height) of an attempted layout of two lines or more is less than the box height |
| TextLayout.AnyFarFromWidest | src/layout.rs:127-131 | true exactly when some line is more than 70 px narrower than the given maximum |
| TextLayout.CalculatePadding | src/layout.rs:123-137 | the block is centred exactly when some line is more than 70 px narrower than the widest, and then centres on the widest line's width |
| TextLayout.LeftPadding | src/layout.rs:20-25 | no padding when left-aligned; when centred, the padding is the floor of half the gap: 2·pad + w ≤ max < 2·pad + w + 2 |
| TextLayout.PaddingKeepsLinesInBlock | src/layout.rs:123-137 | under the block's alignment each padded line stays within the block's width, the widest line gets no padding, and no line is padded when every line is within 70 px of the widest |
| Render.CompositeAppend | src/layout.rs:174-197 | drawing two runs of pixel writes one after the other is drawing their concatenation |
| Render.UntouchedPixelKept | src/layout.rs:186-194 | a pixel that no write on the canvas targets keeps its colour, so writes off the canvas change nothing |
| Render.LineWritesShift | src/layout.rs:180 | a line's padding moves every pixel write right by the padding and changes nothing else |
| Render.DrawGlyph | src/layout.rs:175-196 | a glyph without a pixel box draws nothing; otherwise each covered pixel at (dx + min.x + left, dy + min.y + top) that lies on the canvas is blended with the colour, in drawing order |
| Render.RenderLine | src/layout.rs:163-199 | after drawing a line, each canvas pixel is its old colour composited with the line's writes, shifted by x plus the line's padding and by y |
| Render.RenderLayout | src/layout.rs:143-155 | the alignment is computed once and the lines are drawn in order; each pixel is its old colour composited with all the layout's writes |
| Article.SkipWhile | src/article.rs:65-66 | drops exactly the longest prefix whose lines are (or are not) fences: the result is a suffix, everything dropped matched, and the next line does not |
| Article.TakeUntilFence | src/article.rs:67 | keeps exactly the longest prefix without a fence line: the result is a prefix, holds no fence, and is followed by a fence or the end |
| Article.FrontMatterIsBlock | src/article.rs:62-69 | the block is the contiguous run of input lines between the opening run of fences and the next fence; every line before the first fence and every line of the opening run is dropped; the block holds no fence |
| Article.NoFenceNoFrontMatter | src/article.rs:65 | without any fence line the block is empty |
| Article.SplitJoin | src/article.rs:69 | joining lines without line feeds with "\n" and splitting at "\n" gives the lines back, so there is no separator before the first line or after the last |
| Article.JoinSplit | src/article.rs:69 | splitting a text at a separator and joining the parts gives the text back |
| Article.FrontMatterTextLines | src/article.rs:62-69 | the text handed to the TOML parser splits back into exactly the block's lines |
| Article.Retrieve | src/article.rs:29-57 | a path that is not a file is an error, as is front matter the parser rejects; retrieval succeeds exactly for a file whose front matter parses and that has a front-matter slug or a file stem; the front matter's slug wins over the file stem, both are slugified, and having neither is the only slug error; the title is copied; the image is a `png` next to the article (in "." without a parent); tags default to none |
| Article.SlugPrecedence | src/article.rs:34-46 | when the front matter names a slug, the file stem plays no part in the result, and the result is not an error |

## Left out

- rusttype is not part of this model. This covers vertical and horizontal metrics, exact and pixel bounding boxes, word layout and rasterisation. They are oracle values in `Glyphs.Font` and in each glyph's `coverage` list. The oracle's widths and positions are already integers, so they absorb the float computations and truncating `as i32` casts at src/layout.rs:62-64 and 81-82. At src/layout.rs:225 the source truncates the float sum `bb.width() + (last.x − first.x)`, while the model adds two integers that were truncated separately. The baseline of a row is `(row + 1) · glyph height + descent` on those integers.
- Glyph height: the model requires it to be positive at every size tried. With a glyph height of zero or less and a word that never fits, the source's loop would not terminate.
- The third error of `word_width` ("no bounding box for the last letter") cannot happen after the filter that picks the last bounded glyph, so it is not modelled.
- `LineBreak.LayoutAtFontSize`: the `i32` arithmetic on the remaining width and height is unbounded in the model. An overflow, which would need widths or heights near 2^31, is not modelled.
- `TextLayout.LayoutFitsHeight`: `calculated_height` multiplies in `u32`. The model multiplies unbounded integers, so an overflow of that product is not modelled.
- `Render.RenderLine`: the `i32` sums of pixel coordinates are unbounded in the model. The canvas sides are required to fit in `u32`, as they do in the image crate.
- Colour blending (imageproc's `weighted_sum(pixel, color, 1 − v, v)`) is a function parameter `blend`. The model fixes which pixels are blended and in what order, not the float arithmetic of the blend.
- `Layout::render` and `Line::render` always return `Ok`, so the render methods have no error result.
- The `println!` logging in `Layout::new` and `layout_at_font_size` is left out.
- `Article.Retrieve` replaces these with parameters: opening and reading the file, the `is_file` test, `toml::from_str`, `slug::slugify`, and the path's stem and parent. The readable lines of the file are an input, which also stands in for the dropping of unreadable lines. An error from opening the file is not modelled. The image path is kept as its parts: directory, stem and extension.
- src/main.rs and src/background.rs are not part of this model.
