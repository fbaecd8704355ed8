/**
 * Reading an article's front matter (`parse_article`, `ArticleInformation::retrieve` in
 * article.rs).
 *
 * The file's readable lines are an input sequence; the TOML parser, `slugify`, the file-system
 * test and the path's stem and parent are parameters.
 */
module Article {
  import opened Common

  /** The marker that opens and closes a front-matter block. */
  const FENCE: string := "+++"

  /** `line.starts_with("+++")`. */
  predicate IsFence(line: string)
  {
    |line| >= |FENCE| && line[..|FENCE|] == FENCE
  }

  // ---------------------------------------------------------------------------------------
  // The line pipeline of `parse_article`

  /** `skip_while`: drops the leading lines for which `IsFence(line) == fence`. */
  function SkipWhile(lines: seq<string>, fence: bool): (r: seq<string>)
    ensures |r| <= |lines| && r == lines[|lines| - |r|..]
    ensures forall i :: 0 <= i < |lines| - |r| ==> IsFence(lines[i]) == fence
    ensures r != [] ==> IsFence(r[0]) != fence
  {
    if lines == [] || IsFence(lines[0]) != fence then lines else SkipWhile(lines[1..], fence)
  }

  /** `take_while(!starts_with("+++"))`: the lines up to, and without, the next fence. */
  function TakeUntilFence(lines: seq<string>): (r: seq<string>)
    ensures |r| <= |lines| && r == lines[..|r|]
    ensures forall i :: 0 <= i < |r| ==> !IsFence(r[i])
    ensures |r| < |lines| ==> IsFence(lines[|r|])
  {
    if lines == [] || IsFence(lines[0]) then [] else [lines[0]] + TakeUntilFence(lines[1..])
  }

  /** The lines of the front-matter block: after the opening run of fences, up to the next fence. */
  function FrontMatterLines(lines: seq<string>): seq<string>
  {
    TakeUntilFence(SkipWhile(SkipWhile(lines, false), true))
  }

  /** The first index at or after `from` whose line has `IsFence(line) == fence`, or `|lines|` if none. */
  function FirstFrom(lines: seq<string>, from: nat, fence: bool): (r: nat)
    requires from <= |lines|
    ensures from <= r <= |lines|
    ensures forall i :: from <= i < r ==> IsFence(lines[i]) != fence
    ensures r < |lines| ==> IsFence(lines[r]) == fence
    decreases |lines| - from
  {
    if from == |lines| || IsFence(lines[from]) == fence then from else FirstFrom(lines, from + 1, fence)
  }

  lemma {:induction false} SkipWhileFrom(lines: seq<string>, from: nat, fence: bool)
    requires from <= |lines|
    ensures SkipWhile(lines[from..], !fence) == lines[FirstFrom(lines, from, fence)..]
    decreases |lines| - from
  {
    if from < |lines| && IsFence(lines[from]) != fence {
      assert lines[from..][1..] == lines[from + 1..];
      SkipWhileFrom(lines, from + 1, fence);
    }
  }

  lemma {:induction false} TakeUntilFenceFrom(lines: seq<string>, from: nat)
    requires from <= |lines|
    ensures TakeUntilFence(lines[from..]) == lines[from..FirstFrom(lines, from, true)]
    decreases |lines| - from
  {
    if from < |lines| && !IsFence(lines[from]) {
      assert lines[from..][1..] == lines[from + 1..];
      TakeUntilFenceFrom(lines, from + 1);
      assert lines[from..FirstFrom(lines, from, true)] == [lines[from]] + lines[from + 1..FirstFrom(lines, from, true)];
    }
  }

  /**
   * The block is the contiguous run `lines[body..close]`, where `open` is the first fence,
   * `body` the first line after the run of fences that starts there, and `close` the next fence
   * (or the end). Everything before `open` and every line of the opening run is dropped; nothing
   * from `close` on is kept; the block holds no fence.
   */
  lemma FrontMatterIsBlock(lines: seq<string>)
    ensures var open := FirstFrom(lines, 0, true);
            var body := FirstFrom(lines, open, false);
            var close := FirstFrom(lines, body, true);
            && (forall i :: 0 <= i < open ==> !IsFence(lines[i]))
            && (forall i :: open <= i < body ==> IsFence(lines[i]))
            && FrontMatterLines(lines) == lines[body..close]
            && (forall i :: 0 <= i < |FrontMatterLines(lines)| ==> !IsFence(FrontMatterLines(lines)[i]))
            && (close < |lines| ==> IsFence(lines[close]))
  {
    var open := FirstFrom(lines, 0, true);
    var body := FirstFrom(lines, open, false);
    SkipWhileFrom(lines, 0, true);
    assert lines[0..] == lines;
    SkipWhileFrom(lines, open, false);
    TakeUntilFenceFrom(lines, body);
  }

  /** Without any fence line the block is empty. */
  lemma NoFenceNoFrontMatter(lines: seq<string>)
    requires forall i :: 0 <= i < |lines| ==> !IsFence(lines[i])
    ensures FrontMatterLines(lines) == []
  {
    FrontMatterIsBlock(lines);
  }

  // ---------------------------------------------------------------------------------------
  // `join("\n")` and its inverse

  /** `join`: the parts with `sep` between each two, and no separator before the first or after the last. */
  function Join(parts: seq<string>, sep: string): string
  {
    if parts == [] then []
    else if |parts| == 1 then parts[0]
    else parts[0] + sep + Join(parts[1..], sep)
  }

  /** `split(sep)`: the maximal runs between separators; always at least one part. */
  function Split(s: string, sep: char): (parts: seq<string>)
    ensures |parts| >= 1
    ensures forall i :: 0 <= i < |parts| ==> sep !in parts[i]
  {
    if s == [] then [[]]
    else
      var rest := Split(s[1..], sep);
      if s[0] == sep then [[]] + rest
      else [[s[0]] + rest[0]] + rest[1..]
  }

  lemma {:induction false} SplitAfterPart(p: string, sep: char, r: string)
    requires sep !in p
    ensures Split(p + [sep] + r, sep) == [p] + Split(r, sep)
  {
    if p == [] {
      assert (p + [sep] + r)[1..] == r;
    } else {
      SplitAfterPart(p[1..], sep, r);
      assert (p + [sep] + r)[1..] == p[1..] + [sep] + r;
      assert [p[0]] + p[1..] == p;
    }
  }

  lemma {:induction false} SplitPart(p: string, sep: char)
    requires sep !in p
    ensures Split(p, sep) == [p]
  {
    if p != [] {
      SplitPart(p[1..], sep);
      assert [p[0]] + p[1..] == p;
    }
  }

  /** Lines without the separator come back unchanged from their join: nothing is added or lost. */
  lemma {:induction false} SplitJoin(parts: seq<string>, sep: char)
    requires parts != []
    requires forall i :: 0 <= i < |parts| ==> sep !in parts[i]
    ensures Split(Join(parts, [sep]), sep) == parts
  {
    if |parts| == 1 {
      SplitPart(parts[0], sep);
    } else {
      SplitJoin(parts[1..], sep);
      SplitAfterPart(parts[0], sep, Join(parts[1..], [sep]));
      assert [parts[0]] + parts[1..] == parts;
    }
  }

  /** Joining the parts of a split gives the text back. */
  lemma {:induction false} JoinSplit(s: string, sep: char)
    ensures Join(Split(s, sep), [sep]) == s
  {
    if s != [] {
      var rest := Split(s[1..], sep);
      JoinSplit(s[1..], sep);
      if s[0] == sep {
        assert ([[]] + rest)[1..] == rest;
      } else {
        var parts := [[s[0]] + rest[0]] + rest[1..];
        assert parts[1..] == rest[1..];
        if |rest| > 1 {
          assert Join(rest, [sep]) == rest[0] + [sep] + Join(rest[1..], [sep]);
        }
      }
    }
  }

  /** The text handed to the TOML parser. */
  function FrontMatterText(lines: seq<string>): string
  {
    Join(FrontMatterLines(lines), "\n")
  }

  /** The front-matter text holds exactly the block's lines: splitting it at line feeds gives them back. */
  lemma FrontMatterTextLines(lines: seq<string>)
    requires forall i :: 0 <= i < |lines| ==> '\n' !in lines[i]
    requires FrontMatterLines(lines) != []
    ensures Split(FrontMatterText(lines), '\n') == FrontMatterLines(lines)
  {
    FrontMatterIsBlock(lines);
    SplitJoin(FrontMatterLines(lines), '\n');
  }

  // ---------------------------------------------------------------------------------------
  // `ArticleInformation::retrieve`

  datatype Taxonomies = Taxonomies(tags: seq<string>)

  /** The fields of the front matter the program reads. */
  datatype FrontMatter = FrontMatter(title: string, slug: Option<string>, taxonomies: Option<Taxonomies>)

  /** `parent.join(slug).with_extension("png")`, kept as its parts. */
  datatype ImagePath = ImagePath(directory: string, stem: string, extension: string)

  datatype ArticleInformation = ArticleInformation(imagePath: ImagePath, title: string, tags: seq<string>)

  datatype RetrieveError =
    | NotAFile(path: string)
    | InvalidFrontMatter
    | NoSlug

  /**
   * `retrieve`: a path that is not a file is an error; so is front matter the parser rejects.
   * The slug comes from the front matter when it has one and from the file stem otherwise,
   * and is slugified either way; without either it is an error. The image sits next to the
   * article (in "." without a parent) and the tags default to none.
   */
  function Retrieve(path: string, isFile: bool, lines: seq<string>, parse: string -> Option<FrontMatter>,
                    fileStem: Option<string>, parent: Option<string>, slugify: string -> string)
    : (r: Result<ArticleInformation, RetrieveError>)
    ensures !isFile ==> r == Err(NotAFile(path))
    ensures isFile && parse(FrontMatterText(lines)).None? ==> r == Err(InvalidFrontMatter)
    ensures r.Ok? <==> isFile && parse(FrontMatterText(lines)).Some?
                       && (parse(FrontMatterText(lines)).value.slug.Some? || fileStem.Some?)
    ensures r.Ok? ==> var article := parse(FrontMatterText(lines)).value;
                      && r.value.title == article.title
                      && r.value.imagePath.extension == "png"
                      && r.value.imagePath.directory == (if parent.Some? then parent.value else ".")
                      && (article.slug.Some? ==> r.value.imagePath.stem == slugify(article.slug.value))
                      && (article.slug.None? ==> fileStem.Some? && r.value.imagePath.stem == slugify(fileStem.value))
                      && r.value.tags == (if article.taxonomies.Some? then article.taxonomies.value.tags else [])
    ensures r == Err(NoSlug) <==>
              isFile && parse(FrontMatterText(lines)).Some?
              && parse(FrontMatterText(lines)).value.slug.None? && fileStem.None?
  {
    if !isFile then Err(NotAFile(path))
    else match parse(FrontMatterText(lines))
      case None => Err(InvalidFrontMatter)
      case Some(article) =>
        var slug := match article.slug
          case Some(s) => Some(s)
          case None => fileStem;
        match slug
        case None => Err(NoSlug)
        case Some(s) =>
          var directory := match parent case Some(p) => p case None => ".";
          var tags := match article.taxonomies case Some(t) => t.tags case None => [];
          Ok(ArticleInformation(ImagePath(directory, slugify(s), "png"), article.title, tags))
  }

  /** When the front matter names a slug, the file stem plays no part in the result. */
  lemma SlugPrecedence(path: string, lines: seq<string>, parse: string -> Option<FrontMatter>,
                       stem1: Option<string>, stem2: Option<string>, parent: Option<string>, slugify: string -> string)
    requires parse(FrontMatterText(lines)).Some? && parse(FrontMatterText(lines)).value.slug.Some?
    ensures Retrieve(path, true, lines, parse, stem1, parent, slugify) == Retrieve(path, true, lines, parse, stem2, parent, slugify)
    ensures Retrieve(path, true, lines, parse, stem1, parent, slugify).Ok?
  {
  }
}
