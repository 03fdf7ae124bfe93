/**
 * The Marp slide parser (`parse_marp_slides`): the deck's text is cut at every
 * `---`, blank blocks and the `marp:` front matter are skipped, and each kept
 * block becomes a slide numbered from 1 whose title is its last `# ` heading
 * and whose content is its other non-blank lines. Reading the file is left to
 * the caller: the parser starts from the file's text.
 */
module MarpSlides {
  import opened PyStr

  /** One parsed slide. */
  datatype Slide = Slide(index: int, title: string, content: string)

  const SlideSeparator: string := "---"
  const FrontMatterPrefix: string := "marp:"
  const TitlePrefix: string := "# "
  const LineBreak: string := "\n"

  /** A raw block is kept when, stripped, it is neither empty nor the `marp:` front matter. */
  predicate Kept(block: string) {
    var b := Strip(block);
    b != [] && !StartsWith(b, FrontMatterPrefix)
  }

  /** The kept blocks, stripped, in deck order. */
  function KeptBlocks(blocks: seq<string>): seq<string> {
    if blocks == [] then []
    else
      var init, last := blocks[..|blocks| - 1], blocks[|blocks| - 1];
      KeptBlocks(init) + (if Kept(last) then [Strip(last)] else [])
  }

  /** The title of a block's lines: the text after the last line starting with `# `, stripped; `""` when there is none. */
  function Title(lines: seq<string>): string {
    if lines == [] then []
    else
      var init, last := lines[..|lines| - 1], lines[|lines| - 1];
      if StartsWith(last, TitlePrefix) then Strip(last[|TitlePrefix|..]) else Title(init)
  }

  /** A line that goes into the slide's content: not a title line and not blank. */
  predicate IsContentLine(line: string) {
    !StartsWith(line, TitlePrefix) && Strip(line) != []
  }

  /** The content lines of a block, unstripped, in order. */
  function ContentLines(lines: seq<string>): seq<string> {
    if lines == [] then []
    else
      var init, last := lines[..|lines| - 1], lines[|lines| - 1];
      ContentLines(init) + (if IsContentLine(last) then [last] else [])
  }

  /** The slide made from a kept (already stripped) block. */
  function SlideOf(block: string, index: int): Slide {
    var lines := Split(block, LineBreak);
    Slide(index, Title(lines), Join(ContentLines(lines), LineBreak))
  }

  /** Kept blocks numbered 1, 2, 3, … in order. */
  function Numbered(kept: seq<string>): seq<Slide> {
    seq(|kept|, i requires 0 <= i < |kept| => SlideOf(kept[i], i + 1))
  }

  /** The slides of a deck. */
  function DeckSlides(content: string): seq<Slide> {
    Numbered(KeptBlocks(Split(content, SlideSeparator)))
  }

  // ---------------------------------------------------------------------------
  // The parser
  // ---------------------------------------------------------------------------

  /** The title and content lines gathered from the first `j` lines. */
  ghost predicate LineState(lines: seq<string>, j: nat, title: string, contentLines: seq<string>) {
    j <= |lines| && title == Title(lines[..j]) && contentLines == ContentLines(lines[..j])
  }

  lemma LineStep(lines: seq<string>, j: nat, title: string, contentLines: seq<string>)
    requires j < |lines| && LineState(lines, j, title, contentLines)
    ensures var line := lines[j];
      LineState(lines, j + 1,
        if StartsWith(line, TitlePrefix) then Strip(line[|TitlePrefix|..]) else title,
        if IsContentLine(line) then contentLines + [line] else contentLines)
  {
    PrefixSnoc(lines, j);
  }

  /** The inner loop: the slide made from one kept block. */
  method ParseBlock(slideRaw: string, index: int) returns (slide: Slide)
    ensures slide == SlideOf(slideRaw, index)
  {
    var lines := Split(slideRaw, LineBreak);
    var title := "";
    var contentLines: seq<string> := [];
    for j := 0 to |lines|
      invariant LineState(lines, j, title, contentLines)
    {
      LineStep(lines, j, title, contentLines);
      var line := lines[j];
      if StartsWith(line, TitlePrefix) {
        title := Strip(line[|TitlePrefix|..]);
      } else if Strip(line) != [] {
        contentLines := contentLines + [line];
      }
    }
    assert lines[..|lines|] == lines;
    slide := Slide(index, title, Join(contentLines, LineBreak));
  }

  lemma NumberedSnoc(kept: seq<string>, block: string)
    ensures Numbered(kept + [block]) == Numbered(kept) + [SlideOf(block, |kept| + 1)]
  {
    var a, b := Numbered(kept + [block]), Numbered(kept) + [SlideOf(block, |kept| + 1)];
    assert |a| == |b|;
    forall i | 0 <= i < |a| ensures a[i] == b[i] {
      if i < |kept| {
        assert (kept + [block])[i] == kept[i];
      }
    }
  }

  /** The slides made from the first `i` raw blocks. */
  ghost predicate BlockState(blocks: seq<string>, i: nat, slides: seq<Slide>) {
    i <= |blocks| && slides == Numbered(KeptBlocks(blocks[..i]))
  }

  lemma BlockStep(blocks: seq<string>, i: nat, slides: seq<Slide>)
    requires i < |blocks| && BlockState(blocks, i, slides)
    ensures Kept(blocks[i]) ==> BlockState(blocks, i + 1, slides + [SlideOf(Strip(blocks[i]), |slides| + 1)])
    ensures !Kept(blocks[i]) ==> BlockState(blocks, i + 1, slides)
  {
    PrefixSnoc(blocks, i);
    var kept := KeptBlocks(blocks[..i]);
    var next := KeptBlocks(blocks[..i + 1]);
    if Kept(blocks[i]) {
      assert next == kept + [Strip(blocks[i])];
      NumberedSnoc(kept, Strip(blocks[i]));
    } else {
      assert next == kept;
    }
  }

  /**
   * `parse_marp_slides` on the file's text: cut at every `---`, skip blank
   * blocks and the front matter, and number the remaining slides from 1.
   */
  method ParseMarpSlides(content: string) returns (slides: seq<Slide>)
    ensures slides == DeckSlides(content)
  {
    var slidesRaw := Split(content, SlideSeparator);
    slides := [];
    for i := 0 to |slidesRaw|
      invariant BlockState(slidesRaw, i, slides)
    {
      BlockStep(slidesRaw, i, slides);
      var slideRaw := Strip(slidesRaw[i]);
      if slideRaw != [] && !StartsWith(slideRaw, FrontMatterPrefix) {
        var slide := ParseBlock(slideRaw, |slides| + 1);
        slides := slides + [slide];
      }
    }
    assert slidesRaw[..|slidesRaw|] == slidesRaw;
  }
}
