/**
 * What the Marp parser promises: the deck is cut at `---` and put back
 * together by joining with `---`; the kept blocks are exactly the non-blank,
 * non-front-matter blocks, stripped, in deck order; slides are numbered 1, 2,
 * 3, … without gaps; a slide's title is its last `# ` heading; and its
 * content is exactly its non-blank, non-title lines, in order, joined by line
 * breaks (so it splits back into them).
 */
module MarpProperties {
  import opened PyStr
  import opened MarpSlides

  // ---------------------------------------------------------------------------
  // Splitting a joined text back
  // ---------------------------------------------------------------------------

  /** With no separator in `a`, the first separator of `a + sep + b` is the one right after `a`. */
  lemma FindAfter(a: string, sep: string, b: string)
    requires |sep| == 1 && !Contains(a, sep)
    ensures Find(a + sep + b, sep) == |a|
  {
    var s := a + sep + b;
    assert OccursAt(s, sep, |a|) by {
      assert s[|a|..|a| + 1] == sep;
    }
    var i := Find(s, sep);
    if i < |a| {
      assert OccursAt(s, sep, i);
      assert a[i..i + 1] == s[i..i + 1];
      assert OccursAt(a, sep, i);
      assert false;
    }
  }

  /** A string with no separator in it is found to have none. */
  lemma FindNone(a: string, sep: string)
    requires |sep| > 0 && !Contains(a, sep)
    ensures Find(a, sep) == |a|
  {
  }

  /**
   * Splitting at a one-character separator undoes joining with it, as long as
   * no part contains the separator: the inverse of `PyStr.SplitJoin`.
   */
  lemma {:induction false} JoinSplit(parts: seq<string>, sep: string)
    requires |sep| == 1 && parts != []
    requires forall p :: p in parts ==> !Contains(p, sep)
    ensures Split(Join(parts, sep), sep) == parts
    decreases |parts|
  {
    if |parts| == 1 {
      FindNone(parts[0], sep);
    } else {
      var head, tail := parts[0], parts[1..];
      var rest := Join(tail, sep);
      var s := head + sep + rest;
      assert Join(parts, sep) == s;
      FindAfter(head, sep, rest);
      assert s[..|head|] == head;
      assert s[|head| + |sep|..] == rest;
      assert Split(s, sep) == [head] + Split(rest, sep);
      assert forall k :: 0 <= k < |tail| ==> tail[k] == parts[k + 1];
      JoinSplit(tail, sep);
      HeadTail(parts);
    }
  }

  // ---------------------------------------------------------------------------
  // Kept blocks
  // ---------------------------------------------------------------------------

  /** Keeping blocks works block by block: the kept blocks of a concatenation are those of each half, in order. */
  lemma {:induction false} KeptBlocksAppend(a: seq<string>, b: seq<string>)
    ensures KeptBlocks(a + b) == KeptBlocks(a) + KeptBlocks(b)
    decreases |b|
  {
    if b == [] {
      assert a + b == a;
    } else {
      var init, last := b[..|b| - 1], b[|b| - 1];
      assert (a + b)[..|a + b| - 1] == a + init;
      assert (a + b)[|a + b| - 1] == last;
      KeptBlocksAppend(a, init);
      AppendAssoc(KeptBlocks(a), KeptBlocks(init), if Kept(last) then [Strip(last)] else []);
    }
  }

  /** Keeping one block: its stripped text when it is kept, nothing otherwise. */
  lemma KeptBlocksSingle(block: string)
    ensures KeptBlocks([block]) == if Kept(block) then [Strip(block)] else []
  {
    assert [block][..0] == [];
  }

  /** There are no more kept blocks than blocks. */
  lemma {:induction false} KeptBlocksLength(blocks: seq<string>)
    ensures |KeptBlocks(blocks)| <= |blocks|
  {
    if blocks != [] {
      KeptBlocksLength(blocks[..|blocks| - 1]);
    }
  }

  /**
   * A block that is neither blank nor front matter is kept, stripped, right
   * after the kept blocks before it: it is kept block number
   * `|KeptBlocks(blocks[..j])|` (counting from 0).
   */
  lemma KeptBlockAt(blocks: seq<string>, j: nat)
    requires j < |blocks| && Kept(blocks[j])
    ensures KeptBlocks(blocks) == KeptBlocks(blocks[..j]) + [Strip(blocks[j])] + KeptBlocks(blocks[j + 1..])
  {
    SplitAround(blocks, j);
    KeptBlocksAppend(blocks[..j] + [blocks[j]], blocks[j + 1..]);
    KeptBlocksAppend(blocks[..j], [blocks[j]]);
    KeptBlocksSingle(blocks[j]);
  }

  /** Block `j` is kept and exactly `i` blocks before it are kept. */
  ghost predicate KeptAs(blocks: seq<string>, j: int, i: int) {
    0 <= j < |blocks| && Kept(blocks[j]) && |KeptBlocks(blocks[..j])| == i
  }

  /** Where a block stands among the kept blocks does not depend on the blocks after it. */
  lemma KeptAsPrefix(blocks: seq<string>, n: nat, j: nat, i: nat)
    requires j < n <= |blocks| && KeptAs(blocks[..n], j, i)
    ensures KeptAs(blocks, j, i)
  {
    PrefixOfPrefix(blocks, n, j);
  }

  /**
   * Every kept block comes from a block of the deck: kept block `i` is the
   * stripped text of the block `j` that is kept after exactly `i` kept blocks.
   */
  lemma {:induction false} KeptBlockOrigin(blocks: seq<string>, i: nat) returns (j: nat)
    requires i < |KeptBlocks(blocks)|
    ensures KeptAs(blocks, j, i)
    ensures KeptBlocks(blocks)[i] == Strip(blocks[j])
  {
    var n := |blocks|;
    var init := blocks[..n - 1];
    if i < |KeptBlocks(init)| {
      j := KeptBlockOrigin(init, i);
      KeptAsPrefix(blocks, n - 1, j, i);
      assert init[j] == blocks[j];
    } else {
      j := n - 1;
    }
  }

  /** Every kept block is non-empty, already stripped, and not the `marp:` front matter. */
  lemma KeptBlocksShape(blocks: seq<string>, i: nat)
    requires i < |KeptBlocks(blocks)|
    ensures var x := KeptBlocks(blocks)[i];
      x != [] && IsStripped(x) && !StartsWith(x, FrontMatterPrefix)
  {
    var j := KeptBlockOrigin(blocks, i);
  }

  // ---------------------------------------------------------------------------
  // Title and content of one slide
  // ---------------------------------------------------------------------------

  /** A block without a `# ` line has the empty title (a `## ` line is not a title). */
  lemma {:induction false} TitleNone(lines: seq<string>)
    requires forall k :: 0 <= k < |lines| ==> !StartsWith(lines[k], TitlePrefix)
    ensures Title(lines) == []
  {
    if lines != [] {
      var init := lines[..|lines| - 1];
      assert forall k :: 0 <= k < |init| ==> init[k] == lines[k];
      TitleNone(init);
    }
  }

  /** The title is the stripped text after the last `# ` line: a later heading overrides an earlier one. */
  lemma {:induction false} TitleLast(lines: seq<string>, j: nat)
    requires j < |lines| && StartsWith(lines[j], TitlePrefix)
    requires forall k :: j < k < |lines| ==> !StartsWith(lines[k], TitlePrefix)
    ensures Title(lines) == Strip(lines[j][|TitlePrefix|..])
  {
    if j < |lines| - 1 {
      var init := lines[..|lines| - 1];
      assert forall k :: 0 <= k < |init| ==> init[k] == lines[k];
      TitleLast(init, j);
    }
  }

  /** Gathering content works line by line: the content lines of a concatenation are those of each half, in order. */
  lemma {:induction false} ContentLinesAppend(a: seq<string>, b: seq<string>)
    ensures ContentLines(a + b) == ContentLines(a) + ContentLines(b)
    decreases |b|
  {
    if b == [] {
      assert a + b == a;
    } else {
      var init, last := b[..|b| - 1], b[|b| - 1];
      assert (a + b)[..|a + b| - 1] == a + init;
      assert (a + b)[|a + b| - 1] == last;
      ContentLinesAppend(a, init);
      AppendAssoc(ContentLines(a), ContentLines(init), if IsContentLine(last) then [last] else []);
    }
  }

  /** The content lines are exactly the block's lines that are neither blank nor a `# ` title line. */
  lemma {:induction false} ContentLinesMembers(lines: seq<string>)
    ensures forall x :: x in ContentLines(lines) <==> x in lines && IsContentLine(x)
    ensures |ContentLines(lines)| <= |lines|
  {
    if lines != [] {
      var init, last := lines[..|lines| - 1], lines[|lines| - 1];
      ContentLinesMembers(init);
      assert lines == init + [last];
    }
  }

  /**
   * A slide's content, split at line breaks, gives back exactly its content
   * lines, in order; it is empty when the block has none.
   */
  lemma SlideContentLines(block: string, index: int)
    ensures var lines := ContentLines(Split(block, LineBreak));
      var content := SlideOf(block, index).content;
      (lines == [] <==> content == []) && (lines != [] ==> Split(content, LineBreak) == lines)
  {
    var all := Split(block, LineBreak);
    var lines := ContentLines(all);
    SplitJoin(block, LineBreak);
    ContentLinesMembers(all);
    if lines != [] {
      JoinSplit(lines, LineBreak);
      assert lines[0] != [] by {
        assert lines[0] in lines;
      }
      JoinNonEmpty(lines, LineBreak);
    }
  }

  lemma JoinNonEmpty(parts: seq<string>, sep: string)
    requires parts != [] && parts[0] != []
    ensures Join(parts, sep) != []
  {
    if |parts| > 1 {
      assert |Join(parts, sep)| >= |parts[0]|;
    }
  }

  // ---------------------------------------------------------------------------
  // The deck
  // ---------------------------------------------------------------------------

  /** There are no more slides than `---`-separated blocks, and they are numbered 1, 2, 3, … in order. */
  lemma SlidesNumbered(content: string)
    ensures |DeckSlides(content)| <= |Split(content, SlideSeparator)|
    ensures forall i :: 0 <= i < |DeckSlides(content)| ==> DeckSlides(content)[i].index == i + 1
  {
    var blocks := Split(content, SlideSeparator);
    KeptBlocksLength(blocks);
    NumberedIndices(KeptBlocks(blocks));
  }

  /** Numbering keeps one slide per kept block and gives slide `i` the number `i + 1`. */
  lemma NumberedIndices(kept: seq<string>)
    ensures |Numbered(kept)| == |kept|
    ensures forall i :: 0 <= i < |kept| ==> Numbered(kept)[i].index == i + 1
  {
  }

  /**
   * Slide `i` of the deck is made from the block that is kept after exactly
   * `i` kept blocks, stripped, and carries the number `i + 1`.
   */
  lemma SlideFromBlock(content: string, i: nat) returns (j: nat)
    requires i < |DeckSlides(content)|
    ensures KeptAs(Split(content, SlideSeparator), j, i)
    ensures DeckSlides(content)[i] == SlideOf(Strip(Split(content, SlideSeparator)[j]), i + 1)
  {
    var blocks := Split(content, SlideSeparator);
    j := KeptBlockOrigin(blocks, i);
    assert DeckSlides(content)[i] == SlideOf(KeptBlocks(blocks)[i], i + 1);
  }

  /**
   * Every block that is neither blank nor front matter becomes a slide,
   * numbered one more than the number of kept blocks before it.
   */
  lemma BlockBecomesSlide(content: string, j: nat)
    requires var blocks := Split(content, SlideSeparator); j < |blocks| && Kept(blocks[j])
    ensures var blocks := Split(content, SlideSeparator);
      var n := |KeptBlocks(blocks[..j])|;
      n < |DeckSlides(content)| && DeckSlides(content)[n] == SlideOf(Strip(blocks[j]), n + 1)
  {
    var blocks := Split(content, SlideSeparator);
    KeptBlockAt(blocks, j);
    var n := |KeptBlocks(blocks[..j])|;
    assert KeptBlocks(blocks)[n] == Strip(blocks[j]);
  }

  /** Splitting at `---` loses nothing: the blocks joined with `---` are the deck's text. */
  lemma BlocksCoverDeck(content: string)
    ensures Join(Split(content, SlideSeparator), SlideSeparator) == content
    ensures forall b :: b in Split(content, SlideSeparator) ==> !Contains(b, SlideSeparator)
  {
    SplitJoin(content, SlideSeparator);
  }
}
