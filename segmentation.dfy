/**
 * Subtitle segmentation of one slide's narration (`split_text_into_segments`).
 *
 * A character scan cuts the narration into sentences after every 。 ！ ？ or line
 * break. A sentence that fits the segment budget (characters per line times
 * lines, 25 * 2 by default) is one segment; a longer one is split on 、 into
 * clauses that are packed greedily into segments of at most the budget.
 */
module Segmentation {
  import opened PyStr

  const DefaultMaxCharsPerLine: nat := 25
  const DefaultMaxLines: nat := 2

  /** The ideographic comma 、 on which over-long sentences are split. */
  const Comma: char := '\U{3001}'

  /** 。 ！ ？ and the line break end a sentence. */
  predicate IsTerminator(c: char) {
    c == '\U{3002}' || c == '\U{FF01}' || c == '\U{FF1F}' || c == '\n'
  }

  predicate NoTerminator(s: string) {
    forall k :: 0 <= k < |s| ==> !IsTerminator(s[k])
  }

  /** Position of the first terminator in `s`, or `|s|` when there is none. */
  function FirstTerminator(s: string): (i: nat)
    ensures i <= |s|
    ensures i < |s| ==> IsTerminator(s[i])
    ensures forall k :: 0 <= k < i ==> !IsTerminator(s[k])
  {
    if s == [] || IsTerminator(s[0]) then 0
    else 1 + FirstTerminator(s[1..])
  }

  // ---------------------------------------------------------------------------
  // Stage 1: sentences
  // ---------------------------------------------------------------------------

  /**
   * The text cut right after every terminator; the last chunk is whatever
   * follows the last terminator, possibly empty.
   */
  function Chunks(text: string): (cs: seq<string>)
    ensures |cs| >= 1
    decreases |text|
  {
    var i := FirstTerminator(text);
    if i == |text| then [text] else [text[..i + 1]] + Chunks(text[i + 1..])
  }

  /** The sentence a buffer yields when it is flushed: its stripped text, unless blank. */
  function Emit(buffer: string): seq<string> {
    var s := Strip(buffer);
    if s != [] then [s] else []
  }

  /** Each chunk stripped of surrounding whitespace, blank chunks dropped. */
  function StrippedNonBlank(chunks: seq<string>): (ss: seq<string>)
    ensures |ss| <= |chunks|
    ensures forall k :: 0 <= k < |ss| ==> ss[k] != [] && IsStripped(ss[k])
  {
    if chunks == [] then []
    else Emit(chunks[0]) + StrippedNonBlank(chunks[1..])
  }

  /** The sentences of a narration, in text order. */
  function Sentences(text: string): seq<string> {
    StrippedNonBlank(Chunks(text))
  }

  /** A chunk that is closed by its terminator: the terminator is its last and only one. */
  predicate Closed(chunk: string) {
    chunk != [] && IsTerminator(chunk[|chunk| - 1]) && NoTerminator(chunk[..|chunk| - 1])
  }

  /** The chunks concatenate back to the text: the scan loses no character. */
  lemma {:induction false} ChunksConcat(text: string)
    ensures Concat(Chunks(text)) == text
    decreases |text|
  {
    var i := FirstTerminator(text);
    if i == |text| {
      assert Chunks(text) == [text];
      assert Concat([text]) == text + Concat([]);
    } else {
      var head, rest := text[..i + 1], text[i + 1..];
      ChunksConcat(rest);
      ConcatCons(head, Chunks(rest));
      assert text == head + rest;
    }
  }

  /**
   * A new chunk starts right after each terminator: every chunk but the last is
   * closed by its only terminator, and the last has none.
   */
  lemma {:induction false} ChunksClosed(text: string)
    ensures forall k :: 0 <= k < |Chunks(text)| - 1 ==> Closed(Chunks(text)[k])
    ensures NoTerminator(Chunks(text)[|Chunks(text)| - 1])
    decreases |text|
  {
    var i := FirstTerminator(text);
    var cs := Chunks(text);
    if i == |text| {
      assert text[..i] == text;
    } else {
      var head, rest := text[..i + 1], text[i + 1..];
      ChunksClosed(rest);
      var tail := Chunks(rest);
      assert cs == [head] + tail;
      assert head[..|head| - 1] == text[..i];
      assert Closed(head);
      assert forall k :: 1 <= k < |cs| ==> cs[k] == tail[k - 1];
    }
  }

  /** A terminator after terminator-free text closes exactly that chunk. */
  lemma ChunksAfterTerminator(current: string, c: char, rest: string)
    requires NoTerminator(current) && IsTerminator(c)
    ensures Chunks(current + [c] + rest) == [current + [c]] + Chunks(rest)
  {
    var s := current + [c] + rest;
    var i := FirstTerminator(s);
    assert s[|current|] == c;
    assert forall k :: 0 <= k < |current| ==> s[k] == current[k];
    assert i == |current|;
    assert s[..i + 1] == current + [c];
    assert s[i + 1..] == rest;
  }

  /** Text without a terminator is a single chunk. */
  lemma ChunksWithoutTerminator(current: string)
    requires NoTerminator(current)
    ensures Chunks(current) == [current]
  {
    var i := FirstTerminator(current);
  }

  lemma SentencesAfterTerminator(current: string, c: char, rest: string)
    requires NoTerminator(current) && IsTerminator(c)
    ensures Sentences(current + [c] + rest) == Emit(current + [c]) + Sentences(rest)
  {
    ChunksAfterTerminator(current, c, rest);
    var cs := [current + [c]] + Chunks(rest);
    assert cs[0] == current + [c];
    assert cs[1..] == Chunks(rest);
  }

  /**
   * The scan's invariant after `i` characters: `done` are the sentences emitted
   * so far, `current` the open buffer, and scanning the rest completes them.
   */
  ghost predicate ScanState(text: string, i: nat, done: seq<string>, current: string) {
    i <= |text| && NoTerminator(current) && done + Sentences(current + text[i..]) == Sentences(text)
  }

  /** A character that does not end a sentence joins the open buffer, keeping the invariant. */
  lemma ScanStep(text: string, i: nat, done: seq<string>, current: string)
    requires i < |text| && ScanState(text, i, done, current) && !IsTerminator(text[i])
    ensures ScanState(text, i + 1, done, current + [text[i]])
  {
    Uncons(text, i);
    AppendAssoc(current, [text[i]], text[i + 1..]);
  }

  /** A terminator closes the buffer, which is emitted, keeping the invariant. */
  lemma ScanFlush(text: string, i: nat, done: seq<string>, current: string)
    requires i < |text| && ScanState(text, i, done, current) && IsTerminator(text[i])
    ensures ScanState(text, i + 1, done + Emit(current + [text[i]]), [])
  {
    var c, rest := text[i], text[i + 1..];
    Uncons(text, i);
    AppendAssoc(current, [c], rest);
    SentencesAfterTerminator(current, c, rest);
    AppendAssoc(done, Emit(current + [c]), Sentences(rest));
    assert [] + rest == rest;
  }

  lemma EmitAppend(done: seq<string>, buffer: string)
    ensures done + Emit(buffer) == if Strip(buffer) != [] then done + [Strip(buffer)] else done
  {
  }

  lemma SentencesWithoutTerminator(current: string)
    requires NoTerminator(current)
    ensures Sentences(current) == Emit(current)
  {
    ChunksWithoutTerminator(current);
    assert [current][1..] == [];
  }

  /**
   * The sentence scan: characters are appended to `current`; after a terminator
   * the stripped buffer is emitted unless blank, and the buffer is reset; a
   * non-blank remainder is emitted at the end.
   */
  method SplitSentences(text: string) returns (sentences: seq<string>)
    ensures sentences == Sentences(text)
  {
    sentences := [];
    var current: string := [];
    var i := 0;
    assert current + text[i..] == text;
    assert sentences + Sentences(text) == Sentences(text);
    while i < |text|
      invariant ScanState(text, i, sentences, current)
    {
      var c := text[i];
      if IsTerminator(c) {
        ScanFlush(text, i, sentences, current);
        EmitAppend(sentences, current + [c]);
        var s := Strip(current + [c]);
        if s != [] {
          sentences := sentences + [s];
        }
        current := [];
      } else {
        ScanStep(text, i, sentences, current);
        current := current + [c];
      }
      i := i + 1;
    }
    assert current + text[i..] == current;
    SentencesWithoutTerminator(current);
    EmitAppend(sentences, current);
    var s := Strip(current);
    if s != [] {
      sentences := sentences + [s];
    }
  }

  // ---------------------------------------------------------------------------
  // Stage 2: packing the clauses of an over-long sentence
  // ---------------------------------------------------------------------------

  /** The clauses of a sentence: `sentence.split('、')`. */
  function Clauses(sentence: string): (parts: seq<string>)
    ensures |parts| >= 1
  {
    Split(sentence, [Comma])
  }

  /**
   * What a clause contributes to a segment: the clause, followed by 、 unless it
   * is equal to the sentence's last clause. The test compares values, so an
   * earlier clause that happens to equal the last one loses its 、 too.
   */
  function Piece(part: string, last: string): string {
    part + (if part != last then [Comma] else [])
  }

  function Pieces(parts: seq<string>, last: string): (ps: seq<string>)
    ensures |ps| == |parts|
  {
    seq(|parts|, k requires 0 <= k < |parts| => Piece(parts[k], last))
  }

  /** The group under construction is emitted only when it is non-empty. */
  function Flush(current: string): seq<string> {
    if current != [] then [current] else []
  }

  /**
   * Greedy packing, `current` being the group under construction: a piece joins
   * it when the result stays within `limit`; otherwise the group is flushed and
   * the piece starts the next one.
   */
  function Groups(pieces: seq<string>, current: string, limit: nat): seq<string>
    decreases |pieces|
  {
    if pieces == [] then Flush(current)
    else if |current + pieces[0]| <= limit then Groups(pieces[1..], current + pieces[0], limit)
    else Flush(current) + Groups(pieces[1..], pieces[0], limit)
  }

  /** Every group with its trailing 、 removed. */
  function StripCommas(groups: seq<string>): (segs: seq<string>)
    ensures |segs| == |groups|
  {
    seq(|groups|, k requires 0 <= k < |groups| => RStrip(groups[k], Comma))
  }

  /** The groups an over-long sentence is packed into, before 、 are trimmed. */
  function ClauseGroups(sentence: string, limit: nat): seq<string> {
    var parts := Clauses(sentence);
    Groups(Pieces(parts, parts[|parts| - 1]), [], limit)
  }

  /** The segments of an over-long sentence. */
  function ClauseSegments(sentence: string, limit: nat): seq<string> {
    StripCommas(ClauseGroups(sentence, limit))
  }

  /** The segments of one sentence: itself when it fits, its packed clauses otherwise. */
  function SentenceSegments(sentence: string, limit: nat): seq<string> {
    if |sentence| <= limit then [sentence] else ClauseSegments(sentence, limit)
  }

  /** The segments of a sequence of sentences, sentence by sentence in order. */
  function SegmentsOf(sentences: seq<string>, limit: nat): seq<string> {
    if sentences == [] then []
    else SegmentsOf(sentences[..|sentences| - 1], limit) + SentenceSegments(sentences[|sentences| - 1], limit)
  }

  /** The subtitle segments of a narration for a segment budget of `limit` characters. */
  function TextSegments(text: string, limit: nat): seq<string> {
    SegmentsOf(Sentences(text), limit)
  }

  lemma StripCommasAppend(a: seq<string>, b: seq<string>)
    ensures StripCommas(a + b) == StripCommas(a) + StripCommas(b)
  {
  }

  /**
   * The packing loop's invariant after `i` clauses: `done` are the segments
   * emitted so far, `current` the group under construction, and packing the
   * remaining pieces completes `all`.
   */
  ghost predicate PackState(parts: seq<string>, last: string, limit: nat, i: nat, done: seq<string>, current: string, all: seq<string>) {
    i <= |parts| && done + StripCommas(Groups(Pieces(parts, last)[i..], current, limit)) == all
  }

  /** One clause of the packing loop keeps its invariant. */
  lemma PackStep(parts: seq<string>, last: string, limit: nat, i: nat, done: seq<string>, current: string, all: seq<string>)
    requires i < |parts| && PackState(parts, last, limit, i, done, current, all)
    ensures var piece := Piece(parts[i], last);
      |current + piece| <= limit ==> PackState(parts, last, limit, i + 1, done, current + piece, all)
    ensures var piece := Piece(parts[i], last);
      |current + piece| > limit ==> PackState(parts, last, limit, i + 1, done + StripCommas(Flush(current)), piece, all)
  {
    var pieces := Pieces(parts, last);
    var piece := Piece(parts[i], last);
    assert pieces[i..][0] == piece;
    assert pieces[i..][1..] == pieces[i + 1..];
    if |current + piece| > limit {
      var rest := Groups(pieces[i + 1..], piece, limit);
      StripCommasAppend(Flush(current), rest);
      AppendAssoc(done, StripCommas(Flush(current)), StripCommas(rest));
    }
  }

  lemma FlushAppend(done: seq<string>, current: string)
    ensures done + StripCommas(Flush(current)) == if current != [] then done + [RStrip(current, Comma)] else done
  {
  }

  /** The clause-packing loop over one over-long sentence. */
  method PackClauses(sentence: string, limit: nat) returns (segments: seq<string>)
    ensures segments == ClauseSegments(sentence, limit)
  {
    var parts := Split(sentence, [Comma]);
    var last := parts[|parts| - 1];
    ghost var all := ClauseSegments(sentence, limit);
    var current: string := [];
    segments := [];
    var i := 0;
    assert Pieces(parts, last)[i..] == Pieces(parts, last);
    assert segments + all == all;
    while i < |parts|
      invariant PackState(parts, last, limit, i, segments, current, all)
    {
      var part := parts[i];
      var piece := part + (if part != last then [Comma] else []);
      PackStep(parts, last, limit, i, segments, current, all);
      var test := current + piece;
      if |test| <= limit {
        current := test;
      } else {
        FlushAppend(segments, current);
        if current != [] {
          segments := segments + [RStrip(current, Comma)];
        }
        current := piece;
      }
      i := i + 1;
    }
    assert Pieces(parts, last)[i..] == [];
    FlushAppend(segments, current);
    if current != [] {
      segments := segments + [RStrip(current, Comma)];
    }
  }

  lemma SegmentsOfSnoc(sentences: seq<string>, k: nat, limit: nat)
    requires k < |sentences|
    ensures SegmentsOf(sentences[..k + 1], limit) == SegmentsOf(sentences[..k], limit) + SentenceSegments(sentences[k], limit)
  {
    assert sentences[..k + 1][..k] == sentences[..k];
    assert sentences[..k + 1][k] == sentences[k];
  }

  /** `split_text_into_segments`: sentences first, then per-sentence segments in order. */
  method SplitTextIntoSegments(text: string, maxCharsPerLine: nat, maxLines: nat) returns (segments: seq<string>)
    ensures segments == TextSegments(text, maxCharsPerLine * maxLines)
  {
    var limit := maxCharsPerLine * maxLines;
    var sentences := SplitSentences(text);
    segments := [];
    for k := 0 to |sentences|
      invariant segments == SegmentsOf(sentences[..k], limit)
    {
      var sentence := sentences[k];
      SegmentsOfSnoc(sentences, k, limit);
      if |sentence| <= limit {
        segments := segments + [sentence];
      } else {
        var packed := PackClauses(sentence, limit);
        segments := segments + packed;
      }
    }
    assert sentences[..|sentences|] == sentences;
  }
}
