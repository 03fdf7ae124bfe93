/**
 * What the subtitle segmentation promises: greedy packing keeps the text and
 * its order, respects the segment budget except for a single clause that alone
 * exceeds it, never leaves a trailing 、, and only fails to reproduce a sentence
 * when an earlier clause is equal to the last one.
 */
module SegmentationProperties {
  import opened PyStr
  import opened Segmentation

  // ---------------------------------------------------------------------------
  // Greedy packing
  // ---------------------------------------------------------------------------

  lemma FlushConcat(current: string)
    ensures Concat(Flush(current)) == current
  {
    if current != [] {
      ConcatCons(current, []);
    }
  }

  /** Packing loses and reorders nothing: the groups concatenate to the open group followed by all pieces. */
  lemma {:induction false} GroupsKeepText(pieces: seq<string>, current: string, limit: nat)
    ensures Concat(Groups(pieces, current, limit)) == current + Concat(pieces)
    decreases |pieces|
  {
    FlushConcat(current);
    if pieces == [] {
      assert current + Concat(pieces) == current;
    } else {
      var p, rest := pieces[0], pieces[1..];
      assert pieces == [p] + rest;
      ConcatCons(p, rest);
      if |current + p| <= limit {
        GroupsKeepText(rest, current + p, limit);
        AppendAssoc(current, p, Concat(rest));
      } else {
        GroupsKeepText(rest, p, limit);
        ConcatAppend(Flush(current), Groups(rest, p, limit));
      }
    }
  }

  /** The first group begins with the group that was under construction. */
  lemma {:induction false} GroupsHead(pieces: seq<string>, current: string, limit: nat)
    requires current != []
    ensures Groups(pieces, current, limit) != []
    ensures current <= Groups(pieces, current, limit)[0]
    decreases |pieces|
  {
    if pieces != [] && |current + pieces[0]| <= limit {
      GroupsHead(pieces[1..], current + pieces[0], limit);
    }
  }

  /**
   * Every group is non-empty and within the limit, unless it is the group that
   * was under construction or a single piece that alone exceeds the limit.
   */
  lemma {:induction false} GroupsBounded(pieces: seq<string>, current: string, limit: nat)
    ensures forall j :: 0 <= j < |Groups(pieces, current, limit)| ==>
      var g := Groups(pieces, current, limit)[j];
      g != [] && (|g| <= limit || g == current || g in pieces)
    decreases |pieces|
  {
    var gs := Groups(pieces, current, limit);
    if pieces != [] {
      var p, rest := pieces[0], pieces[1..];
      if |current + p| <= limit {
        GroupsBounded(rest, current + p, limit);
      } else {
        GroupsBounded(rest, p, limit);
        var tail := Groups(rest, p, limit);
        assert gs == Flush(current) + tail;
        forall j | 0 <= j < |gs| ensures gs[j] != [] && (|gs[j]| <= limit || gs[j] == current || gs[j] in pieces) {
          if j >= |Flush(current)| {
            assert gs[j] == tail[j - |Flush(current)|];
            assert rest <= pieces[1..];
          }
        }
      }
    }
  }

  /**
   * The packing is greedy: no two neighbouring groups would have fitted the
   * limit together, because a group is only closed when the next piece
   * overflows it.
   */
  lemma {:induction false} GroupsGreedy(pieces: seq<string>, current: string, limit: nat)
    ensures forall j :: 0 <= j < |Groups(pieces, current, limit)| - 1 ==>
      |Groups(pieces, current, limit)[j]| + |Groups(pieces, current, limit)[j + 1]| > limit
    decreases |pieces|
  {
    if pieces != [] {
      var p, rest := pieces[0], pieces[1..];
      if |current + p| <= limit {
        GroupsGreedy(rest, current + p, limit);
      } else {
        GroupsGreedy(rest, p, limit);
        var tail := Groups(rest, p, limit);
        var gs := Groups(pieces, current, limit);
        assert gs == Flush(current) + tail;
        if current != [] && tail != [] {
          if p != [] {
            GroupsHead(rest, p, limit);
          }
          assert |gs[0]| + |gs[1]| > limit;
          assert forall j :: 1 <= j < |gs| ==> gs[j] == tail[j - 1];
        }
      }
    }
  }

  // ---------------------------------------------------------------------------
  // Clauses and their pieces
  // ---------------------------------------------------------------------------

  /** A clause produced by the split contains no 、 at all. */
  lemma ClauseHasNoComma(part: string)
    requires !Contains(part, [Comma])
    ensures forall k :: 0 <= k < |part| ==> part[k] != Comma
  {
    forall k | 0 <= k < |part| ensures part[k] != Comma {
      assert part[k..k + 1] == [part[k]];
      assert !OccursAt(part, [Comma], k);
    }
  }

  /** Removing trailing 、 from a clause's piece gives the clause back. */
  lemma RStripPiece(part: string, last: string)
    requires forall k :: 0 <= k < |part| ==> part[k] != Comma
    ensures RStrip(Piece(part, last), Comma) == part
  {
    assert RStrip(part, Comma) == part;
    if part != last {
      assert (part + [Comma])[..|part|] == part;
    } else {
      assert Piece(part, last) == part;
    }
  }

  /**
   * Length bookkeeping for the pieces: they are never longer than the clauses
   * joined with 、, and strictly shorter when some clause before the last is
   * equal to `last` (that clause's 、 is lost).
   */
  lemma {:induction false} PiecesLength(parts: seq<string>, last: string)
    requires parts != [] && parts[|parts| - 1] == last
    ensures |Concat(Pieces(parts, last))| <= |Join(parts, [Comma])|
    ensures (exists k :: 0 <= k < |parts| - 1 && parts[k] == last) ==>
      |Concat(Pieces(parts, last))| < |Join(parts, [Comma])|
  {
    var ps := Pieces(parts, last);
    assert ps == [Piece(parts[0], last)] + Pieces(parts[1..], last);
    ConcatCons(Piece(parts[0], last), Pieces(parts[1..], last));
    if |parts| == 1 {
      assert Pieces(parts[1..], last) == [];
    } else {
      PiecesLength(parts[1..], last);
      assert forall k :: 1 <= k < |parts| - 1 ==> parts[k] == parts[1..][k - 1];
    }
  }

  /** When no clause before the last is equal to it, the pieces are exactly the clauses joined with 、. */
  lemma {:induction false} PiecesJoin(parts: seq<string>, last: string)
    requires parts != [] && parts[|parts| - 1] == last
    requires forall k :: 0 <= k < |parts| - 1 ==> parts[k] != last
    ensures Concat(Pieces(parts, last)) == Join(parts, [Comma])
  {
    var ps := Pieces(parts, last);
    assert ps == [Piece(parts[0], last)] + Pieces(parts[1..], last);
    ConcatCons(Piece(parts[0], last), Pieces(parts[1..], last));
    if |parts| == 1 {
      assert Pieces(parts[1..], last) == [];
    } else {
      assert forall k :: 0 <= k < |parts[1..]| - 1 ==> parts[1..][k] == parts[k + 1];
      PiecesJoin(parts[1..], last);
      AppendAssoc(parts[0], [Comma], Join(parts[1..], [Comma]));
    }
  }

  /**
   * The groups of an over-long sentence reproduce it exactly if and only if no
   * clause before the last is equal to the last clause; otherwise the value
   * comparison drops that clause's 、.
   */
  lemma ClauseGroupsCoverSentence(sentence: string, limit: nat)
    ensures var parts := Clauses(sentence);
      Concat(ClauseGroups(sentence, limit)) == sentence
      <==> forall k :: 0 <= k < |parts| - 1 ==> parts[k] != parts[|parts| - 1]
  {
    var parts := Clauses(sentence);
    var last := parts[|parts| - 1];
    SplitJoin(sentence, [Comma]);
    GroupsKeepText(Pieces(parts, last), [], limit);
    assert Concat(ClauseGroups(sentence, limit)) == Concat(Pieces(parts, last));
    PiecesLength(parts, last);
    if forall k :: 0 <= k < |parts| - 1 ==> parts[k] != last {
      PiecesJoin(parts, last);
    }
  }

  /**
   * Every segment of an over-long sentence has no trailing 、, and is within
   * the limit unless it is one whole clause of the sentence that alone exceeds
   * it (there is no character-level fallback).
   */
  lemma ClauseSegmentsShape(sentence: string, limit: nat)
    ensures forall seg :: seg in ClauseSegments(sentence, limit) ==>
      (seg == [] || seg[|seg| - 1] != Comma) && (|seg| <= limit || seg in Clauses(sentence))
  {
    var parts := Clauses(sentence);
    var last := parts[|parts| - 1];
    var pieces := Pieces(parts, last);
    var gs := ClauseGroups(sentence, limit);
    var segs := ClauseSegments(sentence, limit);
    SplitJoin(sentence, [Comma]);
    GroupsBounded(pieces, [], limit);
    forall j | 0 <= j < |segs| ensures (segs[j] == [] || segs[j][|segs[j]| - 1] != Comma) && (|segs[j]| <= limit || segs[j] in parts) {
      var g := gs[j];
      assert segs[j] == RStrip(g, Comma);
      if |g| > limit {
        assert g in pieces;
        var m :| 0 <= m < |pieces| && pieces[m] == g;
        ClauseHasNoComma(parts[m]);
        RStripPiece(parts[m], last);
      }
    }
  }

  /**
   * The packing of an over-long sentence is greedy: a group is closed only when
   * the next clause would not fit, so no two neighbouring groups fit together.
   */
  lemma ClauseGroupsGreedy(sentence: string, limit: nat)
    ensures forall j :: 0 <= j < |ClauseGroups(sentence, limit)| - 1 ==>
      |ClauseGroups(sentence, limit)[j]| + |ClauseGroups(sentence, limit)[j + 1]| > limit
  {
    var parts := Clauses(sentence);
    GroupsGreedy(Pieces(parts, parts[|parts| - 1]), [], limit);
  }

  /** `rstrip(c)` leaves nothing exactly when every character is `c`. */
  lemma RStripEmpty(s: string, c: char)
    ensures RStrip(s, c) == [] <==> forall k :: 0 <= k < |s| ==> s[k] == c
  {
    var r := RStrip(s, c);
    if r != [] {
      assert r[|r| - 1] == s[|r| - 1];
    }
  }

  /**
   * A segment of an over-long sentence is empty exactly when its group is made
   * of 、 alone, since trimming trailing 、 then removes everything. Groups are
   * never empty, so such a group is a run of one or more 、.
   */
  lemma EmptySegmentsAreCommaRuns(sentence: string, limit: nat)
    ensures forall j :: 0 <= j < |ClauseSegments(sentence, limit)| ==>
      (ClauseSegments(sentence, limit)[j] == []
       <==> ClauseGroups(sentence, limit)[j] != []
            && forall k :: 0 <= k < |ClauseGroups(sentence, limit)[j]| ==> ClauseGroups(sentence, limit)[j][k] == Comma)
  {
    var parts := Clauses(sentence);
    var gs := ClauseGroups(sentence, limit);
    GroupsBounded(Pieces(parts, parts[|parts| - 1]), [], limit);
    forall j | 0 <= j < |gs| ensures ClauseSegments(sentence, limit)[j] == [] <==> gs[j] != [] && forall k :: 0 <= k < |gs[j]| ==> gs[j][k] == Comma {
      RStripEmpty(gs[j], Comma);
    }
  }

  /** The clauses of `、、x` for a 、-free `x`: two empty clauses, then `x`. */
  lemma DoubleLeadingClauses(x: string)
    requires forall k :: 0 <= k < |x| ==> x[k] != Comma
    ensures Clauses([Comma, Comma] + x) == [[], [], x]
  {
    SplitNoComma(x);
    SplitAfterClause([], x);
    assert [] + [Comma] + x == [Comma] + x;
    SplitAfterClause([], [Comma] + x);
    assert [] + [Comma] + ([Comma] + x) == [Comma, Comma] + x;
  }

  /** Packing `、`, `、`, `x` when `、、` fits and `x` does not fit beside it. */
  lemma DoubleLeadingGroups(x: string, limit: nat)
    requires 2 <= limit <= |x| + 1
    ensures Groups([[Comma], [Comma], x], [], limit) == [[Comma, Comma], x]
  {
    var pieces, rest1, rest2 := [[Comma], [Comma], x], [[Comma], x], [x];
    assert pieces[1..] == rest1 && rest1[1..] == rest2 && rest2[1..] == [];
    assert [] + [Comma] == [Comma] && [Comma] + [Comma] == [Comma, Comma];
    assert Groups(pieces, [], limit) == Groups(rest1, [Comma], limit);
    assert Groups(rest1, [Comma], limit) == Groups(rest2, [Comma, Comma], limit);
    assert |[Comma, Comma] + x| > limit;
  }

  /**
   * Two leading 、 that fit together are flushed as one run of 、, which trims
   * to an empty segment (for example `、、abc` with a budget of 3 gives `""` and
   * `abc`), even though the piece after the first 、 fits beside it.
   */
  lemma DoubleLeadingComma(x: string, limit: nat)
    requires 2 <= limit <= |x| + 1
    requires forall k :: 0 <= k < |x| ==> x[k] != Comma
    ensures SentenceSegments([Comma, Comma] + x, limit) == [[], x]
  {
    DoubleLeadingClauses(x);
    var pieces := Pieces([[], [], x], x);
    assert pieces[0] == [Comma] && pieces[1] == [Comma] && pieces[2] == x;
    assert pieces == [[Comma], [Comma], x];
    DoubleLeadingGroups(x, limit);
    assert ClauseGroups([Comma, Comma] + x, limit) == [[Comma, Comma], x];
    RStripEmpty([Comma, Comma], Comma);
  }

  /** The clauses of `、x、` for a 、-free `x`: an empty clause, `x`, and an empty clause. */
  lemma EnclosedClauses(x: string)
    requires forall k :: 0 <= k < |x| ==> x[k] != Comma
    ensures Clauses([Comma] + x + [Comma]) == [[], x, []]
  {
    SplitNoComma([]);
    SplitAfterClause(x, []);
    SplitAfterClause([], x + [Comma] + []);
    assert [] + [Comma] + (x + [Comma] + []) == [Comma] + x + [Comma];
  }

  /** Packing ``, `x、`, `` when `x、` does not fit: one group, `x、`. */
  lemma EnclosedGroups(xc: string, limit: nat)
    requires limit < |xc|
    ensures Groups([[], xc, []], [], limit) == [xc]
  {
    var pieces, rest1, rest2 := [[], xc, []], [xc, []], [[]];
    assert pieces[1..] == rest1 && rest1[1..] == rest2 && rest2[1..] == [];
    assert xc + [] == xc;
    assert Groups(pieces, [], limit) == Groups(rest1, [], limit);
    assert Groups(rest1, [], limit) == Groups(rest2, xc, limit);
  }

  /**
   * A sentence that starts and ends with 、 loses its leading 、: the empty
   * first clause equals the empty last clause, so it gets no 、, and no empty
   * segment appears although the next piece does not fit beside it (for
   * example `、abc、` with a budget of 3 gives just `abc`).
   */
  lemma LeadingCommaLost(x: string, limit: nat)
    requires x != [] && limit <= |x|
    requires forall k :: 0 <= k < |x| ==> x[k] != Comma
    ensures SentenceSegments([Comma] + x + [Comma], limit) == [x]
  {
    EnclosedClauses(x);
    var xc := x + [Comma];
    var pieces := Pieces([[], x, []], []);
    assert pieces[0] == [] && pieces[1] == xc && pieces[2] == [];
    assert pieces == [[], xc, []];
    EnclosedGroups(xc, limit);
    assert ClauseGroups([Comma] + x + [Comma], limit) == [xc];
    assert xc[..|x|] == x;
    assert RStrip(x, Comma) == x;
    assert RStrip(xc, Comma) == x;
    assert |[Comma] + x + [Comma]| > limit;
  }

  /** The clauses of `a、、c` for 、-free `a` and `c`: `a`, an empty clause, and `c`. */
  lemma InnerClauses(a: string, c: string)
    requires forall k :: 0 <= k < |a| ==> a[k] != Comma
    requires forall k :: 0 <= k < |c| ==> c[k] != Comma
    ensures Clauses(a + [Comma, Comma] + c) == [a, [], c]
  {
    var t := [] + [Comma] + c;
    SplitNoComma(c);
    SplitAfterClause([], c);
    assert Split(t, [Comma]) == [[], c];
    SplitAfterClause(a, t);
    assert Split(a + [Comma] + t, [Comma]) == [a, [], c];
    assert a + [Comma] + t == a + [Comma, Comma] + c;
  }

  /** Packing `a、`, `、`, `c` when no piece fits beside its neighbour: three groups. */
  lemma InnerGroups(ac: string, c: string, limit: nat)
    requires c != [] && limit < |ac| && limit <= |c|
    ensures Groups([ac, [Comma], c], [], limit) == [ac, [Comma], c]
  {
    var pieces, rest1, rest2 := [ac, [Comma], c], [[Comma], c], [c];
    assert pieces[1..] == rest1 && rest1[1..] == rest2 && rest2[1..] == [];
    assert [] + ac == ac;
    assert Groups(pieces, [], limit) == Groups(rest1, ac, limit);
    assert |ac + [Comma]| > limit;
    assert Groups(rest1, ac, limit) == [ac] + Groups(rest2, [Comma], limit);
    assert |[Comma] + c| > limit;
    assert Groups(rest2, [Comma], limit) == [[Comma]] + Groups([], c, limit);
    assert Groups([], c, limit) == [c];
  }

  /**
   * Two 、 in a row in the middle of a sentence make an empty segment between
   * two clauses when neither clause fits beside its neighbour (for example
   * `ab、、cd` with a budget of 2 gives `ab`, `""` and `cd`).
   */
  lemma InnerEmptySegment(a: string, c: string, limit: nat)
    requires a != c && 1 <= limit <= |a| && limit <= |c|
    requires forall k :: 0 <= k < |a| ==> a[k] != Comma
    requires forall k :: 0 <= k < |c| ==> c[k] != Comma
    ensures SentenceSegments(a + [Comma, Comma] + c, limit) == [a, [], c]
  {
    InnerClauses(a, c);
    var ac := a + [Comma];
    var pieces := Pieces([a, [], c], c);
    assert pieces[0] == ac && pieces[1] == [Comma] && pieces[2] == c;
    assert pieces == [ac, [Comma], c];
    InnerGroups(ac, c, limit);
    assert ClauseGroups(a + [Comma, Comma] + c, limit) == [ac, [Comma], c];
    assert ac[..|a|] == a;
    assert RStrip(a, Comma) == a;
    assert RStrip(ac, Comma) == a;
    RStripEmpty([Comma], Comma);
    assert RStrip(c, Comma) == c;
    assert |a + [Comma, Comma] + c| > limit;
  }

  /** A text without 、 is split into itself alone. */
  lemma SplitNoComma(x: string)
    requires forall k :: 0 <= k < |x| ==> x[k] != Comma
    ensures Split(x, [Comma]) == [x]
  {
    forall k | 0 <= k < |x| ensures !OccursAt(x, [Comma], k) {
      assert x[k..k + 1] == [x[k]];
    }
    assert Find(x, [Comma]) == |x|;
  }

  /** A 、-free clause followed by 、 is split off as the first clause. */
  lemma SplitAfterClause(x: string, rest: string)
    requires forall k :: 0 <= k < |x| ==> x[k] != Comma
    ensures Split(x + [Comma] + rest, [Comma]) == [x] + Split(rest, [Comma])
  {
    var t := x + [Comma] + rest;
    assert OccursAt(t, [Comma], |x|) by {
      assert t[|x|..|x| + 1] == [Comma];
    }
    forall k | 0 <= k < |x| ensures !OccursAt(t, [Comma], k) {
      assert t[k..k + 1] == [x[k]];
    }
    assert Find(t, [Comma]) == |x|;
    assert t[..|x|] == x;
    assert t[|x| + 1..] == rest;
  }

  /**
   * An over-long sentence that starts with a single 、 followed by one 、-free
   * clause of at least `limit` characters: the lone 、 is closed as a group of
   * its own, because the clause does not fit beside it, and trimming its 、
   * leaves an empty segment in front of the clause.
   */
  lemma LeadingCommaEmptySegment(x: string, limit: nat)
    requires 1 <= limit <= |x|
    requires forall k :: 0 <= k < |x| ==> x[k] != Comma
    ensures SentenceSegments([Comma] + x, limit) == [[], x]
  {
    var s := [Comma] + x;
    SplitAfterClause([], x);
    assert [] + [Comma] + x == s;
    SplitNoComma(x);
    assert Clauses(s) == [[], x];
    var pieces := Pieces([[], x], x);
    assert pieces[0] == [Comma] && pieces[1] == x;
    assert pieces == [[Comma], x];
    assert Groups(pieces, [], limit) == Groups([x], [Comma], limit);
    assert Groups([x], [Comma], limit) == [[Comma], x];
    assert RStrip([Comma], Comma) == [];
  }

  /** The clauses of `、x、y` for 、-free `x` and `y`: an empty first clause, then `x`, then `y`. */
  lemma LeadingCommaClauses(x: string, y: string)
    requires forall k :: 0 <= k < |x| ==> x[k] != Comma
    requires forall k :: 0 <= k < |y| ==> y[k] != Comma
    ensures Clauses([Comma] + x + [Comma] + y) == [[], x, y]
  {
    SplitAfterClause([], x + [Comma] + y);
    assert [] + [Comma] + (x + [Comma] + y) == [Comma] + x + [Comma] + y;
    SplitAfterClause(x, y);
    SplitNoComma(y);
  }

  /** Packing the pieces of `、x、y` when `、x、` fits and `y` does not fit beside it. */
  lemma LeadingCommaGroups(x: string, y: string, limit: nat)
    requires x != y
    requires 2 + |x| <= limit < 2 + |x| + |y|
    ensures Groups(Pieces([[], x, y], y), [], limit) == [[Comma] + x + [Comma], y]
  {
    var head := [Comma] + x + [Comma];
    var pieces := Pieces([[], x, y], y);
    assert pieces[0] == [Comma] && pieces[1] == x + [Comma] && pieces[2] == y;
    assert pieces == [[Comma], x + [Comma], y];
    var rest1, rest2 := [x + [Comma], y], [y];
    assert pieces[1..] == rest1 && rest1[1..] == rest2 && rest2[1..] == [];
    assert [] + [Comma] == [Comma];
    assert Groups(pieces, [], limit) == Groups(rest1, [Comma], limit);
    assert [Comma] + (x + [Comma]) == head;
    assert Groups(rest1, [Comma], limit) == Groups(rest2, head, limit);
    assert |head + y| > limit;
    assert Groups(rest2, head, limit) == [head] + Groups([], y, limit);
  }

  /**
   * A leading 、 alone does not make an empty segment: when the next clause
   * fits beside it, the 、 stays at the head of that segment.
   */
  lemma LeadingCommaJoined(x: string, y: string, limit: nat)
    requires x != [] && y != [] && x != y
    requires forall k :: 0 <= k < |x| ==> x[k] != Comma
    requires forall k :: 0 <= k < |y| ==> y[k] != Comma
    requires 2 + |x| <= limit < 2 + |x| + |y|
    ensures SentenceSegments([Comma] + x + [Comma] + y, limit) == [[Comma] + x, y]
  {
    var head := [Comma] + x + [Comma];
    LeadingCommaClauses(x, y);
    LeadingCommaGroups(x, y, limit);
    assert ClauseGroups([Comma] + x + [Comma] + y, limit) == [head, y];
    assert RStrip(head, Comma) == [Comma] + x by {
      assert head[..|x| + 1] == [Comma] + x;
    }
  }

  // ---------------------------------------------------------------------------
  // Whole narration
  // ---------------------------------------------------------------------------

  /** Sentences that fit the budget pass through whole, one segment each, in order. */
  lemma {:induction false} ShortSentencesPassThrough(sentences: seq<string>, limit: nat)
    requires forall s :: s in sentences ==> |s| <= limit
    ensures SegmentsOf(sentences, limit) == sentences
  {
    if sentences != [] {
      var init := sentences[..|sentences| - 1];
      assert forall k :: 0 <= k < |init| ==> init[k] == sentences[k];
      ShortSentencesPassThrough(init, limit);
      InitLast(sentences);
    }
  }

  /** A narration whose sentences all fit the budget is segmented into exactly its sentences. */
  lemma ShortNarrationPassesThrough(text: string, limit: nat)
    requires forall s :: s in Sentences(text) ==> |s| <= limit
    ensures TextSegments(text, limit) == Sentences(text)
  {
    ShortSentencesPassThrough(Sentences(text), limit);
  }

  /** Every segment comes from one sentence and either fits the budget or is a single over-long clause of it. */
  lemma {:induction false} SegmentsOfShape(sentences: seq<string>, limit: nat)
    ensures forall seg :: seg in SegmentsOf(sentences, limit) ==>
      |seg| <= limit || exists s :: s in sentences && seg in Clauses(s)
  {
    if sentences != [] {
      var init, s := sentences[..|sentences| - 1], sentences[|sentences| - 1];
      SegmentsOfShape(init, limit);
      ClauseSegmentsShape(s, limit);
      assert forall t :: t in init ==> t in sentences;
      assert s in sentences;
    }
  }

  /**
   * Each subtitle segment of a narration is within the budget, or is one whole
   * clause of one of its sentences that alone exceeds the budget.
   */
  lemma TextSegmentsShape(text: string, limit: nat)
    ensures forall seg :: seg in TextSegments(text, limit) ==>
      |seg| <= limit || exists s :: s in Sentences(text) && seg in Clauses(s)
  {
    SegmentsOfShape(Sentences(text), limit);
  }
}
