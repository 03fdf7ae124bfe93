/**
 * What the timing allocation promises: cues of a slide follow one another
 * without gap or overlap, each lasts its character share of the slide, the
 * shares add up to the whole slide, slides follow one another, and with
 * non-negative durations every frame index is non-decreasing along the
 * timeline.
 */
module TimingProperties {
  import opened PyStr
  import opened Segmentation
  import opened Timing

  // ---------------------------------------------------------------------------
  // Frames
  // ---------------------------------------------------------------------------

  /** For a time `t >= 0`, `int(t * 30)` is the number of whole frames elapsed by `t`. */
  lemma FrameElapsed(t: real)
    requires 0.0 <= t
    ensures 0 <= Frame(t)
    ensures Frame(t) as real <= t * Fps as real < Frame(t) as real + 1.0
  {
  }

  /** `int()` truncation is monotone, so later times never get earlier frames. */
  lemma FrameMonotone(s: real, t: real)
    requires s <= t
    ensures Frame(s) <= Frame(t)
  {
  }

  /**
   * The frame fields are quantised independently, so a slide's `durationFrames`
   * and `endFrame - startFrame` can disagree, but by at most one frame.
   */
  lemma SlideFramesDrift(startTime: real, duration: real)
    requires 0.0 <= startTime && 0.0 <= duration
    ensures var span := Frame(startTime + duration) - Frame(startTime);
      Frame(duration) <= span <= Frame(duration) + 1
  {
    var a, b := startTime * Fps as real, duration * Fps as real;
    assert (startTime + duration) * Fps as real == a + b;
  }

  // ---------------------------------------------------------------------------
  // Cues of one slide
  // ---------------------------------------------------------------------------

  /** `sum(len(s) for s in segments)` is the length of the segments laid end to end. */
  lemma {:induction false} TotalCharsConcat(segments: seq<string>)
    ensures TotalChars(segments) == |Concat(segments)|
  {
    if segments != [] {
      TotalCharsConcat(segments[1..]);
    }
  }

  /** The characters before a cue never exceed all characters of the slide. */
  lemma TotalCharsPrefix(segments: seq<string>, i: nat)
    requires i <= |segments|
    ensures TotalChars(segments[..i]) <= TotalChars(segments)
  {
    assert segments == segments[..i] + segments[i..];
    TotalCharsAppend(segments[..i], segments[i..]);
  }

  /** Cue `i` of the slide: segment `i`, shown from offset `i` to offset `i + 1`. */
  lemma CueAt(segments: seq<string>, duration: real, slideStart: real, i: nat)
    requires i < |segments|
    ensures Cues(segments, duration, slideStart)[i]
      == MakeCue(segments[i], slideStart + CueOffset(segments, duration, i), slideStart + CueOffset(segments, duration, i + 1))
  {
  }

  lemma CueOffsetEnds(segments: seq<string>, duration: real)
    requires 0 < |segments|
    ensures CueOffset(segments, duration, 0) == 0.0
    ensures CueOffset(segments, duration, |segments|) == duration
  {
    assert segments[..0] == [];
    assert segments[..|segments|] == segments;
  }

  /**
   * One cue per segment, in order, each showing its segment; the first starts
   * at the slide start, each later one at the previous one's end, the last ends
   * at the slide's end, and every frame field is the frame of its time.
   */
  lemma CuesContiguous(segments: seq<string>, duration: real, slideStart: real)
    ensures var cues := Cues(segments, duration, slideStart);
      && |cues| == |segments|
      && (forall i :: 0 <= i < |cues| ==>
            cues[i].text == segments[i] && cues[i].startFrame == Frame(cues[i].start) && cues[i].endFrame == Frame(cues[i].end))
      && (forall i :: 0 <= i < |cues| - 1 ==> cues[i + 1].start == cues[i].end)
      && (cues != [] ==> cues[0].start == slideStart && cues[|cues| - 1].end == slideStart + duration)
  {
    var cues := Cues(segments, duration, slideStart);
    forall i | 0 <= i < |cues|
      ensures cues[i].text == segments[i] && cues[i].startFrame == Frame(cues[i].start) && cues[i].endFrame == Frame(cues[i].end)
    {
      CueAt(segments, duration, slideStart, i);
    }
    forall i | 0 <= i < |cues| - 1
      ensures cues[i + 1].start == cues[i].end
    {
      CueAt(segments, duration, slideStart, i);
      CueAt(segments, duration, slideStart, i + 1);
    }
    if segments != [] {
      CueOffsetEnds(segments, duration);
      CueAt(segments, duration, slideStart, 0);
      CueAt(segments, duration, slideStart, |segments| - 1);
    }
  }

  /** Each cue lasts the slide's duration times its `char_ratio`. */
  lemma CueDurations(segments: seq<string>, duration: real, slideStart: real)
    ensures var cues := Cues(segments, duration, slideStart);
      forall i :: 0 <= i < |cues| ==> cues[i].end - cues[i].start == duration * Ratio(segments, i)
  {
    var cues := Cues(segments, duration, slideStart);
    forall i | 0 <= i < |cues|
      ensures cues[i].end - cues[i].start == duration * Ratio(segments, i)
    {
      CueAt(segments, duration, slideStart, i);
      CueOffsetStep(segments, duration, i);
    }
  }

  /** The time shown by a run of cues, added up cue by cue. */
  function Shown(cues: seq<Subtitle>): real {
    if cues == [] then 0.0 else Shown(cues[..|cues| - 1]) + (cues[|cues| - 1].end - cues[|cues| - 1].start)
  }

  lemma {:induction false} ShownPrefix(segments: seq<string>, duration: real, slideStart: real, k: nat)
    requires 0 < |segments| && k <= |segments|
    ensures Shown(Cues(segments, duration, slideStart)[..k]) == CueOffset(segments, duration, k)
  {
    var cues := Cues(segments, duration, slideStart);
    if k == 0 {
      CueOffsetEnds(segments, duration);
    } else {
      ShownPrefix(segments, duration, slideStart, k - 1);
      assert cues[..k][..k - 1] == cues[..k - 1];
      CueAt(segments, duration, slideStart, k - 1);
      CueOffsetStep(segments, duration, k - 1);
    }
  }

  /** The cue durations add up to the slide's duration: no time is lost or invented. */
  lemma CueDurationsSum(segments: seq<string>, duration: real, slideStart: real)
    requires segments != []
    ensures Shown(Cues(segments, duration, slideStart)) == duration
  {
    var cues := Cues(segments, duration, slideStart);
    ShownPrefix(segments, duration, slideStart, |segments|);
    assert cues[..|segments|] == cues;
    CueOffsetEnds(segments, duration);
  }

  lemma ScaleBounds(d: real, r: real)
    requires 0.0 <= d && 0.0 <= r <= 1.0
    ensures 0.0 <= d * r <= d
  {
    assert d * r <= d * 1.0;
  }

  lemma FractionBounds(a: real, t: real)
    requires 0.0 <= a <= t && 0.0 < t
    ensures 0.0 <= a / t <= 1.0
  {
    var q := a / t;
    assert q * t == a;
    assert (1.0 - q) * t == t - a;
  }

  lemma CueOffsetRange(segments: seq<string>, duration: real, i: nat)
    requires 0 < |segments| && i <= |segments| && 0.0 <= duration
    ensures 0.0 <= CueOffset(segments, duration, i) <= duration
  {
    var total := TotalChars(segments);
    var r := if total > 0 then TotalChars(segments[..i]) as real / total as real else i as real / |segments| as real;
    assert CueOffset(segments, duration, i) == duration * r;
    if total > 0 {
      TotalCharsPrefix(segments, i);
      FractionBounds(TotalChars(segments[..i]) as real, total as real);
    } else {
      FractionBounds(i as real, |segments| as real);
    }
    ScaleBounds(duration, r);
  }


  /**
   * `char_ratio` is the segment's share of the characters: scaled back by the
   * total it gives the segment's length, or, when there are no characters, `n`
   * equal ratios make up the whole.
   */
  lemma RatioShares(segments: seq<string>, i: nat)
    requires i < |segments|
    ensures TotalChars(segments) > 0 ==> Ratio(segments, i) * TotalChars(segments) as real == |segments[i]| as real
    ensures TotalChars(segments) == 0 ==> Ratio(segments, i) * |segments| as real == 1.0
  {
  }

  lemma RatioBounds(segments: seq<string>, i: nat)
    requires i < |segments|
    ensures 0.0 <= Ratio(segments, i) <= 1.0
  {
    var total := TotalChars(segments);
    if total > 0 {
      TotalCharsSnoc(segments, i);
      TotalCharsPrefix(segments, i + 1);
      FractionBounds(|segments[i]| as real, total as real);
    } else {
      FractionBounds(1.0, |segments| as real);
    }
  }

  lemma CueOffsetBounds(segments: seq<string>, duration: real, i: nat)
    requires 0 < |segments| && i < |segments| && 0.0 <= duration
    ensures 0.0 <= CueOffset(segments, duration, i) <= CueOffset(segments, duration, i + 1) <= duration
  {
    CueOffsetStep(segments, duration, i);
    CueOffsetRange(segments, duration, i);
    CueOffsetRange(segments, duration, i + 1);
    RatioBounds(segments, i);
    ScaleBounds(duration, Ratio(segments, i));
  }

  lemma CueInSlide(segments: seq<string>, duration: real, slideStart: real, i: nat)
    requires i < |segments| && 0.0 <= duration
    ensures var start, end := slideStart + CueOffset(segments, duration, i), slideStart + CueOffset(segments, duration, i + 1);
      && slideStart <= start <= end <= slideStart + duration
      && Frame(slideStart) <= Frame(start) <= Frame(end) <= Frame(slideStart + duration)
  {
    var start, end := slideStart + CueOffset(segments, duration, i), slideStart + CueOffset(segments, duration, i + 1);
    CueOffsetBounds(segments, duration, i);
    FrameMonotone(slideStart, start);
    FrameMonotone(start, end);
    FrameMonotone(end, slideStart + duration);
  }

  /**
   * With a non-negative duration every cue lies inside its slide, never ends
   * before it starts, and its frames lie between the slide's frames.
   */
  lemma CuesWithinSlide(segments: seq<string>, duration: real, slideStart: real)
    requires 0.0 <= duration
    ensures var cues := Cues(segments, duration, slideStart);
      forall i :: 0 <= i < |cues| ==>
        && slideStart <= cues[i].start <= cues[i].end <= slideStart + duration
        && Frame(slideStart) <= cues[i].startFrame <= cues[i].endFrame <= Frame(slideStart + duration)
  {
    var cues := Cues(segments, duration, slideStart);
    forall i | 0 <= i < |cues|
      ensures slideStart <= cues[i].start <= cues[i].end <= slideStart + duration
      ensures Frame(slideStart) <= cues[i].startFrame <= cues[i].endFrame <= Frame(slideStart + duration)
    {
      CueAt(segments, duration, slideStart, i);
      CueInSlide(segments, duration, slideStart, i);
    }
  }

  // ---------------------------------------------------------------------------
  // The timeline
  // ---------------------------------------------------------------------------

  /** Slide `k` of the timeline is entry `k` scheduled after the entries before it. */
  lemma SlideAt(infos: seq<AudioInfo>, k: nat)
    requires k < |infos|
    ensures |TimelineOf(infos).slides| == |infos|
    ensures TimelineOf(infos).slides[k] == ScheduleOf(infos[k], SumDurations(infos[..k]))
  {
  }

  /**
   * The timeline has one slide per entry, in entry order, carrying the entry's
   * index and script, and each slide lasts its entry's duration.
   */
  lemma SlidesFollowEntries(infos: seq<AudioInfo>)
    ensures var tl := TimelineOf(infos);
      && tl.fps == 30
      && |tl.slides| == |infos|
      && (forall k :: 0 <= k < |infos| ==>
            tl.slides[k].index == infos[k].index && tl.slides[k].fullScript == infos[k].script
            && tl.slides[k].endTime == tl.slides[k].startTime + infos[k].duration)
  {
    var tl := TimelineOf(infos);
    forall k | 0 <= k < |infos|
      ensures tl.slides[k].index == infos[k].index && tl.slides[k].fullScript == infos[k].script
      ensures tl.slides[k].endTime == tl.slides[k].startTime + infos[k].duration
    {
      SlideAt(infos, k);
    }
  }

  /** Slides are laid end to end: each slide starts exactly where the previous one ends. */
  lemma SlidesEndToEnd(infos: seq<AudioInfo>)
    ensures var tl := TimelineOf(infos);
      forall k :: 0 <= k < |infos| - 1 ==> tl.slides[k + 1].startTime == tl.slides[k].endTime
  {
    var tl := TimelineOf(infos);
    forall k | 0 <= k < |infos| - 1 ensures tl.slides[k + 1].startTime == tl.slides[k].endTime {
      SlideAt(infos, k);
      SlideAt(infos, k + 1);
      SumDurationsSnoc(infos, k);
    }
  }

  /**
   * The timeline starts at time 0 and ends with its last slide: the total
   * duration and frame count are the last slide's end time and end frame, and
   * both are 0 when there are no slides.
   */
  lemma TimelineEnds(infos: seq<AudioInfo>)
    ensures var tl := TimelineOf(infos);
      && (infos != [] ==> tl.slides[0].startTime == 0.0)
      && (infos == [] ==> tl.totalDuration == 0.0 && tl.totalFrames == 0)
      && (infos != [] ==> tl.slides[|infos| - 1].endTime == tl.totalDuration
                          && tl.slides[|infos| - 1].endFrame == tl.totalFrames)
  {
    if infos != [] {
      var n := |infos|;
      SlideAt(infos, 0);
      SlideAt(infos, n - 1);
      assert infos[..0] == [];
      assert infos[..n - 1 + 1] == infos;
      SumDurationsSnoc(infos, n - 1);
    }
  }

  /** With non-negative durations, the running `current_time` is never negative. */
  lemma {:induction false} SumDurationsNonNegative(infos: seq<AudioInfo>, k: nat)
    requires k <= |infos|
    requires forall m :: 0 <= m < |infos| ==> 0.0 <= infos[m].duration
    ensures 0.0 <= SumDurations(infos[..k])
  {
    if k == 0 {
      assert infos[..0] == [];
    } else {
      SumDurationsNonNegative(infos, k - 1);
      SumDurationsSnoc(infos, k - 1);
    }
  }

  lemma {:induction false} SumDurationsMonotone(infos: seq<AudioInfo>, j: nat, k: nat)
    requires j <= k <= |infos|
    requires forall m :: 0 <= m < |infos| ==> 0.0 <= infos[m].duration
    ensures 0.0 <= SumDurations(infos[..j]) <= SumDurations(infos[..k])
    decreases k
  {
    if j == k {
      SumDurationsNonNegative(infos, j);
    } else {
      SumDurationsMonotone(infos, j, k - 1);
      SumDurationsSnoc(infos, k - 1);
    }
  }

  lemma SlideInTimeline(infos: seq<AudioInfo>, k: nat)
    requires k < |infos|
    requires forall m :: 0 <= m < |infos| ==> 0.0 <= infos[m].duration
    ensures var start, end, total := SumDurations(infos[..k]), SumDurations(infos[..k]) + infos[k].duration, SumDurations(infos);
      0 <= Frame(start) <= Frame(end) <= Frame(total) && 0 <= Frame(infos[k].duration)
  {
    var start, end, total := SumDurations(infos[..k]), SumDurations(infos[..k]) + infos[k].duration, SumDurations(infos);
    SumDurationsMonotone(infos, k, k + 1);
    SumDurationsMonotone(infos, k + 1, |infos|);
    SumDurationsSnoc(infos, k);
    assert infos[..|infos|] == infos;
    assert 0.0 <= start <= end <= total;
    FrameMonotone(0.0, start);
    FrameMonotone(start, end);
    FrameMonotone(end, total);
    FrameMonotone(0.0, infos[k].duration);
  }

  lemma SlidesInOrder(infos: seq<AudioInfo>, j: nat, k: nat)
    requires j < k < |infos|
    requires forall m :: 0 <= m < |infos| ==> 0.0 <= infos[m].duration
    ensures var end, start := SumDurations(infos[..j]) + infos[j].duration, SumDurations(infos[..k]);
      end <= start && Frame(end) <= Frame(start)
  {
    SumDurationsSnoc(infos, j);
    SumDurationsMonotone(infos, j + 1, k);
    FrameMonotone(SumDurations(infos[..j]) + infos[j].duration, SumDurations(infos[..k]));
  }

  /**
   * With non-negative durations, slides never go back in time: each slide's
   * frames are ordered, every earlier slide ends no later than a later one
   * starts, and every frame lies between 0 and the total frame count.
   */
  lemma TimelineFramesOrdered(infos: seq<AudioInfo>)
    requires forall m :: 0 <= m < |infos| ==> 0.0 <= infos[m].duration
    ensures var tl := TimelineOf(infos);
      && (forall k :: 0 <= k < |infos| ==>
            0 <= tl.slides[k].startFrame <= tl.slides[k].endFrame <= tl.totalFrames
            && 0 <= tl.slides[k].durationFrames)
      && (forall j, k :: 0 <= j < k < |infos| ==>
            tl.slides[j].endTime <= tl.slides[k].startTime && tl.slides[j].endFrame <= tl.slides[k].startFrame)
  {
    var tl := TimelineOf(infos);
    forall k | 0 <= k < |infos|
      ensures 0 <= tl.slides[k].startFrame <= tl.slides[k].endFrame <= tl.totalFrames
      ensures 0 <= tl.slides[k].durationFrames
    {
      SlideAt(infos, k);
      SlideInTimeline(infos, k);
    }
    forall j, k | 0 <= j < k < |infos|
      ensures tl.slides[j].endTime <= tl.slides[k].startTime
      ensures tl.slides[j].endFrame <= tl.slides[k].startFrame
    {
      SlideAt(infos, j);
      SlideAt(infos, k);
      SlidesInOrder(infos, j, k);
    }
  }

  /** With non-negative durations every cue of every slide lies inside its slide, in time and in frames. */
  lemma SubtitlesWithinSlides(infos: seq<AudioInfo>)
    requires forall m :: 0 <= m < |infos| ==> 0.0 <= infos[m].duration
    ensures var tl := TimelineOf(infos);
      forall k, i :: 0 <= k < |infos| && 0 <= i < |tl.slides[k].subtitles| ==>
        var slide, cue := tl.slides[k], tl.slides[k].subtitles[i];
        slide.startTime <= cue.start <= cue.end <= slide.endTime
        && slide.startFrame <= cue.startFrame <= cue.endFrame <= slide.endFrame
  {
    var tl := TimelineOf(infos);
    forall k | 0 <= k < |infos|
      ensures forall i :: 0 <= i < |tl.slides[k].subtitles| ==>
        var slide, cue := tl.slides[k], tl.slides[k].subtitles[i];
        slide.startTime <= cue.start <= cue.end <= slide.endTime
        && slide.startFrame <= cue.startFrame <= cue.endFrame <= slide.endFrame
    {
      var info := infos[k];
      SlideAt(infos, k);
      CuesWithinSlide(TextSegments(info.script, DefaultSegmentChars), info.duration, SumDurations(infos[..k]));
    }
  }

  /**
   * A slide's cues show its segments of the narration in order: one cue per
   * segment of `split_text_into_segments(script)`, none when there are none.
   */
  lemma SubtitlesFollowScript(infos: seq<AudioInfo>)
    ensures var tl := TimelineOf(infos);
      forall k :: 0 <= k < |infos| ==>
        var segments := TextSegments(infos[k].script, DefaultSegmentChars);
        |tl.slides[k].subtitles| == |segments|
        && forall i :: 0 <= i < |segments| ==> tl.slides[k].subtitles[i].text == segments[i]
  {
    var tl := TimelineOf(infos);
    forall k | 0 <= k < |infos|
      ensures var segments := TextSegments(infos[k].script, DefaultSegmentChars);
        |tl.slides[k].subtitles| == |segments|
        && forall i :: 0 <= i < |segments| ==> tl.slides[k].subtitles[i].text == segments[i]
    {
      SlideAt(infos, k);
      CuesContiguous(TextSegments(infos[k].script, DefaultSegmentChars), infos[k].duration, SumDurations(infos[..k]));
    }
  }
}
