/**
 * Timing allocation and timeline assembly (the loop of `generate_timings`).
 *
 * Each slide's measured audio duration is spread over its subtitle segments in
 * proportion to their character counts (an equal share each when they have no
 * characters at all); cues are laid back to back from the slide's start, slides
 * are laid end to end, and every time is converted to a frame index with
 * `int(t * 30)`. Times are exact reals here; durations are inputs.
 */
module Timing {
  import opened Segmentation

  /** The renderer's frame rate. */
  const Fps: nat := 30

  /** One entry of the audio metadata, with its audio duration already measured. */
  datatype AudioInfo = AudioInfo(index: int, title: string, audioFile: string, script: string, duration: real)

  /** One subtitle cue of a slide. */
  datatype Subtitle = Subtitle(text: string, start: real, end: real, startFrame: int, endFrame: int)

  /** One slide's resolved schedule. */
  datatype SlideTiming = SlideTiming(
    index: int, title: string, audioFile: string,
    duration: real, durationFrames: int,
    startTime: real, endTime: real, startFrame: int, endFrame: int,
    subtitles: seq<Subtitle>, fullScript: string)

  /** The whole output timeline. */
  datatype Timeline = Timeline(fps: nat, totalDuration: real, totalFrames: int, slides: seq<SlideTiming>)

  /** Python's `int(x)` on a float: truncation toward zero. */
  function Trunc(x: real): (n: int)
    ensures 0.0 <= x ==> n as real <= x < n as real + 1.0
    ensures x < 0.0 ==> n as real - 1.0 < x <= n as real
  {
    if x >= 0.0 then x.Floor else -((-x).Floor)
  }

  /** The frame index of a time in seconds: `int(t * fps)`. */
  function Frame(t: real): int {
    Trunc(t * Fps as real)
  }

  // ---------------------------------------------------------------------------
  // Cues of one slide
  // ---------------------------------------------------------------------------

  /** `sum(len(segment) for segment in segments)`. */
  function TotalChars(segments: seq<string>): nat {
    if segments == [] then 0 else |segments[0]| + TotalChars(segments[1..])
  }

  /** `char_ratio` of segment `i`: its share of the characters, or `1 / n` when there are none. */
  function Ratio(segments: seq<string>, i: nat): real
    requires i < |segments|
  {
    var total := TotalChars(segments);
    if total > 0 then |segments[i]| as real / total as real else 1.0 / |segments| as real
  }

  /**
   * Where cue `i` starts, relative to the slide start: the slide's duration
   * times the share of the characters before it (or `i / n` of it when there are
   * no characters).
   */
  function CueOffset(segments: seq<string>, duration: real, i: nat): real
    requires 0 < |segments| && i <= |segments|
  {
    var total := TotalChars(segments);
    if total > 0 then duration * (TotalChars(segments[..i]) as real / total as real)
    else duration * (i as real / |segments| as real)
  }

  function MakeCue(text: string, start: real, end: real): Subtitle {
    Subtitle(text, start, end, Frame(start), Frame(end))
  }

  /** The cues of a slide that starts at `slideStart` and lasts `duration`: none when there are no segments. */
  function Cues(segments: seq<string>, duration: real, slideStart: real): seq<Subtitle> {
    seq(|segments|, i requires 0 <= i < |segments| =>
      MakeCue(segments[i], slideStart + CueOffset(segments, duration, i), slideStart + CueOffset(segments, duration, i + 1)))
  }

  lemma {:induction false} TotalCharsAppend(a: seq<string>, b: seq<string>)
    ensures TotalChars(a + b) == TotalChars(a) + TotalChars(b)
  {
    if a != [] {
      assert (a + b)[0] == a[0];
      assert (a + b)[1..] == a[1..] + b;
      TotalCharsAppend(a[1..], b);
    } else {
      assert a + b == b;
    }
  }

  lemma TotalCharsSnoc(segments: seq<string>, i: nat)
    requires i < |segments|
    ensures TotalChars(segments[..i + 1]) == TotalChars(segments[..i]) + |segments[i]|
  {
    assert segments[..i + 1] == segments[..i] + [segments[i]];
    TotalCharsAppend(segments[..i], [segments[i]]);
  }

  lemma ScaleAdd(d: real, a: real, b: real, t: real)
    requires t > 0.0
    ensures d * (a / t) + d * (b / t) == d * ((a + b) / t)
  {
    assert (a + b) / t == a / t + b / t;
  }

  /** Cue `i + 1` starts where cue `i` ends: after `duration * char_ratio` more seconds. */
  lemma CueOffsetStep(segments: seq<string>, duration: real, i: nat)
    requires i < |segments|
    ensures CueOffset(segments, duration, i + 1) == CueOffset(segments, duration, i) + duration * Ratio(segments, i)
  {
    var total := TotalChars(segments);
    if total > 0 {
      TotalCharsSnoc(segments, i);
      ScaleAdd(duration, TotalChars(segments[..i]) as real, |segments[i]| as real, total as real);
    } else {
      ScaleAdd(duration, i as real, 1.0, |segments| as real);
    }
  }

  /** The first `i` cues of the slide have been made and the next one starts at `segmentStart`. */
  ghost predicate CueState(segments: seq<string>, duration: real, slideStart: real, i: nat, segmentStart: real, subtitles: seq<Subtitle>)
    requires 0 < |segments|
  {
    i <= |segments| && |subtitles| == i
    && segmentStart == slideStart + CueOffset(segments, duration, i)
    && subtitles == Cues(segments, duration, slideStart)[..i]
  }

  lemma CueStep(segments: seq<string>, duration: real, slideStart: real, i: nat, segmentStart: real, subtitles: seq<Subtitle>)
    requires 0 < |segments| && i < |segments|
    requires CueState(segments, duration, slideStart, i, segmentStart, subtitles)
    ensures var endTime := segmentStart + duration * Ratio(segments, i);
      CueState(segments, duration, slideStart, i + 1, endTime, subtitles + [MakeCue(segments[i], segmentStart, endTime)])
  {
    CueOffsetStep(segments, duration, i);
    var cues := Cues(segments, duration, slideStart);
    assert cues[..i + 1] == cues[..i] + [cues[i]];
  }

  /**
   * The cue loop of one slide: from the slide start, each segment gets
   * `duration * char_ratio` seconds and the next cue starts where it ends.
   */
  method AllocateCues(segments: seq<string>, duration: real, slideStart: real) returns (subtitles: seq<Subtitle>)
    ensures subtitles == Cues(segments, duration, slideStart)
  {
    subtitles := [];
    if segments != [] {
      var segmentStart := slideStart;
      for i := 0 to |segments|
        invariant CueState(segments, duration, slideStart, i, segmentStart, subtitles)
      {
        var segmentDuration := duration * Ratio(segments, i);
        var startTime := segmentStart;
        var endTime := startTime + segmentDuration;
        CueStep(segments, duration, slideStart, i, segmentStart, subtitles);
        subtitles := subtitles + [Subtitle(segments[i], startTime, endTime, Frame(startTime), Frame(endTime))];
        segmentStart := endTime;
      }
      assert Cues(segments, duration, slideStart)[..|segments|] == Cues(segments, duration, slideStart);
    }
  }

  // ---------------------------------------------------------------------------
  // Slides and the timeline
  // ---------------------------------------------------------------------------

  /** The segment budget `split_text_into_segments` uses by default (25 * 2). */
  const DefaultSegmentChars: nat := DefaultMaxCharsPerLine * DefaultMaxLines

  /** The durations of the entries, added up in order. */
  function SumDurations(infos: seq<AudioInfo>): real {
    if infos == [] then 0.0
    else SumDurations(infos[..|infos| - 1]) + infos[|infos| - 1].duration
  }

  /** The schedule of one slide that starts at `startTime`. */
  function ScheduleOf(info: AudioInfo, startTime: real): SlideTiming {
    var endTime := startTime + info.duration;
    SlideTiming(
      info.index, info.title, info.audioFile,
      info.duration, Frame(info.duration),
      startTime, endTime, Frame(startTime), Frame(endTime),
      Cues(TextSegments(info.script, DefaultSegmentChars), info.duration, startTime),
      info.script)
  }

  /** The timeline of all entries: entry `k` starts after the durations of the entries before it. */
  function TimelineOf(infos: seq<AudioInfo>): Timeline {
    var total := SumDurations(infos);
    Timeline(Fps, total, Frame(total),
      seq(|infos|, k requires 0 <= k < |infos| => ScheduleOf(infos[k], SumDurations(infos[..k]))))
  }

  lemma SumDurationsSnoc(infos: seq<AudioInfo>, k: nat)
    requires k < |infos|
    ensures SumDurations(infos[..k + 1]) == SumDurations(infos[..k]) + infos[k].duration
  {
    assert infos[..k + 1][..k] == infos[..k];
  }

  /** The first `k` slides are laid out and `currentTime` is where the next one starts. */
  ghost predicate SlideState(infos: seq<AudioInfo>, k: nat, currentTime: real, slides: seq<SlideTiming>) {
    k <= |infos| && currentTime == SumDurations(infos[..k]) && slides == TimelineOf(infos).slides[..k]
  }

  lemma SlideStep(infos: seq<AudioInfo>, k: nat, currentTime: real, slides: seq<SlideTiming>)
    requires k < |infos| && SlideState(infos, k, currentTime, slides)
    ensures SlideState(infos, k + 1, currentTime + infos[k].duration, slides + [ScheduleOf(infos[k], currentTime)])
  {
    SumDurationsSnoc(infos, k);
    var all := TimelineOf(infos).slides;
    assert all[k] == ScheduleOf(infos[k], currentTime);
    assert all[..k + 1] == all[..k] + [all[k]];
  }

  /**
   * The slide loop of `generate_timings`: segment each narration, allocate its
   * cues from the running `current_time`, record the slide, then advance
   * `current_time` by the slide's duration.
   */
  method GenerateTimings(infos: seq<AudioInfo>) returns (timeline: Timeline)
    ensures timeline == TimelineOf(infos)
  {
    var slides: seq<SlideTiming> := [];
    var currentTime := 0.0;
    for k := 0 to |infos|
      invariant SlideState(infos, k, currentTime, slides)
    {
      var info := infos[k];
      var duration := info.duration;
      var segments := SplitTextIntoSegments(info.script, DefaultMaxCharsPerLine, DefaultMaxLines);
      var subtitles := AllocateCues(segments, duration, currentTime);
      SlideStep(infos, k, currentTime, slides);
      slides := slides + [SlideTiming(
        info.index, info.title, info.audioFile,
        duration, Frame(duration),
        currentTime, currentTime + duration, Frame(currentTime), Frame(currentTime + duration),
        subtitles, info.script)];
      currentTime := currentTime + duration;
    }
    assert infos[..|infos|] == infos;
    assert TimelineOf(infos).slides[..|infos|] == TimelineOf(infos).slides;
    timeline := Timeline(Fps, currentTime, Frame(currentTime), slides);
  }
}
