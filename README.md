# Slide-video pipeline core in Dafny

This project models three routines of a pipeline that turns a Marp slide deck into a narrated video:

- **Parsing the deck.** `parse_marp_slides` in `scripts/generate_script.py` cuts the deck's text at every `---`. It skips blank blocks and the `marp:` front matter. Each remaining block becomes a slide numbered from 1. The slide's title is the block's last `# ` heading. Its content is the block's other non-blank lines.
- **Segmenting a narration.** `split_text_into_segments` in `scripts/generate_timings.py` cuts a narration into subtitle segments:
  - sentences end after 。, ！, ？ or a line break, and are stripped;
  - a sentence longer than the segment budget (25 characters per line times 2 lines, so 50) is split on 、 into clauses;
  - those clauses are packed greedily into segments of at most the budget, except that a single clause that alone exceeds the budget is emitted whole.
- **Building the timeline.** The timing loop of `generate_timings` gives each slide its measured audio duration. It spreads that duration over the slide's segments in proportion to their character counts, or equally when there are no characters. The cues of a slide are laid back to back from the slide's start, and slides are laid end to end. Every time is converted to a frame index with `int(t * 30)`.

## Project layout

- **Loops become methods.** Each routine's loop is a `method` with its invariants (`MarpSlides.ParseMarpSlides`, `Segmentation.SplitSentences`, `Segmentation.PackClauses`, `Segmentation.SplitTextIntoSegments`, `Timing.AllocateCues`, `Timing.GenerateTimings`).
- **Specification functions.** Each method is proved equal to a specification function (`DeckSlides` and `SlideOf`, `Sentences`, `ClauseSegments`, `TextSegments`, `Cues`, `TimelineOf`).
- **Properties.** What the code promises is proved about those functions as lemmas, in `SegmentationProperties`, `TimingProperties` and `MarpProperties`.
- **Python string operations.** `PyStr` models the `str` operations the code uses: `strip()` with Python's whitespace set, `rstrip(c)`, `startswith`, `split(sep)` and `sep.join`.

The model follows the code as written. These behaviours of the code are worth knowing:

- Cues within a slide are contiguous: the code inserts no pause between one cue and the next.
- The segment budget is `25 * 2 = 50` characters. The code never inserts a line break into a segment; `max_lines` only scales the budget.
- The test `part != parts[-1]` compares values, not positions. An earlier clause equal to the sentence's last clause also loses its 、 (`SegmentationProperties.ClauseGroupsCoverSentence`).
- A segment of an over-long sentence is empty exactly when its group is made of 、 alone: `rstrip('、')` then removes everything (`SegmentationProperties.EmptySegmentsAreCommaRuns`). Such a group arises in several ways, and a leading 、 is neither needed nor sufficient:
  - `、x` with a 、-free `x` that does not fit beside the 、 gives `""` and `x` (`SegmentationProperties.LeadingCommaEmptySegment`);
  - `、、x`, for example `、、abc` with a budget of 3, gives `""` and `x`, although the piece after the first 、 fits beside it (`SegmentationProperties.DoubleLeadingComma`);
  - `a、、c`, for example `ab、、cd` with a budget of 2, gives `a`, `""` and `c`: an empty segment in the middle of a sentence that does not start with 、 (`SegmentationProperties.InnerEmptySegment`);
  - `、x、`, for example `、abc、` with a budget of 3, gives just `x`: the empty first clause equals the empty last clause, so it gets no 、 and the leading 、 is lost (`SegmentationProperties.LeadingCommaLost`);
  - `、x、y` where `、x、` fits and `y` does not fit beside it gives `、x` and `y`: no empty segment (`SegmentationProperties.LeadingCommaJoined`).
- `durationFrames` is `int(duration * 30)`, computed on its own. It can differ by one from `endFrame - startFrame` (`TimingProperties.SlideFramesDrift`).

## Model

One table, in three parts: the loops first, then the properties the code promises, routine by routine, and last the supporting lemmas (marked "supporting"), which are the steps those properties are proved from or unfoldings of single definitions.

| member | source | states |
|---|---|---|
| MarpSlides.ParseMarpSlides | scripts/generate_script.py:26-52 | the block loop yields exactly `DeckSlides(content)` |
| MarpSlides.ParseBlock | scripts/generate_script.py:36-50 | the line loop yields exactly `SlideOf(block, index)`: the last `# ` heading as title and the other non-blank lines as content |
| Segmentation.SplitTextIntoSegments | scripts/generate_timings.py:25-76 | the whole function yields `TextSegments(text, max_chars_per_line * max_lines)` |
| Segmentation.SplitSentences | scripts/generate_timings.py:40-51 | the character scan yields exactly `Sentences(text)`: the stripped, non-blank chunks cut after each terminator, in order |
| Segmentation.PackClauses | scripts/generate_timings.py:60-74 | the clause loop yields exactly the greedy packing of the sentence's 、-pieces with trailing 、 removed |
| Timing.GenerateTimings | scripts/generate_timings.py:90-160 | the slide loop yields exactly `TimelineOf(infos)`: slide `k` starts after the durations of the slides before it |
| Timing.AllocateCues | scripts/generate_timings.py:111-136 | the cue loop yields exactly `Cues(segments, duration, start)`, and no cues for no segments |
| MarpProperties.JoinSplit | scripts/generate_script.py:36-49 | splitting at a one-character separator undoes joining with it (`PyStr.Join`) when no part contains it |
| MarpProperties.KeptBlocksLength | scripts/generate_script.py:27-33 | there are no more kept blocks than blocks |
| MarpProperties.KeptBlockAt | scripts/generate_script.py:30-33 | a non-blank, non-front-matter block is kept, stripped, right after the kept blocks before it |
| MarpProperties.KeptBlockOrigin | scripts/generate_script.py:30-33 | kept block `i` is the stripped text of a block that is neither blank nor front matter, with exactly `i` kept blocks before it |
| MarpProperties.KeptBlocksShape | scripts/generate_script.py:31-33 | a kept block is non-empty, stripped and does not start with `marp:` |
| MarpProperties.TitleNone | scripts/generate_script.py:37-42 | a block with no `# ` line has the empty title; a `## ` line is not a title |
| MarpProperties.TitleLast | scripts/generate_script.py:40-42 | the title is the stripped text after the last `# ` line; later headings override earlier ones |
| MarpProperties.ContentLinesMembers | scripts/generate_script.py:40-44 | a line is content if and only if it is a line of the block that is neither blank nor a `# ` line |
| MarpProperties.SlideContentLines | scripts/generate_script.py:36-49 | a slide's content is empty exactly when it has no content lines, and otherwise splits at line breaks back into exactly those lines |
| MarpProperties.SlidesNumbered | scripts/generate_script.py:27-47 | there are no more slides than `---` blocks, and slide `i` carries number `i + 1` |
| MarpProperties.SlideFromBlock | scripts/generate_script.py:27-50 | slide `i` is made from the block kept after exactly `i` kept blocks, stripped |
| MarpProperties.BlockBecomesSlide | scripts/generate_script.py:27-50 | every non-blank, non-front-matter block becomes a slide, numbered one more than the kept blocks before it |
| MarpProperties.BlocksCoverDeck | scripts/generate_script.py:27 | splitting at `---` loses nothing: the blocks joined with `---` are the deck's text |
| Segmentation.FirstTerminator | scripts/generate_timings.py:43-48 | the first 。！？ or line break in the text; none occurs before it |
| Segmentation.ChunksConcat | scripts/generate_timings.py:43-48 | the scan's chunks concatenate back to the narration: no character is lost |
| Segmentation.ChunksClosed | scripts/generate_timings.py:43-48 | every chunk but the last ends with its only terminator; the last chunk has none |
| Segmentation.StrippedNonBlank | scripts/generate_timings.py:46-51 | every sentence is non-empty and stripped, and there are no more sentences than chunks |
| SegmentationProperties.GroupsKeepText | scripts/generate_timings.py:62-74 | greedy packing (`Segmentation.Groups`, the clause loop) keeps every character in order: the groups concatenate to the open group followed by all pieces |
| SegmentationProperties.GroupsBounded | scripts/generate_timings.py:65-71 | every group is non-empty, and is within the budget unless it is a single piece that alone exceeds it |
| SegmentationProperties.GroupsGreedy | scripts/generate_timings.py:65-71 | a group is closed only when the next piece overflows it: no two neighbouring groups fit the budget together |
| SegmentationProperties.GroupsHead | scripts/generate_timings.py:65-66 | packing extends the group under construction: the first group exists and starts with it |
| SegmentationProperties.ClauseGroupsCoverSentence | scripts/generate_timings.py:60-74 | the groups reproduce the sentence if and only if no clause before the last equals the last clause |
| SegmentationProperties.ClauseSegmentsShape | scripts/generate_timings.py:60-74 | no segment ends in 、, and each is within the budget or is one whole over-long clause |
| SegmentationProperties.ClauseGroupsGreedy | scripts/generate_timings.py:62-71 | no two neighbouring groups of a sentence would fit the budget together |
| SegmentationProperties.ShortSentencesPassThrough | scripts/generate_timings.py:55-57 | sentences within the budget are the segments, unchanged and in order |
| SegmentationProperties.ShortNarrationPassesThrough | scripts/generate_timings.py:25-57 | a narration whose sentences all fit the budget is segmented into exactly its sentences |
| SegmentationProperties.SegmentsOfShape | scripts/generate_timings.py:55-74 | every segment fits the budget or is one clause of one of the sentences |
| SegmentationProperties.TextSegmentsShape | scripts/generate_timings.py:25-76 | every segment of a narration fits the budget or is one whole clause of one of its sentences |
| SegmentationProperties.LeadingCommaEmptySegment | scripts/generate_timings.py:56-74 | an over-long `、x` with `x` free of 、 and at least the budget long gives the segments `""` and `x`: the lone 、 is flushed and trimmed to nothing |
| SegmentationProperties.LeadingCommaJoined | scripts/generate_timings.py:56-74 | an over-long `、x、y` whose `、x、` fits the budget gives the segments `、x` and `y`: no empty segment when the clause after the leading 、 fits beside it |
| SegmentationProperties.EmptySegmentsAreCommaRuns | scripts/generate_timings.py:60-74 | a segment of an over-long sentence is empty if and only if its group is a non-empty run of 、 only, which `rstrip('、')` removes entirely |
| SegmentationProperties.DoubleLeadingComma | scripts/generate_timings.py:56-74 | an over-long `、、x` whose `、、` fits but not beside `x` gives the segments `""` and `x` |
| SegmentationProperties.InnerEmptySegment | scripts/generate_timings.py:56-74 | an over-long `a、、c` where no piece fits beside its neighbour gives `a`, `""` and `c` |
| SegmentationProperties.LeadingCommaLost | scripts/generate_timings.py:56-74 | an over-long `、x、` whose `x、` does not fit gives just `x`: the leading 、 is dropped by the value comparison and no empty segment appears |
| Timing.Trunc | scripts/generate_timings.py:132-133 | `int(x)` truncates toward zero: the largest integer not above a non-negative `x`, the smallest not below a negative one |
| TimingProperties.FrameMonotone | scripts/generate_timings.py:132-133 | a later time never gets an earlier frame (`Timing.Frame`) |
| TimingProperties.SlideFramesDrift | scripts/generate_timings.py:143-147 | a slide's frame span is `durationFrames` or one more |
| TimingProperties.CueOffsetEnds | scripts/generate_timings.py:118-136 | the first cue starts at the slide start and the last ends at slide start plus duration |
| TimingProperties.CuesContiguous | scripts/generate_timings.py:118-136 | one cue per segment with its text; frames are `int(t * 30)` of its times; cues are back to back from the slide start to its end |
| TimingProperties.CueDurations | scripts/generate_timings.py:122-126 | each cue lasts `duration * char_ratio` |
| TimingProperties.CueDurationsSum | scripts/generate_timings.py:120-136 | the cue durations add up to the slide's duration exactly |
| TimingProperties.RatioBounds | scripts/generate_timings.py:122 | `char_ratio` lies between 0 and 1 |
| TimingProperties.CueOffsetBounds | scripts/generate_timings.py:118-136 | cue boundaries are non-decreasing and within the slide |
| TimingProperties.CuesWithinSlide | scripts/generate_timings.py:111-136 | every cue starts no earlier than the slide, ends no later, and never ends before it starts, in time and in frames |
| TimingProperties.SlidesFollowEntries | scripts/generate_timings.py:138-156 | one slide per entry, in order, with its index and script copied, ending `duration` after it starts; fps is 30 |
| TimingProperties.SlidesEndToEnd | scripts/generate_timings.py:144-152 | each slide starts exactly where the previous one ends |
| TimingProperties.TimelineEnds | scripts/generate_timings.py:91-160 | the first slide starts at 0; the last slide ends at the total duration and at the total frame count |
| TimingProperties.SlideInTimeline | scripts/generate_timings.py:144-152 | with non-negative durations each slide lies within the whole timeline |
| TimingProperties.SlidesInOrder | scripts/generate_timings.py:144-152 | an earlier slide ends no later than a later slide starts |
| TimingProperties.TimelineFramesOrdered | scripts/generate_timings.py:143-158 | slide frames are within `[0, totalFrames]`, start before they end, and do not overlap between slides |
| TimingProperties.SubtitlesWithinSlides | scripts/generate_timings.py:111-150 | every cue of every slide lies inside its slide, in time and in frames |
| TimingProperties.SubtitlesFollowScript | scripts/generate_timings.py:107-148 | each slide has one cue per segment of its own script, carrying that segment's text |
| TimingProperties.FrameElapsed | scripts/generate_timings.py:132-133 | for a non-negative time `t`, the frame index `Timing.Frame(t)`, which is `int(t * 30)`, is the number of whole frames elapsed: `Frame(t) <= t * 30 < Frame(t) + 1` |
| PyStr.Strip | scripts/generate_timings.py:46-47 | `strip()` result neither starts nor ends with whitespace and is no longer than its input; whitespace is Python's `isspace` set (`PyStr.IsSpace`: tab to carriage return, U+001C to U+001F, space, U+0085, U+00A0, U+1680, U+2000 to U+200A, U+2028, U+2029, U+202F, U+205F and the ideographic space U+3000) |
| PyStr.StripEmpty | scripts/generate_timings.py:46 | `s.strip()` is empty exactly when `s` is all whitespace, so `if current.strip()` tests for a non-blank buffer |
| PyStr.StripRemovesOnlySpace | scripts/generate_script.py:31 | `strip()` keeps a contiguous middle part and removes only whitespace at the two ends |
| PyStr.RStrip | scripts/generate_timings.py:70 | `rstrip('、')` removes exactly the trailing run of 、 and nothing else; the result does not end in 、 |
| PyStr.SplitJoin | scripts/generate_timings.py:60 | `sep.join(s.split(sep)) == s` (`PyStr.Join` after `PyStr.Split`) and no part contains the separator |
| PyStr.Find | scripts/generate_timings.py:60 | supporting: the position `split` cuts at is the first occurrence of the separator |
| PyStr.Split | scripts/generate_timings.py:60-64 | supporting: `split` with a non-empty separator always returns at least one part, so `parts[-1]` is defined |
| SegmentationProperties.ClauseHasNoComma | scripts/generate_timings.py:60 | supporting: a clause of `split('、')` contains no 、 |
| SegmentationProperties.RStripPiece | scripts/generate_timings.py:64-70 | supporting: trimming trailing 、 from a clause's piece gives the clause back |
| SegmentationProperties.PiecesLength | scripts/generate_timings.py:64 | supporting: the pieces are never longer than the clauses joined with 、, and strictly shorter when an earlier clause equals the last one |
| SegmentationProperties.PiecesJoin | scripts/generate_timings.py:64 | supporting: without such a clause, the pieces are exactly the clauses joined with 、 |
| SegmentationProperties.SplitNoComma | scripts/generate_timings.py:60 | supporting: a text without 、 splits into itself alone |
| SegmentationProperties.SplitAfterClause | scripts/generate_timings.py:60 | supporting: a 、-free clause followed by 、 is split off as the first part |
| SegmentationProperties.LeadingCommaClauses | scripts/generate_timings.py:60 | supporting: `、x、y` with 、-free `x` and `y` splits into an empty clause, `x` and `y` |
| SegmentationProperties.LeadingCommaGroups | scripts/generate_timings.py:62-71 | supporting: packing the pieces of `、x、y` closes `、x、` and starts `y` when `y` does not fit beside it |
| SegmentationProperties.RStripEmpty | scripts/generate_timings.py:70 | supporting: `rstrip(c)` leaves nothing exactly when every character is `c` |
| SegmentationProperties.DoubleLeadingClauses | scripts/generate_timings.py:60 | supporting: `、、x` splits into two empty clauses and `x` |
| SegmentationProperties.DoubleLeadingGroups | scripts/generate_timings.py:62-71 | supporting: packing `、`, `、`, `x` gives `、、` and `x` when `x` does not fit beside `、、` |
| SegmentationProperties.EnclosedClauses | scripts/generate_timings.py:60 | supporting: `、x、` splits into an empty clause, `x` and an empty clause |
| SegmentationProperties.EnclosedGroups | scripts/generate_timings.py:62-71 | supporting: packing an empty piece, an over-long piece and an empty piece gives that one piece |
| SegmentationProperties.InnerClauses | scripts/generate_timings.py:60 | supporting: `a、、c` splits into `a`, an empty clause and `c` |
| SegmentationProperties.InnerGroups | scripts/generate_timings.py:62-71 | supporting: three pieces none of which fits beside its neighbour give three groups |
| Timing.CueOffsetStep | scripts/generate_timings.py:122-136 | supporting: each cue starts where the previous one ends, `duration * char_ratio` later |
| TimingProperties.TotalCharsConcat | scripts/generate_timings.py:115-116 | supporting: `total_chars` is the length of all segments laid end to end |
| TimingProperties.TotalCharsPrefix | scripts/generate_timings.py:115-116 | supporting: the characters before a cue never exceed the slide's total |
| TimingProperties.ShownPrefix | scripts/generate_timings.py:120-136 | supporting: the first `k` cues together last as long as the offset of cue `k` |
| TimingProperties.RatioShares | scripts/generate_timings.py:122 | supporting: unfolds `Ratio`: `char_ratio` is the segment's share of the characters, or `1/n` when there are none |
| TimingProperties.CueOffsetRange | scripts/generate_timings.py:118-136 | supporting: with a non-negative duration every cue boundary lies within the slide |
| TimingProperties.CueInSlide | scripts/generate_timings.py:125-133 | supporting: one cue lies inside its slide, in time and in frames |
| TimingProperties.SlideAt | scripts/generate_timings.py:96-152 | supporting: unfolds `TimelineOf`: slide `k` is entry `k` scheduled at the sum of the earlier durations |
| TimingProperties.SumDurationsNonNegative | scripts/generate_timings.py:152 | supporting: with non-negative durations `current_time` is never negative |
| TimingProperties.SumDurationsMonotone | scripts/generate_timings.py:152 | supporting: with non-negative durations `current_time` never decreases |
| MarpSlides.NumberedSnoc | scripts/generate_script.py:46-50 | supporting: appending a kept block appends one slide numbered after the ones before it |
| MarpProperties.FindAfter | scripts/generate_script.py:36 | supporting: splitting at a line break cuts right after a first line that has none |
| MarpProperties.KeptBlocksAppend | scripts/generate_script.py:30-33 | supporting: blocks are filtered one by one: the kept blocks of two runs of blocks are those of each, in order |
| MarpProperties.KeptBlocksSingle | scripts/generate_script.py:31-33 | supporting: unfolds `KeptBlocks` on one block: it contributes its stripped text when it is neither blank nor front matter, and nothing otherwise |
| MarpProperties.ContentLinesAppend | scripts/generate_script.py:40-44 | supporting: content lines are gathered line by line, keeping their order |

## Left out

- Reading the deck file in `parse_marp_slides` is left out: the model starts from the file's text.
- Reading the audio metadata JSON, writing the timing JSON and the progress messages of `generate_timings` are left out: they are input and output only.
- `get_audio_duration`, which measures audio length through pydub, is left out. The durations are fields of the input entries.
- Floating point is left out: times are exact reals, so accumulated rounding in `current_time` and in the cue ends is not modelled. The code's own cue end and slide end can differ in the last bit; in the model they are equal.
- Python integer `current_time = 0` before the first slide is modelled as `0.0`. An empty timeline then has `totalDuration` 0.0 where the code writes the integer 0.
- Segmentation.SplitTextIntoSegments: the line length and line count are natural numbers; negative arguments, which the code would accept, are not modelled.
- The script generation with Gemini (`generate_script_for_slide`, `generate_full_script`), the command-line entry points, audio synthesis, slide image rendering, video assembly and the Remotion renderer are not part of this model. They are calls into external services or other programs.
- TimingProperties.CuesWithinSlide: assumes non-negative durations, which the code does not check; a measured audio length is never negative.
- TimingProperties.SubtitlesWithinSlides: assumes non-negative durations, which the code does not check; a measured audio length is never negative.
- TimingProperties.TimelineFramesOrdered: assumes non-negative durations, which the code does not check; a measured audio length is never negative.
- TimingProperties.SumDurationsNonNegative: assumes non-negative durations, which the code does not check; a measured audio length is never negative.
- TimingProperties.SumDurationsMonotone: assumes non-negative durations, which the code does not check; a measured audio length is never negative.
- TimingProperties.SlideInTimeline: assumes non-negative durations, which the code does not check; a measured audio length is never negative.
- TimingProperties.SlidesInOrder: assumes non-negative durations, which the code does not check; a measured audio length is never negative.
