# Negotiation transcript analyzer: a Dafny model of its core

The analyzer takes a Fathom video-call transcript and produces per-utterance
and per-speaker statistics for negotiation research. This project models the
parts of that pipeline that are plain computation:

- **Preprocessing** (`source/fathomPreprocessor.py`, with the older copy
  `fathomPreprocessor.py`):
  - `%M:%S` timestamps are parsed and differenced into speaking spans (`convert_time`);
  - speaker names are anonymised or cleaned (`process_speaker_names`);
  - transcript text is cleaned (`clean_text`);
  - the split pieces are dealt round-robin into timestamps, speakers and transcripts (`prep_file`).
- **Parameterisation** (`src/parameterizer.py`, with the older copy `parameterizer.py`):
  - the capped words-per-minute rate (`speech_rate_detector`);
  - the narrative-voice and question-kind classifiers;
  - the score filter `maskFilter`;
  - the record loop of `parameterize`, which numbers the kept sentences and gives them their turn;
  - the turn-window scorer `responsiveness_coherence_detector`, which gives every record its best response, coherence and repetition match from a similarity matrix.
- **Speaker statistics** (`statAnalyzer.py`, with the analysis variants in `analyzer.py`):
  - air-time and word shares (`compareSpeakers`);
  - per-category shares (`tallySpeakerParam`);
  - per-speaker averages (`avgSpeakerParam`, `avgResponsiveness`, `avgSelfSimilarity`);
  - their merge into one row per speaker (`computeMetrics`).
- **Plotting preludes**:
  - the quadrant rule that labels a (coherence, response) pair (`src/visualizer.py`);
  - the size/pad prelude of the matplotlib helpers, which pads every series in place to the longest length with `None` and builds the x-axis labels (`visualizer.py`, `plotter.py`).

Each Python file becomes one module:

| file | module | form |
|---|---|---|
| basics.dfy | `Basics` | Python built-ins the core relies on: `Option`/`Result`, truncating `int(a / b)`, ASCII `lower()`, `str(n)`, `strip`, `replace`, `re.sub` over literal alternatives, sums and `max` |
| preprocess.dfy | `Preprocess` | functions; `ConvertTime`, `ProcessSpeakerNames` and `SplitThree` are methods with the source's loops |
| classifiers.dfy | `Classifiers` | functions and lemmas (`re.split` with a capturing group, word-set intersection) |
| parameterize.dfy | `Parameterize` | methods with the source's loops, proved against recursive specification functions |
| turn_relations.dfy | `TurnRelations` | `DetectRelations` updates an `array` of records in place, as the detector updates its `output` entries |
| turn_blocks.dfy | `TurnBlocks` | an independent description of the windows (blocks of equal `turn`) and what follows from it |
| speaker_stats.dfy | `SpeakerStats` | methods with the source's loops, each proved equal to a specification function; properties are lemmas about those functions |
| quadrant.dfy | `Quadrant` | one function |
| plot_prelude.dfy | `PlotPrelude` | class `DataDict` whose `lists` field the padding loop reassigns |

Python `dict`s become `map`s and lists become `seq`s. A Python exception
becomes an `Err` of `Result` carrying the exception's class (`ValueError`,
`ZeroDivisionError`, `IndexError`, `KeyError`). The source's floats become
`real`, and its integers stay unbounded as in Python.

Where the system's intended behaviour and the code disagree, the model
follows the code:

- The repetition match is computed only for records whose `turn` exceeds 2 (`src/parameterizer.py:158`). A record of turn 2 therefore has no repetition match (`TurnBlocks.ScenarioRepeat`).
- The repetition candidates are the ids before all three windows, latest first (`src/parameterizer.py:161`). They are not every earlier id outside the response and coherence windows.
- The repetition step raises `ValueError` when that range is empty (`TurnBlocks.SkippedSegmentRaises`).
- The "own previous turn" window is simply the turn before the previous one, whoever spoke it (`src/parameterizer.py:130-134`).
- Ties go to the first candidate in Python's `max` order:
  - the earliest id for the response;
  - the current-turn id over an older one for coherence;
  - the latest id for repetition.
  `TurnBlocks.ResponseSpec`, `CoherenceSpec` and `RepeatSpec` state each case.
- Records are not checked for id order; ids are consecutive because `parameterize` assigns them (`Parameterize.AssignedSpec`).
- `plotCongruence` in `plotter.py` labels its axis "Turn 1", "Turn 2", ... and does not pad (`plotter.py:110-111`).

## Model

| member | source | states |
|---|---|---|
| Basics.TruncDiv | src/parameterizer.py:26 | `int(a / b)` truncates toward zero: the magnitude is the magnitudes' floor quotient for every sign combination, never negative when the signs agree, never positive when they differ |
| Basics.NatToStringInjective | visualizer.py:20 | `str(n)` of two different naturals differ, so numbered labels never coincide |
| Basics.StripSpec | source/fathomPreprocessor.py:15 | `strip` returns a slice `s[i..j]` of the text that neither starts nor ends with a stripped character, every character before `i` and from `j` on is a stripped one, and the result is empty only when every character is stripped |
| Basics.ReplaceCharSpec | source/fathomPreprocessor.py:45 | replacing one character by another keeps the length and changes exactly that character's occurrences |
| Basics.ReplaceWhole | source/fathomPreprocessor.py:36 | replacing a whole non-empty name yields the substitute |
| Basics.Max | analyzer.py:69 | `max` of a non-empty list is one of its elements and at least every element |
| Preprocess.ParseMinSec | source/fathomPreprocessor.py:15-16 | a timestamp that `strptime` rejects gives `ValueError`; a parsed one is at most 59:61 in seconds |
| Preprocess.ParseClockSpec | source/fathomPreprocessor.py:15-16 | stripped text parses exactly when it is one or two minute digits, a colon and a valid seconds field, and then its value is 60 * minutes + seconds |
| Preprocess.ParseUnpadded | source/fathomPreprocessor.py:15-16 | an unpadded `M:S` timestamp reads as `60 * M + S` |
| Preprocess.StampsSpec | source/fathomPreprocessor.py:14-17 | the first loop succeeds exactly when every timestamp parses, and then holds each timestamp's own value in order |
| Preprocess.StampsHeadFails | source/fathomPreprocessor.py:14-15 | a timestamp that does not parse makes the whole call raise its error |
| Preprocess.ConvertTime | source/fathomPreprocessor.py:11-28 | the two loops compute `TimeSpans` |
| Preprocess.TimeSpansSpec | source/fathomPreprocessor.py:20-26 | one span per timestamp, each at least 1: the positive difference to the next timestamp (to `total_time` after the last), else 1; success exactly when every timestamp parses |
| Preprocess.TimeSpansAddUp | source/fathomPreprocessor.py:20-26 | when the timestamps strictly increase up to `total_time`, the first timestamp plus all spans is `total_time` |
| Preprocess.ConvertTimeSteady | src/test_functions.py:9 | `['00:00', '00:15', '1:00']` with total 120 gives `[15, 45, 60]` |
| Preprocess.ConvertTimeLateStart | src/test_functions.py:10 | a first timestamp of `00:01` shortens the first span to 14 |
| Preprocess.ConvertTimeRepeated | src/test_functions.py:11 | a repeated timestamp and a total equal to the last timestamp each give a span of 1: `[1, 60, 1]` |
| Preprocess.ProcessSpeakerNames | source/fathomPreprocessor.py:31-40 | one output per name, each the name after every rebinding pass in set order, and equal names give equal outputs; when no name occurs inside another name or inside an earlier substitute, the output is `Speaker{i}` by enumeration position when anonymising, and each name stripped otherwise |
| Preprocess.RenamedSeparate | source/fathomPreprocessor.py:34-39 | on such separate names, a name is untouched by the passes before its own, replaced whole by its own pass, and untouched by the later passes |
| Preprocess.SeparateNames | source/fathomPreprocessor.py:31-40 | on separate names every name becomes its own substitute: the whole-name anonymisation `Anonymized`, or `name.strip(junk)` |
| Preprocess.AnonymizeInOrder | source/fathomPreprocessor.py:35-36 | with the set enumerated as `a, b`, `a` becomes `Speaker0` and `b` becomes `Speaker1` |
| Preprocess.AnonymizeOtherOrder | source/fathomPreprocessor.py:35-36 | with the set enumerated as `b, a`, `b` ends as `SpeSpeaker1ker0`: the second pass replaces the `a` inside the label `Speaker0` |
| Preprocess.AnonymizedSeparates | source/fathomPreprocessor.py:34-36 | replacing whole names by `Speaker{i}` gives two places the same label exactly when their names are equal |
| Preprocess.CleanNameExamples | source/fathomPreprocessor.py:38-39 | without anonymisation `" a\n\r"` becomes `"a"`; the older copy's strip set (fathomPreprocessor.py:38) keeps the `\n\r` tail |
| Preprocess.UnwrappedSpec | source/fathomPreprocessor.py:45 | after `strip().replace('\n', ' ')` a piece holds no newline and neither starts nor ends with whitespace |
| Preprocess.CollapsedSpec | source/fathomPreprocessor.py:47-48 | `re.sub(r'\s{2,}', ' ', t)` leaves no two adjacent whitespace characters, adds only characters of the input or a space, keeps a non-space first character, and keeps the text: with whitespace taken out, result and input are equal |
| Preprocess.CollapsedEnd | source/fathomPreprocessor.py:47-48 | the collapse keeps a non-whitespace last character as the last character |
| Preprocess.CollapsedKeepsText | source/fathomPreprocessor.py:47-48 | the collapse only shortens whitespace runs: the non-whitespace characters survive, in order |
| Basics.SubAlternativesLast | source/fathomPreprocessor.py:51 | when no alternative ends in the text's last character, `re.sub` keeps that character last |
| Preprocess.LikeFreeEnd | source/fathomPreprocessor.py:51 | every filler ends in a space, so removing fillers keeps a non-whitespace last character last |
| Preprocess.LikeFreeSpec | source/fathomPreprocessor.py:51 | removing fillers keeps text free of adjacent whitespace and adds nothing new |
| Preprocess.CleanText | source/fathomPreprocessor.py:43-52 | one cleaned piece per input piece, in order |
| Preprocess.CleanLineSpec | source/fathomPreprocessor.py:45-51 | a cleaned piece holds no newline and no two adjacent whitespace characters, and has whitespace at neither end |
| Preprocess.CleanTextSpec | source/fathomPreprocessor.py:43-52 | after `clean_text` no piece holds a newline or two adjacent whitespace characters, and none starts or ends with whitespace |
| Preprocess.LikeBetweenWords | source/fathomPreprocessor.py:51 | `"a like b"` and `"a like, b"` become `"a b"` |
| Preprocess.FillerThenWord | source/fathomPreprocessor.py:51 | after a filler the scan resumes past its closing space, so the next word is kept |
| Preprocess.LikeLikeKeepsOne | source/fathomPreprocessor.py:51 | `" like like "` keeps one `" like "`, because the two matches would overlap |
| Preprocess.SplitThree | source/fathomPreprocessor.py:79-80 | the loop deals item `idx` to list `idx % 3`: the lists are the three columns of the content |
| Preprocess.ColumnPlacement | source/fathomPreprocessor.py:79-80 | item `idx` lands in list `idx % 3` at position `idx / 3` |
| Preprocess.ColumnLengths | source/fathomPreprocessor.py:79-80 | the three lists differ in length by at most one, the timestamps list is the longest, and together they hold every item |
| Preprocess.SplitRestores | source/fathomPreprocessor.py:79-80 | the split loses nothing: taking one item from each list in turn gives the content back |
| Preprocess.MergeSplits | source/fathomPreprocessor.py:79-80 | conversely, any three round-robin lists are the split of their merge |
| Classifiers.SplitKeepJoin | src/parameterizer.py:36 | `re.split` with a capturing separator loses nothing: joining the pieces gives the text back |
| Classifiers.SplitKeepPieces | src/parameterizer.py:36 | pieces at even positions hold no separator; pieces at odd positions are single separators |
| Classifiers.PieceIsWord | src/parameterizer.py:36-37 | every non-empty piece without a separator stands in the text as a whole word |
| Classifiers.WordIsPiece | src/parameterizer.py:36-37 | every whole word of the text is one of the pieces |
| Classifiers.MentionsIffWord | src/parameterizer.py:37-41 | the word set meets a set of lower-case keywords exactly when one of them occurs in the text as a whole word |
| Classifiers.Narrative | src/parameterizer.py:32-59 | the voice is one of "third", "second", "first", "passive" and "" |
| Classifiers.NarrativeSpec | src/parameterizer.py:41-59 | third person over second, second over first, first over passive, each iff its pronouns occur as whole words of the cleaned sentence; "" exactly for a pronoun-free cleaned sentence of at most one character |
| Classifiers.NarrativeIgnoresCase | src/parameterizer.py:34 | capitals do not change the voice |
| Classifiers.YouKnowIsNotSecondPerson | parameterizer.py:36 | "You know, sure" is passive: the "you" of "you know" is removed before splitting |
| Classifiers.YouKnowAloneIsEmpty | src/parameterizer.py:59 | "you know" alone cleans to the empty sentence and gets "" |
| Classifiers.QuestionSpec | src/parameterizer.py:62-71 | None exactly without '?'; otherwise "openEnded" iff why/how/what is a whole word of the lower-cased sentence, else "closedEnded"; the root variant (parameterizer.py:57-72) gives "NaQ" exactly without '?' |
| Classifiers.WhatAloneIsClosed | src/parameterizer.py:65-69 | "What?" is closed-ended: the '?' sticks to the word |
| Classifiers.WhyCommaIsClosed | src/parameterizer.py:65 | "why, really?" is closed-ended: the question split has no comma separator |
| Classifiers.MaskFilter | parameterizer.py:99-106 | the indices are in range and ascending, and an index is present exactly when its score lies strictly between the bounds |
| Classifiers.MaskFilterParams | parameterizer.py:103 | the parameterizer's filter keeps scores in (threshold, 0.99) |
| Classifiers.MaskFilterAnalysis | analyzer.py:10 | the analyzer's filter keeps scores in (threshold, 0.9) |
| Classifiers.UpperBoundsDiffer | analyzer.py:6-13 | a score of 0.95 passes the parameterizer's filter and not the analyzer's |
| Parameterize.PiecesJoin | src/parameterizer.py:25 | `len(s.split(" "))` of two texts joined by a space is the sum of their counts |
| Parameterize.NoWordsIffBlank | src/parameterizer.py:195 | `s.split()` has no words exactly when `s` is all whitespace |
| Parameterize.SpeechRateDetector | src/parameterizer.py:20-29 | the loop computes `SpeechRates` |
| Parameterize.SpeechRatesFail | src/parameterizer.py:24-26 | the rates exist exactly when every segment has a transcript and a non-zero time; otherwise the first faulting segment's `IndexError` or `ZeroDivisionError` |
| Parameterize.SpeechRatesValues | src/parameterizer.py:24-27 | one rate per segment; each is below 400 or exactly 150, and equals the exact words-per-minute value exactly when that is below 400 (also parameterizer.py:20-26) |
| Parameterize.SegmentsInOrder | src/parameterizer.py:189-199 | every kept sentence comes from its own segment with air time above 1, segments in order |
| Parameterize.SegmentsErrors | src/parameterizer.py:192-195 | the record loop raises only `IndexError` and `ZeroDivisionError` |
| Parameterize.BlankSentenceSkipped | src/parameterizer.py:195-197 | an all-whitespace sentence has air time 0 and is skipped |
| Parameterize.KeepSentences | src/parameterizer.py:194-218 | the inner loop appends the records of its segment's kept sentences, or stops with the inner loop's error |
| Parameterize.AssignRecords | src/parameterizer.py:183-218 | the id/turn loop computes `Assigned` |
| Parameterize.RecordsNumbered | src/parameterizer.py:203-217 | kept sentences in order become records with ids 0, 1, 2, ..., non-decreasing turns, and each record's fields taken from its segment |
| Parameterize.AssignedSpec | src/parameterizer.py:186-218 | on success every speaker had a transcript, the rates exist, and the records are numbered 0, 1, 2, ... with non-decreasing turns; when every segment has a transcript and a non-zero rate the call succeeds with the records of `AllKept`, and `sentence_list` is exactly those sentences |
| Parameterize.SegmentsKeepAll | src/parameterizer.py:189-199 | with a transcript and a non-zero rate for every segment, the loops raise nothing and keep exactly the sentences with air time above 1, segment by segment in spoken order |
| Parameterize.RecordsTexts | src/parameterizer.py:199-207 | each record carries the text of its kept sentence, so the texts list the kept sentences in order |
| Parameterize.Parameterize | src/parameterizer.py:181-223 | the whole function computes `Parameterized` |
| Parameterize.ParameterizedSpec | src/parameterizer.py:220-223 | only `IndexError`, `ZeroDivisionError` and `ValueError` are raised; on success every record is the detector's scoring of the producer's record against the similarity matrix of the kept sentences |
| Parameterize.EverySegmentSpeaksSucceeds | src/parameterizer.py:189-221 | when every segment keeps a sentence, turns go up by one and `parameterize` succeeds |
| TurnRelations.BeforeWithin | src/parameterizer.py:130-134 | the windows hold only ids of records already passed |
| TurnRelations.ArgMaxIsFirstMax | src/parameterizer.py:143 | `max(..., key=...)` picks a maximal candidate, and no earlier candidate scores as high |
| TurnRelations.Countdown | src/parameterizer.py:161 | `range(n, -1, -1)` lists n, n-1, ..., 0, and nothing for negative n |
| TurnRelations.ScoreEntry | src/parameterizer.py:136-166 | one record scored: its three matches as `Scored` gives them, or, when the repetition step raises, the record with response and coherence already written |
| TurnRelations.DetectRelations | src/parameterizer.py:122-177 | the in-place pass over the records leaves them as `Detected` describes |
| TurnRelations.DetectedSpec | src/parameterizer.py:129-168 | the pass finishes exactly when every record scores; when it raises at a record, every earlier record is scored, that record has response and coherence written, and later records are untouched |
| TurnBlocks.WindowsAreTurnBlocks | src/parameterizer.py:130-134 | the rotated windows are the record's own block so far, the block before it and the block before that |
| TurnBlocks.WindowsAreRanges | src/parameterizer.py:130-134 | with ids 0, 1, 2, ... the windows are three adjacent, disjoint id ranges below the current id |
| TurnBlocks.MaxByFirst | src/parameterizer.py:143 | the best match is a candidate with the highest score, and the first such candidate in the list |
| TurnBlocks.ResponseSpec | src/parameterizer.py:138-146 | no response exactly when the previous turn is empty; otherwise the best score of the previous turn, ties to the earliest id |
| TurnBlocks.CoherenceSpec | src/parameterizer.py:148-156 | no coherence exactly when the current turn so far and the turn two back are empty; otherwise the best over both, ties to a current-turn id, then to the earliest |
| TurnBlocks.RepeatSpec | src/parameterizer.py:158-166 | no repetition for turns up to 2; beyond, `ValueError` exactly when no id precedes the windows, else the best older id, ties to the latest |
| TurnBlocks.EarlyBlocksAreEarlyTurns | src/parameterizer.py:158-161 | with turns going up by one, an empty range before the windows happens only at turns up to 2 |
| TurnBlocks.StepByOneTurnsNeverRaise | src/parameterizer.py:158-163 | with ids 0, 1, 2, ... and turns going up by one, the pass never raises |
| TurnBlocks.EarlierCandidateWinsTie | src/parameterizer.py:143 | candidates 2 and 5 both scoring 0.7 give 2 |
| TurnBlocks.ScenarioResponse | src/parameterizer.py:138-146 | in the two-speaker scenario, record 4 responds to record 3 with score 0.5 |
| TurnBlocks.ScenarioCoherence | src/parameterizer.py:148-156 | record 4 is coherent with record 0 with score 0.8 |
| TurnBlocks.ScenarioRepeat | src/parameterizer.py:158-166 | record 4 is in turn 2 and gets no repetition match |
| TurnBlocks.SkippedSegmentRaises | src/parameterizer.py:158-163 | records of turns 0, 2 and 3 make the pass raise at the third record |
| SpeakerStats.SpeakersSpec | statAnalyzer.py:17-18 | the speakers in first-appearance order list every speaker with an entry exactly once |
| SpeakerStats.Proportion | statAnalyzer.py:17 | 0.0 when the total is not positive, else the share whose product with the total is the value |
| SpeakerStats.CompareSpeakers | statAnalyzer.py:5-18 | the loop computes `Shares`: each speaker's sum over the total, under `f"{parameter}Proportion"` (also analyzer.py:16-29) |
| SpeakerStats.SumByTotal | statAnalyzer.py:13-14 | the speakers' sums add up to `total` |
| SpeakerStats.ValuesSum | statAnalyzer.py:13 | a speaker's count is the sum of that speaker's values |
| SpeakerStats.ProportionsSumToOne | statAnalyzer.py:17-18 | with a positive total, the speakers' proportions add up to 1 |
| SpeakerStats.CountCategories | statAnalyzer.py:23-31 | after the loop a speaker has counters exactly when one of its values is a category; each category counter counts that category, `total` counts all categorised values |
| SpeakerStats.TallyStep | statAnalyzer.py:29-31 | one turn of the loop keeps the counters equal to the counts so far |
| SpeakerStats.TallySpeakerParam | statAnalyzer.py:21-39 | the function computes `Tally` (also analyzer.py:32-50) |
| SpeakerStats.TallyAt | statAnalyzer.py:34-37 | a speaker's row holds one label per category, each the category's count over the speaker's `total` |
| SpeakerStats.CatSumTallied | statAnalyzer.py:29-31 | over distinct categories, the category counts add up to `total` |
| SpeakerStats.TallySumsToOne | statAnalyzer.py:29-37 | with distinct categories, none named `'total'`, each speaker's proportions add up to 1 |
| SpeakerStats.AvgSpeakerParam | statAnalyzer.py:42-50 | the loop computes `Averages`: each speaker's mean under `f"average{parameter}"` (also analyzer.py:53-61) |
| SpeakerStats.ValuesPresent | statAnalyzer.py:46-50 | a speaker has values exactly when it has an entry, so no mean divides by zero |
| SpeakerStats.MeanBounds | statAnalyzer.py:50 | a mean lies between any bounds of the values averaged |
| SpeakerStats.AverageBounded | statAnalyzer.py:42-50 | with every value in `[lo, hi]`, every speaker's average is in `[lo, hi]` |
| SpeakerStats.Best | analyzer.py:69 | the best score is one of the pairs' scores and at least every one |
| SpeakerStats.ScoresNames | analyzer.py:66-72 | the speakers averaged are exactly those with a non-empty match list |
| SpeakerStats.AvgBest | analyzer.py:63-83 | `avgResponsiveness` and `avgSelfSimilarity` compute `BestAverages`: per speaker, the mean of the best score of each non-empty match list |
| SpeakerStats.BestAverageBounded | analyzer.py:63-72 | with every match score in `[lo, hi]`, every speaker's average best score is in `[lo, hi]` |
| SpeakerStats.Combine | statAnalyzer.py:66-77 | the merge loop builds one row per speaker of `airTime`, the eight rows merged left to right with missing rows as `{}` |
| SpeakerStats.AirTimeShareKept | statAnalyzer.py:68-77 | the air-time share survives the merge: no later row has its key |
| SpeakerStats.EmotionShareKept | statAnalyzer.py:73-77 | an emotion share survives the merge: only averages follow it |
| SpeakerStats.LastRowWins | statAnalyzer.py:76 | a key of the last row holds that row's value in the merge |
| SpeakerStats.ComputeMetrics | statAnalyzer.py:52-79 | the function computes `Metrics` from the eight statistics |
| SpeakerStats.MetricsSpeakers | statAnalyzer.py:63-67 | the result has a row for every speaker with an entry and for no one else |
| SpeakerStats.MetricsAirTimeShare | statAnalyzer.py:54-69 | a speaker's `airTimeProportion` is that speaker's share of the total air time |
| SpeakerStats.EmotionsDistinct | statAnalyzer.py:58 | the emotion categories are distinct and none is `'total'` |
| SpeakerStats.MetricsEmotionShares | statAnalyzer.py:58-77 | a speaker with a categorised emotion has each emotion's count over its total in its row, and these add up to 1 |
| SpeakerStats.MetricsRedundancy | statAnalyzer.py:61-76 | a speaker's `averageturnRedundancy` is that speaker's mean redundancy |
| Quadrant.Classify | src/visualizer.py:164-173 | Accommodating iff coherence < 0.35 and response > 0.35; Discontinuous iff coherence < 0.35 and response <= 0.35; Directive iff coherence >= 0.35 and response <= 0.35; Integrative iff coherence >= 0.35 and response > 0.35 |
| Quadrant.NameInjective | src/visualizer.py:166-173 | the four cluster names are distinct |
| PlotPrelude.DataDict.LongestSize | visualizer.py:6-12 | the running maximum is the length of the longest series, and 0 for an empty dict (also plotter.py:7-13) |
| PlotPrelude.LongestUnique | visualizer.py:6-12 | only one size is the longest |
| PlotPrelude.Padded | visualizer.py:15-17 | a padded series is as long as the larger of its length and `size`, keeps its original elements and has only `None` after them |
| PlotPrelude.DataDict.PadTo | visualizer.py:15-17 | the padding loop keeps the keys and replaces each series by its padding (also plotter.py:16-18) |
| PlotPrelude.PaddedLevels | plotter.py:16-18 | padded to the longest length, every series has exactly that length, keeps its prefix, and a longest series is untouched |
| PlotPrelude.PaddedIdempotent | visualizer.py:15-17 | padding twice to the same size is padding once |
| PlotPrelude.DataDict.Equalize | visualizer.py:6-17 | after the prelude every series has the longest original length and is its padding |
| PlotPrelude.AxisLabels | visualizer.py:20 | label i is the prefix followed by `str(i+1)`, and no two labels are alike |
| PlotPrelude.PlainAxis | visualizer.py:20 | one label per point, "1" to "size" |
| PlotPrelude.RoundAxis | plotter.py:21 | one label per point, "Round 1" to "Round size" |
| PlotPrelude.CongruenceAxis | plotter.py:110-111 | `KeyError` exactly when there is no `Speakers` series; otherwise "Turn 1" to "Turn n" for its n points |

## Left out

- Foreign models are not part of this model: the sentiment pipeline (`affect_detector`, `affectDetector`), sentence embeddings (`similarity_detector`, `match_topic`), summarisation, spaCy tagging, `zlib` redundancy (`redundancyDetector`) and nltk lemmatisation (`processSentence`). The similarity matrix is an input of the detector, and emotions and redundancies are given fields of the records.
- `find_peaks` and the `localMaxDistro` field (src/parameterizer.py:170-175) come from scipy and are not modelled.
- The sentence split `re.findall(r'(.*?([.!?]|(?: But )))', ...)` is a parameter (`sentencesOf`) of the record loop, not a regular-expression engine.
- Only the dealing step of `prep_file` is modelled. The regular expressions that find the total call time, remove links, cut at `---` and split timestamps from names are not. The total time is a parameter of `ConvertTime`.
- The root-level `parameterize` (parameterizer.py:126-183) is not modelled separately. Besides fields computed by foreign libraries (redundancy, lemmas, emotions, `maskFilter` over embeddings), its loop reads `speechRates[idx1]` once per segment before the sentence loop (parameterizer.py:141). A missing rate therefore raises `IndexError` there even for a segment with no sentences, where the modelled `src/parameterizer.py:195` reads the rate per sentence and raises nothing.
- Floating point: shares, means and rates are exact `real`/`int` arithmetic. `int(words / time * 60)` is the exact quotient truncated toward zero, so float rounding at the boundary is not captured.
- Text: `lower()` maps only the ASCII letters, and `strptime` digits are ASCII digits. Unicode case mapping and Unicode digits are not modelled. Whitespace (`str.isspace` and `\s`) covers the Unicode whitespace characters.
- `ProcessSpeakerNames`: the iteration order of `set(names)` is not determined by the source, so it is a parameter (`order`). The strip set is a parameter too, covering both copies.
- `SpeakerStats.Combine`: iterates the speakers in an arbitrary order. The result is a map, so the order the source's `dict` would record is not modelled.
- `PlotPrelude.DataDict.PadTo`: the series are values in a map. Two keys sharing one list object are not represented, though padding gives the same lengths either way. The series' numbers are `Option<real>`, with `None` as padding.
- `SpeakerStats.AvgBest`: models `avgResponsiveness` and `avgSelfSimilarity` as one method with the result key as a parameter. Each record's match list is given as the reading's value.
- `SpeakerStats.TallySpeakerParam`: a missing label (Python `None`, e.g. `qType` of a non-question) is `None` in an `Option` and is never a category.
- pandas code is not part of this model: all of src/analyzer.py, the `computeMetrics` stub at analyzer.py:85-96, and the grouping, means and `sqrt` distance of src/visualizer.py.
- Figure construction and I/O are not part of this model: plotly/matplotlib calls, app.py, main.py, test.py and file reading.
- The detector does not compute a threshold-based repetition list, so none is modelled.

## Findings

| source | as written | input that shows it | evidently intended | confidence | as-written member | corrected member |
|---|---|---|---|---|---|---|
| source/fathomPreprocessor.py:35-36 | each pass replaces the speaker's name as a substring of every entry, including labels written by earlier passes | names `["a", "b"]` with the set enumerated as `b, a`: `b` first becomes `Speaker0`, then the `a` pass turns it into `SpeSpeaker1ker0` | each distinct name becomes `Speaker{i}` for its position in the enumeration, and distinct names get distinct labels | low: real Fathom names start with `-` and end with a newline, so they rarely occur inside another entry; not executed | Preprocess.AnonymizeOtherOrder | Preprocess.AnonymizedSeparates |
