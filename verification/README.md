# Saccades-attention: a Dafny model of the experiment and alignment core

This project models the logic at the core of a saccade/attention MEG
experiment. It covers the presentation script and the analysis steps that tie
eye-tracker fixations to the MEG recording:

- **Trial list construction.** Each repetition block holds three shuffled copies
  of the image list, one per screen slot (left, centre, right). Positions where
  two slots show the same image are repaired by swapping with the previous
  position, for at most 100 passes. The swap is in the left list when the left
  image is one of the repeated ones, and otherwise in the centre list; the right
  list is never changed. At position 0 the swap partner is the last position
  (Python's index -1). An empty image list fails on its first check, because
  `np.apply_along_axis` over zero positions raises ValueError. The blocks are
  then concatenated, and every trial gets a probe word (or none) and a
  fixation-hold time drawn from [0.5, 1.0) s (module `TrialBuilder`).
- **Presentation loop.** A fixation gate starts a trial once the gaze has stayed
  within the threshold of the screen centre for longer than the trial's hold
  time. An off-fixation sample restarts the hold timer, and the experimenter can
  end the run. The trial loop stops at the end code 9999 and offers a break
  after every trial whose 0-based index is a positive multiple of 25 (module
  `Presentation`).
- **Screen geometry.** The eye-tracker frame has its origin in a corner and the
  presentation frame has it at the centre of a 1920x1080 screen. Pixels and
  centimetres convert linearly on a 70.3 cm wide screen (module `DistConvert`).
- **Eye-tracker ASCII parsing.** `EFIX` lines become fixation records. `MSG`
  lines whose third field is `Trigger` become trigger records. Fields are split
  on whitespace and read with `int()`/`float()` (modules `EyelinkParser` and
  `Text`).
- **Fixation/MEG alignment.** Each fixation is assigned to the last trial whose
  stimulus onset precedes it, as long as it ends within the 4.5 s trial window.
  It is shifted into MEG samples by that trial's clock offset and labelled with
  the nearest stimulus slot and its image. Fix-on and fix-off MEG events are
  produced for each assigned fixation (module `FixationEvents`).
- **Artifact bookkeeping.** The "BAD_out_of_trial" annotations cover everything
  between trial windows. There is a prompt for when annotations already exist on
  disk, and decimation without filtering before ICA (module `Artifacts`).

Randomness, clocks, gaze samples, key presses and file contents are inputs
to the model: each random draw is a parameter, constrained only to the range
the library function would return.

Three behaviours of the code are worth knowing:

1. `on_target` is initialised to None and never set, so the model starts every
   row off target. Every previous-stimulus look-back therefore stops at its
   first step, and `prev_stim` is never filled in. The model proves this
   (`FixationEvents.LabelAllOffTarget`).
2. The look-back reads the row before the current one. For a first fixation
   that has a trial, that row does not exist, and the look-back is an error
   (`LookBackBeforeFirstRow`).
3. The look-back checks rows i-1 to i-11. It gives up only after row i-11 is
   also on target with the same stimulus (`FixationEvents.LookBackGivesUp`).

The duplicate repair in exp-scripts/main.py stops at line 239, a bare name that
raises NameError (see "## Findings"). `TrialBuilder.ResolveDuplicatesAsWritten`
models that line as written. `TrialBuilder.JoinBlocks`,
`TrialBuilder.BuildStimLists` and `TrialBuilder.BuildTrials` are built on the
repaired loop, `TrialBuilder.ResolveDuplicates`, in which the swap repair below
line 239 runs. They describe the script with that line removed, not the script
as written, which stops at the first block with a duplicate.

## Model

| member | source | states |
|---|---|---|
| DistConvert.EyelinkToPsychopy | exp-scripts/dist_convert.py:15-23 | moves the origin from the corner to the screen centre (x - 960, 540 - y); the opposite conversion recovers the input point |
| DistConvert.PsychopyToEyelink | exp-scripts/dist_convert.py:26-32 | moves the origin from the screen centre to the corner (x + 960, 540 - y); `EyelinkToPsychopy` undoes it (see `OriginMapsInverse`) |
| DistConvert.OriginMapsInverse | exp-scripts/dist_convert.py:15-32 | the two origin conversions are inverse to each other in both directions |
| DistConvert.VerticalFlipInvolution | exp-scripts/dist_convert.py:15-32 | both conversions flip y in the same way, and flipping twice restores y |
| DistConvert.ScreenCentreIsOrigin | exp-scripts/dist_convert.py:13-32 | eye-tracker pixel (960, 540) is the presentation origin, and back |
| DistConvert.PixToCm | exp-scripts/dist_convert.py:35-36 | cm2pix undoes pix2cm |
| DistConvert.CmToPix | exp-scripts/dist_convert.py:38-39 | the linear 1920/70.3 scale: a length keeps its share of the screen width; `PixToCm` undoes it (see `PixCmRoundTrip`) |
| DistConvert.PixCmRoundTrip | exp-scripts/dist_convert.py:9-39 | pix2cm and cm2pix are inverse in both directions; 0 px is 0 cm and 1920 px is the full 70.3 cm width |
| DistConvert.PixCmIncreasing | exp-scripts/dist_convert.py:35-39 | both conversions are strictly increasing |
| DistConvert.SqDist | exp-scripts/main.py:271-275 | the squared Euclidean distance is never negative and is zero for coincident points |
| DistConvert.SqDistSymmetric | exp-scripts/main.py:271-275 | the distance does not depend on argument order |
| Text.Split | analysis/eyelink_parser.py:12 | `str.split()` yields only non-empty tokens that contain no whitespace |
| Text.SplitJoin | analysis/eyelink_parser.py:12 | splitting whitespace-free tokens joined by a tab or space gives back the same tokens |
| Text.SplitJoinTrailing | analysis/eyelink_parser.py:12 | the same holds with a trailing newline, as `readlines()` leaves it |
| Text.ParseInt | analysis/eyelink_parser.py:36-37 | the model of `int()` accepts an optional + or - sign followed by at least one ASCII digit and rejects everything else; this is a subset of what `int()` accepts (see `Text.ParseInt` under Left out) |
| Text.ParseIntSigns | analysis/eyelink_parser.py:36-37 | a digit string reads as a natural number; a + sign leaves it, a - sign negates it |
| Text.IntRoundTrip | analysis/eyelink_parser.py:36-37 | `int()` reads back every integer written with `%d` |
| Text.IntTokensAreNumbers | analysis/eyelink_parser.py:38-39 | every token `int()` accepts is accepted by `float()` with the same value |
| Text.ParseDecimal | analysis/eyelink_parser.py:38-39 | the model of `float()` rejects the empty token; a value it reads is never positive after a leading - sign and never negative otherwise |
| Text.WholeDecimalRoundTrip | analysis/eyelink_parser.py:38-39 | `float()` reads back a whole number written with a `.0` fraction |
| EyelinkParser.GetEntries | analysis/eyelink_parser.py:8-13 | never more entries than lines; the three lemmas below pin down which lines and in what order |
| EyelinkParser.GetEntriesOne | analysis/eyelink_parser.py:12 | a single line gives one entry, its whitespace split, exactly when it starts with the prefix, and none otherwise |
| EyelinkParser.GetEntriesSound | analysis/eyelink_parser.py:8-13 | every entry is the split of some line that starts with the prefix |
| EyelinkParser.GetEntriesAppend | analysis/eyelink_parser.py:8-13 | entry extraction distributes over concatenation of the line lists, keeping order |
| EyelinkParser.ParseFixations | analysis/eyelink_parser.py:30-40 | succeeds exactly when every `EFIX` entry has 8 fields with the integer and float columns readable; each record holds the converted fields in order |
| EyelinkParser.TriggerMessages | analysis/eyelink_parser.py:45 | keeps only messages whose third field is `Trigger`, each one taken from the input, and never more than it was given |
| EyelinkParser.TriggerMessagesAppend | analysis/eyelink_parser.py:45 | the filter distributes over concatenation, so it keeps order and multiplicity |
| EyelinkParser.TriggerMessagesOne | analysis/eyelink_parser.py:45 | a single message is kept exactly when it has a third field and that field is `Trigger` |
| EyelinkParser.TriggerMessagesComplete | analysis/eyelink_parser.py:45 | every `Trigger` message is kept |
| EyelinkParser.AllTriggersKept | analysis/eyelink_parser.py:45 | a list of nothing but trigger messages passes the filter unchanged |
| EyelinkParser.ParseTriggers | analysis/eyelink_parser.py:42-49 | fails exactly when a message has fewer than 3 fields (the `m[2]` index) or a trigger message lacks an integer time and value; otherwise one record per trigger message holding both integers |
| EyelinkParser.ParseWellFormedTriggers | analysis/eyelink_parser.py:42-49 | well-formed trigger messages all parse, each to its own time stamp and value |
| EyelinkParser.ParseEyelink | analysis/eyelink_parser.py:25-49 | the file parses exactly when both tables parse; fixation k then holds the converted fields of the k-th `EFIX` line, and trigger k holds the time stamp and value of the k-th `MSG` line whose third field is `Trigger` |
| EyelinkParser.TriggerLineFields | exp-scripts/eye_wrapper.py:108 | a `Trigger %d` message recorded at time t splits into the four fields MSG, t, Trigger, value |
| EyelinkParser.RecordedEntries | analysis/eyelink_parser.py:8-13 | a log of recorded trigger messages has no `EFIX` entries and one `MSG` entry per trigger |
| EyelinkParser.TriggerRoundTrip | analysis/eyelink_parser.py:42-49 | parsing the recorded trigger messages gives back exactly the triggers sent, and no fixations |
| EyelinkParser.FixationRoundTrip | analysis/eyelink_parser.py:30-40 | an `EFIX` line with integer fields and whole-number averages parses back to that fixation, and to no triggers |
| FixationEvents.TrialWindowSamples | analysis/fixation_events.py:49-50 | `int(4.5 * fsample)` truncates toward zero on both signs |
| FixationEvents.StimCentres | analysis/fixation_events.py:27-32 | the three stimulus centres lie at -stim_dist, 0 and +stim_dist on the horizontal axis of the presentation frame |
| FixationEvents.MegOnsets | analysis/fixation_events.py:53-55 | never more onsets than events; which samples and in what order is pinned down by the three lemmas below |
| FixationEvents.MegOnsetsMembers | analysis/fixation_events.py:53-55 | an MEG onset is exactly the sample of some event that carries the stimulus code |
| FixationEvents.MegOnsetsOne | analysis/fixation_events.py:53-55 | a single event gives its sample exactly when it carries the stimulus code, and nothing otherwise |
| FixationEvents.MegOnsetsAppend | analysis/fixation_events.py:53-55 | the row selection distributes over concatenation, so it keeps the event order and multiplicity |
| FixationEvents.EyeOnsets | analysis/fixation_events.py:58-60 | never more onsets than triggers; which time stamps and in what order is pinned down by the three lemmas below |
| FixationEvents.EyeOnsetsMembers | analysis/fixation_events.py:58-60 | an eye-tracker onset is exactly the time stamp of some trigger whose value is the stimulus code |
| FixationEvents.EyeOnsetsOne | analysis/fixation_events.py:58-60 | a single trigger gives its time stamp exactly when its value is the stimulus code, and nothing otherwise |
| FixationEvents.EyeOnsetsAppend | analysis/fixation_events.py:58-60 | the trigger selection distributes over concatenation, so it keeps the file order and multiplicity |
| FixationEvents.LastOnsetBefore | analysis/fixation_events.py:81-86 | None exactly when no onset precedes t; otherwise the largest index whose onset precedes t |
| FixationEvents.LastOnsetUnique | analysis/fixation_events.py:81-84 | the last onset before t is unique |
| FixationEvents.AssignTrial | analysis/fixation_events.py:76-93 | the trial is the last one whose onset precedes the fixation start, provided the fixation ends within the trial window; None exactly when that fails |
| FixationEvents.NothingBeforeIsUnassigned | analysis/fixation_events.py:83-86 | a fixation that starts before every onset gets no trial |
| FixationEvents.ToMeg | analysis/fixation_events.py:95-100 | the MEG time keeps the offset from the trial onset that the eye-tracker time had |
| FixationEvents.ToMegKeepsDuration | analysis/fixation_events.py:95-100 | fixation durations are the same in both clocks |
| FixationEvents.AlignFixation | analysis/fixation_events.py:76-100 | first pass: the trial and both MEG times are set together, the MEG start lies as far from the trial's MEG onset as the eye start lies from its eye onset, and the labelling columns are unset |
| FixationEvents.AlignExample | analysis/fixation_events.py:76-100 | a fixation at 250-300 with onsets 200 (eye) and 1000 (MEG) lands in trial 0 at 1050-1100 |
| FixationEvents.ArgMin | analysis/fixation_events.py:41-42 | `np.argmin`: the index of a minimum, and the first such index |
| FixationEvents.ArgMinUnique | analysis/fixation_events.py:41 | any first-minimum index is the one returned |
| FixationEvents.ClosestStim | analysis/fixation_events.py:35-43 | the slot whose centre is nearest (first slot on ties), together with the squared distance to it |
| FixationEvents.ClosestStimTie | analysis/fixation_events.py:35-43 | a tie between left and centre goes to the left slot |
| FixationEvents.SlotStimulus | analysis/fixation_events.py:119-126 | slots 0, 1 and 2 give the left, centre and right image of the trial; the `raise` branch is unreachable because the slot is below 3 |
| FixationEvents.LookBack | analysis/fixation_events.py:131-145 | the previous-stimulus search fails (reading before the first row) exactly when fewer than 11 rows precede and every row from the first one up to the start of the search is on target with the current stimulus; a stimulus it finds differs from the current one |
| FixationEvents.PrevStimulus | analysis/fixation_events.py:131-145 | the while loop computes the same outcome as the recursive reference |
| FixationEvents.LookBackFinds | analysis/fixation_events.py:131-145 | a found stimulus is the closest stimulus of an on-target row at most 11 rows back, and every row between it and the current row is on target with the current stimulus |
| FixationEvents.LookBackOffTarget | analysis/fixation_events.py:135-137 | an off-target previous row gives no previous stimulus |
| FixationEvents.LookBackAtFirstRow | analysis/fixation_events.py:134 | the search from the first row reads a row that does not exist |
| FixationEvents.LookBackGivesUp | analysis/fixation_events.py:141-143 | after 11 on-target rows showing the same stimulus the search gives up with no previous stimulus |
| FixationEvents.LabelRow | analysis/fixation_events.py:108-145 | an unassigned row is skipped unchanged; an assigned row fails if the behavioural log lacks its trial; otherwise it gets the nearest slot (first on ties), that slot's image, the squared distance to it and the look-back result, with every other column unchanged |
| FixationEvents.LabelAll | analysis/fixation_events.py:103-145 | each row is labelled against the rows already labelled, in order; the only errors are a missing behavioural row and a look-back before the first row |
| FixationEvents.LabelAllOffTarget | analysis/fixation_events.py:103-145 | with `on_target` never set, labelling succeeds exactly when the log covers every assigned trial and the first fixation is unassigned; no row gets a previous stimulus |
| FixationEvents.AssignedRows | analysis/fixation_events.py:167-168 | the rows kept after the NaN filter are exactly the assigned ones |
| FixationEvents.AssignedRowsAppend | analysis/fixation_events.py:167-168 | the NaN filter distributes over concatenation, so it keeps order and multiplicity |
| FixationEvents.AssignedRowsOne | analysis/fixation_events.py:167-168 | a single row is kept exactly when it has a trial |
| FixationEvents.TimeEvents | analysis/fixation_events.py:159-175 | one event per assigned row, in fixation order, at its MEG start or end time, with the event code and a zero middle column |
| FixationEvents.EventArray | analysis/fixation_events.py:159-177 | all fix-on events come first, then all fix-off events, both in fixation order |
| FixationEvents.GetFixationEvents | analysis/fixation_events.py:46-177 | fails with the count mismatch exactly when the onset counts differ; succeeds exactly when alignment gets through both passes; row k then holds fixation k with its trial (the last onset before its start, if it ends within the window), its start and end shifted into MEG samples by that trial's clock offset, the nearest slot, the squared distance to it and that slot's image in the behavioural log, all unset for an unassigned fixation; the array holds the fix-on then fix-off events of the assigned rows |
| FixationEvents.AlignedRowsFacts | analysis/fixation_events.py:64-145 | labelling the first-pass rows succeeds exactly under the success condition stated over the raw fixations |
| FixationEvents.LabelledTable | analysis/fixation_events.py:64-145 | after both passes, row k holds fixation k with its trial, MEG times and labels as above, and no previous stimulus |
| FixationEvents.LabelledRow | analysis/fixation_events.py:76-145 | one fixation aligned and then labelled after off-target rows holds its trial, MEG times, nearest slot, squared distance and slot image, and no previous stimulus |
| TrialBuilder.Swap | exp-scripts/main.py:241-244 | the tuple swap exchanges two positions and leaves the rest alone |
| TrialBuilder.SwapPermutes | exp-scripts/main.py:241-244 | a swap permutes the list |
| TrialBuilder.Shuffle | exp-scripts/main.py:212-213 | `np.random.shuffle`, driven by its draws, yields a permutation of the images |
| TrialBuilder.ShuffleReachesAll | exp-scripts/main.py:212-213 | every permutation is reachable by some valid draws |
| TrialBuilder.ThreeDistinct | exp-scripts/main.py:224-227 | `len(set(x)) != 3` on three values is exactly "two of them are equal" |
| TrialBuilder.DupsBelowComplete | exp-scripts/main.py:223-227 | `np.nonzero` lists every duplicate position, in ascending order |
| TrialBuilder.DupsEmptyIff | exp-scripts/main.py:227-230 | an empty duplicate list means no position shows an image twice |
| TrialBuilder.RepairAt | exp-scripts/main.py:240-244 | a repair swaps within either the left or the centre list, never both, and never touches the right list |
| TrialBuilder.RepairAtPermutes | exp-scripts/main.py:240-244 | a repair keeps the images of every list |
| TrialBuilder.RepairPassPermutes | exp-scripts/main.py:234-244 | a whole pass keeps the images of every list |
| TrialBuilder.RepairedPermutes | exp-scripts/main.py:217-244 | any number of passes keeps the images of every list |
| TrialBuilder.RepairLoop | exp-scripts/main.py:215-244 | the counted while loop returns the same outcome as the recursive reference |
| TrialBuilder.RepairPasses | exp-scripts/main.py:215-244 | the while loop with its pass counter stops with the empty-list error on an empty block, and otherwise with the outcome of the recursive passes: give up after 100 passes, or return the first duplicate-free state |
| TrialBuilder.ResolveDuplicates | exp-scripts/main.py:215-244 | the repair fails with the empty-list error exactly for an empty block; otherwise it either gives up, or returns duplicate-free lists of the same length with the left and centre images permuted and the right list untouched |
| TrialBuilder.ResolveDuplicatesSpec | exp-scripts/main.py:215-230 | an empty block fails with the empty-list error; otherwise the repair gives up when the states after 0 to 99 passes all contain a duplicate, and else returns the first duplicate-free state |
| TrialBuilder.CleanBlockUnchanged | exp-scripts/main.py:221-230 | a nonempty block with no duplicates is kept as shuffled, with no swap made; an empty one fails with the empty-list error |
| TrialBuilder.ResolveDuplicatesAsWritten | exp-scripts/main.py:215-239 | as written, a block succeeds exactly when it is nonempty and has no duplicate, and is then unchanged; an empty block fails with the empty-list error and any other one with NameError |
| TrialBuilder.AsWrittenAbortsRepairableBlock | exp-scripts/main.py:234-244 | a block with one duplicate that a single left swap fixes is aborted by the code as written and repaired by the intended code |
| TrialBuilder.ShuffledBlock | exp-scripts/main.py:209-213 | each slot list of a block starts as a permutation of the images |
| TrialBuilder.ShuffledBlockReachesAll | exp-scripts/main.py:210-213 | any three permutations can start a block |
| TrialBuilder.JoinBlocks | exp-scripts/main.py:209-247 | succeeds exactly when every block's repair does; the lists then hold one block length per block and have no duplicate position; a failure is the empty-list error for an empty image list and the give-up error otherwise |
| TrialBuilder.NoDupsConcat | exp-scripts/main.py:246-247 | extending duplicate-free lists by a duplicate-free block keeps them duplicate-free |
| TrialBuilder.JoinBlocksCounts | exp-scripts/main.py:206-247 | after all blocks, every image appears once per block in every slot, and block b of every slot list is a permutation of the images |
| TrialBuilder.JoinBlocksBlockwise | exp-scripts/main.py:206-247 | block b of the left, centre and right lists is a permutation of the images |
| TrialBuilder.BlockwiseSnoc | exp-scripts/main.py:246-247 | extending the lists by one more permutation of the images keeps every earlier block and adds one |
| TrialBuilder.BuildStimLists | exp-scripts/main.py:203-247 | the slot lists for all blocks: success exactly when every block repairs; then duplicate-free, with length blocks x images; an empty image list fails with its own error |
| TrialBuilder.StimListsCounts | exp-scripts/main.py:206-247 | each image is shown once per repetition at each location: every slot list is, block by block, a permutation of the images |
| TrialBuilder.MakeTrial | exp-scripts/main.py:252-262 | fails only for a probe draw with no probe words; the trial takes the k-th image of each slot, has a word exactly when the coin says so, the word is a probe word, and the hold time lies in [0.5, 1.0) |
| TrialBuilder.MakeTrials | exp-scripts/main.py:249-262 | one trial per draw, in order, each as above; fails exactly when some draw asks for a probe and there are no probe words |
| TrialBuilder.BuildTrials | exp-scripts/main.py:203-262 | the whole construction gives 2 x images trials; trial k shows the k-th image of each slot list, has a probe word exactly when its coin says so, takes the word from the probe words and a hold time in [0.5, 1.0), and never shows an image twice; an empty image list fails |
| TrialBuilder.TrialsOfCleanLists | exp-scripts/main.py:252-256 | trials taken from duplicate-free slot lists show three different images |
| Presentation.Gate | exp-scripts/main.py:340-357 | the wait ends at the first sample that either quits or has held fixation longer than the hold time since the last off-fixation sample; if the samples run out, the timer reads the last reset |
| Presentation.GateFrom | exp-scripts/main.py:342-353 | the loop from sample i ends on a quit only at a sample at or after i that asks to quit, and starts the trial only at such a sample that does not quit and is on fixation |
| Presentation.GateFromSpec | exp-scripts/main.py:342-357 | the loop's `t_fix` always equals the reference hold timer, and the loop stops at the first ending sample |
| Presentation.OffFixationIsDistance | exp-scripts/main.py:346-349 | comparing the squared distance with the squared threshold is the source's `d > FIX_THRESH` on the Euclidean distance of the converted gaze from the centre |
| Presentation.OffFixationResets | exp-scripts/main.py:348-350 | an off-fixation sample never starts the trial and restarts the timer at its own time |
| Presentation.SteadyHold | exp-scripts/main.py:340-350 | while the gaze stays on fixation the timer keeps its start time |
| Presentation.SteadyGazeStarts | exp-scripts/main.py:342-353 | steady gaze starts the trial at the first sample past the hold time |
| Presentation.RunTrials | exp-scripts/main.py:440-452 | the run stops right after the first trial returning 9999, and that trial gets no break; otherwise all trials run; breaks follow exactly the earlier trials whose index is a positive multiple of 25 |
| Presentation.BreaksBefore | exp-scripts/main.py:445 | lists exactly the trial indices below n with `i > 0 and i % 25 == 0` |
| Presentation.BreakCount | exp-scripts/main.py:445 | a full run of n trials offers (n - 1) / 25 breaks |
| Presentation.FiftyTrialsOneBreak | exp-scripts/main.py:445 | a 50-trial run offers exactly one break, after trial 25 |
| Artifacts.TrialWindows | analysis/artifacts.py:45-46 | each window runs from pre_stim_dur x sfreq samples before its onset to stim_dur x sfreq samples after it |
| Artifacts.OutOfTrialSegments | analysis/artifacts.py:47-49 | one segment more than there are trial windows; `Artifacts.SegmentsAreGaps` states which ones |
| Artifacts.SegmentsAreGaps | analysis/artifacts.py:47-49 | the segments paired from the stacked onsets and offsets are exactly the gaps the windows leave in the recording |
| Artifacts.SegmentsFrom | analysis/artifacts.py:47-49 | gap j runs from the end of window j - 1 (or the first sample) to the start of window j (or the last sample) |
| Artifacts.GapsTelescope | analysis/artifacts.py:47-49 | gap lengths plus window lengths add up to the recording length |
| Artifacts.GapNegativeIffOverlap | analysis/artifacts.py:45-49 | a masked segment has negative duration exactly when its neighbouring windows overlap |
| Artifacts.OutOfTrialAnnotations | analysis/artifacts.py:45-54 | given the stimulus onsets `t_stim` (the selection of line 44, which is `FixationEvents.MegOnsets` for the stimulus code): one annotation per stimulus plus one, the first at onset 0, all labelled BAD_out_of_trial |
| Artifacts.SegmentBounds | analysis/artifacts.py:45-49 | segment j's bounds in samples, from the already selected stimulus onsets and the window lengths |
| Artifacts.AnnotationsInSamples | analysis/artifacts.py:45-51 | converted back to samples, annotation j starts where trial window j - 1 ends and stops where window j starts |
| Artifacts.DurationsScale | analysis/artifacts.py:51 | summed durations in seconds times sfreq are the summed segment lengths |
| Artifacts.AnnotationsCoverRecording | analysis/artifacts.py:45-51 | masked time in samples plus the trial windows is exactly last_samp - first_samp |
| Artifacts.AcceptedAnswers | analysis/artifacts.py:63-66 | `resp in 'Nn'` accepts exactly "", N, n and Nn; `resp in 'Yy'` accepts exactly "", Y, y and Yy |
| Artifacts.TwoLetterSubstrings | analysis/artifacts.py:63-66 | the substrings of a two-letter string are the empty string, each letter and the whole string |
| Artifacts.ChooseAnnotationsAsWritten | analysis/artifacts.py:60-74 | as written, the choice fails (unbound annotations) exactly when the file exists and the answer is Y, y or Yy |
| Artifacts.ChooseAnnotations | analysis/artifacts.py:60-74 | intended: tag anew when there is no file or the answer is Y, y or Yy; load when the answer is "", N, n or Nn; exit otherwise |
| Artifacts.AsWrittenAgreesElsewhere | analysis/artifacts.py:60-74 | wherever the code as written succeeds, it agrees with the intended choice |
| Artifacts.YesFailsAsWritten | analysis/artifacts.py:66-74 | answering y to an existing file fails as written, and means tagging anew as intended |
| Artifacts.DecimationIndices | analysis/artifacts.py:98 | `np.arange(n, step=k)`: ceil(n / k) indices, the i-th being i x k, and exactly the multiples of k below n |
| Artifacts.SelectColumns | analysis/artifacts.py:99 | every channel keeps exactly the selected columns, in order |
| Artifacts.Downsample | analysis/artifacts.py:90-105 | a factor of at most 1 is refused; otherwise every factor-th sample of each channel is kept, and the rate and the first-sample index are divided by the factor, with annotations kept |

## Left out

- File reading, the eye-tracker link (`pylink`), the stimulus window, sound/port triggers, key handling and the experimenter controls are not modelled. Their results (gaze samples, clock readings, quit requests, trial status codes, file lines, whether a file exists, the typed answer) are parameters.
- Random draws (`np.random.shuffle`, `choice`, `uniform`) are parameters: shuffle draws are index sequences, and `uniform` is given its unit-interval sample.
- Degree conversions (`deg2cm`, `cm2deg`, `pix2deg`, `deg2pix` in exp-scripts/dist_convert.py:41-51) need tan/arctan. They are left out, so the fixation threshold and the stimulus distance enter as integer pixel parameters (the source takes `int(...)` of them).
- DistConvert.SqDist: distances are compared squared rather than through a square root (`euc_dist` and `np.linalg.norm`). For non-negative values this ordering is the same. The contract does not state that distinct points have a positive distance.
- Presentation.Gate: the 0.2 s wait, the redraws and the gaze lookup are side effects left out; a sample carries the gaze, the clock and the quit request.
- Text.ParseDecimal: `float()` is modelled for plain decimal notation with an optional sign only. Exponents, `inf`/`nan`, digit-group underscores, surrounding whitespace and non-ASCII digits are not accepted.
- Text.ParseInt: `int()` also accepts digit-group underscores (`1_000`), surrounding whitespace and non-ASCII Unicode digits; the model rejects them. Python integers are unbounded like the model's, but the pandas `astype(int)` columns are 64-bit, and the MEG sample arithmetic built on them is unbounded here, so int64 overflow is not modelled.
- FixationEvents.ClosestStim: the source's `dist_to_stim` column holds the Euclidean distance from `np.linalg.norm`; the model stores the squared distance. The nearest slot and its tie-break are the same, because squaring preserves the order of non-negative values, but the stored number is the square of the source's.
- The timing-drift report in analysis/fixation_events.py:66-69 only prints, and is left out.
- `mne.find_events`, `RawArray` construction, the interactive tagging (`identify_manual`), the saving and loading of annotation files, the ICA fit and `identify_gfp`/z-scoring in analysis/artifacts.py are library calls or plots, and are not modelled.
- Artifacts.OutOfTrialAnnotations: requires a positive sampling rate (always true of a recording); division by zero is not modelled.
- Artifacts.Downsample: the type assertion on the factor is carried by the parameter type. The data is given as channels of `n` samples. What `RawArray` does with a fractional first sample is not part of this model; the division is stated exactly.
- Floating-point rounding throughout: real arithmetic is exact here.
- The `TrialHandler` wrapper and the trial records' other fields (responses, timings) are not modelled.

## Findings

| source | as written | input that shows it | evidently intended | confidence | as-written member | corrected member |
|---|---|---|---|---|---|---|
| exp-scripts/main.py:239 | a bare name on the repair path raises NameError, so any block with a duplicate stops the script | a block whose lists are left 4,3,1,2 / centre 2,3,4,1 / right 1,2,3,4 (one duplicate, at position 1) | the swap repair below the stray line runs and finds a duplicate-free order | not executed | TrialBuilder.ResolveDuplicatesAsWritten, TrialBuilder.AsWrittenAbortsRepairableBlock | TrialBuilder.ResolveDuplicates, proved by its contract and TrialBuilder.ResolveDuplicatesSpec |
| analysis/artifacts.py:66-74 | the "yes" branch assigns nothing, and line 74 reads the unbound `annotations` | an existing annotation file and the answer `y` | a "yes" creates new annotations, as the branch's message says | not executed | Artifacts.ChooseAnnotationsAsWritten, Artifacts.YesFailsAsWritten | Artifacts.ChooseAnnotations, related by Artifacts.AsWrittenAgreesElsewhere |
