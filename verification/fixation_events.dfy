/** Aligning eye-tracker fixations with the MEG recording: each fixation is
    assigned to the trial whose stimulus onset last preceded it, shifted by that
    trial's clock offset into MEG samples, labelled with the nearest of the three
    stimulus slots, and turned into a pair of fix-on / fix-off MEG events. */
module FixationEvents {
  import opened Wrappers
  import opened DistConvert
  import opened EyelinkParser

  /** A row of the MEG event array: sample, value before the event, event code. */
  datatype MegEvent = MegEvent(sample: int, before: int, code: int)

  /** The event codes and eye-tracker sampling rate read from the experiment
      settings, and the three stimulus centres in eye-tracker pixels. */
  datatype Config = Config(
    stimuliCode: int,
    fixOnCode: int,
    fixOffCode: int,
    fsampleEyelink: int,
    centres: Centres)

  /** The left, centre and right stimulus locations. */
  datatype Centres = Centres(left: Point, center: Point, right: Point) {
    function Slots(): (s: seq<Point>)
      ensures |s| == 3 && s[0] == left && s[1] == center && s[2] == right
    {
      [left, center, right]
    }
  }

  /** One row of the behavioural log: the image shown in each slot. */
  datatype BehavRow = BehavRow(stimLeft: string, stimCenter: string, stimRight: string)

  /** Why alignment stops. */
  datatype AlignError =
    | TriggerCountMismatch              // MEG and eye-tracker onset counts differ
    | MissingBehaviouralRow(trial: nat) // the behavioural log has no row for this trial
    | LookBackBeforeFirstRow(row: nat)  // the look-back asked for a row before the first

  // ----- trial window -----

  /** `int(4.5 * fsample)`: the analysed trial length in eye-tracker samples,
      truncated toward zero. */
  function TrialWindowSamples(fsample: int): (w: int)
    ensures fsample >= 0 ==> w as real <= 4.5 * fsample as real < w as real + 1.0
    ensures fsample < 0 ==> w as real - 1.0 < 4.5 * fsample as real <= w as real
  {
    if fsample >= 0 then (9 * fsample) / 2 else -((9 * -fsample) / 2)
  }

  // ----- stimulus onsets in both streams -----

  /** Sample numbers of the MEG events carrying `code`, in recording order. */
  function MegOnsets(events: seq<MegEvent>, code: int): (r: seq<int>)
    ensures |r| <= |events|
  {
    if |events| == 0 then []
    else
      var e := events[|events| - 1];
      MegOnsets(events[..|events| - 1], code) + (if e.code == code then [e.sample] else [])
  }

  /** Time stamps of the eye-tracker triggers whose value is `code`, in file order. */
  function EyeOnsets(triggers: seq<Trigger>, code: int): (r: seq<int>)
    ensures |r| <= |triggers|
  {
    if |triggers| == 0 then []
    else
      var t := triggers[|triggers| - 1];
      EyeOnsets(triggers[..|triggers| - 1], code) + (if t.value == code then [t.timeStamp] else [])
  }

  /** A sample is an onset exactly when some event with that code has that sample. */
  lemma {:induction false} MegOnsetsMembers(events: seq<MegEvent>, code: int, x: int)
    ensures x in MegOnsets(events, code) <==>
      exists j :: 0 <= j < |events| && events[j].code == code && events[j].sample == x
    decreases |events|
  {
    if |events| > 0 {
      var init := events[..|events| - 1];
      MegOnsetsMembers(init, code, x);
      if exists j :: 0 <= j < |init| && init[j].code == code && init[j].sample == x {
        var j :| 0 <= j < |init| && init[j].code == code && init[j].sample == x;
        assert events[j] == init[j];
      }
      if exists j :: 0 <= j < |events| && events[j].code == code && events[j].sample == x {
        var j :| 0 <= j < |events| && events[j].code == code && events[j].sample == x;
        if j < |init| {
          assert init[j] == events[j];
        }
      }
    }
  }

  /** A time stamp is an onset exactly when some trigger with that value has
      that time stamp. */
  lemma {:induction false} EyeOnsetsMembers(triggers: seq<Trigger>, code: int, x: int)
    ensures x in EyeOnsets(triggers, code) <==>
      exists j :: 0 <= j < |triggers| && triggers[j].value == code && triggers[j].timeStamp == x
    decreases |triggers|
  {
    if |triggers| > 0 {
      var init := triggers[..|triggers| - 1];
      EyeOnsetsMembers(init, code, x);
      if exists j :: 0 <= j < |init| && init[j].value == code && init[j].timeStamp == x {
        var j :| 0 <= j < |init| && init[j].value == code && init[j].timeStamp == x;
        assert triggers[j] == init[j];
      }
      if exists j :: 0 <= j < |triggers| && triggers[j].value == code && triggers[j].timeStamp == x {
        var j :| 0 <= j < |triggers| && triggers[j].value == code && triggers[j].timeStamp == x;
        if j < |init| {
          assert init[j] == triggers[j];
        }
      }
    }
  }

  /** A single event is an onset exactly when it carries the code. */
  lemma {:induction false} MegOnsetsOne(e: MegEvent, code: int)
    ensures MegOnsets([e], code) == if e.code == code then [e.sample] else []
  {
    assert [e][..0] == [];
  }

  /** A single trigger gives its time stamp exactly when its value is the code. */
  lemma {:induction false} EyeOnsetsOne(t: Trigger, code: int)
    ensures EyeOnsets([t], code) == if t.value == code then [t.timeStamp] else []
  {
    assert [t][..0] == [];
  }

  /** Filtering commutes with concatenation: the onsets of a longer recording
      extend those of its beginning, in order. */
  lemma {:induction false} MegOnsetsAppend(a: seq<MegEvent>, b: seq<MegEvent>, code: int)
    ensures MegOnsets(a + b, code) == MegOnsets(a, code) + MegOnsets(b, code)
    decreases |b|
  {
    if |b| == 0 {
      assert a + b == a;
    } else {
      assert (a + b)[..|a + b| - 1] == a + b[..|b| - 1];
      MegOnsetsAppend(a, b[..|b| - 1], code);
    }
  }

  /** The same for the eye-tracker triggers. */
  lemma {:induction false} EyeOnsetsAppend(a: seq<Trigger>, b: seq<Trigger>, code: int)
    ensures EyeOnsets(a + b, code) == EyeOnsets(a, code) + EyeOnsets(b, code)
    decreases |b|
  {
    if |b| == 0 {
      assert a + b == a;
    } else {
      assert (a + b)[..|a + b| - 1] == a + b[..|b| - 1];
      EyeOnsetsAppend(a, b[..|b| - 1], code);
    }
  }

  // ----- trial assignment -----

  /** `max(nonzero(onsets < t))`: the last index whose onset is strictly before
      `t`, or None where numpy raises ValueError on the empty selection. */
  function LastOnsetBefore(onsets: seq<int>, t: int): (r: Option<nat>)
    ensures r.None? <==> forall k :: 0 <= k < |onsets| ==> onsets[k] >= t
    ensures r.Some? ==> r.value < |onsets| && onsets[r.value] < t
    ensures r.Some? ==> forall k :: r.value < k < |onsets| ==> onsets[k] >= t
  {
    if |onsets| == 0 then None
    else if onsets[|onsets| - 1] < t then Some(|onsets| - 1)
    else LastOnsetBefore(onsets[..|onsets| - 1], t)
  }

  /** The last onset before `t`, as a predicate on a candidate index. */
  predicate IsLastOnsetBefore(onsets: seq<int>, t: int, i: int) {
    0 <= i < |onsets| && onsets[i] < t && forall k :: i < k < |onsets| ==> onsets[k] >= t
  }

  /** The trial a fixation belongs to: the last trial whose onset precedes the
      fixation start, provided the fixation ends inside that trial's window. */
  function AssignTrial(onsetsEye: seq<int>, window: int, f: Fixation): (r: Option<nat>)
    ensures r.Some? ==> IsLastOnsetBefore(onsetsEye, f.start, r.value)
    ensures r.Some? ==> f.end <= onsetsEye[r.value] + window
    ensures r.None? <==> forall i :: IsLastOnsetBefore(onsetsEye, f.start, i) ==> f.end > onsetsEye[i] + window
  {
    match LastOnsetBefore(onsetsEye, f.start)
    case None => None
    case Some(i) =>
      LastOnsetUnique(onsetsEye, f.start, i);
      if f.end > onsetsEye[i] + window then None else Some(i)
  }

  /** At most one index is the last one before `t`. */
  lemma {:induction false} LastOnsetUnique(onsets: seq<int>, t: int, i: int)
    requires IsLastOnsetBefore(onsets, t, i)
    ensures forall j :: IsLastOnsetBefore(onsets, t, j) ==> j == i
  {
  }

  /** No onset before the start: the fixation is unassigned, never trial -1. */
  lemma {:induction false} NothingBeforeIsUnassigned(onsetsEye: seq<int>, window: int, f: Fixation)
    requires forall k :: 0 <= k < |onsetsEye| ==> onsetsEye[k] >= f.start
    ensures AssignTrial(onsetsEye, window, f) == None
  {
  }

  /** A fixation is moved into MEG time by the clock offset of its own trial. */
  function ToMeg(onsetEye: int, onsetMeg: int, t: int): (m: int)
    ensures m - onsetMeg == t - onsetEye
  {
    t - (onsetEye - onsetMeg)
  }

  /** The shift is the same for both ends, so durations are kept. */
  lemma {:induction false} ToMegKeepsDuration(onsetEye: int, onsetMeg: int, start: int, end: int)
    ensures ToMeg(onsetEye, onsetMeg, end) - ToMeg(onsetEye, onsetMeg, start) == end - start
  {
  }

  // ----- nearest stimulus -----

  /** `argmin`: the index of the first smallest value. */
  function ArgMin(ds: seq<real>): (k: nat)
    requires |ds| > 0
    ensures k < |ds|
    ensures forall j :: 0 <= j < |ds| ==> ds[k] <= ds[j]
    ensures forall j :: 0 <= j < k ==> ds[k] < ds[j]
  {
    if |ds| == 1 then 0
    else
      var k := ArgMin(ds[..|ds| - 1]);
      if ds[|ds| - 1] < ds[k] then |ds| - 1 else k
  }

  /** Being a first minimum determines the index. */
  lemma {:induction false} ArgMinUnique(ds: seq<real>, k: nat)
    requires k < |ds|
    requires forall j :: 0 <= j < |ds| ==> ds[k] <= ds[j]
    requires forall j :: 0 <= j < k ==> ds[k] < ds[j]
    ensures ArgMin(ds) == k
  {
  }

  /** The slot nearest to the gaze position, and the (squared) distance to it. */
  function ClosestStim(centres: Centres, p: Point): (r: (nat, real))
    ensures r.0 < 3
    ensures r.1 == SqDist(p, centres.Slots()[r.0])
    ensures forall j :: 0 <= j < 3 ==> r.1 <= SqDist(p, centres.Slots()[j])
    ensures forall j :: 0 <= j < r.0 ==> r.1 < SqDist(p, centres.Slots()[j])
  {
    var slots := centres.Slots();
    var ds := [SqDist(p, slots[0]), SqDist(p, slots[1]), SqDist(p, slots[2])];
    assert forall j :: 0 <= j < 3 ==> ds[j] == SqDist(p, slots[j]);
    var loc := ArgMin(ds);
    (loc, ds[loc])
  }

  /** Ties between slots go to the lower index. */
  lemma {:induction false} ClosestStimTie(centres: Centres, p: Point)
    requires SqDist(p, centres.left) == SqDist(p, centres.center)
    requires SqDist(p, centres.left) <= SqDist(p, centres.right)
    ensures ClosestStim(centres, p).0 == 0
  {
  }

  /** The stimulus centres for a given eccentricity: left, centre and right of
      the screen centre on the horizontal midline, in eye-tracker pixels. */
  function StimCentres(stimDist: int): (c: Centres)
    ensures EyelinkToPsychopy(c.left) == Point(-(stimDist as real), 0.0)
    ensures EyelinkToPsychopy(c.center) == Origin
    ensures EyelinkToPsychopy(c.right) == Point(stimDist as real, 0.0)
  {
    Centres(
      PsychopyToEyelink(Point(-(stimDist as real), 0.0)),
      PsychopyToEyelink(Origin),
      PsychopyToEyelink(Point(stimDist as real, 0.0)))
  }

  /** The image in a slot of a behavioural row. */
  function SlotStimulus(row: BehavRow, loc: nat): (s: string)
    requires loc < 3
    ensures s == [row.stimLeft, row.stimCenter, row.stimRight][loc]
  {
    if loc == 0 then row.stimLeft
    else if loc == 1 then row.stimCenter
    else row.stimRight
  }

  // ----- the aligned fixation table -----

  /** A fixation with the columns the aligner adds; None stands for NaN. */
  datatype FixRow = FixRow(
    fix: Fixation,
    trial: Option<nat>,
    startMeg: Option<int>,
    endMeg: Option<int>,
    closestLoc: Option<nat>,
    closestStim: Option<string>,
    prevStim: Option<string>,
    distToStim: Option<real>,
    onTarget: bool)

  /** A row's trial and its two MEG times are assigned together. */
  predicate TimesAssignedTogether(r: FixRow) {
    r.trial.Some? == r.startMeg.Some? && r.trial.Some? == r.endMeg.Some?
  }

  /** The first pass for one fixation: its trial and its times in MEG samples.
      The labelling columns start out unassigned and `on_target` false. */
  function AlignFixation(onsetsEye: seq<int>, onsetsMeg: seq<int>, window: int, f: Fixation): (r: FixRow)
    requires |onsetsEye| == |onsetsMeg|
    ensures r.fix == f && TimesAssignedTogether(r) && !r.onTarget
    ensures r.closestLoc.None? && r.closestStim.None? && r.prevStim.None? && r.distToStim.None?
    ensures r.trial.Some? <==> AssignTrial(onsetsEye, window, f).Some?
    ensures r.trial.Some? ==>
      var t := r.trial.value;
      && t < |onsetsMeg|
      && IsLastOnsetBefore(onsetsEye, f.start, t)
      && f.end <= onsetsEye[t] + window
      && r.startMeg.value - onsetsMeg[t] == f.start - onsetsEye[t]
      && r.endMeg.value - r.startMeg.value == f.end - f.start
  {
    var trial := AssignTrial(onsetsEye, window, f);
    var startMeg := if trial.Some? then Some(ToMeg(onsetsEye[trial.value], onsetsMeg[trial.value], f.start)) else None;
    var endMeg := if trial.Some? then Some(ToMeg(onsetsEye[trial.value], onsetsMeg[trial.value], f.end)) else None;
    FixRow(f, trial, startMeg, endMeg, None, None, None, None, false)
  }

  /** The first pass over all fixations, in order. */
  function AlignAll(fixations: seq<Fixation>, onsetsEye: seq<int>, onsetsMeg: seq<int>, window: int): (r: seq<FixRow>)
    requires |onsetsEye| == |onsetsMeg|
    ensures |r| == |fixations|
    ensures forall k :: 0 <= k < |r| ==> r[k] == AlignFixation(onsetsEye, onsetsMeg, window, fixations[k])
  {
    if |fixations| == 0 then []
    else
      AlignAll(fixations[..|fixations| - 1], onsetsEye, onsetsMeg, window)
        + [AlignFixation(onsetsEye, onsetsMeg, window, fixations[|fixations| - 1])]
  }

  /** The example of two trials: MEG onsets 1000 and 5000, eye-tracker onsets
      200 and 4200, and a fixation from 250 to 300 lands in the first trial
      at MEG samples 1050 to 1100. */
  lemma {:induction false} AlignExample(eye: string, x: real, y: real, pupil: int)
    ensures var r := AlignFixation([200, 4200], [1000, 5000], 4500, Fixation(eye, 250, 300, 50, x, y, pupil));
      r.trial == Some(0) && r.startMeg == Some(1050) && r.endMeg == Some(1100)
  {
    var f := Fixation(eye, 250, 300, 50, x, y, pupil);
    assert IsLastOnsetBefore([200, 4200], 250, 0);
    LastOnsetUnique([200, 4200], 250, 0);
    assert AssignTrial([200, 4200], 4500, f) == Some(0);
  }

  // ----- the look-back for the previous stimulus -----

  /** `prev_stim`: walk back over the earlier rows `prior` (the current row is
      the next one) starting `back` rows up. An off-target row ends the walk
      with nothing; a row showing another stimulus ends it with that stimulus;
      after eleven rows on the same stimulus the walk gives up. Reading before
      the first row is pandas' KeyError. */
  function LookBack(prior: seq<FixRow>, stim: string, back: nat): (r: Result<Option<string>, AlignError>)
    requires 1 <= back <= 11
    ensures r.Failure? ==> r.error == LookBackBeforeFirstRow(|prior|)
    ensures r.Failure? <==> |prior| <= 10 && OnTargetRun(prior, stim, 0, |prior| - back + 1)
    ensures r.Success? && r.value.Some? ==> r.value.value != stim
    decreases 11 - back
  {
    if back > |prior| then Failure(LookBackBeforeFirstRow(|prior|))
    else
      var prev := prior[|prior| - back];
      if !prev.onTarget then Success(None)
      else if prev.closestStim != Some(stim) then Success(prev.closestStim)
      else if back > 10 then Success(None)
      else LookBack(prior, stim, back + 1)
  }

  /** The loop of the source, with its counter: the same answer as `LookBack`
      from one row up. */
  method PrevStimulus(prior: seq<FixRow>, stim: string) returns (r: Result<Option<string>, AlignError>)
    ensures r == LookBack(prior, stim, 1)
  {
    var back := 1;
    while true
      invariant 1 <= back <= 11
      invariant LookBack(prior, stim, back) == LookBack(prior, stim, 1)
      decreases 11 - back
    {
      if back > |prior| {
        return Failure(LookBackBeforeFirstRow(|prior|));
      }
      var prev := prior[|prior| - back];
      if !prev.onTarget {
        return Success(None);
      } else if prev.closestStim != Some(stim) {
        return Success(prev.closestStim);
      } else if back > 10 {
        return Success(None);
      }
      back := back + 1;
    }
  }

  /** Rows `lo` to `hi - 1` are all on target and show `stim`. */
  predicate OnTargetRun(prior: seq<FixRow>, stim: string, lo: int, hi: int)
    requires 0 <= lo && hi <= |prior|
  {
    forall i :: lo <= i < hi ==> prior[i].onTarget && prior[i].closestStim == Some(stim)
  }

  /** A stimulus found by the look-back sits on the nearest earlier row (at most
      eleven up) with a different stimulus, and every row passed on the way was
      on target and showed the current stimulus. */
  lemma {:induction false} LookBackFinds(prior: seq<FixRow>, stim: string, back: nat, s: string)
    requires 1 <= back <= 11
    requires LookBack(prior, stim, back) == Success(Some(s))
    ensures exists i ::
      && |prior| - 11 <= i <= |prior| - back && 0 <= i
      && prior[i].onTarget && prior[i].closestStim == Some(s)
      && OnTargetRun(prior, stim, i + 1, |prior| - back + 1)
    decreases 11 - back
  {
    var i := |prior| - back;
    if prior[i].closestStim != Some(stim) {
      assert OnTargetRun(prior, stim, i + 1, |prior| - back + 1);
    } else {
      LookBackFinds(prior, stim, back + 1, s);
      var j :| |prior| - 11 <= j <= |prior| - (back + 1) && 0 <= j
        && prior[j].onTarget && prior[j].closestStim == Some(s)
        && OnTargetRun(prior, stim, j + 1, |prior| - back);
      assert OnTargetRun(prior, stim, j + 1, |prior| - back + 1);
    }
  }

  /** An off-target row just before ends the look-back with nothing. */
  lemma {:induction false} LookBackOffTarget(prior: seq<FixRow>, stim: string)
    requires |prior| > 0 && !prior[|prior| - 1].onTarget
    ensures LookBack(prior, stim, 1) == Success(None)
  {
  }

  /** The first row has nothing before it: the look-back fails there. */
  lemma {:induction false} LookBackAtFirstRow(stim: string)
    ensures LookBack([], stim, 1) == Failure(LookBackBeforeFirstRow(0))
  {
  }

  /** Eleven earlier rows on target with the same stimulus: the look-back gives
      up with nothing rather than reading a twelfth. */
  lemma {:induction false} LookBackGivesUp(prior: seq<FixRow>, stim: string, back: nat)
    requires 1 <= back <= 11 && |prior| >= 11
    requires OnTargetRun(prior, stim, |prior| - 11, |prior|)
    ensures LookBack(prior, stim, back) == Success(None)
    decreases 11 - back
  {
    if back <= 10 {
      LookBackGivesUp(prior, stim, back + 1);
    }
  }

  // ----- labelling with the nearest stimulus -----

  /** The second pass for one row, given the rows before it as already
      labelled: an unassigned row is left alone; an assigned one gets the
      nearest slot, that slot's image in its trial, the distance to it and the
      look-back's answer. */
  function LabelRow(prior: seq<FixRow>, row: FixRow, behav: seq<BehavRow>, centres: Centres): (r: Result<FixRow, AlignError>)
    ensures row.trial.None? ==> r == Success(row)
    ensures r.Failure? ==> r.error.MissingBehaviouralRow? || r.error.LookBackBeforeFirstRow?
    ensures row.trial.Some? && row.trial.value >= |behav| ==> r == Failure(MissingBehaviouralRow(row.trial.value))
    ensures r.Success? ==>
      var out := r.value;
      && out.fix == row.fix && out.trial == row.trial && out.startMeg == row.startMeg
      && out.endMeg == row.endMeg && out.onTarget == row.onTarget
    ensures r.Success? && row.trial.Some? ==>
      var out := r.value;
      var p := Point(row.fix.xAvg, row.fix.yAvg);
      && row.trial.value < |behav|
      && out.closestLoc.Some? && out.closestLoc.value < 3 && out.distToStim.Some?
      && out.distToStim.value == SqDist(p, centres.Slots()[out.closestLoc.value])
      && (forall j :: 0 <= j < 3 ==> out.distToStim.value <= SqDist(p, centres.Slots()[j]))
      && (forall j :: 0 <= j < out.closestLoc.value ==> out.distToStim.value < SqDist(p, centres.Slots()[j]))
      && out.closestStim == Some(SlotStimulus(behav[row.trial.value], out.closestLoc.value))
      && LookBack(prior, out.closestStim.value, 1) == Success(out.prevStim)
  {
    match row.trial
    case None => Success(row)
    case Some(t) =>
      if t >= |behav| then Failure(MissingBehaviouralRow(t))
      else
        var (loc, d) := ClosestStim(centres, Point(row.fix.xAvg, row.fix.yAvg));
        var stim := SlotStimulus(behav[t], loc);
        var prev :- LookBack(prior, stim, 1);
        Success(row.(closestLoc := Some(loc), closestStim := Some(stim), distToStim := Some(d), prevStim := prev))
  }

  /** `done` is `rows` labelled row by row, each from the labelled rows before it. */
  predicate LabelledFrom(done: seq<FixRow>, rows: seq<FixRow>, behav: seq<BehavRow>, centres: Centres) {
    |done| == |rows|
    && forall k :: 0 <= k < |rows| ==> LabelRow(done[..k], rows[k], behav, centres) == Success(done[k])
  }

  lemma {:induction false} LabelledFromSnoc(done: seq<FixRow>, rows: seq<FixRow>, row: FixRow, behav: seq<BehavRow>, centres: Centres)
    requires |rows| > 0
    requires LabelledFrom(done, rows[..|rows| - 1], behav, centres)
    requires LabelRow(done, rows[|rows| - 1], behav, centres) == Success(row)
    ensures LabelledFrom(done + [row], rows, behav, centres)
  {
    var out := done + [row];
    forall k | 0 <= k < |rows|
      ensures LabelRow(out[..k], rows[k], behav, centres) == Success(out[k])
    {
      if k < |rows| - 1 {
        assert out[..k] == done[..k];
        assert rows[k] == rows[..|rows| - 1][k];
      } else {
        assert out[..k] == done;
      }
    }
  }

  /** The second pass over all rows, in order; each row is labelled with the
      rows before it already labelled, and the first error stops the pass. */
  function LabelAll(rows: seq<FixRow>, behav: seq<BehavRow>, centres: Centres): (r: Result<seq<FixRow>, AlignError>)
    ensures r.Success? ==> LabelledFrom(r.value, rows, behav, centres)
    ensures r.Failure? ==> r.error.MissingBehaviouralRow? || r.error.LookBackBeforeFirstRow?
    decreases |rows|
  {
    if |rows| == 0 then Success([])
    else
      var done :- LabelAll(rows[..|rows| - 1], behav, centres);
      var row :- LabelRow(done, rows[|rows| - 1], behav, centres);
      LabelledFromSnoc(done, rows, row, behav, centres);
      Success(done + [row])
  }

  /** The error-free outcome of the second pass as the source runs it: with
      `on_target` never set, the look-back stops at the row just before, so it
      fails only on the first row, and every `prev_stim` stays unassigned. */
  lemma {:induction false} LabelAllOffTarget(rows: seq<FixRow>, behav: seq<BehavRow>, centres: Centres)
    requires forall k :: 0 <= k < |rows| ==> !rows[k].onTarget && rows[k].prevStim.None?
    ensures LabelAll(rows, behav, centres).Success? <==>
      BehaviourCoversTrials(rows, behav) && FirstRowUnassigned(rows)
    ensures LabelAll(rows, behav, centres).Success? ==>
      forall k :: 0 <= k < |rows| ==> LabelAll(rows, behav, centres).value[k].prevStim.None?
    decreases |rows|
  {
    if |rows| > 0 {
      var init := rows[..|rows| - 1];
      var last := rows[|rows| - 1];
      LabelAllOffTarget(init, behav, centres);
      var d := LabelAll(init, behav, centres);
      if d.Failure? {
        OffTargetInitFails(rows, behav, centres);
      } else if LabelRow(d.value, last, behav, centres).Failure? {
        OffTargetLastFails(rows, d.value, behav, centres);
      } else {
        OffTargetSucceeds(rows, d.value, LabelRow(d.value, last, behav, centres).value, behav, centres);
      }
    }
  }

  /** After a labelled row that is off target, the look-back finds nothing. */
  lemma {:induction false} OffTargetLookBack(done: seq<FixRow>, init: seq<FixRow>, behav: seq<BehavRow>, centres: Centres)
    requires LabelledFrom(done, init, behav, centres) && |done| > 0
    requires !init[|init| - 1].onTarget
    ensures forall stim :: LookBack(done, stim, 1) == Success(None)
  {
    var k := |done| - 1;
    assert LabelRow(done[..k], init[k], behav, centres) == Success(done[k]);
    forall stim: string
      ensures LookBack(done, stim, 1) == Success(None)
    {
      LookBackOffTarget(done, stim);
    }
  }

  lemma {:induction false} OffTargetInitFails(rows: seq<FixRow>, behav: seq<BehavRow>, centres: Centres)
    requires |rows| > 0
    requires LabelAll(rows[..|rows| - 1], behav, centres).Failure?
    requires LabelAll(rows[..|rows| - 1], behav, centres).Success? <==>
      BehaviourCoversTrials(rows[..|rows| - 1], behav) && FirstRowUnassigned(rows[..|rows| - 1])
    ensures LabelAll(rows, behav, centres).Failure?
    ensures !(BehaviourCoversTrials(rows, behav) && FirstRowUnassigned(rows))
  {
    var init := rows[..|rows| - 1];
    if !BehaviourCoversTrials(init, behav) {
      var k :| 0 <= k < |init| && init[k].trial.Some? && init[k].trial.value >= |behav|;
      assert rows[k] == init[k];
    } else {
      assert rows[0] == init[0];
    }
  }

  lemma {:induction false} OffTargetLastFails(rows: seq<FixRow>, done: seq<FixRow>, behav: seq<BehavRow>, centres: Centres)
    requires |rows| > 0
    requires forall k :: 0 <= k < |rows| ==> !rows[k].onTarget
    requires LabelAll(rows[..|rows| - 1], behav, centres) == Success(done)
    requires LabelRow(done, rows[|rows| - 1], behav, centres).Failure?
    ensures LabelAll(rows, behav, centres).Failure?
    ensures !(BehaviourCoversTrials(rows, behav) && FirstRowUnassigned(rows))
  {
    var init := rows[..|rows| - 1];
    var last := rows[|rows| - 1];
    if |done| > 0 {
      OffTargetLookBack(done, init, behav, centres);
    }
    if last.trial.Some? && last.trial.value < |behav| {
      assert |done| == 0;
      assert rows[0] == last;
    }
  }

  lemma {:induction false} OffTargetSucceeds(rows: seq<FixRow>, done: seq<FixRow>, row: FixRow,
                                             behav: seq<BehavRow>, centres: Centres)
    requires |rows| > 0
    requires forall k :: 0 <= k < |rows| ==> !rows[k].onTarget && rows[k].prevStim.None?
    requires LabelAll(rows[..|rows| - 1], behav, centres) == Success(done)
    requires BehaviourCoversTrials(rows[..|rows| - 1], behav) && FirstRowUnassigned(rows[..|rows| - 1])
    requires forall k :: 0 <= k < |done| ==> done[k].prevStim.None?
    requires LabelRow(done, rows[|rows| - 1], behav, centres) == Success(row)
    ensures LabelAll(rows, behav, centres) == Success(done + [row])
    ensures BehaviourCoversTrials(rows, behav) && FirstRowUnassigned(rows)
    ensures forall k :: 0 <= k < |rows| ==> (done + [row])[k].prevStim.None?
  {
    var init := rows[..|rows| - 1];
    OffTargetRow(done, init, rows[|rows| - 1], row, behav, centres);
    OffTargetCovers(rows, |done|, behav);
    OffTargetPrevStims(done, row);
  }

  /** The last row, labelled after off-target rows, gets no previous stimulus;
      if it has a trial, the log covers it and some row came before it. */
  lemma {:induction false} OffTargetRow(done: seq<FixRow>, init: seq<FixRow>, last: FixRow, row: FixRow,
                                        behav: seq<BehavRow>, centres: Centres)
    requires LabelledFrom(done, init, behav, centres)
    requires forall k :: 0 <= k < |init| ==> !init[k].onTarget
    requires last.prevStim.None?
    requires LabelRow(done, last, behav, centres) == Success(row)
    ensures row.prevStim.None?
    ensures last.trial.Some? ==> |init| > 0 && last.trial.value < |behav|
  {
    if |done| > 0 {
      OffTargetLookBack(done, init, behav, centres);
    }
  }

  lemma {:induction false} OffTargetCovers(rows: seq<FixRow>, n: nat, behav: seq<BehavRow>)
    requires |rows| > 0 && n == |rows| - 1
    requires BehaviourCoversTrials(rows[..n], behav) && FirstRowUnassigned(rows[..n])
    requires rows[n].trial.Some? ==> n > 0 && rows[n].trial.value < |behav|
    ensures BehaviourCoversTrials(rows, behav) && FirstRowUnassigned(rows)
  {
    var init := rows[..n];
    forall k | 0 <= k < |rows| && rows[k].trial.Some?
      ensures rows[k].trial.value < |behav|
    {
      if k < n {
        assert rows[k] == init[k];
      }
    }
    if n > 0 {
      assert rows[0] == init[0];
    }
  }

  lemma {:induction false} OffTargetPrevStims(done: seq<FixRow>, row: FixRow)
    requires forall k :: 0 <= k < |done| ==> done[k].prevStim.None?
    requires row.prevStim.None?
    ensures forall k :: 0 <= k < |done| + 1 ==> (done + [row])[k].prevStim.None?
  {
    forall k | 0 <= k < |done| + 1
      ensures (done + [row])[k].prevStim.None?
    {
      if k < |done| {
        assert (done + [row])[k] == done[k];
      }
    }
  }

  /** Every assigned trial has a row in the behavioural log. */
  predicate BehaviourCoversTrials(rows: seq<FixRow>, behav: seq<BehavRow>) {
    forall k :: 0 <= k < |rows| && rows[k].trial.Some? ==> rows[k].trial.value < |behav|
  }

  /** The first fixation is not assigned to a trial (the look-back never runs on it). */
  predicate FirstRowUnassigned(rows: seq<FixRow>) {
    |rows| == 0 || rows[0].trial.None?
  }

  // ----- the MEG event array -----

  /** The rows assigned to a trial, in fixation order. */
  function AssignedRows(rows: seq<FixRow>): (r: seq<FixRow>)
    ensures |r| <= |rows|
    ensures forall x :: x in r <==> x in rows && x.trial.Some?
    ensures forall k :: 0 <= k < |r| ==> r[k] in rows && r[k].trial.Some?
  {
    if |rows| == 0 then []
    else
      var last := rows[|rows| - 1];
      AssignedRows(rows[..|rows| - 1]) + (if last.trial.Some? then [last] else [])
  }

  /** The NaN filter keeps order and multiplicity: it distributes over
      concatenation, and keeps a single row exactly when it is assigned. */
  lemma {:induction false} AssignedRowsAppend(a: seq<FixRow>, b: seq<FixRow>)
    ensures AssignedRows(a + b) == AssignedRows(a) + AssignedRows(b)
    decreases |b|
  {
    if |b| == 0 {
      assert a + b == a;
    } else {
      var b', x := b[..|b| - 1], b[|b| - 1];
      calc {
        AssignedRows(a + b);
        { assert (a + b') + [x] == a + b; AssignedRowsSnoc(a + b', x); }
        AssignedRows(a + b') + AssignedRows([x]);
        { AssignedRowsAppend(a, b'); }
        AssignedRows(a) + AssignedRows(b') + AssignedRows([x]);
        { ConcatAssoc(AssignedRows(a), AssignedRows(b'), AssignedRows([x])); }
        AssignedRows(a) + (AssignedRows(b') + AssignedRows([x]));
        { assert b' + [x] == b; AssignedRowsSnoc(b', x); }
        AssignedRows(a) + AssignedRows(b);
      }
    }
  }

  lemma {:induction false} ConcatAssoc<T>(p: seq<T>, q: seq<T>, r: seq<T>)
    ensures (p + q) + r == p + (q + r)
  {
  }

  lemma {:induction false} AssignedRowsSnoc(xs: seq<FixRow>, x: FixRow)
    ensures AssignedRows(xs + [x]) == AssignedRows(xs) + AssignedRows([x])
  {
    var ys := xs + [x];
    assert ys[..|ys| - 1] == xs && ys[|ys| - 1] == x;
    assert [x][..0] == [];
  }

  lemma {:induction false} AssignedRowsOne(x: FixRow)
    ensures AssignedRows([x]) == if x.trial.Some? then [x] else []
  {
    assert [x][..0] == [];
  }

  /** The MEG sample of a row's fixation start or end. */
  function TimeOf(row: FixRow, atStart: bool): int
    requires row.startMeg.Some? && row.endMeg.Some?
  {
    if atStart then row.startMeg.value else row.endMeg.value
  }

  /** Rows of `rows` carry MEG events matching the assigned rows one by one. */
  predicate EventsMatch(rows: seq<FixRow>, events: seq<MegEvent>, atStart: bool, code: int) {
    var a := AssignedRows(rows);
    && |events| == |a|
    && forall k :: 0 <= k < |events| ==>
      a[k].startMeg.Some? && a[k].endMeg.Some? && events[k] == MegEvent(TimeOf(a[k], atStart), 0, code)
  }

  /** The event, if any, that one row contributes. */
  function RowEvent(row: FixRow, atStart: bool, code: int): seq<MegEvent>
    requires TimesAssignedTogether(row)
  {
    var t := if atStart then row.startMeg else row.endMeg;
    if t.Some? then [MegEvent(t.value, 0, code)] else []
  }

  /** One half of the event array: a row per fixation whose start (or end) MEG
      time is assigned, in fixation order, with a zero middle column. */
  function TimeEvents(rows: seq<FixRow>, atStart: bool, code: int): (r: seq<MegEvent>)
    requires forall x :: x in rows ==> TimesAssignedTogether(x)
    ensures EventsMatch(rows, r, atStart, code)
  {
    if |rows| == 0 then []
    else
      var init := rows[..|rows| - 1];
      assert forall x :: x in init ==> x in rows;
      var head := TimeEvents(init, atStart, code);
      TimeEventsSnoc(rows, head, atStart, code);
      head + RowEvent(rows[|rows| - 1], atStart, code)
  }

  lemma {:induction false} TimeEventsSnoc(rows: seq<FixRow>, head: seq<MegEvent>, atStart: bool, code: int)
    requires |rows| > 0 && forall x :: x in rows ==> TimesAssignedTogether(x)
    requires EventsMatch(rows[..|rows| - 1], head, atStart, code)
    ensures EventsMatch(rows, head + RowEvent(rows[|rows| - 1], atStart, code), atStart, code)
  {
    var last := rows[|rows| - 1];
    assert TimesAssignedTogether(last);
    var a0 := AssignedRows(rows[..|rows| - 1]);
    var a := AssignedRows(rows);
    assert a == a0 + (if last.trial.Some? then [last] else []);
    var r := head + RowEvent(last, atStart, code);
    forall k | 0 <= k < |r|
      ensures a[k].startMeg.Some? && a[k].endMeg.Some? && r[k] == MegEvent(TimeOf(a[k], atStart), 0, code)
    {
      if k < |head| {
        assert a[k] == a0[k];
      } else {
        assert a[k] == last;
      }
    }
  }

  /** The event array of `rows`: one fix-on row per assigned fixation at its MEG
      start, in fixation order, then one fix-off row per assigned fixation at
      its MEG end, in the same order; the middle column is zero throughout. */
  predicate EventsLaidOut(rows: seq<FixRow>, events: seq<MegEvent>, fixOnCode: int, fixOffCode: int) {
    var a := AssignedRows(rows);
    && |events| == 2 * |a|
    && forall k :: 0 <= k < |a| ==>
      && a[k].startMeg.Some? && a[k].endMeg.Some?
      && events[k] == MegEvent(a[k].startMeg.value, 0, fixOnCode)
      && events[|a| + k] == MegEvent(a[k].endMeg.value, 0, fixOffCode)
  }

  /** All fix-on rows, then all fix-off rows. */
  function EventArray(rows: seq<FixRow>, fixOnCode: int, fixOffCode: int): (r: seq<MegEvent>)
    requires forall x :: x in rows ==> TimesAssignedTogether(x)
    ensures EventsLaidOut(rows, r, fixOnCode, fixOffCode)
  {
    TimeEvents(rows, true, fixOnCode) + TimeEvents(rows, false, fixOffCode)
  }

  // ----- the whole alignment -----

  /** Alignment gets through both passes: the onset counts agree, every
      assigned trial has a behavioural row, and the first fixation is
      unassigned. */
  predicate AlignmentSucceeds(onsetsMeg: seq<int>, onsetsEye: seq<int>, window: int,
                              fixations: seq<Fixation>, behav: seq<BehavRow>) {
    && |onsetsMeg| == |onsetsEye|
    && (forall k :: 0 <= k < |fixations| && AssignTrial(onsetsEye, window, fixations[k]).Some? ==>
          AssignTrial(onsetsEye, window, fixations[k]).value < |behav|)
    && (|fixations| == 0 || AssignTrial(onsetsEye, window, fixations[0]).None?)
  }

  /** What the finished table holds for fixation `f`: its trial as the last
      onset before its start, kept only when it ends within the window; for
      an assigned fixation, its start and end shifted into MEG samples by that
      trial's clock offset, the nearest stimulus slot, the distance to it and
      the image the behavioural log shows there; for an unassigned one, none
      of these; and never a previous stimulus or `on_target`. */
  predicate AlignedRow(row: FixRow, f: Fixation, onsetsEye: seq<int>, onsetsMeg: seq<int>, window: int,
                       behav: seq<BehavRow>, centres: Centres)
    requires |onsetsEye| == |onsetsMeg|
  {
    && row.fix == f
    && row.trial == AssignTrial(onsetsEye, window, f)
    && row.prevStim.None? && !row.onTarget
    && match row.trial
       case None =>
         && row.startMeg.None? && row.endMeg.None?
         && row.closestLoc.None? && row.closestStim.None? && row.distToStim.None?
       case Some(t) =>
         var c := ClosestStim(centres, Point(f.xAvg, f.yAvg));
         && t < |onsetsEye| && t < |behav|
         && row.startMeg == Some(ToMeg(onsetsEye[t], onsetsMeg[t], f.start))
         && row.endMeg == Some(ToMeg(onsetsEye[t], onsetsMeg[t], f.end))
         && row.closestLoc == Some(c.0) && row.distToStim == Some(c.1)
         && row.closestStim == Some(SlotStimulus(behav[t], c.0))
  }

  /** The finished fixation table: row k is fixation k, aligned and labelled. */
  predicate AlignedTable(rows: seq<FixRow>, fixations: seq<Fixation>, onsetsEye: seq<int>, onsetsMeg: seq<int>,
                         window: int, behav: seq<BehavRow>, centres: Centres)
    requires |onsetsEye| == |onsetsMeg|
  {
    && |rows| == |fixations|
    && forall k :: 0 <= k < |rows| ==> AlignedRow(rows[k], fixations[k], onsetsEye, onsetsMeg, window, behav, centres)
  }

  /** `get_fixation_events`: the fixation table with its added columns and the
      MEG event array, or the error that stops it. */
  function GetFixationEvents(megEvents: seq<MegEvent>, eye: EyelinkData, behav: seq<BehavRow>, cfg: Config)
    : (r: Result<(seq<FixRow>, seq<MegEvent>), AlignError>)
    ensures r == Failure(TriggerCountMismatch) <==>
      |MegOnsets(megEvents, cfg.stimuliCode)| != |EyeOnsets(eye.triggers, cfg.stimuliCode)|
    ensures r.Success? <==>
      AlignmentSucceeds(MegOnsets(megEvents, cfg.stimuliCode), EyeOnsets(eye.triggers, cfg.stimuliCode),
                        TrialWindowSamples(cfg.fsampleEyelink), eye.fixations, behav)
    ensures r.Success? ==>
      && AlignedTable(r.value.0, eye.fixations, EyeOnsets(eye.triggers, cfg.stimuliCode),
                      MegOnsets(megEvents, cfg.stimuliCode), TrialWindowSamples(cfg.fsampleEyelink), behav, cfg.centres)
      && EventsLaidOut(r.value.0, r.value.1, cfg.fixOnCode, cfg.fixOffCode)
  {
    var window := TrialWindowSamples(cfg.fsampleEyelink);
    var onsetsMeg := MegOnsets(megEvents, cfg.stimuliCode);
    var onsetsEye := EyeOnsets(eye.triggers, cfg.stimuliCode);
    if |onsetsEye| != |onsetsMeg| then Failure(TriggerCountMismatch)
    else
      var aligned := AlignAll(eye.fixations, onsetsEye, onsetsMeg, window);
      AlignedRowsFacts(eye.fixations, onsetsMeg, onsetsEye, window, behav, cfg.centres);
      var rows :- LabelAll(aligned, behav, cfg.centres);
      LabelledTable(rows, aligned, eye.fixations, onsetsEye, onsetsMeg, window, behav, cfg.centres);
      Success((rows, EventArray(rows, cfg.fixOnCode, cfg.fixOffCode)))
  }

  /** What the second pass makes of the first: it succeeds exactly when
      alignment as a whole does. */
  lemma {:induction false} AlignedRowsFacts(fixations: seq<Fixation>, onsetsMeg: seq<int>, onsetsEye: seq<int>, window: int,
                         behav: seq<BehavRow>, centres: Centres)
    requires |onsetsEye| == |onsetsMeg|
    ensures LabelAll(AlignAll(fixations, onsetsEye, onsetsMeg, window), behav, centres).Success? <==>
      AlignmentSucceeds(onsetsMeg, onsetsEye, window, fixations, behav)
  {
    var rows := AlignAll(fixations, onsetsEye, onsetsMeg, window);
    LabelAllOffTarget(rows, behav, centres);
    AlignedRowsTrials(fixations, onsetsMeg, onsetsEye, window, behav);
  }

  lemma {:induction false} AlignedRowsTrials(fixations: seq<Fixation>, onsetsMeg: seq<int>, onsetsEye: seq<int>,
                                             window: int, behav: seq<BehavRow>)
    requires |onsetsEye| == |onsetsMeg|
    ensures var rows := AlignAll(fixations, onsetsEye, onsetsMeg, window);
      BehaviourCoversTrials(rows, behav) && FirstRowUnassigned(rows) <==>
      AlignmentSucceeds(onsetsMeg, onsetsEye, window, fixations, behav)
  {
    var rows := AlignAll(fixations, onsetsEye, onsetsMeg, window);
    assert forall k :: 0 <= k < |rows| ==> rows[k].trial == AssignTrial(onsetsEye, window, fixations[k]);
  }

  /** After both passes every row holds its fixation's trial, MEG times and
      labels, and no `prev_stim`. */
  lemma {:induction false} LabelledTable(rows: seq<FixRow>, aligned: seq<FixRow>, fixations: seq<Fixation>,
                      onsetsEye: seq<int>, onsetsMeg: seq<int>, window: int, behav: seq<BehavRow>, centres: Centres)
    requires |onsetsEye| == |onsetsMeg|
    requires aligned == AlignAll(fixations, onsetsEye, onsetsMeg, window)
    requires LabelAll(aligned, behav, centres) == Success(rows)
    ensures AlignedTable(rows, fixations, onsetsEye, onsetsMeg, window, behav, centres)
    ensures forall x :: x in rows ==> TimesAssignedTogether(x)
  {
    LabelledRows(rows, aligned, fixations, onsetsEye, onsetsMeg, window, behav, centres);
  }

  lemma {:induction false} LabelledRows(rows: seq<FixRow>, aligned: seq<FixRow>, fixations: seq<Fixation>,
                      onsetsEye: seq<int>, onsetsMeg: seq<int>, window: int, behav: seq<BehavRow>, centres: Centres)
    requires |onsetsEye| == |onsetsMeg|
    requires |aligned| == |fixations|
    requires forall k :: 0 <= k < |aligned| ==> aligned[k] == AlignFixation(onsetsEye, onsetsMeg, window, fixations[k])
    requires LabelledFrom(rows, aligned, behav, centres)
    ensures AlignedTable(rows, fixations, onsetsEye, onsetsMeg, window, behav, centres)
    ensures forall x :: x in rows ==> TimesAssignedTogether(x)
  {
    forall k | 0 <= k < |rows|
      ensures !rows[k].onTarget && TimesAssignedTogether(rows[k])
    {
      assert LabelRow(rows[..k], aligned[k], behav, centres) == Success(rows[k]);
    }
    forall k | 0 <= k < |rows|
      ensures AlignedRow(rows[k], fixations[k], onsetsEye, onsetsMeg, window, behav, centres)
    {
      assert LabelRow(rows[..k], aligned[k], behav, centres) == Success(rows[k]);
      LabelledRow(rows[..k], fixations[k], onsetsEye, onsetsMeg, window, behav, centres, rows[k]);
    }
  }

  /** One fixation, aligned and then labelled, is its `AlignedRow`. */
  lemma {:induction false} LabelledRow(prior: seq<FixRow>, f: Fixation, onsetsEye: seq<int>, onsetsMeg: seq<int>,
                                       window: int, behav: seq<BehavRow>, centres: Centres, out: FixRow)
    requires |onsetsEye| == |onsetsMeg|
    requires forall i :: 0 <= i < |prior| ==> !prior[i].onTarget
    requires LabelRow(prior, AlignFixation(onsetsEye, onsetsMeg, window, f), behav, centres) == Success(out)
    ensures AlignedRow(out, f, onsetsEye, onsetsMeg, window, behav, centres)
    ensures TimesAssignedTogether(out)
  {
    var row := AlignFixation(onsetsEye, onsetsMeg, window, f);
    match row.trial
    case None =>
    case Some(t) =>
      var c := ClosestStim(centres, Point(f.xAvg, f.yAvg));
      var prev := LookBack(prior, SlotStimulus(behav[t], c.0), 1);
      assert prev == Success(None);
      assert out == row.(closestLoc := Some(c.0), closestStim := Some(SlotStimulus(behav[t], c.0)),
                         distToStim := Some(c.1), prevStim := prev.value);
  }
}
