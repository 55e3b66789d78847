/** The two control rules of the presentation loop: the fixation-hold gate
    that starts a trial, and the block-break rule between trials. Eye
    positions, clock readings and experimenter key presses are inputs. */
module Presentation {
  import opened Wrappers
  import opened DistConvert

  /** Status code a trial returns when the experimenter ends the run. */
  const EndExperiment: int := 9999

  /** Trials per block: a break prompt follows every 25th trial. */
  const BlockLength: nat := 25

  // ----- the fixation gate -----

  /** One pass of the waiting loop: whether the experimenter asked to end
      the run, the gaze position in eye-tracker pixels, and the clock. */
  datatype GazeSample = GazeSample(quit: bool, gaze: Point, time: real)

  /** How the wait ends: the trial starts at sample k, the experimenter ends
      the run at sample k, or the samples run out with the hold timer
      started at `holdStart`. */
  datatype GateOutcome = Start(index: nat) | Quit(index: nat) | Waiting(holdStart: real)

  /** Gaze further from the screen centre than `thresh` pixels; squared
      distances are compared, which for a non-negative threshold is the same
      test as comparing distances. */
  predicate OffFixation(gaze: Point, thresh: nat) {
    SqDist(EyelinkToPsychopy(gaze), Origin) > (thresh * thresh) as real
  }

  /** Comparing squares is comparing distances: with `d` the Euclidean
      distance of the converted gaze from the centre, the gaze is off
      fixation exactly when `d` exceeds the threshold. */
  lemma OffFixationIsDistance(gaze: Point, thresh: nat, d: real)
    requires d >= 0.0 && d * d == SqDist(EyelinkToPsychopy(gaze), Origin)
    ensures OffFixation(gaze, thresh) <==> d > thresh as real
  {
    var t := thresh as real;
    assert (thresh * thresh) as real == t * t;
    SquaresOrdered(d, t);
  }

  /** Between non-negative reals, squaring keeps the order strict. */
  lemma SquaresOrdered(a: real, b: real)
    requires a >= 0.0 && b >= 0.0
    ensures a * a > b * b <==> a > b
  {
    if a > b {
      var x := a - b;
      assert a * a == b * b + 2.0 * b * x + x * x;
      assert x * x > 0.0;
      assert b * x >= 0.0;
    } else {
      var x := b - a;
      assert b * b == a * a + 2.0 * a * x + x * x;
      assert x * x >= 0.0;
      assert a * x >= 0.0;
    }
  }

  /** The hold timer before sample k: the time of the last off-fixation
      sample before k, or the time the wait began. */
  function LastReset(samples: seq<GazeSample>, t0: real, thresh: nat, k: nat): real
    requires k <= |samples|
  {
    if k == 0 then t0
    else if OffFixation(samples[k - 1].gaze, thresh) then samples[k - 1].time
    else LastReset(samples, t0, thresh, k - 1)
  }

  /** Sample k lets the trial start: no quit, gaze on the fixation point, and
      the fixation has been held longer than `fixDur`. */
  predicate Fires(samples: seq<GazeSample>, t0: real, fixDur: real, thresh: nat, k: nat)
    requires k < |samples|
  {
    && !samples[k].quit
    && !OffFixation(samples[k].gaze, thresh)
    && samples[k].time - LastReset(samples, t0, thresh, k) > fixDur
  }

  /** Sample k ends the wait one way or the other. */
  predicate Ends(samples: seq<GazeSample>, t0: real, fixDur: real, thresh: nat, k: nat)
    requires k < |samples|
  {
    samples[k].quit || Fires(samples, t0, fixDur, thresh, k)
  }

  /** No sample before k ends the wait. */
  predicate StillWaiting(samples: seq<GazeSample>, t0: real, fixDur: real, thresh: nat, k: nat)
    requires k <= |samples|
  {
    forall j :: 0 <= j < k ==> !Ends(samples, t0, fixDur, thresh, j)
  }

  /** The waiting loop from sample i on, with the hold timer at `tFix`. */
  function GateFrom(samples: seq<GazeSample>, i: nat, tFix: real, fixDur: real, thresh: nat): (r: GateOutcome)
    requires i <= |samples|
    ensures r.Quit? ==> i <= r.index < |samples| && samples[r.index].quit
    ensures r.Start? ==> i <= r.index < |samples| && !samples[r.index].quit
                         && !OffFixation(samples[r.index].gaze, thresh)
    decreases |samples| - i
  {
    if i == |samples| then Waiting(tFix)
    else if samples[i].quit then Quit(i)
    else if OffFixation(samples[i].gaze, thresh) then GateFrom(samples, i + 1, samples[i].time, fixDur, thresh)
    else if samples[i].time - tFix > fixDur then Start(i)
    else GateFrom(samples, i + 1, tFix, fixDur, thresh)
  }

  /** The fixation gate: the wait begins with the hold timer at `t0`. */
  function Gate(samples: seq<GazeSample>, t0: real, fixDur: real, thresh: nat): (r: GateOutcome)
    ensures r.Start? ==> r.index < |samples| && Fires(samples, t0, fixDur, thresh, r.index)
                         && StillWaiting(samples, t0, fixDur, thresh, r.index)
    ensures r.Quit? ==> r.index < |samples| && samples[r.index].quit
                        && StillWaiting(samples, t0, fixDur, thresh, r.index)
    ensures r.Waiting? ==> StillWaiting(samples, t0, fixDur, thresh, |samples|)
                           && r.holdStart == LastReset(samples, t0, thresh, |samples|)
  {
    GateFromSpec(samples, 0, t0, fixDur, thresh);
    GateFrom(samples, 0, t0, fixDur, thresh)
  }

  /** The loop carries the hold timer of the reference definition, and stops
      at the first sample that ends the wait. */
  lemma {:induction false} GateFromSpec(samples: seq<GazeSample>, i: nat, t0: real, fixDur: real, thresh: nat)
    requires i <= |samples| && StillWaiting(samples, t0, fixDur, thresh, i)
    ensures var r := GateFrom(samples, i, LastReset(samples, t0, thresh, i), fixDur, thresh);
      && (r.Start? ==> i <= r.index < |samples| && Fires(samples, t0, fixDur, thresh, r.index)
                       && StillWaiting(samples, t0, fixDur, thresh, r.index))
      && (r.Quit? ==> i <= r.index < |samples| && samples[r.index].quit
                      && StillWaiting(samples, t0, fixDur, thresh, r.index))
      && (r.Waiting? ==> StillWaiting(samples, t0, fixDur, thresh, |samples|)
                         && r.holdStart == LastReset(samples, t0, thresh, |samples|))
    decreases |samples| - i
  {
    if i < |samples| && !Ends(samples, t0, fixDur, thresh, i) {
      assert StillWaiting(samples, t0, fixDur, thresh, i + 1) by {
        forall j | 0 <= j < i + 1
          ensures !Ends(samples, t0, fixDur, thresh, j)
        {
          if j < i {
            assert !Ends(samples, t0, fixDur, thresh, j);
          }
        }
      }
      GateFromSpec(samples, i + 1, t0, fixDur, thresh);
    }
  }

  /** Looking away restarts the hold: right after an off-fixation sample the
      timer reads that sample's time, so the trial can only start once the
      gaze has been back for longer than `fixDur`. */
  lemma {:induction false} OffFixationResets(samples: seq<GazeSample>, t0: real, fixDur: real, thresh: nat, k: nat)
    requires k < |samples| && OffFixation(samples[k].gaze, thresh)
    ensures LastReset(samples, t0, thresh, k + 1) == samples[k].time
    ensures !Fires(samples, t0, fixDur, thresh, k)
  {
  }

  /** Gaze that never leaves the fixation point and a clock that passes
      `t0 + fixDur` start the trial at the first sample past that time. */
  lemma {:induction false} SteadyGazeStarts(samples: seq<GazeSample>, t0: real, fixDur: real, thresh: nat, k: nat)
    requires k < |samples|
    requires forall j :: 0 <= j <= k ==> !samples[j].quit && !OffFixation(samples[j].gaze, thresh)
    requires forall j :: 0 <= j < k ==> samples[j].time - t0 <= fixDur
    requires samples[k].time - t0 > fixDur
    ensures Gate(samples, t0, fixDur, thresh) == Start(k)
  {
    SteadyHold(samples, t0, thresh, k);
    SteadyGazeFrom(samples, 0, t0, fixDur, thresh, k);
  }

  lemma {:induction false} SteadyHold(samples: seq<GazeSample>, t0: real, thresh: nat, k: nat)
    requires k <= |samples|
    requires forall j :: 0 <= j < k ==> !OffFixation(samples[j].gaze, thresh)
    ensures LastReset(samples, t0, thresh, k) == t0
  {
    if k > 0 {
      SteadyHold(samples, t0, thresh, k - 1);
    }
  }

  lemma {:induction false} SteadyGazeFrom(samples: seq<GazeSample>, i: nat, t0: real, fixDur: real, thresh: nat, k: nat)
    requires i <= k < |samples|
    requires forall j :: i <= j <= k ==> !samples[j].quit && !OffFixation(samples[j].gaze, thresh)
    requires forall j :: i <= j < k ==> samples[j].time - t0 <= fixDur
    requires samples[k].time - t0 > fixDur
    ensures GateFrom(samples, i, t0, fixDur, thresh) == Start(k)
    decreases k - i
  {
    if i < k {
      SteadyGazeFrom(samples, i + 1, t0, fixDur, thresh, k);
    }
  }

  // ----- the trial loop and block breaks -----

  /** A break prompt follows trial i (counted from 0). */
  predicate BreakAfter(i: nat) {
    i > 0 && i % BlockLength == 0
  }

  /** What the trial loop did: how many trials ran, whether the experimenter
      stopped it, and after which trials a break was offered. */
  datatype SessionLog = SessionLog(ran: nat, stopped: bool, breaks: seq<nat>)

  /** Trial i stops the run when its status is the end code. */
  predicate StopsRun(status: Option<int>) {
    status == Some(EndExperiment)
  }

  /** The trial loop, given the status each trial would return. */
  method RunTrials(statuses: seq<Option<int>>) returns (log: SessionLog)
    ensures log.ran <= |statuses|
    ensures log.stopped <==> exists i :: 0 <= i < |statuses| && StopsRun(statuses[i])
    ensures log.stopped ==> log.ran > 0 && StopsRun(statuses[log.ran - 1])
    ensures forall i :: 0 <= i < log.ran - (if log.stopped then 1 else 0) ==> !StopsRun(statuses[i])
    ensures !log.stopped ==> log.ran == |statuses|
    ensures log.breaks == BreaksBefore(log.ran - (if log.stopped then 1 else 0))
  {
    var breaks: seq<nat> := [];
    var i := 0;
    while i < |statuses|
      invariant i <= |statuses|
      invariant forall j :: 0 <= j < i ==> !StopsRun(statuses[j])
      invariant breaks == BreaksBefore(i)
    {
      if StopsRun(statuses[i]) {
        return SessionLog(i + 1, true, breaks);
      }
      assert BreaksBefore(i + 1) == breaks + if BreakAfter(i) then [i] else [];
      if BreakAfter(i) {
        breaks := breaks + [i];
      }
      i := i + 1;
    }
    return SessionLog(i, false, breaks);
  }

  /** The trials below n that are followed by a break, in order. */
  function BreaksBefore(n: nat): (r: seq<nat>)
    ensures forall k :: 0 <= k < |r| ==> r[k] < n && BreakAfter(r[k])
    ensures forall i :: 0 <= i < n && BreakAfter(i) ==> i in r
  {
    if n == 0 then [] else BreaksBefore(n - 1) + (if BreakAfter(n - 1) then [n - 1] else [])
  }

  /** Breaks are the non-zero multiples of 25: a full run of n trials
      offers (n - 1) / 25 of them. */
  lemma {:induction false} BreakCount(n: nat)
    requires n > 0
    ensures |BreaksBefore(n)| == (n - 1) / BlockLength
  {
    if n > 1 {
      BreakCount(n - 1);
      if BreakAfter(n - 1) {
        assert (n - 1) / BlockLength == (n - 2) / BlockLength + 1;
      } else {
        assert (n - 1) / BlockLength == (n - 2) / BlockLength;
      }
    }
  }

  /** A 50-trial run offers exactly one break, after trial 25. */
  lemma {:induction false} FiftyTrialsOneBreak()
    ensures BreaksBefore(50) == [25]
  {
    BreakCount(50);
    assert BreakAfter(25);
    assert 25 in BreaksBefore(50);
  }
}
