/** Artifact-rejection bookkeeping: the "out of trial" annotations that mask
    everything between trial windows, the choice made when annotations
    already exist on disk, and the decimation done before ICA. Sample
    indices and rates are numbers handed in; files, plots and the ICA fit
    are not modelled. */
module Artifacts {
  import opened Wrappers

  // ----- out-of-trial segments -----

  /** A stretch of the recording in sample units, from `start` to `stop`. */
  datatype Interval = Interval(start: real, stop: real)

  function Length(iv: Interval): real {
    iv.stop - iv.start
  }

  function TotalLength(ivs: seq<Interval>): real {
    if |ivs| == 0 then 0.0 else Length(ivs[0]) + TotalLength(ivs[1..])
  }

  /** The window kept around each stimulus onset: `preStimDur` seconds
      before it to `stimDur` seconds after it. */
  function TrialWindows(tStim: seq<int>, preStimDur: real, stimDur: real, sfreq: real): (w: seq<Interval>)
    ensures |w| == |tStim|
    ensures forall i :: 0 <= i < |w| ==>
      w[i].start + preStimDur * sfreq == tStim[i] as real && w[i].stop - stimDur * sfreq == tStim[i] as real
  {
    seq(|tStim|, i requires 0 <= i < |tStim| =>
      Interval(tStim[i] as real - preStimDur * sfreq, tStim[i] as real + stimDur * sfreq))
  }

  /** Onsets of the masked segments: the first sample, then every window end. */
  function GapOnsets(firstSamp: int, windows: seq<Interval>): seq<real> {
    [firstSamp as real] + seq(|windows|, i requires 0 <= i < |windows| => windows[i].stop)
  }

  /** Offsets of the masked segments: every window start, then the last sample. */
  function GapOffsets(windows: seq<Interval>, lastSamp: int): seq<real> {
    seq(|windows|, i requires 0 <= i < |windows| => windows[i].start) + [lastSamp as real]
  }

  /** The masked segments, paired up from the stacked onsets and offsets. */
  function OutOfTrialSegments(firstSamp: int, windows: seq<Interval>, lastSamp: int): (r: seq<Interval>)
    ensures |r| == |windows| + 1
  {
    var on := GapOnsets(firstSamp, windows);
    var off := GapOffsets(windows, lastSamp);
    seq(|windows| + 1, j requires 0 <= j <= |windows| => Interval(on[j], off[j]))
  }

  /** Reference definition: the gaps of the recording `from`..`to` left by
      the windows, walked left to right. */
  function Gaps(from: real, windows: seq<Interval>, to: real): (g: seq<Interval>)
    ensures |g| == |windows| + 1
    decreases |windows|
  {
    if |windows| == 0 then [Interval(from, to)]
    else [Interval(from, windows[0].start)] + Gaps(windows[0].stop, windows[1..], to)
  }

  /** The stacked onsets and offsets are exactly the gaps between windows. */
  lemma {:induction false} SegmentsAreGaps(firstSamp: int, windows: seq<Interval>, lastSamp: int)
    ensures OutOfTrialSegments(firstSamp, windows, lastSamp) == Gaps(firstSamp as real, windows, lastSamp as real)
  {
    SegmentsFrom(firstSamp as real, windows, lastSamp as real);
  }

  /** Gap j runs from the end of window j - 1 (or `from`) to the start of
      window j (or `to`). */
  lemma {:induction false} SegmentsFrom(from: real, windows: seq<Interval>, to: real)
    ensures forall j :: 0 <= j <= |windows| ==>
      Gaps(from, windows, to)[j].start == (if j == 0 then from else windows[j - 1].stop)
    ensures forall j :: 0 <= j <= |windows| ==>
      Gaps(from, windows, to)[j].stop == (if j == |windows| then to else windows[j].start)
    decreases |windows|
  {
    if |windows| > 0 {
      SegmentsFrom(windows[0].stop, windows[1..], to);
      var g := Gaps(from, windows, to);
      var rest := Gaps(windows[0].stop, windows[1..], to);
      assert g == [Interval(from, windows[0].start)] + rest;
      forall j | 1 <= j <= |windows|
        ensures g[j] == rest[j - 1]
      {
      }
    }
  }

  /** The masked segments and the trial windows together cover the recording
      exactly: their lengths add up to `to - from`, whatever the overlaps. */
  lemma {:induction false} GapsTelescope(from: real, windows: seq<Interval>, to: real)
    ensures TotalLength(Gaps(from, windows, to)) + TotalLength(windows) == to - from
    decreases |windows|
  {
    if |windows| > 0 {
      GapsTelescope(windows[0].stop, windows[1..], to);
      var g := Gaps(from, windows, to);
      assert g[1..] == Gaps(windows[0].stop, windows[1..], to);
    }
  }

  /** A masked segment is negative exactly when the neighbouring windows
      overlap: nothing clamps its length at zero. */
  lemma {:induction false} GapNegativeIffOverlap(from: real, windows: seq<Interval>, to: real, j: nat)
    requires 0 < j < |windows|
    ensures Length(Gaps(from, windows, to)[j]) < 0.0 <==> windows[j - 1].stop > windows[j].start
  {
    SegmentsFrom(from, windows, to);
  }

  /** One annotation: onset and duration in seconds from the first sample. */
  datatype Annotation = Annotation(onset: real, duration: real, description: string)

  const OutOfTrialLabel: string := "BAD_out_of_trial"

  /** The out-of-trial annotations for stimulus onsets `tStim` (in samples),
      re-expressed in seconds relative to the first sample. */
  function OutOfTrialAnnotations(tStim: seq<int>, preStimDur: real, stimDur: real, sfreq: real,
                                 firstSamp: int, lastSamp: int): (r: seq<Annotation>)
    requires sfreq > 0.0
    ensures |r| == |tStim| + 1
    ensures r[0].onset == 0.0
    ensures forall j :: 0 <= j < |r| ==> r[j].description == OutOfTrialLabel
  {
    var segs := OutOfTrialSegments(firstSamp, TrialWindows(tStim, preStimDur, stimDur, sfreq), lastSamp);
    seq(|segs|, j requires 0 <= j < |segs| =>
      Annotation((segs[j].start - firstSamp as real) / sfreq, Length(segs[j]) / sfreq, OutOfTrialLabel))
  }

  /** Converting back to samples recovers the gaps between the trial windows:
      annotation j starts at the end of window j - 1 (or at the first sample)
      and ends at the start of window j (or at the last sample). */
  lemma {:induction false} AnnotationsInSamples(tStim: seq<int>, preStimDur: real, stimDur: real, sfreq: real,
                             firstSamp: int, lastSamp: int, j: nat)
    requires sfreq > 0.0 && j <= |tStim|
    ensures var a := OutOfTrialAnnotations(tStim, preStimDur, stimDur, sfreq, firstSamp, lastSamp)[j];
      && a.onset * sfreq + firstSamp as real
         == (if j == 0 then firstSamp as real else tStim[j - 1] as real + stimDur * sfreq)
      && (a.onset + a.duration) * sfreq + firstSamp as real
         == (if j == |tStim| then lastSamp as real else tStim[j] as real - preStimDur * sfreq)
  {
    var w := TrialWindows(tStim, preStimDur, stimDur, sfreq);
    var seg := OutOfTrialSegments(firstSamp, w, lastSamp)[j];
    SegmentBounds(tStim, preStimDur, stimDur, sfreq, firstSamp, lastSamp, j);
    AnnotationScales(OutOfTrialAnnotations(tStim, preStimDur, stimDur, sfreq, firstSamp, lastSamp)[j],
                     seg, firstSamp as real, sfreq);
  }

  lemma {:induction false} SegmentBounds(tStim: seq<int>, preStimDur: real, stimDur: real, sfreq: real,
                      firstSamp: int, lastSamp: int, j: nat)
    requires j <= |tStim|
    ensures var seg := OutOfTrialSegments(firstSamp, TrialWindows(tStim, preStimDur, stimDur, sfreq), lastSamp)[j];
      && seg.start == (if j == 0 then firstSamp as real else tStim[j - 1] as real + stimDur * sfreq)
      && seg.stop == (if j == |tStim| then lastSamp as real else tStim[j] as real - preStimDur * sfreq)
  {
    var w := TrialWindows(tStim, preStimDur, stimDur, sfreq);
    SegmentsAreGaps(firstSamp, w, lastSamp);
    SegmentsFrom(firstSamp as real, w, lastSamp as real);
  }

  lemma {:induction false} AnnotationScales(a: Annotation, seg: Interval, first: real, sfreq: real)
    requires sfreq > 0.0
    requires a.onset == (seg.start - first) / sfreq && a.duration == Length(seg) / sfreq
    ensures a.onset * sfreq + first == seg.start
    ensures (a.onset + a.duration) * sfreq + first == seg.stop
  {
    DivAdd(seg.start - first, Length(seg), sfreq);
  }

  /** With k onsets the masked time plus k full trial windows is the whole
      recording, in seconds. */
  lemma {:induction false} AnnotationsCoverRecording(tStim: seq<int>, preStimDur: real, stimDur: real, sfreq: real,
                                  firstSamp: int, lastSamp: int)
    requires sfreq > 0.0
    ensures var r := OutOfTrialAnnotations(tStim, preStimDur, stimDur, sfreq, firstSamp, lastSamp);
      TotalDuration(r) * sfreq + TotalLength(TrialWindows(tStim, preStimDur, stimDur, sfreq))
      == (lastSamp - firstSamp) as real
  {
    var w := TrialWindows(tStim, preStimDur, stimDur, sfreq);
    var segs := OutOfTrialSegments(firstSamp, w, lastSamp);
    SegmentsAreGaps(firstSamp, w, lastSamp);
    GapsTelescope(firstSamp as real, w, lastSamp as real);
    DurationsScale(OutOfTrialAnnotations(tStim, preStimDur, stimDur, sfreq, firstSamp, lastSamp), segs, sfreq);
  }

  function TotalDuration(anns: seq<Annotation>): real {
    if |anns| == 0 then 0.0 else anns[0].duration + TotalDuration(anns[1..])
  }

  lemma {:induction false} DurationsScale(anns: seq<Annotation>, segs: seq<Interval>, sfreq: real)
    requires sfreq > 0.0 && |anns| == |segs|
    requires forall j :: 0 <= j < |anns| ==> anns[j].duration == Length(segs[j]) / sfreq
    ensures TotalDuration(anns) * sfreq == TotalLength(segs)
    decreases |anns|
  {
    if |anns| > 0 {
      DurationsScale(anns[1..], segs[1..], sfreq);
      ScaleBack(Length(segs[0]), sfreq);
      assert TotalDuration(anns) * sfreq
          == anns[0].duration * sfreq + TotalDuration(anns[1..]) * sfreq;
    }
  }

  lemma {:induction false} ScaleBack(x: real, s: real)
    requires s > 0.0
    ensures (x / s) * s == x
  {
  }

  lemma {:induction false} DivAdd(x: real, y: real, s: real)
    requires s > 0.0
    ensures (x / s + y / s) * s == x + y
  {
    ScaleBack(x, s);
    ScaleBack(y, s);
  }

  // ----- existing annotations -----

  /** Python's `needle in hay` for strings: a contiguous substring test, so
      the empty string is in every string. */
  predicate Contains(hay: string, needle: string) {
    needle <= hay || (|hay| > 0 && Contains(hay[1..], needle))
  }

  /** The answers accepted as "no" and as "yes" are the substrings of
      "Nn" and of "Yy", the empty answer among the former. */
  lemma {:induction false} AcceptedAnswers(resp: string)
    ensures Contains("Nn", resp) <==> resp in {"", "N", "n", "Nn"}
    ensures Contains("Yy", resp) <==> resp in {"", "Y", "y", "Yy"}
  {
    TwoLetterSubstrings('N', 'n', resp);
    TwoLetterSubstrings('Y', 'y', resp);
  }

  lemma {:induction false} TwoLetterSubstrings(c: char, d: char, resp: string)
    ensures Contains([c, d], resp) <==> resp in {"", [c], [d], [c, d]}
  {
    assert [c, d][1..] == [d];
    assert [d][1..] == [];
    assert Contains([], resp) <==> resp <= [];
    assert Contains([d], resp) <==> resp <= [d] || resp <= [];
    assert Contains([c, d], resp) <==> resp <= [c, d] || resp <= [d] || resp <= [];
    if |resp| == 1 {
      assert resp == [resp[0]];
    } else if |resp| == 2 {
      assert resp == [resp[0], resp[1]];
    }
  }

  /** Where the manual artifact annotations come from. `Manual` runs the
      interactive tagging and saves the result over `annotFile`. */
  datatype AnnotationSource = LoadSaved | Manual | Exit

  datatype AnnotationError = UnboundAnnotations

  /** The branch as written: a "yes" answer sets nothing, and the next
      statement reads the never-assigned annotations. */
  function ChooseAnnotationsAsWritten(fileExists: bool, resp: string): (r: Result<AnnotationSource, AnnotationError>)
    ensures r.Failure? <==> fileExists && resp in {"Y", "y", "Yy"}
  {
    AcceptedAnswers(resp);
    if !fileExists then Success(Manual)
    else if Contains("Nn", resp) then Success(LoadSaved)
    else if Contains("Yy", resp) then Failure(UnboundAnnotations)
    else Success(Exit)
  }

  /** The branch as evidently intended: "yes" tags the artifacts anew. */
  function ChooseAnnotations(fileExists: bool, resp: string): (r: AnnotationSource)
    ensures r == Manual <==> !fileExists || resp in {"Y", "y", "Yy"}
    ensures r == LoadSaved <==> fileExists && resp in {"", "N", "n", "Nn"}
    ensures r == Exit <==> fileExists && resp !in {"", "N", "n", "Nn", "Y", "y", "Yy"}
  {
    AcceptedAnswers(resp);
    if !fileExists then Manual
    else if Contains("Nn", resp) then LoadSaved
    else if Contains("Yy", resp) then Manual
    else Exit
  }

  /** The written and the intended branch agree on every answer except a
      "yes" to an existing file. */
  lemma {:induction false} AsWrittenAgreesElsewhere(fileExists: bool, resp: string)
    ensures ChooseAnnotationsAsWritten(fileExists, resp).Success? ==>
      ChooseAnnotationsAsWritten(fileExists, resp).value == ChooseAnnotations(fileExists, resp)
  {
  }

  /** Answering "y" to an existing annotation file fails. */
  lemma {:induction false} YesFailsAsWritten()
    ensures ChooseAnnotationsAsWritten(true, "y") == Failure(UnboundAnnotations)
    ensures ChooseAnnotations(true, "y") == Manual
  {
    assert !Contains("Nn", "y") by { AcceptedAnswers("y"); }
    assert "Yy"[1..2] == "y";
  }

  // ----- decimation before ICA -----

  /** The kept column indices 0, k, 2k, ... below n, in order. */
  method DecimationIndices(n: nat, k: nat) returns (r: seq<nat>)
    requires k > 0
    ensures |r| == (n + k - 1) / k
    ensures forall i :: 0 <= i < |r| ==> r[i] == i * k && r[i] < n
    ensures forall x: nat :: x in r <==> x < n && x % k == 0
  {
    r := [];
    var x := 0;
    while x < n
      invariant x == |r| * k
      invariant forall i :: 0 <= i < |r| ==> r[i] == i * k && r[i] < n
      invariant |r| == 0 || (|r| - 1) * k < n
      decreases n - x
    {
      r := r + [x];
      x := x + k;
    }
    CeilingDiv(n, k, |r|);
    MultiplesBelow(r, n, k);
  }

  /** The first m multiples of k, with the last one below n and the next one
      not, are exactly the multiples of k below n. */
  lemma {:induction false} MultiplesBelow(r: seq<nat>, n: nat, k: nat)
    requires k > 0
    requires forall i :: 0 <= i < |r| ==> r[i] == i * k
    requires |r| * k >= n && (|r| == 0 || (|r| - 1) * k < n)
    ensures forall y: nat :: y in r <==> y < n && y % k == 0
  {
    forall y: nat
      ensures y in r <==> y < n && y % k == 0
    {
      if y in r {
        var i :| 0 <= i < |r| && r[i] == y;
        MultipleMod(i, k);
        LastBelow(i, |r|, k, n);
      }
      if y < n && y % k == 0 {
        var i := y / k;
        assert i * k == y;
        BelowCount(i, |r|, k, n);
        assert r[i] == y;
      }
    }
  }

  /** `m` is the ceiling of n / k when m - 1 multiples fall short of n and m reach it. */
  lemma {:induction false} CeilingDiv(n: nat, k: nat, m: nat)
    requires k > 0 && m * k >= n && (m == 0 || (m - 1) * k < n)
    ensures (n + k - 1) / k == m
  {
    var a := n + k - 1;
    if m == 0 {
      assert n == 0;
    } else {
      assert (m - 1) * k == m * k - k;
      assert m * k <= a < m * k + k;
      DivUnique(a, k, m);
    }
  }

  lemma {:induction false} DivUnique(a: nat, k: nat, q: nat)
    requires k > 0 && q * k <= a < q * k + k
    ensures a / k == q
  {
    var d := a / k;
    assert a == d * k + a % k;
    assert (q + 1) * k == q * k + k;
    assert (d + 1) * k == d * k + k;
    MulMono(q + 1, d, k);
    MulMono(d + 1, q, k);
  }

  lemma {:induction false} MultipleMod(i: nat, k: nat)
    requires k > 0
    ensures (i * k) % k == 0
  {
    DivUnique(i * k, k, i);
  }

  lemma {:induction false} LastBelow(i: nat, m: nat, k: nat, n: nat)
    requires i < m && (m - 1) * k < n
    ensures i * k < n
  {
    MulMono(i, m - 1, k);
  }

  lemma {:induction false} BelowCount(i: nat, m: nat, k: nat, n: nat)
    requires k > 0 && i * k < n && m * k >= n
    ensures i < m
  {
    MulMono(m, i, k);
  }

  lemma {:induction false} MulMono(a: int, b: int, k: nat)
    ensures a <= b ==> a * k <= b * k
  {
    assert b * k == a * k + (b - a) * k;
  }

  /** A recording: channel-by-sample data, the sampling rate, the index of
      its first sample, and its annotations. */
  datatype Raw = Raw(data: seq<seq<real>>, sfreq: real, firstSamp: real, annotations: seq<Annotation>)

  predicate Rectangular(data: seq<seq<real>>, n: nat) {
    forall c :: 0 <= c < |data| ==> |data[c]| == n
  }

  /** The columns `idx` of every channel, in the order given. */
  function SelectColumns(data: seq<seq<real>>, idx: seq<nat>, n: nat): (d: seq<seq<real>>)
    requires Rectangular(data, n) && forall i :: 0 <= i < |idx| ==> idx[i] < n
    ensures |d| == |data| && Rectangular(d, |idx|)
    ensures forall c, i :: 0 <= c < |d| && 0 <= i < |idx| ==> d[c][i] == data[c][idx[i]]
  {
    seq(|data|, c requires 0 <= c < |data| =>
      seq(|idx|, i requires 0 <= i < |idx| => data[c][idx[i]]))
  }

  datatype DownsampleError = FactorTooSmall

  /** Every channel of `out` holds the `width` samples 0, factor, 2 * factor,
      ... of the same channel of `data`. */
  predicate SamplesKept(data: seq<seq<real>>, out: seq<seq<real>>, n: nat, factor: nat, width: nat)
    requires Rectangular(data, n)
  {
    && |out| == |data|
    && Rectangular(out, width)
    && (forall c, i :: 0 <= c < |out| && 0 <= i < |out[c]| ==> KeptAt(data, out, n, factor, c, i))
  }

  /** Sample i of channel c of `out` is sample i * factor of the same channel
      of `data`, which has one. */
  predicate KeptAt(data: seq<seq<real>>, out: seq<seq<real>>, n: nat, factor: nat, c: nat, i: nat)
    requires c < |data| && |data[c]| == n && c < |out| && i < |out[c]|
  {
    i * factor < n && out[c][i] == data[c][i * factor]
  }

  /** `out` holds every `factor`-th sample of `raw`, with the rate and the
      first-sample index divided by `factor` and the annotations kept. */
  predicate IsDecimation(raw: Raw, out: Raw, n: nat, factor: nat)
    requires factor > 0 && Rectangular(raw.data, n)
  {
    && SamplesKept(raw.data, out.data, n, factor, (n + factor - 1) / factor)
    && out.sfreq * factor as real == raw.sfreq
    && out.firstSamp * factor as real == raw.firstSamp
    && out.annotations == raw.annotations
  }

  lemma {:induction false} SelectedSamples(data: seq<seq<real>>, idx: seq<nat>, n: nat, factor: nat)
    requires Rectangular(data, n)
    requires forall i :: 0 <= i < |idx| ==> idx[i] == i * factor && idx[i] < n
    ensures SamplesKept(data, SelectColumns(data, idx, n), n, factor, |idx|)
  {
    var d := SelectColumns(data, idx, n);
    forall c, i | 0 <= c < |d| && 0 <= i < |d[c]|
      ensures KeptAt(data, d, n, factor, c, i)
    {
      assert i < |idx| && d[c][i] == data[c][idx[i]];
    }
  }

  /** Keep every k-th sample of every channel with no filtering, and divide
      the sampling rate and the first-sample index by k. */
  method Downsample(raw: Raw, n: nat, factor: int) returns (r: Result<Raw, DownsampleError>)
    requires Rectangular(raw.data, n)
    ensures r.Failure? <==> factor <= 1
    ensures r.Success? ==> factor > 1 && IsDecimation(raw, r.value, n, factor)
  {
    if factor <= 1 {
      return Failure(FactorTooSmall);
    }
    var idx := DecimationIndices(n, factor);
    var out := Raw(SelectColumns(raw.data, idx, n), raw.sfreq / factor as real, raw.firstSamp / factor as real, raw.annotations);
    SelectedSamples(raw.data, idx, n, factor);
    ScaleBack(raw.sfreq, factor as real);
    ScaleBack(raw.firstSamp, factor as real);
    return Success(out);
  }
}
