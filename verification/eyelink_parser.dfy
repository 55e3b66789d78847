/** The eye-tracker ASCII export parser: keeps `EFIX` lines as fixation records
    and `MSG <time> Trigger <value>` lines as trigger records. The file's lines
    are passed in (as `readlines()` returns them, newline included). */
module EyelinkParser {
  import opened Wrappers
  import opened Text

  datatype Fixation = Fixation(
    eyeSide: string,
    start: int,
    end: int,
    dur: int,
    xAvg: real,
    yAvg: real,
    pupil: int)

  datatype Trigger = Trigger(timeStamp: int, value: int)

  datatype EyelinkData = EyelinkData(fixations: seq<Fixation>, triggers: seq<Trigger>)

  /** Which check rejected the file. When several lines are malformed the
      first failing check below (in this order) is reported. */
  datatype ParseError =
    | FixationFieldCount   // an EFIX line does not have exactly 8 fields
    | FixationNotInteger   // start, end, dur or pupil is not an integer
    | FixationNotNumber    // x_avg or y_avg is not a number
    | MessageTooShort      // a MSG line has no third field to compare with "Trigger"
    | TriggerFieldCount    // a trigger line does not have exactly 4 fields
    | TriggerNotInteger    // time stamp or value is not an integer

  /** The whitespace-split fields of the lines that start with `prefix`,
      in file order. */
  function GetEntries(lines: seq<string>, prefix: string): (r: seq<seq<string>>)
    ensures |r| <= |lines|
  {
    if |lines| == 0 then []
    else
      var last := lines[|lines| - 1];
      GetEntries(lines[..|lines| - 1], prefix) + (if StartsWith(last, prefix) then [Split(last)] else [])
  }

  /** Every entry is the split of some line that has the prefix. */
  lemma {:induction false} GetEntriesSound(lines: seq<string>, prefix: string)
    ensures forall e :: e in GetEntries(lines, prefix) ==>
      exists line :: line in lines && StartsWith(line, prefix) && e == Split(line)
    decreases |lines|
  {
    if |lines| > 0 {
      var init := lines[..|lines| - 1];
      var last := lines[|lines| - 1];
      GetEntriesSound(init, prefix);
      forall e | e in GetEntries(lines, prefix)
        ensures exists line :: line in lines && StartsWith(line, prefix) && e == Split(line)
      {
        if e in GetEntries(init, prefix) {
          var line :| line in init && StartsWith(line, prefix) && e == Split(line);
          assert line in lines;
        } else {
          assert last in lines;
        }
      }
    }
  }

  /** Entries of a single line: its fields if it has the prefix, nothing otherwise. */
  lemma {:induction false} GetEntriesOne(line: string, prefix: string)
    ensures GetEntries([line], prefix) == if StartsWith(line, prefix) then [Split(line)] else []
  {
    assert [line][..0] == [];
  }

  /** Entries of a concatenation are the concatenation of entries: lines are
      taken in file order and independently of each other. */
  lemma {:induction false} GetEntriesAppend(a: seq<string>, b: seq<string>, prefix: string)
    ensures GetEntries(a + b, prefix) == GetEntries(a, prefix) + GetEntries(b, prefix)
    decreases |b|
  {
    if |b| == 0 {
      assert a + b == a;
    } else {
      var b' := b[..|b| - 1];
      assert (a + b)[..|a + b| - 1] == a + b';
      assert (a + b)[|a + b| - 1] == b[|b| - 1];
      GetEntriesAppend(a, b', prefix);
    }
  }

  // ----- fixations -----

  predicate FixationIntsOk(e: seq<string>)
    requires |e| == 8
  {
    ParseInt(e[2]).Some? && ParseInt(e[3]).Some? && ParseInt(e[4]).Some? && ParseInt(e[7]).Some?
  }

  predicate FixationNumbersOk(e: seq<string>)
    requires |e| == 8
  {
    ParseDecimal(e[5]).Some? && ParseDecimal(e[6]).Some?
  }

  /** The fields of an EFIX line that converts cleanly. */
  predicate WellFormedEfix(e: seq<string>) {
    |e| == 8 && FixationIntsOk(e) && FixationNumbersOk(e)
  }

  /** One row of the fixation table: the leading EFIX field is dropped, the
      remaining seven are, in order, eye, start, end, dur, x_avg, y_avg, pupil. */
  function FixationRow(e: seq<string>): Fixation
    requires WellFormedEfix(e)
  {
    Fixation(e[1], ParseInt(e[2]).value, ParseInt(e[3]).value, ParseInt(e[4]).value,
             ParseDecimal(e[5]).value, ParseDecimal(e[6]).value, ParseInt(e[7]).value)
  }

  /** Fixation `f` holds the converted fields of the EFIX entry `e`. */
  predicate FixationOf(e: seq<string>, f: Fixation) {
    && |e| == 8
    && f.eyeSide == e[1] && Some(f.start) == ParseInt(e[2])
    && Some(f.end) == ParseInt(e[3]) && Some(f.dur) == ParseInt(e[4])
    && Some(f.xAvg) == ParseDecimal(e[5]) && Some(f.yAvg) == ParseDecimal(e[6])
    && Some(f.pupil) == ParseInt(e[7])
  }

  /** Building the fixation table from EFIX entries: the table is built only
      when every entry is well formed, and then has one row per entry. */
  function ParseFixations(entries: seq<seq<string>>): (r: Result<seq<Fixation>, ParseError>)
    ensures r.Success? <==> forall k :: 0 <= k < |entries| ==> WellFormedEfix(entries[k])
    ensures r.Success? ==> |r.value| == |entries|
    ensures r.Success? ==> forall k :: 0 <= k < |entries| ==> FixationOf(entries[k], r.value[k])
  {
    if exists k :: 0 <= k < |entries| && |entries[k]| != 8 then Failure(FixationFieldCount)
    else if exists k :: 0 <= k < |entries| && !FixationIntsOk(entries[k]) then Failure(FixationNotInteger)
    else if exists k :: 0 <= k < |entries| && !FixationNumbersOk(entries[k]) then Failure(FixationNotNumber)
    else Success(seq(|entries|, k requires 0 <= k < |entries| => FixationRow(entries[k])))
  }

  // ----- triggers -----

  /** A MSG entry whose third field is literally "Trigger". */
  predicate IsTriggerMessage(m: seq<string>) {
    |m| >= 3 && m[2] == "Trigger"
  }

  /** The MSG entries whose third field is literally "Trigger"; the others are
      ignored. The parser applies it only once every entry has three fields. */
  function TriggerMessages(msgs: seq<seq<string>>): (r: seq<seq<string>>)
    ensures |r| <= |msgs|
    ensures forall k :: 0 <= k < |r| ==> |r[k]| >= 3 && r[k][2] == "Trigger" && r[k] in msgs
  {
    if |msgs| == 0 then []
    else
      var rest := TriggerMessages(msgs[1..]);
      (if IsTriggerMessage(msgs[0]) then [msgs[0]] else []) + rest
  }

  predicate WellFormedTrigger(e: seq<string>) {
    |e| == 4 && ParseInt(e[1]).Some? && ParseInt(e[3]).Some?
  }

  /** Trigger `t` holds the time stamp and value of the trigger message `m`. */
  predicate TriggerOf(m: seq<string>, t: Trigger) {
    |m| == 4 && Some(t.timeStamp) == ParseInt(m[1]) && Some(t.value) == ParseInt(m[3])
  }

  /** Building the trigger table from MSG entries. */
  function ParseTriggers(msgs: seq<seq<string>>): (r: Result<seq<Trigger>, ParseError>)
    ensures r.Success? <==>
      && (forall k :: 0 <= k < |msgs| ==> |msgs[k]| >= 3)
      && (forall k :: 0 <= k < |msgs| ==> msgs[k][2] == "Trigger" ==> WellFormedTrigger(msgs[k]))
    ensures r.Success? ==> |r.value| == |TriggerMessages(msgs)|
    ensures r.Success? ==> forall k :: 0 <= k < |r.value| ==> TriggerOf(TriggerMessages(msgs)[k], r.value[k])
  {
    if exists k :: 0 <= k < |msgs| && |msgs[k]| < 3 then Failure(MessageTooShort)
    else
      var t := TriggerMessages(msgs);
      TriggerMessagesComplete(msgs);
      if exists k :: 0 <= k < |t| && |t[k]| != 4 then Failure(TriggerFieldCount)
      else if exists k :: 0 <= k < |t| && !WellFormedTrigger(t[k]) then Failure(TriggerNotInteger)
      else Success(seq(|t|, k requires 0 <= k < |t| =>
                         Trigger(ParseInt(t[k][1]).value, ParseInt(t[k][3]).value)))
  }

  /** Every "Trigger" message is kept. */
  lemma {:induction false} TriggerMessagesComplete(msgs: seq<seq<string>>)
    ensures forall k :: 0 <= k < |msgs| && IsTriggerMessage(msgs[k]) ==> msgs[k] in TriggerMessages(msgs)
    decreases |msgs|
  {
    if |msgs| > 0 {
      TriggerMessagesComplete(msgs[1..]);
      forall k | 0 <= k < |msgs| && IsTriggerMessage(msgs[k])
        ensures msgs[k] in TriggerMessages(msgs)
      {
        if k > 0 {
          assert msgs[k] == msgs[1..][k - 1];
        }
      }
    }
  }

  /** The filter keeps order and multiplicity: it distributes over
      concatenation, and a single message is kept exactly when it is a trigger. */
  lemma {:induction false} TriggerMessagesAppend(a: seq<seq<string>>, b: seq<seq<string>>)
    ensures TriggerMessages(a + b) == TriggerMessages(a) + TriggerMessages(b)
    decreases |a|
  {
    if |a| == 0 {
      assert a + b == b;
    } else {
      var ab := a + b;
      assert ab[0] == a[0] && ab[1..] == a[1..] + b;
      var head := if IsTriggerMessage(a[0]) then [a[0]] else [];
      calc {
        TriggerMessages(ab);
        head + TriggerMessages(a[1..] + b);
        { TriggerMessagesAppend(a[1..], b); }
        head + (TriggerMessages(a[1..]) + TriggerMessages(b));
        (head + TriggerMessages(a[1..])) + TriggerMessages(b);
        TriggerMessages(a) + TriggerMessages(b);
      }
    }
  }

  lemma {:induction false} TriggerMessagesOne(m: seq<string>)
    ensures TriggerMessages([m]) == if IsTriggerMessage(m) then [m] else []
  {
    assert [m][1..] == [];
  }

  /** The whole export: fixations from EFIX lines, then triggers from MSG lines. */
  function ParseEyelink(lines: seq<string>): (r: Result<EyelinkData, ParseError>)
    ensures r.Success? <==>
      ParseFixations(GetEntries(lines, "EFIX")).Success? && ParseTriggers(GetEntries(lines, "MSG")).Success?
    ensures r.Success? ==>
      var efix := GetEntries(lines, "EFIX");
      && |r.value.fixations| == |efix|
      && forall k :: 0 <= k < |efix| ==> FixationOf(efix[k], r.value.fixations[k])
    ensures r.Success? ==>
      var msgs := GetEntries(lines, "MSG");
      && (forall k :: 0 <= k < |msgs| ==> |msgs[k]| >= 3)
      && |r.value.triggers| == |TriggerMessages(msgs)|
      && forall k :: 0 <= k < |r.value.triggers| ==> TriggerOf(TriggerMessages(msgs)[k], r.value.triggers[k])
  {
    var fixations :- ParseFixations(GetEntries(lines, "EFIX"));
    var triggers :- ParseTriggers(GetEntries(lines, "MSG"));
    Success(EyelinkData(fixations, triggers))
  }

  // ----- round trips with the recording side -----

  /** The message the presentation script sends for a trigger, `'Trigger %d'`. */
  function TriggerMessage(value: int): string {
    "Trigger " + IntToString(value)
  }

  /** How the eye-tracker records a message in its ASCII export. */
  function RecordedMessage(time: int, message: string): string {
    "MSG\t" + IntToString(time) + " " + message + "\n"
  }

  /** A trigger sent as `'Trigger %d'` and recorded at time t parses back to (t, v). */
  lemma {:induction false} TriggerLineFields(time: int, value: int)
    ensures Split(RecordedMessage(time, TriggerMessage(value))) ==
      ["MSG", IntToString(time), "Trigger", IntToString(value)]
  {
    var rest := [IntToString(time), "Trigger", IntToString(value)];
    assert RecordedMessage(time, TriggerMessage(value)) == "MSG" + "\t" + (Join(rest, " ") + "\n") by {
      JoinThree(IntToString(time), "Trigger", IntToString(value), " ");
    }
    LiteralTokens();
    SplitHeaderLine("MSG", "\t", rest, " ", "\n");
  }

  /** A header token, a separator, then joined tokens and trailing whitespace. */
  lemma {:induction false} SplitHeaderLine(h: string, tsep: string, rest: seq<string>, sep: string, eol: string)
    requires IsToken(h) && IsSeparator(tsep) && IsSeparator(sep) && AllSpace(eol)
    requires forall k :: 0 <= k < |rest| ==> IsToken(rest[k])
    ensures Split(h + tsep + (Join(rest, sep) + eol)) == [h] + rest
  {
    SplitTokenSep(h, tsep, Join(rest, sep) + eol);
    SplitJoinTrailing(rest, sep, eol);
  }

  lemma {:induction false} JoinThree(a: string, b: string, c: string, sep: string)
    ensures Join([a, b, c], sep) == a + sep + (b + sep + c)
  {
    assert [a, b, c][1..] == [b, c];
    assert [b, c][1..] == [c];
    assert Join([c], sep) == c;
    assert Join([b, c], sep) == b + sep + c;
  }

  /** The fixed words and separators of the export are tokens and whitespace. */
  lemma {:induction false} LiteralTokens()
    ensures IsToken("MSG") && IsToken("EFIX") && IsToken("Trigger")
    ensures IsSeparator("\t") && IsSeparator(" ") && AllSpace("\n")
  {
    assert !IsSpace('M') && !IsSpace('S') && !IsSpace('G');
    assert !IsSpace('E') && !IsSpace('F') && !IsSpace('I') && !IsSpace('X');
    assert !IsSpace('T') && !IsSpace('r') && !IsSpace('i') && !IsSpace('g') && !IsSpace('e');
  }

  /** The file recorded for a sequence of triggers, one message line each. */
  function RecordTriggers(ts: seq<Trigger>): (lines: seq<string>)
    ensures |lines| == |ts|
  {
    if |ts| == 0 then []
    else RecordTriggers(ts[..|ts| - 1])
         + [RecordedMessage(ts[|ts| - 1].timeStamp, TriggerMessage(ts[|ts| - 1].value))]
  }

  /** The fields of the line recorded for one trigger. */
  function TriggerFields(t: Trigger): seq<string> {
    ["MSG", IntToString(t.timeStamp), "Trigger", IntToString(t.value)]
  }

  lemma {:induction false} RecordedLinePrefix(time: int, message: string)
    ensures StartsWith(RecordedMessage(time, message), "MSG")
    ensures !StartsWith(RecordedMessage(time, message), "EFIX")
  {
    var line := RecordedMessage(time, message);
    assert line[..3] == "MSG";
    assert line[0] == 'M';
  }

  /** The fields of the lines recorded for a sequence of triggers. */
  function AllTriggerFields(ts: seq<Trigger>): (r: seq<seq<string>>)
    ensures |r| == |ts|
    ensures forall k :: 0 <= k < |ts| ==> r[k] == TriggerFields(ts[k])
  {
    if |ts| == 0 then [] else AllTriggerFields(ts[..|ts| - 1]) + [TriggerFields(ts[|ts| - 1])]
  }

  /** Entries of a recorded trigger file: no EFIX lines, and the fields of
      one trigger message per trigger, in order. */
  lemma {:induction false} RecordedEntries(ts: seq<Trigger>)
    ensures GetEntries(RecordTriggers(ts), "EFIX") == []
    ensures GetEntries(RecordTriggers(ts), "MSG") == AllTriggerFields(ts)
    decreases |ts|
  {
    if |ts| > 0 {
      var init := ts[..|ts| - 1];
      var t := ts[|ts| - 1];
      var line := RecordedMessage(t.timeStamp, TriggerMessage(t.value));
      assert RecordTriggers(ts) == RecordTriggers(init) + [line];
      RecordedEntries(init);
      RecordedLinePrefix(t.timeStamp, TriggerMessage(t.value));
      GetEntriesAppend(RecordTriggers(init), [line], "EFIX");
      GetEntriesOne(line, "EFIX");
      GetEntriesAppend(RecordTriggers(init), [line], "MSG");
      GetEntriesOne(line, "MSG");
      TriggerLineFields(t.timeStamp, t.value);
    }
  }

  /** When every MSG entry is a well-formed trigger line, the table has one
      row per entry, in order. */
  lemma {:induction false} ParseWellFormedTriggers(msgs: seq<seq<string>>)
    requires forall k :: 0 <= k < |msgs| ==> WellFormedTrigger(msgs[k]) && msgs[k][2] == "Trigger"
    ensures ParseTriggers(msgs).Success?
    ensures |ParseTriggers(msgs).value| == |msgs|
    ensures forall k :: 0 <= k < |msgs| ==>
      Some(ParseTriggers(msgs).value[k].timeStamp) == ParseInt(msgs[k][1])
      && Some(ParseTriggers(msgs).value[k].value) == ParseInt(msgs[k][3])
  {
    AllTriggersKept(msgs);
  }

  /** The trigger table built from recorded trigger messages holds exactly
      the recorded triggers. */
  lemma {:induction false} ParseRecordedTriggers(msgs: seq<seq<string>>, ts: seq<Trigger>)
    requires |msgs| == |ts|
    requires forall k :: 0 <= k < |ts| ==> msgs[k] == TriggerFields(ts[k])
    ensures ParseTriggers(msgs) == Success(ts)
  {
    forall k | 0 <= k < |ts|
      ensures WellFormedTrigger(msgs[k]) && msgs[k][2] == "Trigger"
      ensures ParseInt(msgs[k][1]) == Some(ts[k].timeStamp) && ParseInt(msgs[k][3]) == Some(ts[k].value)
    {
      IntRoundTrip(ts[k].timeStamp);
      IntRoundTrip(ts[k].value);
    }
    ParseWellFormedTriggers(msgs);
    var r := ParseTriggers(msgs).value;
    assert |r| == |ts|;
    forall k | 0 <= k < |ts|
      ensures r[k] == ts[k]
    {
      assert Some(r[k].timeStamp) == ParseInt(msgs[k][1]) == Some(ts[k].timeStamp);
      assert Some(r[k].value) == ParseInt(msgs[k][3]) == Some(ts[k].value);
    }
    assert r == ts;
  }

  /** Round trip: triggers sent as `'Trigger %d'` and recorded as
      `MSG <t> Trigger <v>` lines parse back to exactly the same triggers. */
  lemma {:induction false} TriggerRoundTrip(ts: seq<Trigger>)
    ensures ParseEyelink(RecordTriggers(ts)) == Success(EyelinkData([], ts))
  {
    RecordedEntries(ts);
    ParseRecordedTriggers(AllTriggerFields(ts), ts);
    assert ParseFixations([]) == Success([]);
  }

  lemma {:induction false} KeptHead(msgs: seq<seq<string>>)
    requires |msgs| > 0 && forall k :: 0 <= k < |msgs| ==> |msgs[k]| >= 3
    requires msgs[0][2] == "Trigger"
    ensures TriggerMessages(msgs) == [msgs[0]] + TriggerMessages(msgs[1..])
  {
  }

  lemma {:induction false} AllTriggersKept(msgs: seq<seq<string>>)
    requires forall k :: 0 <= k < |msgs| ==> |msgs[k]| >= 3 && msgs[k][2] == "Trigger"
    ensures TriggerMessages(msgs) == msgs
    decreases |msgs|
  {
    if |msgs| > 0 {
      var tail := msgs[1..];
      AllTriggersKept(tail);
      KeptHead(msgs);
      assert msgs == [msgs[0]] + tail;
    }
  }

  /** The EFIX line the eye-tracker writes for a fixation whose average gaze
      position is a whole number of pixels (written with one decimal place). */
  function EfixLine(eye: string, start: int, end: int, dur: int, x: int, y: int, pupil: int): string {
    Join(["EFIX", eye, IntToString(start), IntToString(end), IntToString(dur),
          IntToString(x) + ".0", IntToString(y) + ".0", IntToString(pupil)], "\t") + "\n"
  }

  /** A single well-formed EFIX entry becomes a single fixation row. */
  lemma {:induction false} ParseOneFixation(fields: seq<string>, f: Fixation)
    requires |fields| == 8 && fields[1] == f.eyeSide
    requires ParseInt(fields[2]) == Some(f.start) && ParseInt(fields[3]) == Some(f.end)
    requires ParseInt(fields[4]) == Some(f.dur) && ParseInt(fields[7]) == Some(f.pupil)
    requires ParseDecimal(fields[5]) == Some(f.xAvg) && ParseDecimal(fields[6]) == Some(f.yAvg)
    ensures ParseFixations([fields]) == Success([f])
  {
    assert WellFormedEfix([fields][0]);
    var r := ParseFixations([fields]).value;
    assert |r| == 1;
    assert r[0] == f;
    assert r == [f];
  }

  /** A line that begins with the given first field. */
  lemma {:induction false} LineStartsWithField(ts: seq<string>, eol: string)
    requires |ts| > 1
    ensures StartsWith(Join(ts, "\t") + eol, ts[0])
  {
    assert Join(ts, "\t") + eol == ts[0] + ("\t" + Join(ts[1..], "\t") + eol);
  }

  /** The entries of a line written as tab-separated EFIX fields. */
  lemma {:induction false} EfixEntries(ts: seq<string>)
    requires |ts| > 1 && ts[0] == "EFIX"
    requires forall k :: 0 <= k < |ts| ==> IsToken(ts[k])
    ensures GetEntries([Join(ts, "\t") + "\n"], "EFIX") == [ts]
    ensures GetEntries([Join(ts, "\t") + "\n"], "MSG") == []
  {
    var line := Join(ts, "\t") + "\n";
    SplitJoinTrailing(ts, "\t", "\n");
    LineStartsWithField(ts, "\n");
    assert line[0] == 'E';
    GetEntriesOne(line, "EFIX");
    GetEntriesOne(line, "MSG");
  }

  /** The fields and prefix of a recorded EFIX line. */
  lemma {:induction false} EfixLineFields(eye: string, start: int, end: int, dur: int, x: int, y: int, pupil: int)
    requires IsToken(eye)
    ensures GetEntries([EfixLine(eye, start, end, dur, x, y, pupil)], "EFIX") ==
      [["EFIX", eye, IntToString(start), IntToString(end), IntToString(dur),
        IntToString(x) + ".0", IntToString(y) + ".0", IntToString(pupil)]]
    ensures GetEntries([EfixLine(eye, start, end, dur, x, y, pupil)], "MSG") == []
  {
    var fields := ["EFIX", eye, IntToString(start), IntToString(end), IntToString(dur),
                   IntToString(x) + ".0", IntToString(y) + ".0", IntToString(pupil)];
    DecimalIsToken(x);
    DecimalIsToken(y);
    LiteralTokens();
    EightTokens("EFIX", eye, IntToString(start), IntToString(end), IntToString(dur),
                IntToString(x) + ".0", IntToString(y) + ".0", IntToString(pupil));
    EfixEntries(fields);
  }

  lemma {:induction false} EightTokens(a: string, b: string, c: string, d: string, e: string, f: string, g: string, h: string)
    requires IsToken(a) && IsToken(b) && IsToken(c) && IsToken(d)
    requires IsToken(e) && IsToken(f) && IsToken(g) && IsToken(h)
    ensures forall k :: 0 <= k < 8 ==> IsToken([a, b, c, d, e, f, g, h][k])
  {
  }

  /** Round trip: a recorded EFIX line parses back to the fixation it describes. */
  lemma {:induction false} FixationRoundTrip(eye: string, start: int, end: int, dur: int, x: int, y: int, pupil: int)
    requires IsToken(eye)
    ensures ParseEyelink([EfixLine(eye, start, end, dur, x, y, pupil)])
      == Success(EyelinkData([Fixation(eye, start, end, dur, x as real, y as real, pupil)], []))
  {
    var fields := ["EFIX", eye, IntToString(start), IntToString(end), IntToString(dur),
                   IntToString(x) + ".0", IntToString(y) + ".0", IntToString(pupil)];
    EfixLineFields(eye, start, end, dur, x, y, pupil);
    IntRoundTrip(start);
    IntRoundTrip(end);
    IntRoundTrip(dur);
    IntRoundTrip(pupil);
    WholeDecimalRoundTrip(x);
    WholeDecimalRoundTrip(y);
    ParseOneFixation(fields, Fixation(eye, start, end, dur, x as real, y as real, pupil));
    assert ParseTriggers([]) == Success([]);
  }

  lemma {:induction false} DecimalIsToken(n: int)
    ensures IsToken(IntToString(n) + ".0")
  {
    var s := IntToString(n) + ".0";
    assert forall i :: |IntToString(n)| <= i < |s| ==> s[i] == '.' || s[i] == '0';
  }
}
