/**
 * The maintenance monitor: tasks stored one per line in a comma-separated
 * file, the reader that turns the file back into tasks, the fire-once
 * threshold check, and the validation of the two input dialogs.
 */
module Maintenance {
  import opened Wrappers
  import opened Text

  /** A reminder due `offsetKm` kilometres after the odometer reading at which it was created. */
  datatype MaintenanceTask = MaintenanceTask(offsetKm: int, message: string, odometerAtCreation: real)

  // ---------- The file format ----------

  /** The line `appendMaintenanceTask` writes: `offset,message,odometer` and a line feed. */
  function FormatLine(offsetKm: int, message: string, odometer: Decimal): (line: string)
    requires odometer.Valid()
    ensures |line| >= 1 && line[|line| - 1] == '\n'
  {
    FormatInt(offsetKm) + "," + message + "," + odometer.Render() + "\n"
  }

  /**
   * One line of the file as `loadMaintenanceTasks` reads it: two fields give
   * a task created at odometer 0, three fields need a number in the third;
   * the offset must be an Int and the trimmed message non-empty.
   */
  function ParseLine(line: string): (r: Option<MaintenanceTask>)
    ensures r.Some? ==> InInt32(r.value.offsetKm) && r.value.message != []
    ensures r.Some? ==> |Split(line, ',')| == 2 || |Split(line, ',')| == 3
    ensures r.Some? && |Split(line, ',')| == 2 ==> r.value.odometerAtCreation == 0.0
    ensures r.Some? ==> (ParseInt(Split(line, ',')[0]) == Some(r.value.offsetKm)
      && r.value.message == Trim(Split(line, ',')[1]))
    ensures r.Some? && |Split(line, ',')| == 3 ==> ParseFloat(Split(line, ',')[2]) == Some(r.value.odometerAtCreation)
    ensures ParseInt(Split(line, ',')[0]).None? ==> r.None?
    ensures |Split(line, ',')| == 3 && ParseFloat(Split(line, ',')[2]).None? ==> r.None?
    ensures (|Split(line, ',')| == 2 || |Split(line, ',')| == 3) && ParseInt(Split(line, ',')[0]).Some?
      && Trim(Split(line, ',')[1]) != [] && (|Split(line, ',')| == 3 ==> ParseFloat(Split(line, ',')[2]).Some?)
      ==> r.Some?
  {
    var parts := Split(line, ',');
    if |parts| == 2 then
      var offset := ParseInt(parts[0]);
      var message := Trim(parts[1]);
      if offset.Some? && message != [] then Some(MaintenanceTask(offset.value, message, 0.0))
      else None
    else if |parts| == 3 then
      var offset := ParseInt(parts[0]);
      var message := Trim(parts[1]);
      var odometer := ParseFloat(parts[2]);
      if offset.Some? && message != [] && odometer.Some? then
        Some(MaintenanceTask(offset.value, message, odometer.value))
      else None
    else None
  }

  /** The tasks of the lines that parse, in file order (`mapNotNull`). */
  function ParseLines(lines: seq<string>): (tasks: seq<MaintenanceTask>)
    ensures |tasks| <= |lines|
    ensures forall k | 0 <= k < |tasks| :: InInt32(tasks[k].offsetKm) && tasks[k].message != []
  {
    if lines == [] then []
    else
      var rest := ParseLines(lines[1..]);
      match ParseLine(lines[0])
      case Some(t) =>
        ReadableCons(t, rest);
        [t] + rest
      case None => rest
  }

  /** A readable task in front of readable tasks keeps them all readable. */
  lemma ReadableCons(t: MaintenanceTask, rest: seq<MaintenanceTask>)
    requires InInt32(t.offsetKm) && t.message != []
    requires forall k | 0 <= k < |rest| :: InInt32(rest[k].offsetKm) && rest[k].message != []
    ensures forall k | 0 <= k < |[t] + rest| :: InInt32(([t] + rest)[k].offsetKm) && ([t] + rest)[k].message != []
  {
  }

  /** The tasks of a whole file: at most one per line, each with a 32-bit offset and a message. */
  function ParseFile(content: string): (tasks: seq<MaintenanceTask>)
    ensures |tasks| <= |Lines(content)|
    ensures forall k | 0 <= k < |tasks| :: InInt32(tasks[k].offsetKm) && tasks[k].message != []
  {
    ParseLines(Lines(content))
  }

  lemma {:induction false} ParseLinesAppend(x: seq<string>, y: seq<string>)
    ensures ParseLines(x + y) == ParseLines(x) + ParseLines(y)
  {
    if x == [] {
      assert x + y == y;
    } else {
      assert (x + y)[0] == x[0];
      assert (x + y)[1..] == x[1..] + y;
      ParseLinesAppend(x[1..], y);
      match ParseLine(x[0])
      case Some(t) => ConcatAssoc([t], ParseLines(x[1..]), ParseLines(y));
      case None =>
    }
  }

  /** A message the reader gives back unchanged: non-empty, trimmed, one field, one line. */
  predicate Storable(message: string) {
    message != [] && Trim(message) == message && ',' !in message && NoLineBreak(message)
  }

  lemma FieldsOfLine(offsetKm: int, message: string, odometer: Decimal)
    requires odometer.Valid() && NoLineBreak(message)
    ensures NoLineBreak(FormatInt(offsetKm) + "," + message + "," + odometer.Render())
    ensures Split(FormatInt(offsetKm) + "," + message + "," + odometer.Render(), ',')
         == [FormatInt(offsetKm)] + Split(message, ',') + [odometer.Render()]
  {
    var f, r := FormatInt(offsetKm), odometer.Render();
    assert ',' !in f && ',' !in r;
    assert NoLineBreak(f) && NoLineBreak(r) && NoLineBreak(",");
    NoLineBreakConcat(f, ",");
    NoLineBreakConcat(f + ",", message);
    NoLineBreakConcat(f + "," + message, ",");
    NoLineBreakConcat(f + "," + message + ",", r);
    SplitConcat(f, message + "," + r, ',');
    SplitConcat(message, r, ',');
    ConcatAssoc(f + ",", message, ",");
    ConcatAssoc(f + ",", message + ",", r);
    ConcatAssoc(f, ",", message + "," + r);
    ConcatAssoc([f], Split(message, ','), [r]);
  }

  /** A file of one terminated line holds the task of that line, if it has one. */
  lemma ParseOneLine(line: string)
    requires NoLineBreak(line)
    ensures ParseFile(line + "\n") == (if ParseLine(line).Some? then [ParseLine(line).value] else [])
  {
    OneLine(line);
    assert [line][1..] == [];
  }

  /** A file of one line without a line feed reads like that line terminated. */
  lemma ParseUnterminatedLine(line: string)
    requires line != [] && NoLineBreak(line)
    ensures ParseFile(line) == (if ParseLine(line).Some? then [ParseLine(line).value] else [])
  {
    UnterminatedLine(line);
    assert [line][1..] == [];
  }

  /** The fields of a written line: the offset, the message's own pieces and the odometer. */
  lemma WrittenFields(offsetKm: int, message: string, odometer: Decimal) returns (body: string)
    requires odometer.Valid() && NoLineBreak(message)
    ensures body == FormatInt(offsetKm) + "," + message + "," + odometer.Render()
    ensures FormatLine(offsetKm, message, odometer) == body + "\n"
    ensures NoLineBreak(body)
    ensures Split(body, ',') == [FormatInt(offsetKm)] + Split(message, ',') + [odometer.Render()]
  {
    body := FormatInt(offsetKm) + "," + message + "," + odometer.Render();
    FieldsOfLine(offsetKm, message, odometer);
  }

  /** A line written for a storable message reads back as the same task. */
  lemma LineRoundTrip(offsetKm: int, message: string, odometer: Decimal)
    requires InInt32(offsetKm) && Storable(message) && odometer.Valid()
    ensures ParseFile(FormatLine(offsetKm, message, odometer))
         == [MaintenanceTask(offsetKm, message, odometer.Value())]
  {
    var body := WrittenFields(offsetKm, message, odometer);
    var f, r := FormatInt(offsetKm), odometer.Render();
    assert Split(message, ',') == [message];
    assert Split(body, ',') == [f, message, r];
    IntRoundTrip(offsetKm);
    DecimalRoundTrip(odometer);
    ThreeFieldsRead(body, f, message, r, offsetKm, odometer.Value());
    ParseOneLine(body);
  }

  /** A line of an Int, a message with no blanks around it and a number reads as that task. */
  lemma ThreeFieldsRead(line: string, f: string, message: string, r: string, offsetKm: int, odometer: real)
    requires Split(line, ',') == [f, message, r]
    requires ParseInt(f) == Some(offsetKm) && message != [] && Trim(message) == message
    requires ParseFloat(r) == Some(odometer)
    ensures ParseLine(line) == Some(MaintenanceTask(offsetKm, message, odometer))
  {
  }

  /** A line written for an empty message, or one with a comma, is dropped by the reader. */
  lemma LineDropped(offsetKm: int, message: string, odometer: Decimal)
    requires odometer.Valid() && NoLineBreak(message)
    requires Trim(message) == [] || ',' in message
    ensures ParseFile(FormatLine(offsetKm, message, odometer)) == []
  {
    var body := WrittenFields(offsetKm, message, odometer);
    BodyUnread(FormatInt(offsetKm), message, odometer.Render(), body);
    ParseOneLine(body);
  }

  lemma BodyUnread(f: string, message: string, r: string, body: string)
    requires Trim(message) == [] || ',' in message
    requires Split(body, ',') == [f] + Split(message, ',') + [r]
    ensures ParseLine(body) == None
  {
    if ',' in message {
      MessageWithComma(message);
      ManyFieldsUnread(body);
    } else {
      NoCommaFields(f, message, r, body);
      BlankMessageUnread(body);
    }
  }

  lemma NoCommaFields(f: string, message: string, r: string, body: string)
    requires ',' !in message
    requires Split(body, ',') == [f] + Split(message, ',') + [r]
    ensures Split(body, ',') == [f, message, r]
  {
    assert Split(message, ',') == [message];
  }

  lemma MessageWithComma(message: string)
    requires ',' in message
    ensures |Split(message, ',')| >= 2
  {
  }

  lemma ManyFieldsUnread(line: string)
    requires |Split(line, ',')| >= 4
    ensures ParseLine(line) == None
  {
  }

  lemma BlankMessageUnread(line: string)
    requires |Split(line, ',')| == 3 && Trim(Split(line, ',')[1]) == []
    ensures ParseLine(line) == None
  {
  }

  /** Appending to a file that ends with a line feed adds exactly the written task. */
  lemma AppendRoundTrip(content: string, offsetKm: int, message: string, odometer: Decimal)
    requires Terminated(content) && InInt32(offsetKm) && Storable(message) && odometer.Valid()
    ensures ParseFile(content + FormatLine(offsetKm, message, odometer))
         == ParseFile(content) + [MaintenanceTask(offsetKm, message, odometer.Value())]
  {
    LinesAppend(content, FormatLine(offsetKm, message, odometer));
    ParseLinesAppend(Lines(content), Lines(FormatLine(offsetKm, message, odometer)));
    LineRoundTrip(offsetKm, message, odometer);
  }

  /** Appending an empty or comma-holding message to such a file adds nothing. */
  lemma AppendDropped(content: string, offsetKm: int, message: string, odometer: Decimal)
    requires Terminated(content) && odometer.Valid() && NoLineBreak(message)
    requires Trim(message) == [] || ',' in message
    ensures ParseFile(content + FormatLine(offsetKm, message, odometer)) == ParseFile(content)
  {
    LinesAppend(content, FormatLine(offsetKm, message, odometer));
    ParseLinesAppend(Lines(content), Lines(FormatLine(offsetKm, message, odometer)));
    LineDropped(offsetKm, message, odometer);
  }

  /** What appending one written line does to the file and to what it reads as. */
  lemma AppendEffect(content: string, offsetKm: int, message: string, odometer: Decimal)
    requires odometer.Valid()
    ensures Terminated(content + FormatLine(offsetKm, message, odometer))
    ensures Terminated(content) && InInt32(offsetKm) && Storable(message) ==>
              ParseFile(content + FormatLine(offsetKm, message, odometer))
              == ParseFile(content) + [MaintenanceTask(offsetKm, message, odometer.Value())]
    ensures Terminated(content) && NoLineBreak(message) && (Trim(message) == [] || ',' in message) ==>
              ParseFile(content + FormatLine(offsetKm, message, odometer)) == ParseFile(content)
  {
    if Terminated(content) && InInt32(offsetKm) && Storable(message) {
      AppendRoundTrip(content, offsetKm, message, odometer);
    }
    if Terminated(content) && NoLineBreak(message) && (Trim(message) == [] || ',' in message) {
      AppendDropped(content, offsetKm, message, odometer);
    }
  }

  // ---------- The default file ----------

  /** A line of the default file: an offset and a message, without an odometer field. */
  function ShortLine(offsetKm: int, message: string): string
  {
    FormatInt(offsetKm) + "," + message
  }

  /** The six lines `ensureMaintenanceFile` writes, in file order. */
  const DefaultLines: seq<string> := [
    ShortLine(1000, "Check radiator water"),
    ShortLine(1000, "Check engine oil"),
    ShortLine(2000, "Clean air conditioner filter"),
    ShortLine(5000, "Replace engine oil"),
    ShortLine(10000, "Replace air filter"),
    ShortLine(20000, "Replace spark plugs")]

  /** Lines each followed by a line feed. */
  function Terminate(lines: seq<string>): (s: string)
    ensures Terminated(s)
  {
    if lines == [] then [] else lines[0] + "\n" + Terminate(lines[1..])
  }

  /** `ensureMaintenanceFile` as written: `trimIndent()` puts no line feed after the last line. */
  const DefaultContentAsWritten: string := Join(DefaultLines, '\n')

  /** The default file with its last line terminated, as the appender expects. */
  const DefaultContent: string := Terminate(DefaultLines)

  /** The first five default lines, each terminated: the part both versions share. */
  const DefaultHead: string := Terminate(DefaultLines[..5])

  /** Reading a terminated text followed by more text reads the two parts one after the other. */
  lemma ParseFileAppend(a: string, b: string)
    requires Terminated(a)
    ensures ParseFile(a + b) == ParseFile(a) + ParseFile(b)
  {
    LinesAppend(a, b);
    ParseLinesAppend(Lines(a), Lines(b));
  }

  /** Joining with line feeds terminates every line but the last. */
  lemma {:induction false} JoinLines(lines: seq<string>)
    requires |lines| >= 1
    ensures Join(lines, '\n') == Terminate(lines[..|lines| - 1]) + lines[|lines| - 1]
  {
    if |lines| > 1 {
      var n := |lines|;
      JoinLines(lines[1..]);
      assert lines[1..][..n - 2] == lines[..n - 1][1..];
      var t := Terminate(lines[..n - 1][1..]);
      ConcatAssoc(lines[0] + "\n", t, lines[n - 1]);
      assert lines[0] + ['\n'] == lines[0] + "\n";
    } else {
      assert lines[..0] == [];
    }
  }

  /** The two versions of the default file: the shared head, then the last line with or without its line feed. */
  lemma DefaultContentShape()
    ensures DefaultContentAsWritten == DefaultHead + DefaultLines[5]
    ensures DefaultContent == DefaultHead + (DefaultLines[5] + "\n")
  {
    JoinLines(DefaultLines);
    TerminateLast(DefaultLines);
  }

  /** Terminating lines terminates all but the last, then the last. */
  lemma {:induction false} TerminateLast(lines: seq<string>)
    requires |lines| >= 1
    ensures Terminate(lines) == Terminate(lines[..|lines| - 1]) + (lines[|lines| - 1] + "\n")
  {
    var n := |lines|;
    if n > 1 {
      TerminateLast(lines[1..]);
      assert lines[1..][..n - 2] == lines[..n - 1][1..];
      var t := Terminate(lines[..n - 1][1..]);
      ConcatAssoc(lines[0] + "\n", t, lines[n - 1] + "\n");
    } else {
      assert lines[..0] == [];
      assert lines[1..] == [];
    }
  }

  /** A text with a first and last character that are not blanks, without commas or line breaks. */
  lemma StorableText(message: string)
    requires message != [] && !IsWhitespace(message[0]) && !IsWhitespace(message[|message| - 1])
    requires ',' !in message && '\n' !in message && '\r' !in message
    ensures Storable(message)
  {
    TrimOfTrimmed(message, IsWhitespace);
    NoLineBreakOf(message);
  }

  /** A short line of a storable message reads back as that task at odometer 0. */
  lemma ShortLineReads(offsetKm: int, message: string)
    requires InInt32(offsetKm) && Storable(message)
    ensures NoLineBreak(ShortLine(offsetKm, message))
    ensures ParseLine(ShortLine(offsetKm, message)) == Some(MaintenanceTask(offsetKm, message, 0.0))
  {
    var f := FormatInt(offsetKm);
    ShortLineFields(offsetKm, message);
    IntRoundTrip(offsetKm);
    TwoFieldsRead(ShortLine(offsetKm, message), f, message, offsetKm);
  }

  /** A short line has no line break and splits into the printed offset and the message. */
  lemma ShortLineFields(offsetKm: int, message: string)
    requires Storable(message)
    ensures NoLineBreak(ShortLine(offsetKm, message))
    ensures Split(ShortLine(offsetKm, message), ',') == [FormatInt(offsetKm), message]
  {
    var f := FormatInt(offsetKm);
    FormatIntPlain(offsetKm);
    assert NoLineBreak(",");
    NoLineBreakConcat(f, ",");
    NoLineBreakConcat(f + ",", message);
    assert f + "," + message == f + [','] + message;
    SplitAfterPiece(f, message, ',');
    assert Split(message, ',') == [message];
  }

  /** A line of an Int and a message with no blanks around it reads as a task at odometer 0. */
  lemma TwoFieldsRead(line: string, f: string, message: string, offsetKm: int)
    requires Split(line, ',') == [f, message]
    requires ParseInt(f) == Some(offsetKm) && message != [] && Trim(message) == message
    ensures ParseLine(line) == Some(MaintenanceTask(offsetKm, message, 0.0))
  {
  }

  /** The last default line reads as the spark-plug task created at odometer 0. */
  lemma SparkPlugLine(last: string)
    requires last == DefaultLines[5]
    ensures NoLineBreak(last) && last != []
    ensures ParseLine(last) == Some(MaintenanceTask(20000, "Replace spark plugs", 0.0))
  {
    SparkPlugStorable();
    ShortLineReads(20000, "Replace spark plugs");
  }

  lemma SparkPlugStorable()
    ensures Storable("Replace spark plugs")
  {
    StorableText("Replace spark plugs");
  }

  /**
   * Read on its own, the default file as written holds the first five lines'
   * tasks and then "Replace spark plugs": the missing line feed does not
   * matter until something is appended.
   */
  lemma DefaultContentAsWrittenReads()
    ensures ParseFile(DefaultContentAsWritten)
         == ParseFile(DefaultHead) + [MaintenanceTask(20000, "Replace spark plugs", 0.0)]
  {
    DefaultContentShape();
    var last := DefaultLines[5];
    SparkPlugLine(last);
    ParseFileAppend(DefaultHead, last);
    ParseUnterminatedLine(last);
  }

  /**
   * As written, the first task appended to a fresh default file is glued to
   * its last line; the glued line has four or more fields, so the reader
   * loses both the new task and "Replace spark plugs".
   */
  lemma AppendToDefaultAsWrittenLosesTasks(offsetKm: int, message: string, odometer: Decimal)
    requires odometer.Valid() && NoLineBreak(message)
    ensures ParseFile(DefaultContentAsWritten + FormatLine(offsetKm, message, odometer))
         == ParseFile(DefaultHead)
  {
    DefaultContentShape();
    var last := DefaultLines[5];
    SparkPlugLine(last);
    var body := WrittenFields(offsetKm, message, odometer);
    var glued := last + body;
    NoLineBreakConcat(last, body);
    GluedLineUnread(FormatInt(20000), "Replace spark plugs", FormatInt(offsetKm), message, odometer.Render());
    ConcatAssoc(DefaultHead, last, body + "\n");
    ConcatAssoc(last, body, "\n");
    ParseFileAppend(DefaultHead, glued + "\n");
    ParseOneLine(glued);
  }

  /** Glued to a line of two fields, a written line of three makes a line of at least four. */
  lemma GluedLineUnread(f0: string, m0: string, f: string, message: string, r: string)
    ensures ParseLine(f0 + "," + m0 + (f + "," + message + "," + r)) == None
  {
    var rest := m0 + f + "," + message + "," + r;
    var tail := message + "," + r;
    ConcatAssoc(f0 + ",", m0, f + "," + message + "," + r);
    ConcatAssoc(m0, f + "," + message, "," + r);
    ConcatAssoc(m0, f + ",", message);
    ConcatAssoc(m0, f, ",");
    assert f0 + "," + m0 + (f + "," + message + "," + r) == f0 + [','] + rest;
    assert rest == (m0 + f) + [','] + tail;
    assert tail == message + [','] + r;
    SplitConcat(f0, rest, ',');
    SplitConcat(m0 + f, tail, ',');
    SplitConcat(message, r, ',');
  }

  /** With the last default line terminated, the default file reads as before ... */
  lemma DefaultContentReadsAlike()
    ensures ParseFile(DefaultContent) == ParseFile(DefaultContentAsWritten)
  {
    DefaultContentShape();
    var last := DefaultLines[5];
    SparkPlugLine(last);
    ParseFileAppend(DefaultHead, last + "\n");
    ParseOneLine(last);
    DefaultContentAsWrittenReads();
  }

  /** ... and every storable task appended to it is read back after the defaults. */
  lemma AppendToDefaultKeepsTasks(offsetKm: int, message: string, odometer: Decimal)
    requires InInt32(offsetKm) && Storable(message) && odometer.Valid()
    ensures ParseFile(DefaultContent + FormatLine(offsetKm, message, odometer))
         == ParseFile(DefaultContentAsWritten) + [MaintenanceTask(offsetKm, message, odometer.Value())]
  {
    DefaultContentReadsAlike();
    AppendRoundTrip(DefaultContent, offsetKm, message, odometer);
  }

  // ---------- Fire-once threshold check ----------

  /** The odometer reading has reached the task's trigger: creation odometer plus offset. */
  predicate Due(task: MaintenanceTask, currentKm: real) {
    currentKm >= task.odometerAtCreation + task.offsetKm as real
  }

  predicate NoDuplicates<T(==)>(s: seq<T>) { forall i, j | 0 <= i < j < |s| :: s[i] != s[j] }

  /** The fired flags after a check and the tasks announced, in list order. */
  datatype CheckResult = CheckResult(shown: set<MaintenanceTask>, alerts: seq<MaintenanceTask>)

  /**
   * `checkMaintenanceThresholds`: every due task whose flag is not yet set
   * gets its flag set and is announced; a due task already flagged is skipped.
   */
  function CheckThresholds(tasks: seq<MaintenanceTask>, shown: set<MaintenanceTask>, currentKm: real)
    : (r: CheckResult)
    ensures r.shown == shown + (set i | 0 <= i < |tasks| && Due(tasks[i], currentKm) :: tasks[i])
    ensures forall t :: t in r.alerts <==> t in tasks && Due(t, currentKm) && t !in shown
    ensures NoDuplicates(r.alerts)
  {
    if tasks == [] then CheckResult(shown, [])
    else
      var prior := tasks[..|tasks| - 1];
      var task := tasks[|tasks| - 1];
      var before := CheckThresholds(prior, shown, currentKm);
      assert forall i | 0 <= i < |prior| :: prior[i] == tasks[i];
      assert tasks == prior + [task];
      CheckOne(before, task, currentKm)
  }

  /** One task of the check: a due task not yet flagged is flagged and announced. */
  function CheckOne(before: CheckResult, task: MaintenanceTask, currentKm: real): CheckResult {
    if Due(task, currentKm) && task !in before.shown then
      CheckResult(before.shown + {task}, before.alerts + [task])
    else before
  }

  /** The check over one more task is the check so far followed by that task. */
  lemma CheckThresholdsStep(tasks: seq<MaintenanceTask>, i: nat, shown: set<MaintenanceTask>, currentKm: real)
    requires i < |tasks|
    ensures CheckThresholds(tasks[..i + 1], shown, currentKm)
            == CheckOne(CheckThresholds(tasks[..i], shown, currentKm), tasks[i], currentKm)
  {
    assert tasks[..i + 1][..i] == tasks[..i];
  }

  /** Where `t` first occurs in `tasks`. */
  function FirstIndex(tasks: seq<MaintenanceTask>, t: MaintenanceTask): (k: nat)
    requires t in tasks
    ensures k < |tasks| && tasks[k] == t && t !in tasks[..k]
  {
    if tasks[0] == t then 0
    else
      var k := FirstIndex(tasks[1..], t) + 1;
      assert tasks[..k] == [tasks[0]] + tasks[1..][..k - 1];
      k
  }

  /** The announcements come out in the order of the task list. */
  lemma {:induction false} AlertsInTaskOrder(tasks: seq<MaintenanceTask>, shown: set<MaintenanceTask>, currentKm: real)
    ensures var alerts := CheckThresholds(tasks, shown, currentKm).alerts;
      forall i, j | 0 <= i < j < |alerts| :: FirstIndex(tasks, alerts[i]) < FirstIndex(tasks, alerts[j])
  {
    if tasks != [] {
      var prior := tasks[..|tasks| - 1];
      var task := tasks[|tasks| - 1];
      var before := CheckThresholds(prior, shown, currentKm);
      var alerts := CheckThresholds(tasks, shown, currentKm).alerts;
      AlertsInTaskOrder(prior, shown, currentKm);
      CheckThresholdsStep(tasks, |tasks| - 1, shown, currentKm);
      assert tasks[..|tasks|] == tasks;
      forall t | t in prior ensures FirstIndex(tasks, t) == FirstIndex(prior, t) {
        FirstIndexOfPrefix(tasks, prior, t);
      }
      if alerts != before.alerts {
        assert alerts == before.alerts + [task];
        assert task !in prior by {
          forall i | 0 <= i < |prior| ensures prior[i] != task {
            if Due(prior[i], currentKm) { assert prior[i] in before.shown; }
          }
        }
        assert FirstIndex(tasks, task) == |prior|;
      }
    }
  }

  lemma FirstIndexOfPrefix(tasks: seq<MaintenanceTask>, prior: seq<MaintenanceTask>, t: MaintenanceTask)
    requires |prior| <= |tasks| && prior == tasks[..|prior|] && t in prior
    ensures FirstIndex(tasks, t) == FirstIndex(prior, t)
  {
    var k := FirstIndex(prior, t);
    var m := FirstIndex(tasks, t);
    assert tasks[k] == t;
    assert prior[m] == t;
  }

  /** The flags after a series of checks, each over the task list of its moment. */
  function ShownAfter(shown: set<MaintenanceTask>, checks: seq<(seq<MaintenanceTask>, real)>)
    : set<MaintenanceTask>
  {
    if checks == [] then shown
    else
      var last := checks[|checks| - 1];
      CheckThresholds(last.0, ShownAfter(shown, checks[..|checks| - 1]), last.1).shown
  }

  /** Every announcement made during a series of checks, in order. */
  function AlertsDuring(shown: set<MaintenanceTask>, checks: seq<(seq<MaintenanceTask>, real)>)
    : seq<MaintenanceTask>
  {
    if checks == [] then []
    else
      var last := checks[|checks| - 1];
      var prior := checks[..|checks| - 1];
      AlertsDuring(shown, prior) + CheckThresholds(last.0, ShownAfter(shown, prior), last.1).alerts
  }

  /** However many checks run, each task is announced at most once, and never if already flagged. */
  lemma {:induction false} FiresAtMostOnce(shown: set<MaintenanceTask>, checks: seq<(seq<MaintenanceTask>, real)>)
    ensures NoDuplicates(AlertsDuring(shown, checks))
    ensures forall t | t in AlertsDuring(shown, checks) :: t !in shown && t in ShownAfter(shown, checks)
    ensures shown <= ShownAfter(shown, checks)
  {
    if checks != [] {
      var last := checks[|checks| - 1];
      var prior := checks[..|checks| - 1];
      FiresAtMostOnce(shown, prior);
      var before := AlertsDuring(shown, prior);
      var now := CheckThresholds(last.0, ShownAfter(shown, prior), last.1).alerts;
      assert AlertsDuring(shown, checks) == before + now;
      forall i, j | 0 <= i < j < |before + now|
        ensures (before + now)[i] != (before + now)[j]
      {
        if j >= |before| && i < |before| {
          assert (before + now)[i] in before;
          assert (before + now)[j] in now;
        }
      }
    }
  }

  /** A task 1000 km after an odometer of 500 is announced once the total reaches 1500, and never again. */
  lemma ThresholdExample(message: string)
    ensures var t := MaintenanceTask(1000, message, 500.0);
      && CheckThresholds([t], {}, 1499.9).alerts == []
      && CheckThresholds([t], {}, 1500.0) == CheckResult({t}, [t])
      && CheckThresholds([t], {t}, 1600.0).alerts == []
  {
    var t := MaintenanceTask(1000, message, 500.0);
    assert [t][..0] == [];
  }

  // ---------- Dialog validation ----------

  datatype DialogError =
    | BadFormat   // no comma: the toast asks for the `offset,message` form
    | OutOfRange  // the toast names the 6-digit offset and 100-character message limits

  /**
   * The "Add Maintenance Task" dialog: `offset,message`, cut at the first
   * comma; the offset must be an Int printing in at most 6 characters and the
   * trimmed message at most 100 UTF-16 units long (Kotlin's `length`).
   */
  function ValidateMaintenanceInput(input: string): (r: Result<(int, string), DialogError>)
    ensures r == Failure(BadFormat) <==> ',' !in Trim(input)
    ensures r.Success? ==> -99_999 <= r.value.0 <= 999_999
    ensures r.Success? ==> Utf16Length(r.value.1) <= 100 && Trim(r.value.1) == r.value.1
    ensures var parts := SplitOnce(Trim(input), ',');
      r.Success? ==> |parts| == 2 && ParseInt(Trim(parts[0])) == Some(r.value.0) && r.value.1 == Trim(parts[1])
    ensures var parts := SplitOnce(Trim(input), ',');
      (|parts| == 2 && ParseInt(Trim(parts[0])).Some? && -99_999 <= ParseInt(Trim(parts[0])).value <= 999_999
      && Utf16Length(Trim(parts[1])) <= 100) ==> r.Success?
  {
    var parts := SplitOnce(Trim(input), ',');
    if |parts| != 2 then Failure(BadFormat)
    else
      var offset := ParseInt(Trim(parts[0]));
      var message := Trim(parts[1]);
      if offset.None? then Failure(OutOfRange)
      else
        FormatIntSixChars(offset.value);
        if |FormatInt(offset.value)| <= 6 && Utf16Length(message) <= 100 then
          TrimTwice(parts[1]);
          Success((offset.value, message))
        else Failure(OutOfRange)
  }

  /**
   * A typed `offset,message` with the offset in range and a message of at
   * most 100 UTF-16 units without blanks at either end is accepted as typed.
   */
  lemma DialogAccepts(offsetKm: int, message: string)
    requires -99_999 <= offsetKm <= 999_999
    requires message != [] && Utf16Length(message) <= 100
    requires !IsWhitespace(message[0]) && !IsWhitespace(message[|message| - 1])
    ensures ValidateMaintenanceInput(FormatInt(offsetKm) + "," + message) == Success((offsetKm, message))
  {
    DialogOffset(offsetKm);
    DialogFields(FormatInt(offsetKm), message);
    DialogReads(FormatInt(offsetKm) + "," + message, FormatInt(offsetKm), offsetKm, message);
  }

  /** The dialog's steps, one after the other, for a text it accepts. */
  lemma DialogReads(input: string, f: string, offsetKm: int, message: string)
    requires SplitOnce(Trim(input), ',') == [f, message]
    requires ParseInt(Trim(f)) == Some(offsetKm) && |FormatInt(offsetKm)| <= 6
    requires Trim(message) == message && Utf16Length(message) <= 100
    ensures ValidateMaintenanceInput(input) == Success((offsetKm, message))
  {
    var parts := SplitOnce(Trim(input), ',');
    assert |parts| == 2 && parts[0] == f && parts[1] == message;
    DialogVerdict(input, offsetKm, message);
  }

  /** The dialog accepts when the two pieces pass its tests. */
  lemma DialogVerdict(input: string, offsetKm: int, message: string)
    requires |SplitOnce(Trim(input), ',')| == 2
    requires ParseInt(Trim(SplitOnce(Trim(input), ',')[0])) == Some(offsetKm) && |FormatInt(offsetKm)| <= 6
    requires Trim(SplitOnce(Trim(input), ',')[1]) == message && Utf16Length(message) <= 100
    ensures ValidateMaintenanceInput(input) == Success((offsetKm, message))
  {
  }

  /** An offset in range, printed, is read back by the dialog and passes its length test. */
  lemma DialogOffset(offsetKm: int)
    requires -99_999 <= offsetKm <= 999_999
    ensures var f := FormatInt(offsetKm);
      f != [] && ',' !in f && !IsWhitespace(f[0])
      && ParseInt(Trim(f)) == Some(offsetKm) && |FormatInt(offsetKm)| <= 6
  {
    FormatIntPlain(offsetKm);
    FormatIntTrimmed(offsetKm);
    IntRoundTrip(offsetKm);
    FormatIntSixChars(offsetKm);
  }

  /** The typed text is cut at its comma into the offset and the message, neither with blanks around. */
  lemma DialogFields(f: string, message: string)
    requires f != [] && ',' !in f && !IsWhitespace(f[0])
    requires message != [] && !IsWhitespace(message[0]) && !IsWhitespace(message[|message| - 1])
    ensures SplitOnce(Trim(f + "," + message), ',') == [f, message]
    ensures Trim(message) == message
  {
    var input := f + [','] + message;
    assert f + "," + message == input;
    assert input[0] == f[0] && input[|input| - 1] == message[|message| - 1];
    TrimOfTrimmed(input, IsWhitespace);
    SplitOnceAt(f, ',', message);
    TrimOfTrimmed(message, IsWhitespace);
  }

  /**
   * The dialog accepts a message the file cannot hold: with a comma in it
   * (typed `1000,a,b`, say) the message is `a,b`, whose line the reader drops.
   */
  lemma DialogAcceptsUnstorableMessage(offsetKm: int, message: string, odometer: Decimal)
    requires -99_999 <= offsetKm <= 999_999
    requires message != [] && Utf16Length(message) <= 100 && ',' in message && NoLineBreak(message)
    requires !IsWhitespace(message[0]) && !IsWhitespace(message[|message| - 1])
    requires odometer.Valid()
    ensures ValidateMaintenanceInput(FormatInt(offsetKm) + "," + message) == Success((offsetKm, message))
    ensures ParseFile(FormatLine(offsetKm, message, odometer)) == []
  {
    DialogAccepts(offsetKm, message);
    LineDropped(offsetKm, message, odometer);
  }

  /** The "Set Odometer" dialog: a number that is not negative. */
  function ValidateOdometerInput(input: string): (r: Option<real>)
    ensures r.Some? ==> r.value >= 0.0 && ParseFloat(Trim(input)) == Some(r.value)
    ensures r.Some? <==> ParseFloat(Trim(input)).Some? && ParseFloat(Trim(input)).value >= 0.0
  {
    match ParseFloat(Trim(input))
    case Some(v) => if v >= 0.0 then Some(v) else None
    case None => None
  }

  lemma OdometerInputRoundTrip(d: Decimal)
    requires d.Valid()
    ensures ValidateOdometerInput(d.Render()) == Some(d.Value())
  {
    TrimOfTrimmed(d.Render(), IsWhitespace);
    assert Trim(d.Render()) == d.Render();
    DecimalRoundTrip(d);
  }
}
