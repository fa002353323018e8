/** Storage: the one-task-per-line save format, and load and save over the
    lines of the file. Reading and writing the file itself is outside the model. */
module Storage {
  import opened Results
  import opened Text
  import opened Regex
  import opened DateTimes
  import opened Tasks

  /** The exceptions a bad line raises out of load(). */
  datatype LoadError =
    | Malformed(message: string)                // a RuntimeException of dataStringToTask
    | IndexOutOfBounds(index: nat, length: nat) // an ArrayIndexOutOfBoundsException
    | Unparsable(text: string)                  // a DateTimeParseException of java.time

  /** How the fourth field of an `E` line is cut into its start and end. */
  datatype SpanRule =
    | AtFirstDash   // split("-", 2), as written
    | AtSpacedDash  // split(" - ", 2), the separator toDataString writes

  function SpanSeparator(rule: SpanRule): string {
    match rule
    case AtFirstDash => "-"
    case AtSpacedDash => " - "
  }

  // ---------------------------------------------------------------------
  // One line

  /** parseDone: the trimmed flag must be `1` or `0`. */
  function ParseDone(s: string): (r: Result<bool, LoadError>)
    ensures r.Success? <==> Trim(s) == "1" || Trim(s) == "0"
    ensures r.Success? ==> (r.value <==> Trim(s) == "1")
    ensures r.Failure? ==> r.error == Malformed("Done flag must be 0 or 1, got: " + Trim(s))
  {
    var t := Trim(s);
    if t == "1" then Success(true)
    else if t == "0" then Success(false)
    else Failure(Malformed("Done flag must be 0 or 1, got: " + t))
  }

  /** The `D` case: the field is cut at its first `\s` run into a date and a
      time for Deadline(desc, date, time); no run leaves no time to index. */
  function RebuildDeadline(desc: string, due: string): (r: Result<Task, LoadError>)
    ensures r.Success? ==> r.value.description == desc && !r.value.isDone && r.value.kind.Deadline?
    ensures r.Success? <==> var dt := SplitOnce(Spaces, due);
                            |dt| == 2 && NewDeadlineAt(desc, dt[0], dt[1]).Some?
    ensures |SplitOnce(Spaces, due)| < 2 ==> r == Failure(IndexOutOfBounds(1, 1))
  {
    var dt := SplitOnce(Spaces, due);
    if |dt| < 2 then Failure(IndexOutOfBounds(1, 1))
    else if ParseIsoDate(dt[0]).None? then Failure(Unparsable(dt[0]))
    else
      var task := NewDeadlineAt(desc, dt[0], dt[1]);
      if task.Some? then Success(task.value) else Failure(Unparsable(dt[0] + " " + dt[1]))
  }

  /** The `E` case: the field is cut at the rule's separator and both halves
      are trimmed; without a separator there is no end to index. */
  function RebuildEvent(desc: string, span: string, rule: SpanRule): (r: Result<Task, LoadError>)
    ensures r.Success? <==> |SplitOnce(Literal(SpanSeparator(rule)), span)| == 2
    ensures r.Success? ==> var dt := SplitOnce(Literal(SpanSeparator(rule)), span);
                           r.value == NewEvent(desc, Trim(dt[0]), Trim(dt[1]))
    ensures r.Failure? ==> r.error == IndexOutOfBounds(1, 1)
  {
    var dt := SplitOnce(Literal(SpanSeparator(rule)), span);
    if |dt| < 2 then Failure(IndexOutOfBounds(1, 1))
    else Success(NewEvent(desc, Trim(dt[0]), Trim(dt[1])))
  }

  /** The task a type tag and its fields describe, before the done flag is applied. */
  function BuildTask(parts: seq<string>, line: string, rule: SpanRule): (r: Result<Task, LoadError>)
    requires |parts| >= 3
    ensures r.Success? ==> parts[0] in {"T", "D", "E"} && [KindLetter(r.value.kind)] == parts[0]
    ensures r.Success? ==> r.value.description == parts[2] && !r.value.isDone
    ensures r.Success? && parts[0] != "T" ==> |parts| >= 4
  {
    if parts[0] == "T" then Success(NewToDo(parts[2]))
    else if parts[0] == "D" then
      if |parts| < 4 then Failure(Malformed("Deadline missing due date: " + line))
      else RebuildDeadline(parts[2], parts[3])
    else if parts[0] == "E" then
      if |parts| < 4 then Failure(Malformed("Event missing start/end: " + line))
      else RebuildEvent(parts[2], parts[3], rule)
    else Failure(Malformed("Unknown task type '" + parts[0] + "' in line: " + line))
  }

  /** dataStringToTask: a blank line, fewer than three fields after the pipe
      split, a bad flag (checked before the type tag) or a bad type fails;
      otherwise the rebuilt task, marked done when the flag is `1`. */
  function DataStringToTask(line: string, rule: SpanRule): (r: Result<Task, LoadError>)
    ensures IsBlank(line) ==> r == Failure(Malformed("Empty line in save file"))
    ensures !IsBlank(line) && |SplitAll(Pipe, line)| < 3 ==>
              r == Failure(Malformed("Bad line (need at least 3 fields): " + line))
    ensures var parts := SplitAll(Pipe, line);
            !IsBlank(line) && |parts| >= 3 && ParseDone(parts[1]).Failure? ==>
              r == Failure(ParseDone(parts[1]).error)
    ensures r.Success? ==>
              var parts := SplitAll(Pipe, line);
              && |parts| >= 3 && ParseDone(parts[1]) == Success(r.value.isDone)
              && r.value.description == parts[2] && [KindLetter(r.value.kind)] == parts[0]
  {
    if IsBlank(line) then Failure(Malformed("Empty line in save file"))
    else
      var parts := SplitAll(Pipe, line);
      if |parts| < 3 then Failure(Malformed("Bad line (need at least 3 fields): " + line))
      else
        var done :- ParseDone(parts[1]);
        var task :- BuildTask(parts, line, rule);
        Success(if done then MarkAsDone(task) else task)
  }

  /** The split drops trailing empty fields before the count is checked, so a
      line whose third field is empty, such as `T | 0 | `, has too few fields. */
  lemma EmptyLastFieldDropped(tag: string, flag: string, rule: SpanRule)
    requires tag != [] && FieldSafe(tag) && !IsJavaWhitespace(tag[0])
    requires flag != [] && FieldSafe(flag)
    ensures var line := tag + " | " + flag + " | ";
            DataStringToTask(line, rule) == Failure(Malformed("Bad line (need at least 3 fields): " + line))
  {
    var line := tag + " | " + flag + " | ";
    var n1 := |tag| + 3;
    var n2 := n1 + |flag| + 3;
    assert line[..n1] == tag + " | ";
    assert line[n1..n2] == flag + " | ";
    assert line[n1] == flag[0];
    SpaceEndIs(line, n1, n1);
    SpaceEndIs(line, n2, n2);
    PiecesAfterField(line, 0, tag, n1);
    PiecesAfterField(line, n1, flag, n2);
    assert Pieces(Pipe, line, n2) == [""];
    assert Pieces(Pipe, line, 0) == [tag, flag, ""];
    assert line[0] == tag[0];
  }

  // ---------------------------------------------------------------------
  // The whole file

  /** The lines load() turns into tasks. */
  function NonBlank(lines: seq<string>): (r: seq<string>)
    ensures |r| <= |lines|
    ensures forall i :: 0 <= i < |r| ==> !IsBlank(r[i])
  {
    if lines == [] then []
    else if IsBlank(lines[0]) then NonBlank(lines[1..])
    else [lines[0]] + NonBlank(lines[1..])
  }

  /** A line decoder: what load() calls on each non-blank line. */
  type Decoder = string -> Result<Task, LoadError>

  /** The decoder load() uses: dataStringToTask under the given span rule. */
  function LineDecoder(rule: SpanRule): (decode: Decoder)
    ensures forall line :: decode(line) == DataStringToTask(line, rule)
  {
    line => DataStringToTask(line, rule)
  }

  /** load(): one task per non-blank line, in file order; the first bad line's
      exception escapes and nothing is returned. */
  function LoadWith(lines: seq<string>, decode: Decoder): (r: Result<seq<Task>, LoadError>)
    ensures r.Success? ==> |r.value| == |NonBlank(lines)|
    decreases |lines|
  {
    if lines == [] then Success([])
    else
      var rest := LoadWith(lines[1..], decode);
      if IsBlank(lines[0]) then rest
      else
        var first := decode(lines[0]);
        if first.Failure? then Failure(first.error)
        else if rest.Failure? then rest
        else Success([first.value] + rest.value)
  }

  /** The saved lines loaded with the stored-line codec. */
  function LoadLines(lines: seq<string>, rule: SpanRule): (r: Result<seq<Task>, LoadError>)
    ensures r.Success? ==> |r.value| == |NonBlank(lines)|
  {
    LoadWith(lines, LineDecoder(rule))
  }

  /** Loading succeeds exactly when every non-blank line decodes. */
  lemma {:induction false} LoadSucceeds(lines: seq<string>, decode: Decoder)
    ensures LoadWith(lines, decode).Success?
            <==> forall i :: 0 <= i < |lines| && !IsBlank(lines[i]) ==> decode(lines[i]).Success?
  {
    if lines != [] {
      LoadSucceeds(lines[1..], decode);
      forall i | 1 <= i < |lines|
        ensures lines[i] == lines[1..][i - 1]
      {
      }
    }
  }

  /** A successful load holds, in order, the decoded task of each non-blank line. */
  lemma {:induction false} LoadTasks(lines: seq<string>, decode: Decoder)
    requires LoadWith(lines, decode).Success?
    ensures var ts, kept := LoadWith(lines, decode).value, NonBlank(lines);
            |ts| == |kept| && forall i :: 0 <= i < |kept| ==> decode(kept[i]) == Success(ts[i])
  {
    if lines != [] {
      var rest := LoadWith(lines[1..], decode);
      LoadTasks(lines[1..], decode);
      if !IsBlank(lines[0]) {
        var ts, kept := LoadWith(lines, decode).value, NonBlank(lines);
        assert ts == [decode(lines[0]).value] + rest.value;
        assert kept == [lines[0]] + NonBlank(lines[1..]);
        forall i | 1 <= i < |kept|
          ensures decode(kept[i]) == Success(ts[i])
        {
          assert kept[i] == NonBlank(lines[1..])[i - 1] && ts[i] == rest.value[i - 1];
        }
      }
    }
  }

  /** A failed load reports the error of the first non-blank line that does
      not decode: every non-blank line before it decodes. */
  lemma {:induction false} LoadFailure(lines: seq<string>, decode: Decoder)
    requires LoadWith(lines, decode).Failure?
    ensures exists i :: && 0 <= i < |lines| && !IsBlank(lines[i])
                        && decode(lines[i]) == Failure(LoadWith(lines, decode).error)
                        && forall j :: 0 <= j < i && !IsBlank(lines[j]) ==> decode(lines[j]).Success?
  {
    var r := LoadWith(lines, decode);
    if IsBlank(lines[0]) || decode(lines[0]).Success? {
      LoadFailure(lines[1..], decode);
      var i :| && 0 <= i < |lines[1..]| && !IsBlank(lines[1..][i])
               && decode(lines[1..][i]) == Failure(r.error)
               && forall j :: 0 <= j < i && !IsBlank(lines[1..][j]) ==> decode(lines[1..][j]).Success?;
      assert lines[i + 1] == lines[1..][i];
      forall j | 0 <= j < i + 1 && !IsBlank(lines[j])
        ensures decode(lines[j]).Success?
      {
        if j > 0 {
          assert lines[j] == lines[1..][j - 1];
        }
      }
    } else {
      assert decode(lines[0]) == Failure(r.error);
    }
  }

  /** The tasks loaded so far in front of what the rest of the lines load to. */
  function Resume(done: seq<Task>, rest: Result<seq<Task>, LoadError>): Result<seq<Task>, LoadError> {
    match rest
    case Success(ts) => Success(done + ts)
    case Failure(e) => Failure(e)
  }

  /** One turn of the load loop: a blank line is skipped, a bad line ends the
      load with its error, a good line's task joins the list. */
  lemma ResumeStep(lines: seq<string>, i: nat, decode: Decoder, done: seq<Task>)
    requires i < |lines|
    ensures var rest, next := LoadWith(lines[i..], decode), LoadWith(lines[i + 1..], decode);
            var line := decode(lines[i]);
            Resume(done, rest) ==
              if IsBlank(lines[i]) then Resume(done, next)
              else if line.Failure? then Failure(line.error)
              else Resume(done + [line.value], next)
  {
    assert lines[i..][1..] == lines[i + 1..];
    var next := LoadWith(lines[i + 1..], decode);
    var line := decode(lines[i]);
    if !IsBlank(lines[i]) && line.Success? && next.Success? {
      assert done + ([line.value] + next.value) == done + [line.value] + next.value;
    }
  }

  /** The load loop over the lines, as the source writes it, with the
      decoder it calls on each non-blank line. */
  method LoadLoop(lines: seq<string>, decode: Decoder) returns (r: Result<seq<Task>, LoadError>)
    ensures r == LoadWith(lines, decode)
  {
    var tasks: seq<Task> := [];
    var i := 0;
    assert lines[i..] == lines;
    ResumeNone(LoadWith(lines, decode));
    while i < |lines|
      invariant 0 <= i <= |lines|
      invariant LoadWith(lines, decode) == Resume(tasks, LoadWith(lines[i..], decode))
    {
      ResumeStep(lines, i, decode, tasks);
      var line := lines[i];
      if !IsBlank(line) {
        var task := decode(line);
        if task.Failure? {
          return Failure(task.error);
        }
        tasks := tasks + [task.value];
      }
      i := i + 1;
    }
    assert lines[i..] == [];
    assert tasks + [] == tasks;
    return Success(tasks);
  }

  /** load() over the lines of the file, decoding with dataStringToTask. */
  method Load(lines: seq<string>, rule: SpanRule) returns (r: Result<seq<Task>, LoadError>)
    ensures r == LoadLines(lines, rule)
  {
    r := LoadLoop(lines, LineDecoder(rule));
  }

  /** Nothing loaded yet leaves the result as it is. */
  lemma ResumeNone(r: Result<seq<Task>, LoadError>)
    ensures Resume([], r) == r
  {
    if r.Success? {
      assert [] + r.value == r.value;
    }
  }

  /** The stored lines of the tasks, in list order; `tags` stands for each
      task's formatTags() text. */
  function SavedLines(tasks: seq<Task>, tags: Task -> string): (lines: seq<string>)
    ensures |lines| == |tasks|
    ensures forall i :: 0 <= i < |tasks| ==> lines[i] == DataString(tasks[i], tags(tasks[i]))
  {
    seq(|tasks|, i requires 0 <= i < |tasks| => DataString(tasks[i], tags(tasks[i])))
  }

  /** The lines written one after the other, each followed by `sep`. */
  function WriteLines(lines: seq<string>, sep: string): (s: string)
    ensures lines != [] && lines[0] != [] ==> s != []
    decreases |lines|
  {
    if lines == [] then "" else lines[0] + sep + WriteLines(lines[1..], sep)
  }

  /** save(): the file is overwritten with each stored line followed by the
      line separator `sep`. */
  function SaveContent(tasks: seq<Task>, tags: Task -> string, sep: string): (s: string)
    ensures s == [] <==> tasks == []
  {
    var lines := SavedLines(tasks, tags);
    if tasks != [] then
      StoredNotBlank(tasks[0], tags(tasks[0]));
      WriteLines(lines, sep)
    else WriteLines(lines, sep)
  }

  /** The end of the line that starts at `k`: the next `\n`, or the end. */
  function LineEnd(s: string, k: nat): (e: nat)
    requires k <= |s|
    ensures k <= e <= |s| && (e < |s| ==> s[e] == '\n')
    ensures forall i :: k <= i < e ==> s[i] != '\n'
    decreases |s| - k
  {
    if k == |s| || s[k] == '\n' then k else LineEnd(s, k + 1)
  }

  /** Scanner.nextLine over a file whose lines end in `\n`: the text between
      newlines, with no empty line after a final newline. */
  function ReadLines(s: string): (lines: seq<string>)
    ensures forall i :: 0 <= i < |lines| ==> '\n' !in lines[i]
    decreases |s|
  {
    if s == [] then []
    else
      var e := LineEnd(s, 0);
      if e == |s| then
        assert forall c :: c in s ==> c != '\n' by {
          forall c | c in s
            ensures c != '\n'
          {
            var i :| 0 <= i < |s| && s[i] == c;
          }
        }
        [s]
      else
        var line := s[..e];
        assert '\n' !in line by {
          forall i | 0 <= i < |line|
            ensures line[i] != '\n'
          {
            assert line[i] == s[i];
          }
        }
        [line] + ReadLines(s[e + 1..])
  }

  // ---------------------------------------------------------------------
  // Round trips

  /** A field that survives the pipe split and the line split: non-empty,
      pipe-free with no `\s` at its ends, and on one line. */
  predicate StorableField(f: string) {
    f != [] && FieldSafe(f) && '\n' !in f
  }

  /** No space followed by a dash, so the ` - ` the span is written with is
      the first one in it. */
  predicate NoSpacedDash(s: string) {
    forall i :: 0 <= i < |s| - 1 ==> !(s[i] == ' ' && s[i + 1] == '-')
  }

  /** A task whose stored line loads back as the same task. */
  predicate Storable(t: Task, tags: string) {
    && StorableField(t.description)
    && '\n' !in tags
    && match t.kind
       case ToDo => true
       case Deadline(_) => true
       case Event(from, to) =>
         && StorableField(from) && StorableField(to)
         && IsTrimmed(from) && IsTrimmed(to) && NoSpacedDash(from)
  }

  /** The span rule reads an event's start and end back: the corrected rule
      always, the first-dash rule only when the start holds no dash. */
  predicate SpanReadable(t: Task, rule: SpanRule) {
    t.kind.Event? ==> rule == AtSpacedDash || '-' !in t.kind.from
  }

  /** The stored flag reads back as the flag. */
  lemma ParseDoneFlag(isDone: bool)
    ensures ParseDone(DoneFlag(isDone)) == Success(isDone)
  {
    assert IsTrimmed(DoneFlag(isDone));
  }

  /** The leading safe fields of a ` | `-joined line come back from the
      pipe split, and a line that starts with a visible character is not blank. */
  lemma PipeSplit(fs: seq<string>, m: nat)
    requires 2 <= m <= |fs|
    requires forall i :: 0 <= i < m ==> fs[i] != [] && FieldSafe(fs[i])
    requires !IsJavaWhitespace(fs[0][0])
    ensures var line := Join(fs, " | ");
            var parts := SplitAll(Pipe, line);
            && !IsBlank(line)
            && |parts| >= m && forall i :: 0 <= i < m ==> parts[i] == fs[i]
  {
    var line := Join(fs, " | ");
    var ps := Pieces(Pipe, line, 0);
    PiecesOfJoin(fs, m);
    JoinFirst(fs, " | ");
    assert ps == ps[..m] + ps[m..];
    DropTrailingEmptyKeeps(ps[..m], ps[m..]);
    var parts := SplitAll(Pipe, line);
    forall i | 0 <= i < m
      ensures parts[i] == fs[i]
    {
      assert parts[..m][i] == ps[..m][i];
    }
  }

  /** The due text is one safe field. */
  lemma DueSafe(k: Kind)
    requires k.Deadline?
    ensures StorableField(Due(k)) && NoRegexSpace(Due(k)[..10]) && !IsRegexSpace(Due(k)[11])
  {
    var due := Due(k);
    FormattedShape(k.at);
    assert forall i :: 0 <= i < 16 && i != 10 ==> !IsRegexSpace(due[i]) && due[i] != '|';
    assert '|' !in due && '\n' !in due by {
      forall i | 0 <= i < |due|
        ensures due[i] != '|' && due[i] != '\n'
      {
      }
    }
  }

  /** An event's span is one safe field. */
  lemma SpanSafe(from: string, to: string)
    requires StorableField(from) && StorableField(to) && IsTrimmed(from) && IsTrimmed(to)
    ensures StorableField(from + " - " + to)
  {
    var span := from + " - " + to;
    assert span[0] == from[0] && span[|span| - 1] == to[|to| - 1];
    RegexSpaceIsTrimmable(from[0]);
    RegexSpaceIsTrimmable(to[|to| - 1]);
    forall i | 0 <= i < |span|
      ensures span[i] != '|' && span[i] != '\n'
    {
      if i < |from| {
        assert span[i] == from[i];
      } else if i >= |from| + 3 {
        assert span[i] == to[i - |from| - 3];
      }
    }
  }

  /** The ` - ` written between the start and the end is the first one. */
  lemma SpacedDashFirst(from: string, to: string)
    requires from != [] && IsTrimmed(from) && NoSpacedDash(from)
    ensures SplitOnce(Literal(" - "), from + " - " + to) == [from, to]
  {
    var span := from + " - " + to;
    forall i | 0 <= i < |from|
      ensures !OccursAt(span, i, " - ")
    {
      assert span[i] == from[i];
      if i + 1 < |from| {
        assert span[i + 1] == from[i + 1];
      }
    }
    SplitOnceLiteral(from, " - ", to);
  }

  /** A stored deadline's due text rebuilds the same deadline. */
  lemma RebuildStoredDeadline(t: Task)
    requires t.kind.Deadline?
    ensures RebuildDeadline(t.description, Due(t.kind)) == Success(Task(t.description, false, t.kind))
  {
    var due := Due(t.kind);
    DeadlineRebuild(t);
    DueSafe(t.kind);
    SplitOnceSpaces(due[..10], " ", due[11..]);
  }

  /** A stored event's span rebuilds the same event when cut at ` - `. */
  lemma RebuildStoredEvent(desc: string, from: string, to: string)
    requires from != [] && IsTrimmed(from) && IsTrimmed(to) && NoSpacedDash(from)
    ensures RebuildEvent(desc, from + " - " + to, AtSpacedDash) == Success(Task(desc, false, Event(from, to)))
  {
    SpacedDashFirst(from, to);
  }

  /** A stored event's span rebuilds the same event when cut at its first
      dash, provided the start holds none. */
  lemma RebuildStoredEventFirstDash(desc: string, from: string, to: string)
    requires IsTrimmed(from) && IsTrimmed(to) && '-' !in from
    ensures RebuildEvent(desc, from + " - " + to, AtFirstDash) == Success(Task(desc, false, Event(from, to)))
  {
    var a, b := from + " ", " " + to;
    var span := from + " - " + to;
    assert span == a + "-" + b;
    forall i | 0 <= i < |a|
      ensures !OccursAt(span, i, "-")
    {
      if i < |from| {
        assert span[i] == from[i];
      }
      NotOccursAt(span, i, "-");
    }
    SplitOnceLiteral(a, "-", b);
    assert a == "" + from + " " && b == " " + to + "";
    TrimPadded("", from, " ");
    TrimPadded(" ", to, "");
  }

  /** Decoding a line whose pipe split, flag and typed fields are known. */
  lemma DecodeOf(line: string, rule: SpanRule, parts: seq<string>, isDone: bool, task: Task)
    requires !IsBlank(line) && SplitAll(Pipe, line) == parts && |parts| >= 3
    requires ParseDone(parts[1]) == Success(isDone)
    requires BuildTask(parts, line, rule) == Success(task)
    ensures DataStringToTask(line, rule) == Success(if isDone then MarkAsDone(task) else task)
  {
  }

  /** The type tag picks the constructor. */
  lemma BuildOf(parts: seq<string>, line: string, rule: SpanRule)
    requires |parts| >= 4
    ensures parts[0] == "T" ==> BuildTask(parts, line, rule) == Success(NewToDo(parts[2]))
    ensures parts[0] == "D" ==> BuildTask(parts, line, rule) == RebuildDeadline(parts[2], parts[3])
    ensures parts[0] == "E" ==> BuildTask(parts, line, rule) == RebuildEvent(parts[2], parts[3], rule)
  {
  }

  /** The typed part of a stored line rebuilds the task, not yet marked. */
  lemma BuildStored(t: Task, tags: string, rule: SpanRule, parts: seq<string>, line: string)
    requires Storable(t, tags) && SpanReadable(t, rule)
    requires |parts| >= 3 && parts[0] == [KindLetter(t.kind)] && parts[2] == t.description
    requires !t.kind.ToDo? ==> |parts| >= 4 && parts[3] == DataFields(t, tags)[3]
    ensures BuildTask(parts, line, rule) == Success(Task(t.description, false, t.kind))
  {
    match t.kind
    case ToDo =>
    case Deadline(_) =>
      BuildOf(parts, line, rule);
      RebuildStoredDeadline(t);
    case Event(from, to) =>
      BuildOf(parts, line, rule);
      if rule == AtSpacedDash {
        RebuildStoredEvent(t.description, from, to);
      } else {
        RebuildStoredEventFirstDash(t.description, from, to);
      }
  }

  /** The number of leading fields of a stored line that the decoder reads. */
  function ReadFields(k: Kind): (m: nat)
    ensures 3 <= m <= 4 && (m == 3 <==> k.ToDo?)
  {
    if k.ToDo? then 3 else 4
  }

  /** The kind letter and the flag are safe one-character fields. */
  lemma LetterFlagSafe(k: Kind, isDone: bool)
    ensures FieldSafe([KindLetter(k)]) && FieldSafe(DoneFlag(isDone)) && DoneFlag(isDone) != []
    ensures !IsJavaWhitespace(KindLetter(k))
  {
    assert |DoneFlag(isDone)| == 1 && DoneFlag(isDone)[0] in "01";
  }

  /** The fields the decoder reads are safe ones. */
  lemma StoredFieldsSafe(t: Task, tags: string)
    requires Storable(t, tags)
    ensures var fs := DataFields(t, tags);
            && (forall i :: 0 <= i < ReadFields(t.kind) ==> fs[i] != [] && FieldSafe(fs[i]))
            && !IsJavaWhitespace(fs[0][0])
  {
    var fs := DataFields(t, tags);
    assert fs[0] == [KindLetter(t.kind)] && fs[1] == DoneFlag(t.isDone) && fs[2] == t.description;
    LetterFlagSafe(t.kind, t.isDone);
    match t.kind
    case ToDo =>
    case Deadline(_) =>
      assert fs[3] == Due(t.kind);
      DueSafe(t.kind);
    case Event(from, to) =>
      assert fs[3] == from + " - " + to;
      SpanSafe(from, to);
  }

  /** The pipe split of a stored line: the kind letter, the flag, the
      description, and the due text or span of a deadline or an event. */
  lemma StoredParts(t: Task, tags: string)
    requires Storable(t, tags)
    ensures var line, parts := DataString(t, tags), SplitAll(Pipe, DataString(t, tags));
            && !IsBlank(line) && |parts| >= 3
            && parts[0] == [KindLetter(t.kind)] && parts[1] == DoneFlag(t.isDone) && parts[2] == t.description
            && (!t.kind.ToDo? ==> |parts| >= 4 && parts[3] == DataFields(t, tags)[3])
  {
    var fs := DataFields(t, tags);
    assert fs[0] == [KindLetter(t.kind)] && fs[1] == DoneFlag(t.isDone) && fs[2] == t.description;
    StoredFieldsSafe(t, tags);
    PipeSplit(fs, ReadFields(t.kind));
  }

  /** dataStringToTask undoes toDataString for every storable task: the first
      three fields, and the fourth for a deadline or an event, come back from
      the pipe split, and the due text or the span rebuilds the same kind. An
      event needs a span rule that reads its start back. */
  lemma RoundTrip(t: Task, tags: string, rule: SpanRule)
    requires Storable(t, tags) && SpanReadable(t, rule)
    ensures DataStringToTask(DataString(t, tags), rule) == Success(t)
  {
    var line := DataString(t, tags);
    StoredParts(t, tags);
    ParseDoneFlag(t.isDone);
    BuildStored(t, tags, rule, SplitAll(Pipe, line), line);
    DecodeOf(line, rule, SplitAll(Pipe, line), t.isDone, Task(t.description, false, t.kind));
  }

  /** A decoded task has the kind the type-tag step rebuilt. */
  lemma DecodedKind(line: string, rule: SpanRule)
    requires DataStringToTask(line, rule).Success?
    ensures var parts := SplitAll(Pipe, line);
            && |parts| >= 3 && BuildTask(parts, line, rule).Success?
            && DataStringToTask(line, rule).value.kind == BuildTask(parts, line, rule).value.kind
  {
  }

  /** A good first line puts its task in front of what the rest loads to. */
  lemma LoadCons(lines: seq<string>, decode: Decoder, t: Task, ts: seq<Task>)
    requires lines != [] && !IsBlank(lines[0]) && decode(lines[0]) == Success(t)
    requires LoadWith(lines[1..], decode) == Success(ts)
    ensures LoadWith(lines, decode) == Success([t] + ts)
  {
  }

  /** A stored line is never blank. */
  lemma StoredNotBlank(t: Task, tags: string)
    ensures !IsBlank(DataString(t, tags))
  {
    var fs := DataFields(t, tags);
    assert fs[0] == [KindLetter(t.kind)];
    LetterFlagSafe(t.kind, t.isDone);
    JoinFirst(fs, " | ");
  }

  /** Lines that are all good load as their tasks, in order. */
  lemma {:induction false} LoadAllGood(lines: seq<string>, decode: Decoder, tasks: seq<Task>)
    requires |lines| == |tasks|
    requires forall i :: 0 <= i < |lines| ==> !IsBlank(lines[i]) && decode(lines[i]) == Success(tasks[i])
    ensures LoadWith(lines, decode) == Success(tasks)
  {
    if lines != [] {
      LoadAllGood(lines[1..], decode, tasks[1..]);
      LoadCons(lines, decode, tasks[0], tasks[1..]);
      assert [tasks[0]] + tasks[1..] == tasks;
    }
  }

  /** Loading the saved lines of storable tasks gives the tasks back, under
      any span rule that reads each event's start back. */
  lemma LoadSaved(tasks: seq<Task>, tags: Task -> string, rule: SpanRule)
    requires forall i :: 0 <= i < |tasks| ==> Storable(tasks[i], tags(tasks[i])) && SpanReadable(tasks[i], rule)
    ensures LoadLines(SavedLines(tasks, tags), rule) == Success(tasks)
  {
    var lines := SavedLines(tasks, tags);
    var decode := LineDecoder(rule);
    forall i | 0 <= i < |lines|
      ensures !IsBlank(lines[i]) && decode(lines[i]) == Success(tasks[i])
    {
      RoundTrip(tasks[i], tags(tasks[i]), rule);
      StoredNotBlank(tasks[i], tags(tasks[i]));
    }
    LoadAllGood(lines, decode, tasks);
  }

  // ---------------------------------------------------------------------
  // The span rule as written

  /** Cut at its first dash, a span whose start holds a dash is cut inside the start. */
  lemma FirstDashCut(from: string, to: string, k: nat)
    requires k < |from| && from[k] == '-'
    ensures var dt := SplitOnce(Literal("-"), from + " - " + to);
            |dt| == 2 && |dt[0]| <= k
  {
    var span := from + " - " + to;
    assert span[k] == '-';
    assert span[k..k + 1] == "-";
    assert MatchEnd(Literal("-"), span, k).Some?;
    FindFromLeftmost(Literal("-"), span, 0);
  }

  /** With the span cut at its first dash, an event whose start holds a dash
      (a date such as 2025-10-20) does not load back: the start comes back
      cut short, or the line fails. */
  lemma FirstDashBreaksRoundTrip(t: Task, tags: string, k: nat)
    requires Storable(t, tags) && t.kind.Event?
    requires k < |t.kind.from| && t.kind.from[k] == '-'
    ensures DataStringToTask(DataString(t, tags), AtFirstDash) != Success(t)
  {
    var from, to := t.kind.from, t.kind.to;
    var line := DataString(t, tags);
    var r := DataStringToTask(line, AtFirstDash);
    if r.Success? {
      var parts := SplitAll(Pipe, line);
      DecodedKind(line, AtFirstDash);
      StoredParts(t, tags);
      BuildOf(parts, line, AtFirstDash);
      FirstDashCut(from, to, k);
      var dt := SplitOnce(Literal("-"), from + " - " + to);
      assert r.value.kind.from == Trim(dt[0]);
    }
  }
  /** So under the first-dash rule a storable event loads back exactly when
      its start holds no dash. */
  lemma FirstDashRoundTrip(t: Task, tags: string)
    requires Storable(t, tags) && t.kind.Event?
    ensures DataStringToTask(DataString(t, tags), AtFirstDash) == Success(t) <==> '-' !in t.kind.from
  {
    var from := t.kind.from;
    if '-' in from {
      var k :| 0 <= k < |from| && from[k] == '-';
      FirstDashBreaksRoundTrip(t, tags, k);
    } else {
      RoundTrip(t, tags, AtFirstDash);
    }
  }

  // ---------------------------------------------------------------------
  // The file

  /** LineEnd finds the first newline from `k`. */
  lemma {:induction false} LineEndAt(s: string, k: nat, e: nat)
    requires k <= e < |s| && s[e] == '\n'
    requires forall i :: k <= i < e ==> s[i] != '\n'
    ensures LineEnd(s, k) == e
    decreases e - k
  {
    if k < e {
      LineEndAt(s, k + 1, e);
    }
  }

  /** A line and its newline read back as that line, then the rest. */
  lemma ReadLine(line: string, rest: string)
    requires '\n' !in line
    ensures ReadLines(line + "\n" + rest) == [line] + ReadLines(rest)
  {
    var s := line + "\n" + rest;
    var e: nat := |line|;
    forall i | 0 <= i < e
      ensures s[i] != '\n'
    {
      assert s[i] == line[i];
    }
    LineEndAt(s, 0, e);
    assert s[..e] == line;
    assert s[e + 1..] == rest;
  }

  /** A stored line of a storable task is one line of the file. */
  lemma StoredLineOneLine(t: Task, tags: string)
    requires Storable(t, tags)
    ensures '\n' !in DataString(t, tags)
  {
    var fs := DataFields(t, tags);
    assert fs[0] == [KindLetter(t.kind)] && fs[1] == DoneFlag(t.isDone) && fs[2] == t.description;
    LetterFlagSafe(t.kind, t.isDone);
    assert '\n' !in fs[0] && '\n' !in fs[1];
    match t.kind {
      case ToDo =>
      case Deadline(_) =>
        assert fs[3] == Due(t.kind);
        DueSafe(t.kind);
      case Event(from, to) =>
        assert fs[3] == from + " - " + to && fs[4] == tags;
        SpanSafe(from, to);
    }
    JoinAvoids(fs, " | ", '\n');
  }

  /** Reading back lines written with `\n` after each gives the lines. */
  lemma {:induction false} ReadWritten(lines: seq<string>)
    requires forall i :: 0 <= i < |lines| ==> '\n' !in lines[i]
    ensures ReadLines(WriteLines(lines, "\n")) == lines
    decreases |lines|
  {
    if lines != [] {
      ReadLine(lines[0], WriteLines(lines[1..], "\n"));
      ReadWritten(lines[1..]);
      assert [lines[0]] + lines[1..] == lines;
    }
  }

  /** Reading back a file saved with `\n` separators gives the stored lines. */
  lemma ReadSaved(tasks: seq<Task>, tags: Task -> string)
    requires forall i :: 0 <= i < |tasks| ==> '\n' !in DataString(tasks[i], tags(tasks[i]))
    ensures ReadLines(SaveContent(tasks, tags, "\n")) == SavedLines(tasks, tags)
  {
    ReadWritten(SavedLines(tasks, tags));
  }

  /** save() then load(): storable tasks written with `\n` separators load
      back as the same tasks in the same order, under any span rule that
      reads each event's start back. */
  lemma SaveThenLoad(tasks: seq<Task>, tags: Task -> string, rule: SpanRule)
    requires forall i :: 0 <= i < |tasks| ==> Storable(tasks[i], tags(tasks[i])) && SpanReadable(tasks[i], rule)
    ensures LoadLines(ReadLines(SaveContent(tasks, tags, "\n")), rule) == Success(tasks)
  {
    forall i | 0 <= i < |tasks|
      ensures '\n' !in DataString(tasks[i], tags(tasks[i]))
    {
      StoredLineOneLine(tasks[i], tags(tasks[i]));
    }
    ReadSaved(tasks, tags);
    LoadSaved(tasks, tags, rule);
  }
}
