/** The task hierarchy of boyd.tasks: a description and a done flag shared by
    every task, and the extra fields of ToDo, Deadline and Event. */
module Tasks {
  import opened Results
  import opened Text
  import opened DateTimes

  /** A date-time a Deadline can hold: one that java.time accepted. */
  type Moment = t: DateTime | ValidDateTime(t) witness DateTime(Date(2000, 1, 1), 0, 0)

  datatype Kind =
    | ToDo
    | Deadline(at: Moment)
    | Event(from: string, to: string)

  datatype Task = Task(description: string, isDone: bool, kind: Kind)

  /** Every constructor starts with the task not done. */
  function NewToDo(description: string): (t: Task)
    ensures t.description == description && !t.isDone && t.kind.ToDo?
  {
    Task(description, false, ToDo)
  }

  /** Deadline(description, date): LocalDate.parse(date) at 00:00; None is the
      DateTimeParseException. */
  function NewDeadline(description: string, date: string): (r: Option<Task>)
    ensures r.Some? <==> ParseIsoDate(date).Some?
    ensures r.Some? ==> r.value.description == description && !r.value.isDone
                        && r.value.kind.Deadline? && Due(r.value.kind) == date + " 00:00"
  {
    match ParseIsoDate(date)
    case Some(d) =>
      var at := AtMidnight(d);
      Concat5(date, " ", Digits(0, 2), ":", Digits(0, 2), 10, 11, 13, 14);
      Some(Task(description, false, Deadline(at)))
    case None => None
  }

  /** Deadline(description, date, time): the date must parse on its own, then
      `date + " " + time` must match `uuuu-MM-dd HH:mm`. */
  function NewDeadlineAt(description: string, date: string, time: string): (r: Option<Task>)
    ensures r.Some? <==> ParseIsoDate(date).Some? && ParseDateTime(date + " " + time).Some?
    ensures r.Some? ==> r.value.description == description && !r.value.isDone
                        && r.value.kind.Deadline? && Due(r.value.kind) == date + " " + time
  {
    match ParseIsoDate(date)
    case Some(_) =>
      (match ParseDateTime(date + " " + time)
       case Some(at) => Some(Task(description, false, Deadline(at)))
       case None => None)
    case None => None
  }

  function NewEvent(description: string, from: string, to: string): (t: Task)
    ensures t.description == description && !t.isDone && t.kind == Event(from, to)
  {
    Task(description, false, Event(from, to))
  }

  /** The `due` field: the date-time in `uuuu-MM-dd HH:mm`. */
  function Due(k: Kind): (s: string)
    requires k.Deadline?
    ensures ParseDateTime(s) == Some(k.at)
  {
    ParseFormatDateTime(k.at);
    FormatDateTime(k.at)
  }

  function StatusIcon(t: Task): (s: string)
    ensures |s| == 1
    ensures s == "X" <==> t.isDone
    ensures !t.isDone ==> s == " "
  {
    if t.isDone then "X" else " "
  }

  function MarkAsDone(t: Task): (r: Task)
    ensures r.isDone
    ensures r.description == t.description && r.kind == t.kind
  {
    t.(isDone := true)
  }

  function UnmarkAsDone(t: Task): (r: Task)
    ensures !r.isDone
    ensures r.description == t.description && r.kind == t.kind
  {
    t.(isDone := false)
  }

  function KindLetter(k: Kind): char {
    match k
    case ToDo => 'T'
    case Deadline(_) => 'D'
    case Event(_, _) => 'E'
  }

  /** The text after the description in toString. */
  function DisplaySuffix(k: Kind): string {
    match k
    case ToDo => ""
    case Deadline(_) => " (by: " + Due(k) + ")"
    case Event(from, to) => " (from: " + from + " to: " + to + ")"
  }

  /** toString: `[T][X] read book`, `[D][ ] return book (by: 2019-12-02 18:00)`,
      `[E][ ] meeting (from: Mon 2pm to: 4pm)`. */
  function Display(t: Task): (s: string)
    ensures |s| == 7 + |t.description| + |DisplaySuffix(t.kind)|
    ensures s[..7] == ['[', KindLetter(t.kind), ']', '[', StatusIcon(t)[0], ']', ' ']
    ensures s[7..7 + |t.description|] == t.description
    ensures s[7 + |t.description|..] == DisplaySuffix(t.kind)
  {
    var head := ['[', KindLetter(t.kind), ']'];
    var base := "[" + StatusIcon(t) + "] " + t.description;
    var s := head + base + DisplaySuffix(t.kind);
    assert s == head + "[" + StatusIcon(t) + "] " + t.description + DisplaySuffix(t.kind);
    s
  }

  /** The `%d` of the done flag. */
  function DoneFlag(isDone: bool): (s: string)
    ensures s == "1" <==> isDone
    ensures s == "0" <==> !isDone
  {
    if isDone then "1" else "0"
  }

  /** The ` | `-separated fields of toDataString; `tags` stands for the
      formatTags() text an Event appends. */
  function DataFields(t: Task, tags: string): (fs: seq<string>)
    ensures |fs| == (match t.kind case ToDo => 3 case Deadline(_) => 4 case Event(_, _) => 5)
    ensures fs[..3] == [[KindLetter(t.kind)], DoneFlag(t.isDone), t.description]
  {
    var common := [[KindLetter(t.kind)], DoneFlag(t.isDone), t.description];
    match t.kind
    case ToDo => common
    case Deadline(_) => common + [Due(t.kind)]
    case Event(from, to) => common + [from + " - " + to, tags]
  }

  /** toDataString: the fields joined with ` | `. */
  function DataString(t: Task, tags: string): (s: string) {
    Join(DataFields(t, tags), " | ")
  }

  // ---------------------------------------------------------------------
  // Properties

  /** Marking twice is marking once, and unmarking undoes a mark. */
  lemma MarkIdempotent(t: Task)
    ensures MarkAsDone(MarkAsDone(t)) == MarkAsDone(t)
    ensures UnmarkAsDone(MarkAsDone(t)) == UnmarkAsDone(t)
    ensures !t.isDone ==> UnmarkAsDone(MarkAsDone(t)) == t
    ensures t.isDone ==> MarkAsDone(UnmarkAsDone(t)) == t
  {
  }

  /** Marking a task changes its display in the status icon only. */
  lemma {:induction false} MarkChangesOnlyIcon(t: Task)
    ensures |Display(MarkAsDone(t))| == |Display(t)|
    ensures Display(MarkAsDone(t))[4] == 'X'
    ensures forall i :: 0 <= i < |Display(t)| && i != 4 ==> Display(MarkAsDone(t))[i] == Display(t)[i]
  {
    var m := MarkAsDone(t);
    var a, b := Display(t), Display(m);
    var n := |t.description|;
    forall i | 0 <= i < |a| && i != 4
      ensures b[i] == a[i]
    {
      if i < 7 {
        assert a[i] == a[..7][i] && b[i] == b[..7][i];
      } else if i < 7 + n {
        assert a[i] == a[7..7 + n][i - 7] && b[i] == b[7..7 + n][i - 7];
      } else {
        assert a[i] == a[7 + n..][i - 7 - n] && b[i] == b[7 + n..][i - 7 - n];
      }
    }
    assert b[4] == b[..7][4];
  }

  /** A new task of each kind displays with its letter and an empty status box. */
  lemma NewTaskDisplay(description: string, from: string, to: string)
    ensures Display(NewToDo(description)) == "[T][ ] " + description
    ensures Display(NewEvent(description, from, to))
            == "[E][ ] " + description + " (from: " + from + " to: " + to + ")"
  {
    var t := NewToDo(description);
    var s := Display(t);
    assert s == s[..7] + s[7..7 + |description|] + s[7 + |description|..];
    var e := NewEvent(description, from, to);
    var se := Display(e);
    assert se == se[..7] + se[7..7 + |description|] + se[7 + |description|..];
  }

  /** The stored line of each kind: `T | f | desc`, `D | f | desc | due` and
      `E | f | desc | from - to | tags`. */
  lemma DataLines(t: Task, tags: string)
    ensures DataString(t, tags) == match t.kind
              case ToDo => "T" + " | " + DoneFlag(t.isDone) + " | " + t.description
              case Deadline(_) => "D" + " | " + DoneFlag(t.isDone) + " | " + t.description + " | " + Due(t.kind)
              case Event(from, to) =>
                "E" + " | " + DoneFlag(t.isDone) + " | " + t.description + " | " + (from + " - " + to) + " | " + tags
  {
    var flag := DoneFlag(t.isDone);
    match t.kind
    case ToDo =>
      assert DataFields(t, tags) == ["T", flag, t.description];
      Join3("T", flag, t.description, " | ");
    case Deadline(_) =>
      assert DataFields(t, tags) == ["D", flag, t.description, Due(t.kind)];
      Join4("D", flag, t.description, Due(t.kind), " | ");
    case Event(from, to) =>
      assert DataFields(t, tags) == ["E", flag, t.description, from + " - " + to, tags];
      Join5("E", flag, t.description, from + " - " + to, tags, " | ");
  }

  /** A new to-do is stored with the flag 0. */
  lemma NewToDoData(description: string, tags: string)
    ensures DataString(NewToDo(description), tags) == "T | 0 | " + description
  {
    DataLines(NewToDo(description), tags);
  }

  /** The stored line is the kind letter, the flag, and fields that do not
      depend on the flag. */
  lemma DataStringShape(t: Task, tags: string)
    ensures DataString(t, tags)
            == [KindLetter(t.kind)] + " | " + (DoneFlag(t.isDone) + " | " + Join(DataFields(t, tags)[2..], " | "))
    ensures DataFields(MarkAsDone(t), tags)[2..] == DataFields(t, tags)[2..]
  {
    var fs := DataFields(t, tags);
    JoinCons(fs, " | ");
    JoinCons(fs[1..], " | ");
    assert fs[1..][1..] == fs[2..];
  }

  /** Replacing the flag in `L | f | tail` is an update of position 4. */
  lemma FlagPosition(letter: char, flag: string, tail: string)
    requires |flag| == 1
    ensures var line := [letter] + " | " + (flag + " | " + tail);
            |line| > 4 && [letter] + " | " + ("1" + " | " + tail) == line[4 := '1']
  {
  }

  /** Marking a task changes its stored line in the flag digit only. */
  lemma MarkChangesOnlyFlag(t: Task, tags: string)
    ensures var line := DataString(t, tags);
            |line| > 4 && DataString(MarkAsDone(t), tags) == line[4 := '1']
  {
    var m := MarkAsDone(t);
    DataStringShape(t, tags);
    DataStringShape(m, tags);
    FlagPosition(KindLetter(t.kind), DoneFlag(t.isDone), Join(DataFields(t, tags)[2..], " | "));
  }

  /** The due text is canonical: rebuilding a deadline from its date half and
      its time half gives the same deadline back. */
  lemma DeadlineRebuild(t: Task)
    requires t.kind.Deadline?
    ensures var due := Due(t.kind);
            && |due| == 16 && due == due[..10] + " " + due[11..]
            && NewDeadlineAt(t.description, due[..10], due[11..]) == Some(Task(t.description, false, t.kind))
  {
    var at := t.kind.at;
    var date := FormatDate(at.date);
    var h, m := Digits(at.hour, 2), Digits(at.minute, 2);
    var due := Due(t.kind);
    assert due == date + " " + h + ":" + m;
    Concat5(date, " ", h, ":", m, 10, 11, 13, 14);
    assert due[..10] == date;
    assert due[11..] == h + ":" + m;
    assert due == due[..10] + " " + due[11..];
    ParseFormatDate(at.date);
  }
}
