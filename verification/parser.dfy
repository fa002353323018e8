/** Parser: one line of user input becomes a command, and the command is
    applied to a TaskList. */
module Parsing {
  import opened Results
  import opened Text
  import opened Regex
  import opened Tasks
  import opened CommandTypes
  import opened TaskLists

  /** What handle() does with a line, decided before the list is touched. */
  datatype Command =
    | Exit
    | ListAll
    | MarkItem(itemNo: int)
    | DeleteItem(itemNo: int)
    | AddTask(task: Task)

  /** The outcome of handle(): whether to exit, the list afterwards, and the
      message the list printed, if any. */
  datatype Outcome = Outcome(exit: bool, list: TaskList, shown: Option<string>)

  function UsageMessage(cmd: string): string {
    "Command should be: \"" + cmd + " <number>\""
  }

  function NumberMessage(cmd: string): string {
    "You must enter a valid number after '" + cmd + "'."
  }

  /** parseIndex(line, cmd): the text after the first `\s` run, trimmed, as an
      int. No such text, or blank text, is the usage error; text that is not
      an int is the number error. */
  function ParseIndex(line: string, cmd: string): (r: Result<int, string>)
    ensures r.Success? ==> IsInt32(r.value)
    ensures r.Failure? ==> r.error == UsageMessage(cmd) || r.error == NumberMessage(cmd)
    ensures r.Failure? && r.error == UsageMessage(cmd) <==>
              var parts := SplitOnce(Spaces, line); |parts| < 2 || IsBlank(parts[1])
  {
    var parts := SplitOnce(Spaces, line);
    if |parts| < 2 || IsBlank(parts[1]) then Failure(UsageMessage(cmd))
    else
      match ParseInt(Trim(parts[1]))
      case Some(n) => Success(n)
      case None => Failure(NumberMessage(cmd))
  }

  /** The command word parseTask looks up: the trimmed input up to its first `\s` run. */
  function FirstWord(input: string): string {
    SplitOnce(Spaces, Trim(input))[0]
  }

  /** The kind of task each command type creates. */
  predicate Creates(c: CommandType, k: Kind) {
    match c
    case TODO => k.ToDo?
    case DEADLINE => k.Deadline?
    case EVENT => k.Event?
  }

  const DeadlineFormat := "Deadline must have a description and a '/by' date."
  const DateTimeFormat := "Datetime format must be: yyyy-MM-dd HH:mm or yyyy-MM-dd."
  const EventFrom := "Event must have a description and a '/from' time."
  const EventTo := "Event must have both a '/from' and a '/to' time."

  /** The `todo` case: the rest, trimmed, must not be empty. */
  function ParseToDo(rest: Option<string>): (r: Result<Task, string>)
    ensures r.Success? ==> rest.Some? && r.value == NewToDo(Trim(rest.value)) && r.value.description != []
    ensures r.Failure? ==> r.error == "The description of a todo cannot be empty!"
  {
    if rest.None? || Trim(rest.value) == "" then Failure("The description of a todo cannot be empty!")
    else Success(NewToDo(Trim(rest.value)))
  }

  /** The `deadline` case: the rest is cut at the first ` /by `; the date part
      is a date and a time when it has a `\s` run in it, otherwise a date alone. */
  function ParseDeadline(rest: Option<string>): (r: Result<Task, string>)
    ensures r.Success? ==> r.value.kind.Deadline? && !r.value.isDone && IsTrimmed(r.value.description)
    ensures r.Failure? ==> r.error in {"The description of a deadline cannot be empty!", DeadlineFormat, DateTimeFormat}
  {
    if rest.None? || Trim(rest.value) == "" then Failure("The description of a deadline cannot be empty!")
    else
      var split := SplitOnce(Keyword("/by"), rest.value);
      if |split| < 2 || IsBlank(split[0]) || IsBlank(split[1]) then Failure(DeadlineFormat)
      else
        var desc := Trim(split[0]);
        var byText := Trim(split[1]);
        var chunks := SplitOnce(Spaces, byText);
        var made := if |chunks| == 2 then NewDeadlineAt(desc, chunks[0], chunks[1]) else NewDeadline(desc, byText);
        if made.Some? then Success(made.value) else Failure(DateTimeFormat)
  }

  /** The `event` case: the rest is cut at the first ` /from `, and what follows
      at the first ` /to `; the three pieces are trimmed. */
  function ParseEvent(rest: Option<string>): (r: Result<Task, string>)
    ensures r.Success? ==> r.value.kind.Event? && !r.value.isDone && IsTrimmed(r.value.description)
                           && IsTrimmed(r.value.kind.from) && IsTrimmed(r.value.kind.to)
    ensures r.Failure? ==> r.error in {"The description of an event cannot be empty!", EventFrom, EventTo}
  {
    if rest.None? || Trim(rest.value) == "" then Failure("The description of an event cannot be empty!")
    else
      var fromSplit := SplitOnce(Keyword("/from"), rest.value);
      if |fromSplit| < 2 || IsBlank(fromSplit[0]) then Failure(EventFrom)
      else
        var toSplit := SplitOnce(Keyword("/to"), fromSplit[1]);
        if |toSplit| < 2 || IsBlank(toSplit[0]) || IsBlank(toSplit[1]) then Failure(EventTo)
        else Success(NewEvent(Trim(fromSplit[0]), Trim(toSplit[0]), Trim(toSplit[1])))
  }

  /** The text after the command word, when the trimmed input has a `\s` run. */
  function Rest(input: string): Option<string> {
    var parts := SplitOnce(Spaces, Trim(input));
    if |parts| == 2 then Some(parts[1]) else None
  }

  /** parseTask(input): the first word picks the task type, and the rest of the
      line is handled by that type's case. */
  function ParseTask(input: string): (r: Result<Task, string>)
    ensures r.Success? ==> FromString(FirstWord(input)).Success?
                           && Creates(FromString(FirstWord(input)).value, r.value.kind)
    ensures r.Success? ==> !r.value.isDone && IsTrimmed(r.value.description)
    ensures r.Success? && r.value.kind.ToDo? ==> r.value.description != []
    ensures r.Success? && r.value.kind.Event? ==> IsTrimmed(r.value.kind.from) && IsTrimmed(r.value.kind.to)
    ensures FromString(FirstWord(input)).Failure? ==> r == Failure("Unknown command: " + FirstWord(input))
  {
    match FromString(FirstWord(input))
    case Failure(_) => Failure("Unknown command: " + FirstWord(input))
    case Success(TODO) => ParseToDo(Rest(input))
    case Success(DEADLINE) => ParseDeadline(Rest(input))
    case Success(EVENT) => ParseEvent(Rest(input))
  }

  /** The dispatch of handle(): `bye` and `list` in any case, then lines that
      start with `mark` or `delete` (case-sensitively), then a new task. */
  function Parse(input: string): (r: Result<Command, string>)
    ensures r == Success(Exit) <==> EqualsIgnoreCase(Trim(input), "bye")
    ensures r == Success(ListAll) <==> EqualsIgnoreCase(Trim(input), "list")
    ensures r.Success? && r.value.MarkItem? ==> StartsWith(Trim(input), "mark")
    ensures r.Success? && r.value.DeleteItem? ==> StartsWith(Trim(input), "delete") && !StartsWith(Trim(input), "mark")
    ensures r.Success? && r.value.AddTask? ==> ParseTask(Trim(input)) == Success(r.value.task)
    ensures var t := Trim(input);
            !EqualsIgnoreCase(t, "bye") && !EqualsIgnoreCase(t, "list") && StartsWith(t, "mark") ==>
              r == match ParseIndex(t, "mark") case Success(n) => Success(MarkItem(n)) case Failure(e) => Failure(e)
    ensures var t := Trim(input);
            !EqualsIgnoreCase(t, "bye") && !EqualsIgnoreCase(t, "list") && !StartsWith(t, "mark") && StartsWith(t, "delete") ==>
              r == match ParseIndex(t, "delete") case Success(n) => Success(DeleteItem(n)) case Failure(e) => Failure(e)
    ensures var t := Trim(input);
            !EqualsIgnoreCase(t, "bye") && !EqualsIgnoreCase(t, "list") && !StartsWith(t, "mark") && !StartsWith(t, "delete") ==>
              r == match ParseTask(t) case Success(task) => Success(AddTask(task)) case Failure(e) => Failure(e)
  {
    var trimmed := Trim(input);
    if EqualsIgnoreCase(trimmed, "bye") then Success(Exit)
    else if EqualsIgnoreCase(trimmed, "list") then Success(ListAll)
    else if StartsWith(trimmed, "mark") then
      var n :- ParseIndex(trimmed, "mark");
      Success(MarkItem(n))
    else if StartsWith(trimmed, "delete") then
      var n :- ParseIndex(trimmed, "delete");
      Success(DeleteItem(n))
    else
      var t :- ParseTask(trimmed);
      Success(AddTask(t))
  }

  /** Applying a command: the list's own operation, whose exception fails the command. */
  function Execute(c: Command, l: TaskList): (r: Result<Outcome, string>)
    ensures r.Success? ==> (r.value.exit <==> c.Exit?)
    ensures r.Success? && (c.Exit? || c.ListAll?) ==> r.value.list == l
    ensures r.Success? ==> r.value.list.hasStorage == l.hasStorage
    ensures r.Success? ==> l.saved <= r.value.list.saved && |r.value.list.saved| <= |l.saved| + 1
  {
    match c
    case Exit => Success(Outcome(true, l, None))
    case ListAll =>
      var text :- List(l);
      Success(Outcome(false, l, Some(text)))
    case MarkItem(n) =>
      var change :- Mark(l, n);
      Success(Outcome(false, change.list, Some(change.message)))
    case DeleteItem(n) =>
      var change :- Remove(l, n);
      Success(Outcome(false, change.list, Some(change.message)))
    case AddTask(t) =>
      var change := Add(l, t);
      Success(Outcome(false, change.list, Some(change.message)))
  }

  /** handle(input, tasks). A Failure is the BoydException handle throws; every
      throw comes before the list changes, so the caller's list stays as it was. */
  function Handle(input: string, l: TaskList): (r: Result<Outcome, string>)
    ensures r.Success? ==> (r.value.exit <==> EqualsIgnoreCase(Trim(input), "bye"))
    ensures r.Success? ==> r.value.list.hasStorage == l.hasStorage
    ensures r.Success? ==> l.saved <= r.value.list.saved && |r.value.list.saved| <= |l.saved| + 1
    ensures EqualsIgnoreCase(Trim(input), "bye") ==> r == Success(Outcome(true, l, None))
    ensures Parse(input).Failure? ==> r == Failure(Parse(input).error)
    ensures Parse(input).Success? ==> r == Execute(Parse(input).value, l)
  {
    var c :- Parse(input);
    Execute(c, l)
  }
}

module ParsingFacts {
  import opened Results
  import opened Text
  import opened Regex
  import opened DateTimes
  import opened Tasks
  import opened CommandTypes
  import opened TaskLists
  import opened Parsing

  /** A rendered int is non-empty, starts with a digit or `-` and ends with a digit. */
  lemma IntStringEnds(n: int)
    ensures var s := IntString(n);
            && s != [] && IsTrimmed(s) && !IsBlank(s) && !IsRegexSpace(s[0])
  {
    var s := IntString(n);
    if n < 0 {
      assert s[|s| - 1] == NatString(-n)[|NatString(-n)| - 1];
    }
  }

  /** `<cmd> <int>` gives back the int. */
  lemma ParseIndexOfInt(cmd: string, w: string, n: int)
    requires NoRegexSpace(cmd) && w != [] && AllSpaces(w) && IsInt32(n)
    ensures ParseIndex(cmd + w + IntString(n), cmd) == Success(n)
  {
    IntStringEnds(n);
    SplitOnceSpaces(cmd, w, IntString(n));
    ParseIntString(n);
  }

  /** A word and text that is an int gives that int's value, whatever its
      spelling: `mark 01`, `mark +3` and `mark -0` included. */
  lemma ParseIndexValue(cmd: string, w: string, text: string)
    requires NoRegexSpace(cmd) && w != [] && AllSpaces(w)
    requires text != [] && IsTrimmed(text) && !IsBlank(text) && ParseInt(text).Some?
    ensures ParseIndex(cmd + w + text, cmd) == Success(ParseInt(text).value)
  {
    SplitOnceSpaces(cmd, w, text);
  }

  /** A word and a signed decimal numeral: the numeral's value when it fits in
      32 bits, and the number error when it does not. */
  lemma ParseIndexSigned(cmd: string, w: string, sign: string, digits: string)
    requires NoRegexSpace(cmd) && w != [] && AllSpaces(w)
    requires sign == "" || sign == "+" || sign == "-"
    requires digits != [] && AllDigits(digits)
    ensures var v: int := if sign == "-" then -(DigitsValue(digits) as int) else DigitsValue(digits);
            ParseIndex(cmd + w + (sign + digits), cmd)
            == if IsInt32(v) then Success(v) else Failure(NumberMessage(cmd))
  {
    var text := sign + digits;
    assert text[0] == (if sign == "" then digits[0] else sign[0]);
    assert text[|text| - 1] == digits[|digits| - 1];
    assert !IsJavaWhitespace(text[|text| - 1]);
    ParseIntSigned(sign, digits);
    if ParseInt(text).Some? {
      ParseIndexValue(cmd, w, text);
    } else {
      ParseIndexNotANumber(cmd, w, text);
    }
  }

  /** The word alone is the usage error. */
  lemma ParseIndexMissing(cmd: string)
    requires NoRegexSpace(cmd)
    ensures ParseIndex(cmd, cmd) == Failure(UsageMessage(cmd))
  {
    SplitOnceNoSpaces(cmd);
  }

  /** A word and text that is not a number is the number error. */
  lemma ParseIndexNotANumber(cmd: string, w: string, text: string)
    requires NoRegexSpace(cmd) && w != [] && AllSpaces(w)
    requires text != [] && IsTrimmed(text) && !IsBlank(text) && ParseInt(text).None?
    ensures ParseIndex(cmd + w + text, cmd) == Failure(NumberMessage(cmd))
  {
    SplitOnceSpaces(cmd, w, text);
  }

  /** A command word in any ASCII case is made of letters only. */
  lemma WordLetters(word: string, c: CommandType)
    requires ToLowerAscii(word) == Word(c)
    ensures word != [] && NoRegexSpace(word) && IsTrimmed(word)
  {
    var lower := Word(c);
    assert forall i :: 0 <= i < |lower| ==> 'a' <= lower[i] <= 'z' by {
      match c
      case TODO =>
      case DEADLINE =>
      case EVENT =>
    }
    forall i | 0 <= i < |word|
      ensures 'a' <= LowerAscii(word[i]) <= 'z'
    {
      assert LowerAscii(word[i]) == lower[i];
    }
  }

  /** A trimmed line `<word><\s run><rest>` splits into the word and the rest. */
  lemma SplitCommandLine(word: string, w: string, rest: string)
    requires word != [] && NoRegexSpace(word) && IsTrimmed(word)
    requires w != [] && AllSpaces(w)
    requires rest != [] && IsTrimmed(rest)
    ensures Trim(word + w + rest) == word + w + rest
    ensures FirstWord(word + w + rest) == word
    ensures Rest(word + w + rest) == Some(rest)
  {
    var s := word + w + rest;
    assert IsTrimmed(s) by {
      assert s[0] == word[0] && s[|s| - 1] == rest[|rest| - 1];
    }
    assert Trim(s) == s;
    assert SplitOnce(Spaces, s) == [word, rest] by {
      RegexSpaceIsTrimmable(rest[0]);
      SplitOnceSpaces(word, w, rest);
    }
  }

  /** parseTask hands the rest of a line to the case its command word names. */
  lemma ParseTaskCase(word: string, w: string, rest: string, c: CommandType)
    requires ToLowerAscii(word) == Word(c)
    requires w != [] && AllSpaces(w)
    requires rest != [] && IsTrimmed(rest)
    ensures ParseTask(word + w + rest) == match c
              case TODO => ParseToDo(Some(rest))
              case DEADLINE => ParseDeadline(Some(rest))
              case EVENT => ParseEvent(Some(rest))
  {
    WordLetters(word, c);
    SplitCommandLine(word, w, rest);
  }

  /** parseTask hands the rest of a `deadline` line to the deadline case. */
  lemma ParseTaskDeadline(word: string, w: string, rest: string)
    requires ToLowerAscii(word) == "deadline" && w != [] && AllSpaces(w)
    requires rest != [] && IsTrimmed(rest)
    ensures ParseTask(word + w + rest) == ParseDeadline(Some(rest))
  {
    ParseTaskCase(word, w, rest, DEADLINE);
  }

  /** parseTask hands the rest of an `event` line to the event case. */
  lemma ParseTaskEvent(word: string, w: string, rest: string)
    requires ToLowerAscii(word) == "event" && w != [] && AllSpaces(w)
    requires rest != [] && IsTrimmed(rest)
    ensures ParseTask(word + w + rest) == ParseEvent(Some(rest))
  {
    ParseTaskCase(word, w, rest, EVENT);
  }

  /** `<d> /by <date> <time>` is trimmed when `d` and `time` are. */
  lemma ByLineTrimmed(d: string, date: string, time: string)
    requires d != [] && IsTrimmed(d) && time != [] && IsTrimmed(time)
    ensures IsTrimmed(d + " /by " + date + " " + time)
  {
    TrimmedEnds(d + " /by " + date + " ", time);
  }

  /** `<d> /from <f> /to <t>` is trimmed when `d` and `t` are. */
  lemma FromToLineTrimmed(d: string, f: string, t: string)
    requires d != [] && IsTrimmed(d) && t != [] && IsTrimmed(t)
    ensures IsTrimmed(d + " /from " + f + " /to " + t)
  {
    TrimmedEnds(d + " /from " + f + " /to ", t);
  }

  /** A string with a non-blank start is not blank. */
  lemma NotBlankPrefix(a: string, b: string)
    requires !IsBlank(a)
    ensures !IsBlank(a + b)
  {
    var i :| 0 <= i < |a| && !IsJavaWhitespace(a[i]);
    assert (a + b)[i] == a[i];
  }

  /** `todo <d>` in any ASCII case makes a to-do of the trimmed description. */
  lemma ParseToDoLine(word: string, w: string, d: string)
    requires ToLowerAscii(word) == "todo"
    requires w != [] && AllSpaces(w)
    requires d != [] && IsTrimmed(d)
    ensures ParseTask(word + w + d) == Success(NewToDo(d))
  {
    ParseTaskCase(word, w, d, TODO);
  }

  /** A `todo` word with nothing after it is the empty-description error. */
  lemma ParseToDoEmpty(word: string)
    requires ToLowerAscii(word) == "todo"
    ensures ParseTask(word) == Failure("The description of a todo cannot be empty!")
  {
    WordLetters(word, TODO);
    SplitOnceNoSpaces(word);
  }

  /** The deadline case once the line is known to cut at ` /by ` into two
      trimmed, non-blank pieces. */
  lemma DeadlineAfterSplit(rest: string, d: string, when: string)
    requires rest != [] && Trim(rest) == rest
    requires SplitOnce(Keyword("/by"), rest) == [d, when]
    requires !IsBlank(d) && !IsBlank(when) && IsTrimmed(d) && IsTrimmed(when)
    ensures var chunks := SplitOnce(Spaces, when);
            var made := if |chunks| == 2 then NewDeadlineAt(d, chunks[0], chunks[1]) else NewDeadline(d, when);
            ParseDeadline(Some(rest)) == if made.Some? then Success(made.value) else Failure(DateTimeFormat)
  {
  }

  lemma DeadlineAtAfterSplit(rest: string, d: string, when: string, date: string, time: string)
    requires rest != [] && Trim(rest) == rest
    requires SplitOnce(Keyword("/by"), rest) == [d, when]
    requires !IsBlank(d) && !IsBlank(when) && IsTrimmed(d) && IsTrimmed(when)
    requires SplitOnce(Spaces, when) == [date, time]
    ensures ParseDeadline(Some(rest))
            == match NewDeadlineAt(d, date, time)
               case Some(t) => Success(t)
               case None => Failure(DateTimeFormat)
  {
    DeadlineAfterSplit(rest, d, when);
  }

  /** `<date> <time>` after ` /by `: trimmed, not blank, and cut in two at the space. */
  lemma DateTimeText(date: string, time: string)
    requires date != [] && IsTrimmed(date) && !IsBlank(date) && NoRegexSpace(date)
    requires time != [] && IsTrimmed(time)
    ensures var when := date + " " + time;
            && IsTrimmed(when) && !IsBlank(when)
            && SplitOnce(Spaces, when) == [date, time]
  {
    var when := date + " " + time;
    assert !IsBlank(when) by {
      var i :| 0 <= i < |date| && !IsJavaWhitespace(date[i]);
      assert when[i] == date[i];
    }
    assert when[0] == date[0] && when[|when| - 1] == time[|time| - 1];
    RegexSpaceIsTrimmable(time[0]);
    SplitOnceSpaces(date, " ", time);
  }

  /** ` /by ` cuts `<d> /by <when>` at the keyword when `/by` does not occur in `d`. */
  lemma CutAtBy(d: string, date: string, time: string)
    requires d != [] && IsTrimmed(d) && !Occurs(d, "/by")
    requires date != [] && IsTrimmed(date)
    ensures SplitOnce(Keyword("/by"), d + " /by " + date + " " + time) == [d, date + " " + time]
  {
    var when := date + " " + time;
    assert d + " /by " + date + " " + time == d + " " + "/by" + " " + when;
    assert when[0] == date[0];
    RegexSpaceIsTrimmable(date[0]);
    RegexSpaceIsTrimmable(d[|d| - 1]);
    SplitOnceKeyword(d, " ", "/by", " ", when);
  }

  /** A line that starts and ends with non-trimmable characters is trimmed. */
  lemma TrimmedEnds(a: string, b: string)
    requires a != [] && !IsTrimmable(a[0]) && b != [] && IsTrimmed(b)
    ensures Trim(a + b) == a + b
  {
    var s := a + b;
    assert s[0] == a[0] && s[|s| - 1] == b[|b| - 1];
  }

  /** `<d> /by <date> <time>`: a deadline at that date and time when java.time
      accepts both, otherwise the date-time format error. */
  lemma ParseDeadlineDateTime(d: string, date: string, time: string)
    requires d != [] && IsTrimmed(d) && !IsBlank(d) && !Occurs(d, "/by")
    requires date != [] && IsTrimmed(date) && !IsBlank(date) && NoRegexSpace(date)
    requires time != [] && IsTrimmed(time)
    ensures ParseDeadline(Some(d + " /by " + date + " " + time))
            == match NewDeadlineAt(d, date, time)
               case Some(t) => Success(t)
               case None => Failure(DateTimeFormat)
  {
    CutAtBy(d, date, time);
    TrimmedEnds(d + " /by " + date + " ", time);
    DateTimeText(date, time);
    DeadlineAtAfterSplit(d + " /by " + date + " " + time, d, date + " " + time, date, time);
  }

  /** `<d> /by <date>`: a deadline at the start of that date when it is one. */
  lemma ParseDeadlineDate(d: string, date: string)
    requires d != [] && IsTrimmed(d) && !IsBlank(d) && !Occurs(d, "/by")
    requires date != [] && IsTrimmed(date) && !IsBlank(date) && NoRegexSpace(date)
    ensures ParseDeadline(Some(d + " /by " + date))
            == match NewDeadline(d, date)
               case Some(t) => Success(t)
               case None => Failure(DateTimeFormat)
  {
    var rest := d + " " + "/by" + " " + date;
    assert d + " /by " + date == rest;
    assert Trim(rest) == rest by {
      assert rest[0] == d[0] && rest[|rest| - 1] == date[|date| - 1];
      RegexSpaceIsTrimmable(d[0]);
    }
    assert SplitOnce(Keyword("/by"), rest) == [d, date] by {
      RegexSpaceIsTrimmable(date[0]);
      SplitOnceKeyword(d, " ", "/by", " ", date);
    }
    SplitOnceNoSpaces(date);
    DeadlineAfterSplit(rest, d, date);
  }

  /** Without `/by` a deadline is the missing-date error. */
  lemma ParseDeadlineNoBy(d: string)
    requires d != [] && IsTrimmed(d) && KeywordFree(d, "/by")
    ensures ParseDeadline(Some(d)) == Failure(DeadlineFormat)
  {
    SplitOnceKeywordAbsent(d, "/by");
  }

  /** The event case once the line is known to cut at ` /from ` and ` /to `
      into trimmed, non-blank pieces. */
  lemma EventAfterSplit(rest: string, d: string, tail: string, f: string, t: string)
    requires rest != [] && Trim(rest) == rest
    requires SplitOnce(Keyword("/from"), rest) == [d, tail]
    requires SplitOnce(Keyword("/to"), tail) == [f, t]
    requires !IsBlank(d) && !IsBlank(f) && !IsBlank(t) && IsTrimmed(d) && IsTrimmed(f) && IsTrimmed(t)
    ensures ParseEvent(Some(rest)) == Success(NewEvent(d, f, t))
  {
  }

  lemma CutAtTo(f: string, t: string)
    requires f != [] && IsTrimmed(f) && !Occurs(f, "/to")
    requires t != [] && IsTrimmed(t)
    ensures SplitOnce(Keyword("/to"), f + " /to " + t) == [f, t]
  {
    assert f + " /to " + t == f + " " + "/to" + " " + t;
    RegexSpaceIsTrimmable(t[0]);
    RegexSpaceIsTrimmable(f[|f| - 1]);
    SplitOnceKeyword(f, " ", "/to", " ", t);
  }

  lemma CutAtFrom(d: string, f: string, t: string)
    requires d != [] && IsTrimmed(d) && !Occurs(d, "/from")
    requires f != [] && IsTrimmed(f)
    ensures SplitOnce(Keyword("/from"), d + " /from " + f + " /to " + t) == [d, f + " /to " + t]
  {
    var tail := f + " /to " + t;
    assert d + " /from " + f + " /to " + t == d + " " + "/from" + " " + tail;
    assert tail[0] == f[0];
    RegexSpaceIsTrimmable(f[0]);
    RegexSpaceIsTrimmable(d[|d| - 1]);
    SplitOnceKeyword(d, " ", "/from", " ", tail);
  }

  /** `<d> /from <f> /to <t>` is the event with those three pieces. */
  lemma ParseEventFull(d: string, f: string, t: string)
    requires d != [] && IsTrimmed(d) && !IsBlank(d) && !Occurs(d, "/from")
    requires f != [] && IsTrimmed(f) && !IsBlank(f) && !Occurs(f, "/to")
    requires t != [] && IsTrimmed(t) && !IsBlank(t)
    ensures ParseEvent(Some(d + " /from " + f + " /to " + t)) == Success(NewEvent(d, f, t))
  {
    CutAtFrom(d, f, t);
    CutAtTo(f, t);
    TrimmedEnds(d + " /from " + f + " /to ", t);
    EventAfterSplit(d + " /from " + f + " /to " + t, d, f + " /to " + t, f, t);
  }

  /** `<d> /from <f>` without `/to` is the missing-`/to` error. */
  lemma ParseEventNoTo(d: string, f: string)
    requires d != [] && IsTrimmed(d) && !IsBlank(d) && !Occurs(d, "/from")
    requires f != [] && IsTrimmed(f) && KeywordFree(f, "/to")
    ensures ParseEvent(Some(d + " /from " + f)) == Failure(EventTo)
  {
    var rest := d + " " + "/from" + " " + f;
    assert d + " /from " + f == rest;
    assert Trim(rest) == rest by {
      assert rest[0] == d[0] && rest[|rest| - 1] == f[|f| - 1];
      RegexSpaceIsTrimmable(d[0]);
    }
    assert SplitOnce(Keyword("/from"), rest) == [d, f] by {
      RegexSpaceIsTrimmable(f[0]);
      SplitOnceKeyword(d, " ", "/from", " ", f);
    }
    SplitOnceKeywordAbsent(f, "/to");
  }

  /** `deadline <d> /by <date> <time>`, the command word in any ASCII case. */
  lemma ParseDeadlineLine(word: string, w: string, d: string, date: string, time: string)
    requires ToLowerAscii(word) == "deadline" && w != [] && AllSpaces(w)
    requires d != [] && IsTrimmed(d) && !IsBlank(d) && !Occurs(d, "/by")
    requires date != [] && IsTrimmed(date) && !IsBlank(date) && NoRegexSpace(date)
    requires time != [] && IsTrimmed(time)
    ensures ParseTask(word + w + (d + " /by " + date + " " + time))
            == match NewDeadlineAt(d, date, time)
               case Some(t) => Success(t)
               case None => Failure(DateTimeFormat)
  {
    ByLineTrimmed(d, date, time);
    ParseTaskDeadline(word, w, d + " /by " + date + " " + time);
    ParseDeadlineDateTime(d, date, time);
  }

  /** `event <d> /from <f> /to <t>`, the command word in any ASCII case. */
  lemma ParseEventLine(word: string, w: string, d: string, f: string, t: string)
    requires ToLowerAscii(word) == "event" && w != [] && AllSpaces(w)
    requires d != [] && IsTrimmed(d) && !IsBlank(d) && !Occurs(d, "/from")
    requires f != [] && IsTrimmed(f) && !IsBlank(f) && !Occurs(f, "/to")
    requires t != [] && IsTrimmed(t) && !IsBlank(t)
    ensures ParseTask(word + w + (d + " /from " + f + " /to " + t)) == Success(NewEvent(d, f, t))
  {
    FromToLineTrimmed(d, f, t);
    ParseTaskEvent(word, w, d + " /from " + f + " /to " + t);
    ParseEventFull(d, f, t);
  }

  // ---------------------------------------------------------------------
  // The lines of the parser tests, for every description and date that
  // behave like the ones the tests use

  /** A rendered date-time cuts at its space into a date half and a time half
      that a deadline line can carry and that parse back to it. */
  lemma MomentHalves(at: Moment)
    ensures var s := FormatDateTime(at);
            && |s| == 16 && s == s[..10] + " " + s[11..]
            && s[..10] != [] && IsTrimmed(s[..10]) && !IsBlank(s[..10]) && NoRegexSpace(s[..10])
            && s[11..] != [] && IsTrimmed(s[11..])
            && ParseIsoDate(s[..10]).Some? && ParseDateTime(s) == Some(at)
  {
    var s := FormatDateTime(at);
    var date := FormatDate(at.date);
    var h, m := Digits(at.hour, 2), Digits(at.minute, 2);
    Concat5(date, " ", h, ":", m, 10, 11, 13, 14);
    FormattedShape(at);
    assert s == s[..10] + " " + s[11..];
    assert s[..10][0] == s[0];
    forall i | 0 <= i < 10
      ensures !IsRegexSpace(s[..10][i]) && !IsTrimmable(s[..10][i])
    {
      assert s[..10][i] == s[i];
    }
    assert s[11..][0] == s[11] && s[11..][4] == s[15];
    ParseFormatDate(at.date);
    ParseFormatDateTime(at);
  }

  /** The `/by` text of a line, written as one piece or as its two halves. */
  lemma ByText(d: string, s: string, date: string, time: string)
    requires s == date + " " + time
    ensures d + " /by " + date + " " + time == d + " /by " + s
  {
  }

  /** The two halves of a rendered date-time build the deadline due then. */
  lemma DeadlineOfHalves(d: string, at: Moment)
    ensures var s := FormatDateTime(at);
            |s| == 16 && NewDeadlineAt(d, s[..10], s[11..]) == Some(Task(d, false, Deadline(at)))
  {
    MomentHalves(at);
  }

  /** A deadline line with a valid date and time stores as
      `D | 0 | <d> | <date> <time>`. */
  lemma DeadlineLineData(word: string, w: string, d: string, at: Moment, tags: string)
    requires ToLowerAscii(word) == "deadline" && w != [] && AllSpaces(w)
    requires d != [] && IsTrimmed(d) && !IsBlank(d) && !Occurs(d, "/by")
    ensures var r := ParseTask(word + w + (d + " /by " + FormatDateTime(at)));
            && r == Success(Task(d, false, Deadline(at)))
            && DataString(r.value, tags) == "D" + " | " + "0" + " | " + d + " | " + FormatDateTime(at)
  {
    var s := FormatDateTime(at);
    MomentHalves(at);
    var date, time := s[..10], s[11..];
    ParseDeadlineLine(word, w, d, date, time);
    DeadlineOfHalves(d, at);
    ByText(d, s, date, time);
    DataLines(Task(d, false, Deadline(at)), tags);
  }

  /** A deadline line without `/by` fails with a message that names `/by`. */
  lemma DeadlineLineMissingBy(word: string, w: string, d: string)
    requires ToLowerAscii(word) == "deadline" && w != [] && AllSpaces(w)
    requires d != [] && IsTrimmed(d) && KeywordFree(d, "/by")
    ensures ParseTask(word + w + d) == Failure(DeadlineFormat)
  {
    ParseTaskDeadline(word, w, d);
    ParseDeadlineNoBy(d);
  }

  /** The missing-date message names `/by`. */
  lemma DeadlineFormatNamesBy()
    ensures DeadlineFormat[40..43] == "/by"
  {
  }

  /** An event line with `/from` but no `/to` fails. */
  lemma EventLineMissingTo(word: string, w: string, d: string, f: string)
    requires ToLowerAscii(word) == "event" && w != [] && AllSpaces(w)
    requires d != [] && IsTrimmed(d) && !IsBlank(d) && !Occurs(d, "/from")
    requires f != [] && IsTrimmed(f) && KeywordFree(f, "/to")
    ensures ParseTask(word + w + (d + " /from " + f)) == Failure(EventTo)
  {
    TrimmedEnds(d + " /from ", f);
    ParseTaskEvent(word, w, d + " /from " + f);
    ParseEventNoTo(d, f);
  }

  // ---------------------------------------------------------------------
  // handle() on whole lines

  /** A trimmed line longer than `list` that starts with neither `m` nor `d`
      is a new task. */
  lemma ParseAddCase(input: string)
    requires Trim(input) == input && |input| > 4 && input[0] != 'm' && input[0] != 'd'
    ensures Parse(input) == match ParseTask(input)
              case Success(t) => Success(AddTask(t))
              case Failure(e) => Failure(e)
  {
    assert !StartsWith(input, "mark") && !StartsWith(input, "delete") by {
      assert input[..4][0] == input[0];
    }
  }

  lemma ParseMarkCase(input: string)
    requires Trim(input) == input && |input| > 4 && StartsWith(input, "mark")
    ensures Parse(input) == match ParseIndex(input, "mark")
              case Success(n) => Success(MarkItem(n))
              case Failure(e) => Failure(e)
  {
  }

  lemma ParseDeleteCase(input: string)
    requires Trim(input) == input && |input| > 6 && StartsWith(input, "delete")
    ensures Parse(input) == match ParseIndex(input, "delete")
              case Success(n) => Success(DeleteItem(n))
              case Failure(e) => Failure(e)
  {
    assert input[0] == input[..6][0] == 'd';
    assert !StartsWith(input, "mark") by {
      assert input[..4][0] == input[0];
    }
    assert !EqualsIgnoreCase(input, "bye") && !EqualsIgnoreCase(input, "list");
  }

  lemma ParseAddOf(input: string, r: Result<Task, string>)
    requires Trim(input) == input && |input| > 4 && input[0] != 'm' && input[0] != 'd'
    requires ParseTask(input) == r
    ensures Parse(input) == match r
              case Success(t) => Success(AddTask(t))
              case Failure(e) => Failure(e)
  {
    ParseAddCase(input);
  }

  /** handle() runs the command its line parses to. */
  lemma HandleOf(input: string, l: TaskList, c: Command)
    requires Parse(input) == Success(c)
    ensures Handle(input, l) == Execute(c, l)
  {
  }

  lemma ParseMarkOf(input: string, n: int)
    requires Trim(input) == input && |input| > 4 && StartsWith(input, "mark")
    requires ParseIndex(input, "mark") == Success(n)
    ensures Parse(input) == Success(MarkItem(n))
  {
    ParseMarkCase(input);
  }

  lemma ParseDeleteOf(input: string, n: int)
    requires Trim(input) == input && |input| > 6 && StartsWith(input, "delete")
    requires ParseIndex(input, "delete") == Success(n)
    ensures Parse(input) == Success(DeleteItem(n))
  {
    ParseDeleteCase(input);
  }

  /** `<p><\s run><int>` is trimmed, starts with `p`, and is longer than `p`. */
  lemma NumberedLine(p: string, w: string, n: int)
    requires p != [] && !IsTrimmable(p[0]) && w != []
    ensures var line := p + w + IntString(n);
            && Trim(line) == line && StartsWith(line, p) && |line| >= |p| + 2
  {
    IntStringEnds(n);
    TrimmedEnds(p + w, IntString(n));
    assert (p + w + IntString(n))[..|p|] == p;
  }

  /** `mark <n>` and `delete <n>` name item `n`. */
  lemma ParseMarkLine(w: string, n: int)
    requires w != [] && AllSpaces(w) && IsInt32(n)
    ensures Parse("mark" + w + IntString(n)) == Success(MarkItem(n))
  {
    var line := "mark" + w + IntString(n);
    NumberedLine("mark", w, n);
    ParseIndexOfInt("mark", w, n);
    ParseMarkOf(line, n);
  }

  lemma ParseDeleteLine(w: string, n: int)
    requires w != [] && AllSpaces(w) && IsInt32(n)
    ensures Parse("delete" + w + IntString(n)) == Success(DeleteItem(n))
  {
    var line := "delete" + w + IntString(n);
    NumberedLine("delete", w, n);
    ParseIndexOfInt("delete", w, n);
    ParseDeleteOf(line, n);
  }

  /** `Mark` is not a command word. */
  lemma CapitalMarkWord()
    ensures FromString("Mark") == Failure("Unknown command: Mark")
  {
    assert ToLowerAscii("Mark") == "mark";
    FromStringUnknown("Mark");
    assert "Unknown command: " + "Mark" == "Unknown command: Mark";
  }

  /** parseTask rejects a line whose first word is `Mark`. */
  lemma ParseTaskCapitalMark(w: string, rest: string)
    requires w != [] && AllSpaces(w) && rest != [] && IsTrimmed(rest)
    ensures ParseTask("Mark" + w + rest) == Failure("Unknown command: Mark")
  {
    SplitCommandLine("Mark", w, rest);
    CapitalMarkWord();
  }

  /** `mark` is matched case-sensitively: `Mark <n>` falls through to
      parseTask and is an unknown command. */
  lemma CapitalMarkIsUnknown(w: string, n: int)
    requires w != [] && AllSpaces(w)
    ensures Parse("Mark" + w + IntString(n)) == Failure("Unknown command: Mark")
  {
    var line := "Mark" + w + IntString(n);
    NumberedLine("Mark", w, n);
    assert line[0] == 'M' by {
      assert line[..4][0] == line[0];
    }
    IntStringEnds(n);
    ParseTaskCapitalMark(w, IntString(n));
    ParseAddOf(line, Failure("Unknown command: Mark"));
  }

  /** `bye` in any case ends the session and leaves the list alone. */
  lemma HandleBye(input: string, l: TaskList)
    requires EqualsIgnoreCase(Trim(input), "bye")
    ensures Handle(input, l) == Success(Outcome(true, l, None))
  {
  }

  /** `list` in any case shows the list's text, or fails on an empty list. */
  lemma HandleList(input: string, l: TaskList)
    requires EqualsIgnoreCase(Trim(input), "list")
    ensures Handle(input, l) == match List(l)
              case Success(text) => Success(Outcome(false, l, Some(text)))
              case Failure(e) => Failure(e)
  {
  }

  /** A `todo <d>` line is the command to add the to-do. */
  lemma ParseToDoCommand(word: string, w: string, d: string)
    requires ToLowerAscii(word) == "todo" && w != [] && AllSpaces(w)
    requires d != [] && IsTrimmed(d)
    ensures Parse(word + w + d) == Success(AddTask(NewToDo(d)))
  {
    var line := word + w + d;
    WordLetters(word, TODO);
    SplitCommandLine(word, w, d);
    assert line[0] == word[0] && LowerAscii(word[0]) == 't';
    ParseToDoLine(word, w, d);
    ParseAddOf(line, Success(NewToDo(d)));
  }

  /** Adding always succeeds with the list's own change. */
  lemma ExecuteAdd(t: Task, l: TaskList)
    ensures var c := Add(l, t);
            Execute(AddTask(t), l) == Success(Outcome(false, c.list, Some(c.message)))
  {
  }

  /** `todo <d>` appends the to-do, saves, and shows the added message. */
  lemma HandleToDo(word: string, w: string, d: string, l: TaskList)
    requires ToLowerAscii(word) == "todo" && w != [] && AllSpaces(w)
    requires d != [] && IsTrimmed(d)
    ensures var c := Add(l, NewToDo(d));
            Handle(word + w + d, l) == Success(Outcome(false, c.list, Some(c.message)))
  {
    ParseToDoCommand(word, w, d);
    HandleOf(word + w + d, l, AddTask(NewToDo(d)));
    ExecuteAdd(NewToDo(d), l);
  }

  /** `mark <n>` marks item `n` when it exists; otherwise the list stays. */
  lemma HandleMark(w: string, n: int, l: TaskList)
    requires w != [] && AllSpaces(w) && IsInt32(n)
    ensures Handle("mark" + w + IntString(n), l) == match Mark(l, n)
              case Success(c) => Success(Outcome(false, c.list, Some(c.message)))
              case Failure(e) => Failure(e)
  {
    ParseMarkLine(w, n);
  }

  /** `delete <n>` removes item `n` when it exists; otherwise the list stays. */
  lemma HandleDelete(w: string, n: int, l: TaskList)
    requires w != [] && AllSpaces(w) && IsInt32(n)
    ensures Handle("delete" + w + IntString(n), l) == match Remove(l, n)
              case Success(c) => Success(Outcome(false, c.list, Some(c.message)))
              case Failure(e) => Failure(e)
  {
    ParseDeleteLine(w, n);
  }
}
