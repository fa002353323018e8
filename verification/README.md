# boyd task pipeline, modelled in Dafny

boyd is a chat-style task tracker. A line the user types goes through
`Parser.handle`:
- `bye` ends the session and `list` prints the tasks;
- `mark <n>` and `delete <n>` act on item `n`;
- anything else is parsed by `Parser.parseTask` into a `ToDo`, a `Deadline` or an `Event` and added.

The `TaskList` saves its whole contents through `Storage` after every change. `Storage` writes one line per task
(`T | 0 | read book`, `D | 1 | return book | 2019-12-02 18:00`,
`E | 0 | meeting | Mon 2pm - 4pm | `) and reads such a file back.

This project models that core as pure functions over immutable data:
- `results.dfy`: `Option` and `Result`, with failure propagation. A `Failure` stands for a thrown exception.
- `text.dfy`: the JDK string behaviour the code relies on:
  - `trim` and `isBlank`, and the regex class `\s`;
  - ASCII `toLowerCase` and `equalsIgnoreCase`;
  - `Integer.parseInt` with its 32-bit range;
  - decimal rendering and `String.join`.
- `regex.dfy`: the patterns the code splits with (`\s+`, `\s*\|\s*`, `-`, ` - ` and `\s+/kw\s+`), plus `String.split` with limit 2 and limit 0 (trailing empty strings dropped).
- `datetime.dfy`: `LocalDate.parse` and the `uuuu-MM-dd HH:mm` formatter, for four-digit years.
- `task.dfy`: the task hierarchy, its display text (`toString`) and its stored line (`toDataString`).
- `command_type.dfy`: `CommandType.fromString`.
- `task_list.dfy`: `TaskList`. The Storage it saves to is a log of the contents handed to `save`.
- `parser.dfy`: `parseIndex`, `parseTask` and `handle`.
  - `handle` is split into `Parse` (pure) and `Execute` (the list operation). Every throw in `handle` comes before the list changes, so a failed command leaves the list as it was.
  - A second module, `ParsingFacts`, holds the lemmas about concrete command lines.
- `storage.dfy`: the line codec `dataStringToTask` and `parseDone`, the load loop, and the save content. Both work over the file's lines, as a `seq<string>`.
- `persistence.dfy`: the link between the two. The last save a change makes loads back as the changed list.
- `response.dfy`: `BoydResponse` and its three factories.

Where the documented behaviour of the system and the code differ, the model follows the code:
- The done flag is checked before the type tag (`Storage.java:125`, before the switch at 129).
- A stored event's start and end are kept as plain text; nothing parses them as dates (`Parser.java:153-155`, `Storage.java:148-151`).
- The `/by`, `/from` and `/to` separators match `\s+/kw\s+`, not a single space on each side (`Parser.java:123,144,149`).
- A stored event line ends with a fifth field, the task's `formatTags()` text (`Event.java:33`).
- The span of an `E` line is cut at the first `-`, not at ` - ` (`Storage.java:148`). This is the finding below. The model keeps both rules: `Storage.SpanRule` selects one, and the load round trip is proved for the corrected rule, and for the as-written rule exactly when no event's start holds a dash.

## Model

| member | source | states |
|---|---|---|
| Text.Trim | src/main/java/boyd/utils/Parser.java:39 | the result has no trimmable unit at either end, is no longer than the input, and is the input itself when that is already trimmed |
| Text.TrimPadded | src/main/java/boyd/utils/Parser.java:39 | trimming removes exactly the padding (units up to U+0020) around a trimmed core |
| Text.ToLowerAscii | src/main/java/boyd/utils/CommandType.java:25 | same length, each character lower-cased on its own |
| Text.ParseInt | src/main/java/boyd/utils/Parser.java:80 | a parsed value is a 32-bit int; the text is an optional sign and digits; a `-` sign gives a value <= 0 |
| Text.ParseIntSigned | src/main/java/boyd/utils/Parser.java:80 | an optional sign followed by decimal digits parses to the signed decimal value of the digits exactly when that value fits in 32 bits, and fails otherwise |
| Text.ParseIntString | src/main/java/boyd/utils/Parser.java:80 | every 32-bit int's decimal text parses back to it |
| Regex.SplitOnce | src/main/java/boyd/utils/Parser.java:75 | one part when the pattern does not occur; otherwise the text before the match and the text after it, where no match starts anywhere earlier, so the cut is at the leftmost match |
| Regex.SplitOnceSpaces | src/main/java/boyd/utils/Parser.java:104 | a space-free word followed by a `\s` run splits into the word and the rest |
| Regex.SplitOnceKeyword | src/main/java/boyd/utils/Parser.java:123 | `d /kw rest` cuts at that keyword, the first one with `\s` on both sides, whenever the keyword text does not occur in `d` and `d` does not end in `\s` |
| Regex.SplitOnceKeywordAbsent | src/main/java/boyd/utils/Parser.java:123 | a text with no `\s+kw\s+` match comes back whole |
| Regex.AbsentKeywordFree | src/main/java/boyd/utils/Parser.java:123 | a text the keyword does not occur in has no `\s+kw\s+` match |
| Regex.SplitOnceLiteral | src/main/java/boyd/utils/Storage.java:148 | a literal separator with no earlier occurrence splits the text into what precedes and what follows it |
| Regex.PiecesOfJoin | src/main/java/boyd/utils/Storage.java:118 | splitting a ` \| `-joined line at pipes returns its leading pipe-free fields unchanged |
| DateTimes.DaysInMonth | src/main/java/boyd/tasks/Deadline.java:24 | every month has 28 to 31 days |
| DateTimes.AtMidnight | src/main/java/boyd/tasks/Deadline.java:25 | the date-time at 00:00 on the given date, valid when the date is |
| DateTimes.Digits | src/main/java/boyd/tasks/Deadline.java:26 | a fixed-width zero-padded field whose digits read back as the number |
| DateTimes.ParseIsoDate | src/main/java/boyd/tasks/Deadline.java:24 | an accepted date is a valid calendar date whose canonical text is the input |
| DateTimes.ParseDateTime | src/main/java/boyd/tasks/Deadline.java:33 | an accepted date-time is valid and its `uuuu-MM-dd HH:mm` text is the input |
| DateTimes.ParseFormatDate | src/main/java/boyd/tasks/Deadline.java:24-26 | formatting a valid date and parsing it gives the date back |
| DateTimes.ParseFormatDateTime | src/main/java/boyd/tasks/Deadline.java:33-34 | formatting a valid date-time and parsing it gives it back |
| DateTimes.ParseIsoDateExactly | src/main/java/boyd/tasks/Deadline.java:24 | a text parses to a date iff the date is valid and the text is its canonical form |
| DateTimes.ParseDateTimeExactly | src/main/java/boyd/tasks/Deadline.java:33 | a text parses to a date-time iff it is valid and the text is its canonical form |
| DateTimes.FormattedShape | src/main/java/boyd/tasks/Deadline.java:15 | the formatted text is 16 characters: digits, `-` and `:`, and one space at position 10 |
| Tasks.NewToDo | src/main/java/boyd/tasks/ToDo.java:13-15 | a new to-do keeps its description and is not done |
| Tasks.NewDeadline | src/main/java/boyd/tasks/Deadline.java:22-27 | succeeds iff the date parses; the due text is the date followed by ` 00:00` |
| Tasks.NewDeadlineAt | src/main/java/boyd/tasks/Deadline.java:30-35 | succeeds iff the date parses alone and `date + " " + time` parses with the pattern (hours 00 to 23); the due text is exactly that string |
| Tasks.NewEvent | src/main/java/boyd/tasks/Event.java:19-23 | keeps the description, the start and the end as given; not done |
| Tasks.Due | src/main/java/boyd/tasks/Deadline.java:34 | the due text parses back to the deadline's date-time |
| Tasks.StatusIcon | src/main/java/boyd/tasks/Task.java:36-38 | one character: `X` when the task is done, a space when it is not |
| Tasks.MarkAsDone | src/main/java/boyd/tasks/Task.java:43-45 | the task is done; description and kind are unchanged |
| Tasks.UnmarkAsDone | src/main/java/boyd/tasks/Task.java:51-53 | the task is not done; description and kind are unchanged |
| Tasks.Display | src/main/java/boyd/tasks/Task.java:66-68 | `[L][i] ` with the kind letter and the icon, then the description, then the kind's suffix |
| Tasks.DoneFlag | src/main/java/boyd/tasks/ToDo.java:25-26 | `1` exactly when done, `0` exactly when not |
| Tasks.DataFields | src/main/java/boyd/tasks/Event.java:31-40 | 3, 4 or 5 fields by kind, starting with the kind letter, the flag and the description |
| Tasks.DataLines | src/main/java/boyd/tasks/Deadline.java:43-50 | the stored line of each kind, field by field, as the three `toDataString` formats write it |
| Tasks.NewToDoData | src/main/java/boyd/tasks/ToDo.java:23-29 | a new to-do is stored as `T \| 0 \| ` and its description |
| Tasks.MarkIdempotent | src/main/java/boyd/tasks/Task.java:43-53 | marking twice is marking once; unmarking undoes a mark on a task that was not done, and marking undoes an unmark on one that was |
| Tasks.MarkChangesOnlyIcon | src/main/java/boyd/tasks/Task.java:36-45 | marking changes the display text in the icon position only, to `X` |
| Tasks.MarkChangesOnlyFlag | src/main/java/boyd/tasks/ToDo.java:23-29 | marking changes the stored line in the flag digit only, to `1` |
| Tasks.NewTaskDisplay | src/main/java/boyd/tasks/Event.java:26-28 | a new to-do shows as `[T][ ] d`; a new event as `[E][ ] d (from: f to: t)` |
| Tasks.DeadlineRebuild | src/main/java/boyd/tasks/Deadline.java:30-35 | a deadline's due text, cut at its space, rebuilds the same deadline |
| CommandTypes.FromString | src/main/java/boyd/utils/CommandType.java:24-35 | succeeds exactly on the three words in any ASCII case; otherwise `Unknown command: ` and the input |
| CommandTypes.FromStringIgnoresCase | src/main/java/boyd/utils/CommandType.java:25 | lower-casing the input first changes neither success nor result |
| CommandTypes.FromStringUnknown | src/main/java/boyd/utils/CommandType.java:32-33 | a word that lower-cases to none of the three is the unknown-command error |
| CommandTypes.WordRoundTrip | src/main/java/boyd/utils/CommandType.java:26-31 | each constant's word maps back to it, and no two constants share a word |
| CommandTypes.FromStringPadded | src/main/java/boyd/utils/CommandType.java:25 | whitespace before or after a word makes it unknown |
| TaskLists.NewTaskList | src/main/java/boyd/utils/TaskList.java:35-38 | the list holds the given tasks and nothing has been saved |
| TaskLists.Size | src/main/java/boyd/utils/TaskList.java:130-132 | the number of tasks held |
| TaskLists.Add | src/main/java/boyd/utils/TaskList.java:55-61 | appends the task, grows the size by one, saves once when there is a Storage, and prints the task and the new count |
| TaskLists.Remove | src/main/java/boyd/utils/TaskList.java:69-84 | succeeds iff 1 <= n <= size, else `Invalid item number!`; drops exactly item n, saves once and prints it with the new count |
| TaskLists.Mark | src/main/java/boyd/utils/TaskList.java:111-123 | succeeds iff 1 <= n <= size; item n becomes done and no other item changes; saves once and prints the marked task |
| TaskLists.Entries | src/main/java/boyd/utils/TaskList.java:96-97 | entry i is the 1-based number, `. ` and the task's display text |
| TaskLists.List | src/main/java/boyd/utils/TaskList.java:91-103 | fails exactly on an empty list, with `You haven't added any items!` |
| TaskLists.ListText | src/main/java/boyd/utils/TaskList.java:92-102 | the StringBuilder loop builds the entries joined by newlines with no trailing newline |
| TaskLists.NoItemsYetUnreachable | src/main/java/boyd/utils/TaskList.java:73-75 | neither remove nor mark ever fails with `No items yet!` |
| TaskLists.RemoveKeepsOthers | src/main/java/boyd/utils/TaskList.java:76-78 | the items before n stay put, the items after shift down by one, and the contents lose exactly item n |
| TaskLists.AddThenRemoveLast | src/main/java/boyd/utils/TaskList.java:55-84 | adding a task and removing the last item restores the contents |
| TaskLists.MarkIdempotentInList | src/main/java/boyd/utils/TaskList.java:111-123 | marking the same item again leaves the contents unchanged |
| TaskLists.SaveCountFollowsChanges | src/main/java/boyd/utils/TaskList.java:44-48 | each successful add, remove or mark saves exactly once when there is a Storage and never otherwise |
| TaskLists.AddCallsSaveAndIncreasesSize | src/test/java/boyd/utils/TaskListTest.java:19-26 | adding `x` to an empty list with a Storage gives size 1 and one save |
| TaskLists.RemoveOutOfRangeFails | src/test/java/boyd/utils/TaskListTest.java:29-34 | removing item 1 from an empty list fails with `Invalid item number!` |
| Parsing.ParseIndex | src/main/java/boyd/utils/Parser.java:74-84 | a result is a 32-bit int; the usage error occurs exactly when nothing non-blank follows the first `\s` run; otherwise the error is the number error |
| Parsing.ParseToDo | src/main/java/boyd/utils/Parser.java:113-118 | succeeds with a to-do of the trimmed, non-empty rest; otherwise the empty-description error |
| Parsing.ParseDeadline | src/main/java/boyd/utils/Parser.java:119-139 | a result is a not-done deadline with a trimmed description; the errors are the three deadline messages |
| Parsing.ParseEvent | src/main/java/boyd/utils/Parser.java:140-156 | a result is a not-done event with trimmed description, start and end; the errors are the three event messages |
| Parsing.ParseTask | src/main/java/boyd/utils/Parser.java:103-159 | the first word picks the kind that is created; an unknown first word is `Unknown command: ` and the word; results are not done and trimmed |
| Parsing.Parse | src/main/java/boyd/utils/Parser.java:38-64 | exit iff the trimmed line is `bye` in any case; list iff it is `list`; otherwise a line starting with `mark` is a mark of whatever parseIndex gives, then one starting with `delete` a delete of it, and any other line an add of whatever parseTask gives, each failing with that call's message |
| Parsing.Execute | src/main/java/boyd/utils/Parser.java:46-62 | exit iff the command is bye; bye and list leave the list alone; at most one save is appended |
| Parsing.Handle | src/main/java/boyd/utils/Parser.java:38-64 | a line that does not parse fails with the parse error and changes nothing; one that parses is that command's execution; `bye` exits with the list untouched; the Storage link is kept; at most one save per line |
| ParsingFacts.ParseIndexOfInt | src/main/java/boyd/utils/Parser.java:75-80 | `<cmd> <n>` gives back the 32-bit int n |
| ParsingFacts.ParseIndexValue | src/main/java/boyd/utils/Parser.java:75-80 | `<cmd> <text>` gives the value parseInt gives the trimmed text, whatever its spelling (`01`, `+3`, `-0`) |
| ParsingFacts.ParseIndexSigned | src/main/java/boyd/utils/Parser.java:75-83 | `<cmd> <sign><digits>` gives the signed value of the digits when it fits in 32 bits, and the number error when it does not |
| ParsingFacts.ParseIndexMissing | src/main/java/boyd/utils/Parser.java:76-77 | a bare command word is the usage error |
| ParsingFacts.ParseIndexNotANumber | src/main/java/boyd/utils/Parser.java:79-83 | non-numeric text after the word is the number error |
| ParsingFacts.ParseTaskCase | src/main/java/boyd/utils/Parser.java:104-112 | a known word, a `\s` run and a trimmed rest are handed to that word's case with the rest |
| ParsingFacts.ParseToDoLine | src/main/java/boyd/utils/Parser.java:113-117 | `todo <d>` in any case creates the to-do d |
| ParsingFacts.ParseToDoEmpty | src/main/java/boyd/utils/Parser.java:114-115 | a bare `todo` is the empty-description error |
| ParsingFacts.ParseDeadlineDateTime | src/main/java/boyd/utils/Parser.java:123-132 | `d /by date time` builds the three-argument deadline, or the date-time format error; for any description `/by` does not occur in |
| ParsingFacts.ParseDeadlineDate | src/main/java/boyd/utils/Parser.java:133-137 | `d /by date` builds the date-only deadline, or the format error; for any description `/by` does not occur in |
| ParsingFacts.ParseDeadlineNoBy | src/main/java/boyd/utils/Parser.java:123-125 | a rest with no `\s+/by\s+` match is the missing-`/by` error |
| ParsingFacts.ParseEventFull | src/main/java/boyd/utils/Parser.java:144-155 | `d /from f /to t` creates the event (d, f, t); for any description `/from` does not occur in and any start `/to` does not occur in |
| ParsingFacts.ParseEventNoTo | src/main/java/boyd/utils/Parser.java:149-151 | `d /from f` is the missing-`/to` error, for any description `/from` does not occur in and any start with no `\s+/to\s+` match |
| ParsingFacts.ParseDeadlineLine | src/main/java/boyd/utils/Parser.java:103-139 | a whole `deadline` line with date and time builds that deadline or the format error; for any description `/by` does not occur in |
| ParsingFacts.ParseEventLine | src/main/java/boyd/utils/Parser.java:103-156 | a whole `event` line creates its event; for any description `/from` does not occur in and any start `/to` does not occur in |
| ParsingFacts.DeadlineLineData | src/test/java/boyd/utils/ParserTest.java:11-15 | a `deadline d /by <date> <time>` line with any valid date-time parses to the not-done deadline due then, stored as `D \| 0 \| d \| <date> <time>`; for any description `/by` does not occur in |
| ParsingFacts.DeadlineLineMissingBy | src/test/java/boyd/utils/ParserTest.java:18-22 | a `deadline d` line whose description has no `\s+/by\s+` match fails with the message that names `/by` |
| ParsingFacts.DeadlineFormatNamesBy | src/test/java/boyd/utils/ParserTest.java:21 | that message contains `/by` |
| ParsingFacts.EventLineMissingTo | src/test/java/boyd/utils/ParserTest.java:25-28 | an `event d /from f` line fails with the missing-`/to` error, for any description `/from` does not occur in and any start with no `\s+/to\s+` match |
| ParsingFacts.ParseAddCase | src/main/java/boyd/utils/Parser.java:61-63 | a trimmed line of five or more characters starting with neither `m` nor `d` is an add of whatever parseTask gives, failing with its message |
| ParsingFacts.ParseMarkCase | src/main/java/boyd/utils/Parser.java:49-53 | a trimmed line longer than `mark` that starts with it is a mark of whatever parseIndex gives, failing with its message |
| ParsingFacts.ParseDeleteCase | src/main/java/boyd/utils/Parser.java:54-58 | a trimmed line longer than `delete` that starts with it is a delete of whatever parseIndex gives, failing with its message |
| ParsingFacts.ParseMarkLine | src/main/java/boyd/utils/Parser.java:49-53 | `mark <n>` is the command to mark item n |
| ParsingFacts.ParseDeleteLine | src/main/java/boyd/utils/Parser.java:54-58 | `delete <n>` is the command to delete item n |
| ParsingFacts.CapitalMarkIsUnknown | src/main/java/boyd/utils/Parser.java:49 | `Mark <n>` is not a mark: the case-sensitive prefix test sends it to parseTask, which rejects `Mark` |
| ParsingFacts.HandleBye | src/main/java/boyd/utils/Parser.java:39-42 | a `bye` line exits with the list untouched |
| ParsingFacts.HandleList | src/main/java/boyd/utils/Parser.java:45-48 | a `list` line shows the listing, or fails on an empty list, and changes nothing |
| ParsingFacts.HandleToDo | src/main/java/boyd/utils/Parser.java:61-63 | a `todo <d>` line adds the to-do and shows the add message |
| ParsingFacts.HandleMark | src/main/java/boyd/utils/Parser.java:49-53 | a `mark <n>` line is exactly the list's mark of item n |
| ParsingFacts.HandleDelete | src/main/java/boyd/utils/Parser.java:54-58 | a `delete <n>` line is exactly the list's remove of item n |
| Storage.ParseDone | src/main/java/boyd/utils/Storage.java:171-176 | succeeds iff the trimmed flag is `1` or `0`, giving true for `1`; otherwise the error names the trimmed flag |
| Storage.ParseDoneFlag | src/main/java/boyd/utils/Storage.java:171-176 | the flag a task is stored with reads back as its done state |
| Storage.RebuildDeadline | src/main/java/boyd/utils/Storage.java:138-141 | succeeds iff the field cuts at `\s+` into a date and a time the deadline accepts; no cut is the index-1 error |
| Storage.RebuildEvent | src/main/java/boyd/utils/Storage.java:148-151 | succeeds iff the rule's separator occurs; the event is made from the two trimmed halves; otherwise the index-1 error |
| Storage.BuildTask | src/main/java/boyd/utils/Storage.java:129-156 | only `T`, `D` and `E` rebuild; the task carries the tag's kind and the third field as description, not yet done |
| Storage.DataStringToTask | src/main/java/boyd/utils/Storage.java:112-162 | errors in the code's order: blank line, fewer than three fields, bad flag; a result has the flag, the description and the kind letter of the split fields |
| Storage.EmptyLastFieldDropped | src/main/java/boyd/utils/Storage.java:118-122 | the split drops a trailing empty field before the count, so `<tag> \| <flag> \| ` (such as `T \| 0 \| `) is the too-few-fields error |
| Storage.NonBlank | src/main/java/boyd/utils/Storage.java:69-71 | the lines that remain after skipping blanks: none blank, no more than before |
| Storage.LoadWith | src/main/java/boyd/utils/Storage.java:66-74 | a successful load has one task per non-blank line |
| Storage.LoadLines | src/main/java/boyd/utils/Storage.java:66-74 | the same, with dataStringToTask as the decoder |
| Storage.LoadSucceeds | src/main/java/boyd/utils/Storage.java:66-74 | loading succeeds iff every non-blank line decodes |
| Storage.LoadTasks | src/main/java/boyd/utils/Storage.java:66-74 | a successful load holds, in file order, the decoded task of each non-blank line |
| Storage.LoadFailure | src/main/java/boyd/utils/Storage.java:72 | a failed load carries the error of the first non-blank line that does not decode; every non-blank line before it decodes |
| Storage.LoadLoop | src/main/java/boyd/utils/Storage.java:66-74 | the while loop computes the reference load |
| Storage.Load | src/main/java/boyd/utils/Storage.java:59-79 | load over the file's lines equals the reference load with dataStringToTask |
| Storage.SavedLines | src/main/java/boyd/utils/Storage.java:97-98 | one stored line per task, in list order |
| Storage.SaveContent | src/main/java/boyd/utils/Storage.java:96-100 | the written content is empty exactly when there are no tasks |
| Storage.ReadLines | src/main/java/boyd/utils/Storage.java:67-68 | no line read contains a newline |
| Storage.RoundTrip | src/main/java/boyd/utils/Storage.java:112-162 | every storable task's stored line decodes to the same task, under the ` - ` rule, and under the first-`-` rule when an event's start holds no dash |
| Storage.LoadSaved | src/main/java/boyd/utils/Storage.java:66-74 | the stored lines of storable tasks load back as the same tasks in order, under any span rule that reads each event's start back |
| Storage.ReadSaved | src/main/java/boyd/utils/Storage.java:96-100 | reading a file saved with `\n` separators gives back the stored lines |
| Storage.SaveThenLoad | src/main/java/boyd/utils/Storage.java:88-106 | save followed by load gives back the storable tasks, under any span rule that reads each event's start back |
| Storage.FirstDashCut | src/main/java/boyd/utils/Storage.java:148 | cutting at the first `-` a span whose start holds a dash cuts inside the start |
| Storage.FirstDashBreaksRoundTrip | src/main/java/boyd/utils/Storage.java:148-150 | with the span cut at the first `-`, an event whose start holds a dash does not load back |
| Storage.FirstDashRoundTrip | src/main/java/boyd/utils/Storage.java:148-151 | under the first-`-` rule, a storable event loads back exactly when its start holds no dash |
| Storage.SpacedDashFirst | src/main/java/boyd/tasks/Event.java:33 | the ` - ` written between a start and an end is the first one, so the corrected cut returns both |
| Persistence.LastSaveReloads | src/main/java/boyd/utils/TaskList.java:44-48 | after a change with a Storage, the last saved contents load back as the changed list, under any span rule that reads each event's start back |
| Persistence.AddReloads | src/main/java/boyd/utils/TaskList.java:55-61 | after an add, the saved file loads back as the old tasks followed by the new one, under any span rule that reads each event's start back |
| Responses.Ok | src/main/java/boyd/utils/BoydResponse.java:33-35 | keeps the message; neither exit nor error |
| Responses.Error | src/main/java/boyd/utils/BoydResponse.java:43-45 | keeps the message; an error that does not exit |
| Responses.Exit | src/main/java/boyd/utils/BoydResponse.java:53-55 | keeps the message; an exit that is not an error |
| Responses.FactoriesCover | src/main/java/boyd/utils/BoydResponse.java:20-55 | the factories build exactly the responses that are not both exit and error, each from one factory |
| Responses.FactoriesDistinct | src/main/java/boyd/utils/BoydResponse.java:33-55 | each factory is injective in the message, and no two factories agree |

## Left out

- The Ui, the JavaFX window, `Main` and `Launcher`, and the `Boyd` facade, because they are I/O and wiring. `Boyd.getResponse` returns the boolean of `Parser.handle` as a `BoydResponse`, which does not type-check, so no mapping from a handled line to a response is modelled.
- The legacy default-package files (`Tasks/`, `utils/`, `TaskFactory.java`) and `ParsedInput.java`, because the `boyd` package does not use them.
- File access in `Storage`: the missing-file check, `mkdirs`, the `FileWriter` and the `Scanner`. Load and save work on the file's lines, and `FileNotFoundException` and `IOException` are not modelled.
- Storage.ReadLines: only `\n` ends a line. `Scanner.nextLine` also ends lines at `\r\n`, `\r` and the Unicode line separators, and `System.lineSeparator()` is `\r\n` on Windows; the file-level round trip is stated for `\n`.
- `Task.formatTags()` is not part of the model (Task.java does not define it). The text it adds is a parameter, `tags`.
- Storage.DataStringToTask: the exceptions are `LoadError` values. The `ArrayIndexOutOfBoundsException` and the `DateTimeParseException` keep the index or the text, not the JDK's message wording.
- DateTimes.ParseIsoDate: only unsigned four-digit years. The `uuuu` field accepts more digits and a sign.
- DateTimes.ParseDateTime: rejects `HH:mm` = `24:00`. The SMART resolver of `ofPattern` accepts it as 00:00 of the next day (Deadline.java:15,33-34); that case is not modelled, and neither are years other than unsigned four-digit ones.
- Tasks.NewDeadlineAt: fails on a `24:00` time, which the code accepts as the next day's 00:00. For such a deadline the code's due text would not be the given string.
- Text.ParseInt: non-ASCII Unicode digits, which `Integer.parseInt` accepts, are not modelled.
- Text.ToLowerAscii: lower-cases ASCII only. That is exact for the three command words, apart from the Turkish locale.
- Aliasing of the mutable task objects is not modelled: a task is a value, and `mark` replaces the list entry.
- Storage.SaveContent: its own contract states emptiness only; `Storage.ReadSaved` and `Storage.SaveThenLoad` state what the content holds.
- ParsingFacts.ParseDeadlineDateTime: not stated for a description in which `/by` occurs at all, even where the split passes over it (such as `a/by`).
- ParsingFacts.ParseDeadlineDate: not stated for a description in which `/by` occurs at all, even where the split passes over it.
- ParsingFacts.ParseDeadlineLine: not stated for a description in which `/by` occurs at all, even where the split passes over it.
- ParsingFacts.ParseEventFull: not stated for a description in which `/from` occurs, or a start in which `/to` occurs, even where the split passes over it.
- ParsingFacts.ParseEventNoTo: not stated for a description in which `/from` occurs, even where the split passes over it.
- ParsingFacts.ParseEventLine: not stated for a description in which `/from` occurs, or a start in which `/to` occurs, even where the split passes over it.
- ParsingFacts.DeadlineLineData: stated for every line of the test's shape whose date-time is valid. The concrete line `deadline return book /by 2019-12-02 18:00` is one instance, but the lemma is not applied to it.
- ParsingFacts.DeadlineLineMissingBy: stated for every line of the test's shape. `deadline return book` is one instance.
- ParsingFacts.EventLineMissingTo: stated for every line of the test's shape. `event meeting /from 2025-10-20 10:20` is one instance.
- The `assert message != null` of BoydResponse, because a Dafny string cannot be null.

## Findings

| source | as written | input that shows it | evidently intended | confidence | as-written member | corrected member |
|---|---|---|---|---|---|---|
| src/main/java/boyd/utils/Storage.java:148 | the fourth field of an `E` line is cut at its first `-` | `E \| 0 \| meeting \| 2025-10-20 10:00 - 2025-10-20 12:00 \| ` loads as an event from `2025` to `10-20 10:00 - 2025-10-20 12:00` | cut at the ` - ` that `Event.toDataString` writes between the start and the end (Event.java:33) | not executed | Storage.FirstDashBreaksRoundTrip | Storage.RoundTrip |
