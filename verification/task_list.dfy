/** TaskList: the in-memory list of tasks, the messages its commands print, and
    the Storage.save call every change makes when a Storage is attached. */
module TaskLists {
  import opened Results
  import opened Text
  import opened Tasks

  /** `mem`, whether a Storage is attached, and the contents handed to
      Storage.save so far, oldest first (what a counting fake storage sees). */
  datatype TaskList = TaskList(mem: seq<Task>, hasStorage: bool, saved: seq<seq<Task>>)

  /** What a successful mutating call leaves: the new list and the message it prints. */
  datatype Change = Change(list: TaskList, message: string)

  /** The constructor copies the given tasks and saves nothing. */
  function NewTaskList(tasks: seq<Task>, hasStorage: bool): (l: TaskList)
    ensures l.mem == tasks && l.hasStorage == hasStorage && l.saved == []
  {
    TaskList(tasks, hasStorage, [])
  }

  /** persist(): hands the current contents to Storage.save when there is one. */
  function Persist(l: TaskList): TaskList {
    if l.hasStorage then l.(saved := l.saved + [l.mem]) else l
  }

  /** A change `c` of `l` replaced the contents and persisted exactly once. */
  predicate SavedOnce(l: TaskList, c: Change) {
    c.list.hasStorage == l.hasStorage
    && c.list.saved == l.saved + (if l.hasStorage then [c.list.mem] else [])
  }

  function Size(l: TaskList): (n: nat)
    ensures n == |l.mem|
  {
    |l.mem|
  }

  function CountLine(n: nat): string {
    "Now you have " + NatString(n) + " tasks in this list."
  }

  /** add(task): appends, prints the task and the new count, persists. */
  function Add(l: TaskList, task: Task): (c: Change)
    ensures c.list.mem == l.mem + [task]
    ensures Size(c.list) == Size(l) + 1
    ensures SavedOnce(l, c)
    ensures c.message == "Got it! Added:\n  " + Display(task) + "\n" + CountLine(Size(l) + 1)
  {
    var l2 := l.(mem := l.mem + [task]);
    Change(Persist(l2), "Got it! Added:\n  " + Display(task) + "\n" + CountLine(|l2.mem|))
  }

  /** The 1-based item numbers a list accepts. */
  predicate InRange(l: TaskList, itemNo: int) {
    1 <= itemNo <= |l.mem|
  }

  /** remove(itemNo): a number outside 1..size is `Invalid item number!`; otherwise
      the item is removed, printed with the new count, and the list persisted. */
  function Remove(l: TaskList, itemNo: int): (r: Result<Change, string>)
    ensures r.Success? <==> InRange(l, itemNo)
    ensures r.Failure? ==> r.error == "Invalid item number!"
    ensures r.Success? ==>
      var i := itemNo - 1;
      && r.value.list.mem == l.mem[..i] + l.mem[i + 1..]
      && Size(r.value.list) == Size(l) - 1
      && SavedOnce(l, r.value)
      && r.value.message == "Noted! I've removed this task:\n  " + Display(l.mem[i]) + "\n" + CountLine(Size(l) - 1)
  {
    if itemNo <= 0 || itemNo > |l.mem| then Failure("Invalid item number!")
    else if |l.mem| == 0 then Failure("No items yet!")
    else
      var i := itemNo - 1;
      var l2 := l.(mem := l.mem[..i] + l.mem[i + 1..]);
      Success(Change(Persist(l2), "Noted! I've removed this task:\n  " + Display(l.mem[i]) + "\n" + CountLine(|l2.mem|)))
  }

  /** mark(itemNo): a number outside 1..size is `Invalid item number!`; otherwise
      that task, and no other, becomes done; it is printed and the list persisted. */
  function Mark(l: TaskList, itemNo: int): (r: Result<Change, string>)
    ensures r.Success? <==> InRange(l, itemNo)
    ensures r.Failure? ==> r.error == "Invalid item number!"
    ensures r.Success? ==>
      var i := itemNo - 1;
      && |r.value.list.mem| == |l.mem|
      && r.value.list.mem[i] == MarkAsDone(l.mem[i])
      && (forall j :: 0 <= j < |l.mem| && j != i ==> r.value.list.mem[j] == l.mem[j])
      && SavedOnce(l, r.value)
      && r.value.message == "Nice! I've marked this task as done:\n  " + Display(MarkAsDone(l.mem[i]))
  {
    if itemNo <= 0 || itemNo > |l.mem| then Failure("Invalid item number!")
    else if |l.mem| == 0 then Failure("No items yet!")
    else
      var i := itemNo - 1;
      var l2 := l.(mem := l.mem[i := MarkAsDone(l.mem[i])]);
      Success(Change(Persist(l2), "Nice! I've marked this task as done:\n  " + Display(l2.mem[i])))
  }

  /** One line of the listing: the 1-based number, `. `, and the task's display. */
  function Entry(number: nat, t: Task): string {
    NatString(number) + ". " + Display(t)
  }

  function Entries(mem: seq<Task>): (es: seq<string>)
    ensures |es| == |mem|
    ensures forall i :: 0 <= i < |mem| ==> es[i] == Entry(i + 1, mem[i])
  {
    seq(|mem|, i requires 0 <= i < |mem| => Entry(i + 1, mem[i]))
  }

  /** list(): `You haven't added any items!` when empty, otherwise the numbered
      entries, one per line. Nothing is saved. */
  function List(l: TaskList): (r: Result<string, string>)
    ensures r.Failure? <==> l.mem == []
    ensures r.Failure? ==> r.error == "You haven't added any items!"
  {
    if l.mem == [] then Failure("You haven't added any items!")
    else Success(Join(Entries(l.mem), "\n"))
  }

  /** The listing text after the first `i` entries of the loop: the entries so
      far joined by newlines, plus the newline that follows every entry but the last. */
  ghost function Built(es: seq<string>, i: nat): string
    requires i <= |es|
  {
    if i == 0 then "" else Join(es[..i], "\n") + (if i < |es| then "\n" else "")
  }

  lemma BuiltStep(es: seq<string>, i: nat)
    requires i < |es|
    ensures Built(es, i + 1) == Built(es, i) + es[i] + (if i < |es| - 1 then "\n" else "")
  {
    JoinSnoc(es[..i], es[i], "\n");
    assert es[..i] + [es[i]] == es[..i + 1];
  }

  /** The StringBuilder loop of list(): each entry, then a newline unless it is the last. */
  method ListText(l: TaskList) returns (r: Result<string, string>)
    ensures r == List(l)
  {
    if l.mem == [] {
      return Failure("You haven't added any items!");
    }
    var n := |l.mem|;
    ghost var es := Entries(l.mem);
    var message := "";
    var i := 0;
    while i < n
      invariant 0 <= i <= n
      invariant message == Built(es, i)
    {
      var entry := Entry(i + 1, l.mem[i]);
      assert entry == es[i];
      BuiltStep(es, i);
      message := message + entry;
      if i < n - 1 {
        message := message + "\n";
      }
      i := i + 1;
    }
    assert es[..n] == es;
    assert message == Join(es, "\n");
    return Success(message);
  }

  // ---------------------------------------------------------------------
  // Properties

  /** The `No items yet!` branches of remove and mark can never be reached:
      an empty list already fails the range check. */
  lemma NoItemsYetUnreachable(l: TaskList, itemNo: int)
    ensures Remove(l, itemNo) != Failure("No items yet!")
    ensures Mark(l, itemNo) != Failure("No items yet!")
  {
  }

  /** Removing an item keeps the other items in order. */
  lemma {:induction false} RemoveKeepsOthers(l: TaskList, itemNo: int)
    requires InRange(l, itemNo)
    ensures var m := Remove(l, itemNo).value.list.mem;
            && (forall j :: 0 <= j < itemNo - 1 ==> m[j] == l.mem[j])
            && (forall j :: itemNo - 1 <= j < |m| ==> m[j] == l.mem[j + 1])
            && multiset(m) + multiset{l.mem[itemNo - 1]} == multiset(l.mem)
  {
    var i := itemNo - 1;
    var m := Remove(l, itemNo).value.list.mem;
    assert m == l.mem[..i] + l.mem[i + 1..];
    assert l.mem == l.mem[..i] + [l.mem[i]] + l.mem[i + 1..];
  }

  /** Adding a task and then removing the last item restores the contents. */
  lemma AddThenRemoveLast(l: TaskList, task: Task)
    ensures var c := Add(l, task);
            && Remove(c.list, Size(c.list)).Success?
            && Remove(c.list, Size(c.list)).value.list.mem == l.mem
  {
    var c := Add(l, task);
    assert c.list.mem[..|l.mem|] == l.mem;
  }

  /** Marking an item twice leaves the same contents as marking it once. */
  lemma MarkIdempotentInList(l: TaskList, itemNo: int)
    requires InRange(l, itemNo)
    ensures var once := Mark(l, itemNo).value.list;
            Mark(once, itemNo).Success? && Mark(once, itemNo).value.list.mem == once.mem
  {
    var once := Mark(l, itemNo).value.list;
    var twice := Mark(once, itemNo).value.list;
    MarkIdempotent(l.mem[itemNo - 1]);
    assert twice.mem == once.mem;
  }

  /** Only the three mutating commands save, each exactly once, and always the
      contents it leaves; a list without Storage never saves. */
  lemma SaveCountFollowsChanges(l: TaskList, task: Task, itemNo: int)
    ensures |Add(l, task).list.saved| == |l.saved| + (if l.hasStorage then 1 else 0)
    ensures Remove(l, itemNo).Success? ==>
              |Remove(l, itemNo).value.list.saved| == |l.saved| + (if l.hasStorage then 1 else 0)
    ensures Mark(l, itemNo).Success? ==>
              |Mark(l, itemNo).value.list.saved| == |l.saved| + (if l.hasStorage then 1 else 0)
  {
  }

  /** Adding one to-do to a new list with storage: size 1, one save. */
  lemma AddCallsSaveAndIncreasesSize()
    ensures var c := Add(NewTaskList([], true), NewToDo("x"));
            Size(c.list) == 1 && |c.list.saved| == 1
  {
  }

  /** Removing item 1 from a new empty list fails with `Invalid item number!`. */
  lemma RemoveOutOfRangeFails()
    ensures Remove(NewTaskList([], true), 1) == Failure("Invalid item number!")
  {
  }
}
