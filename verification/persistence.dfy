/** What the saves a TaskList makes are worth: the last contents handed to
    Storage.save load back as the list. */
module Persistence {
  import opened Results
  import opened Tasks
  import opened TaskLists
  import opened Storage

  /** After a change of a list with a Storage, the file the last save writes
      loads back as the changed list, when its tasks are storable and the span
      rule reads each event's start back. */
  lemma LastSaveReloads(l: TaskList, c: Change, tags: Task -> string, rule: SpanRule)
    requires SavedOnce(l, c) && l.hasStorage
    requires forall i :: 0 <= i < |c.list.mem| ==>
               Storable(c.list.mem[i], tags(c.list.mem[i])) && SpanReadable(c.list.mem[i], rule)
    ensures c.list.saved != []
    ensures var last := c.list.saved[|c.list.saved| - 1];
            LoadLines(ReadLines(SaveContent(last, tags, "\n")), rule) == Success(c.list.mem)
  {
    SaveThenLoad(c.list.mem, tags, rule);
  }

  /** Adding a storable task to a storable list leaves a file that loads
      back as the old tasks followed by the new one. */
  lemma AddReloads(l: TaskList, task: Task, tags: Task -> string, rule: SpanRule)
    requires l.hasStorage && Storable(task, tags(task)) && SpanReadable(task, rule)
    requires forall i :: 0 <= i < |l.mem| ==> Storable(l.mem[i], tags(l.mem[i])) && SpanReadable(l.mem[i], rule)
    ensures var c := Add(l, task);
            var last := c.list.saved[|c.list.saved| - 1];
            LoadLines(ReadLines(SaveContent(last, tags, "\n")), rule) == Success(l.mem + [task])
  {
    var c := Add(l, task);
    assert forall i :: 0 <= i < |c.list.mem| ==> c.list.mem[i] == if i < |l.mem| then l.mem[i] else task;
    LastSaveReloads(l, c, tags, rule);
  }
}
