/** The task manager: an ordered list of tasks, three index-addressed edits
    (edit, delete, mark complete) and add, and whole-list save and load through the stored record form.
    Every index-addressed operation does nothing when the index is outside
    `0 <= index < |tasks|`, negative indices included. */
module TaskManager {

  import opened Wrappers
  import opened Tasks
  import opened Records

  /** True when `index` addresses an existing task. */
  predicate InRange(tasks: seq<Task>, index: int)
  {
    0 <= index < |tasks|
  }

  /** Appends a new, incomplete task with the given title. */
  function AddTask(tasks: seq<Task>, title: string): (r: seq<Task>)
    ensures |r| == |tasks| + 1
    ensures r[..|tasks|] == tasks
    ensures r[|tasks|].title == title && !r[|tasks|].completed
  {
    tasks + [NewTask(title)]
  }

  /** Retitles the task at `index`, keeping its completion flag; no-op out of range. */
  function EditTask(tasks: seq<Task>, index: int, newTitle: string): (r: seq<Task>)
    ensures |r| == |tasks|
    ensures InRange(tasks, index) ==> r[index].title == newTitle && r[index].completed == tasks[index].completed
    ensures forall j :: 0 <= j < |tasks| && j != index ==> r[j] == tasks[j]
    ensures !InRange(tasks, index) ==> r == tasks
  {
    if InRange(tasks, index) then tasks[index := Task(newTitle, tasks[index].completed)] else tasks
  }

  /** Removes the task at `index`; later tasks move down one place; no-op out of range. */
  function DeleteTask(tasks: seq<Task>, index: int): (r: seq<Task>)
    ensures InRange(tasks, index) ==> |r| == |tasks| - 1
    ensures InRange(tasks, index) ==> forall j :: 0 <= j < index ==> r[j] == tasks[j]
    ensures InRange(tasks, index) ==> forall j :: index <= j < |r| ==> r[j] == tasks[j + 1]
    ensures InRange(tasks, index) ==> multiset(r) + multiset{tasks[index]} == multiset(tasks)
    ensures !InRange(tasks, index) ==> r == tasks
  {
    if InRange(tasks, index) then
      assert tasks == tasks[..index] + [tasks[index]] + tasks[index + 1..];
      tasks[..index] + tasks[index + 1..]
    else tasks
  }

  /** Sets the completion flag of the task at `index`, keeping its title; no-op out of range.
      No task's flag is ever cleared. */
  function MarkTaskComplete(tasks: seq<Task>, index: int): (r: seq<Task>)
    ensures |r| == |tasks|
    ensures InRange(tasks, index) ==> r[index].completed && r[index].title == tasks[index].title
    ensures forall j :: 0 <= j < |tasks| && j != index ==> r[j] == tasks[j]
    ensures forall j :: 0 <= j < |tasks| ==> r[j].title == tasks[j].title
    ensures forall j :: 0 <= j < |tasks| && tasks[j].completed ==> r[j].completed
    ensures !InRange(tasks, index) ==> r == tasks
  {
    if InRange(tasks, index) then tasks[index := Task(tasks[index].title, true)] else tasks
  }

  /** The stored form of the whole list: one record per task, in list order,
      each of which decodes back to its task. */
  function Save(tasks: seq<Task>): (rs: seq<Record>)
    ensures |rs| == |tasks|
    ensures forall i :: 0 <= i < |rs| ==> rs[i].Keys == Fields && FromRecord(rs[i]) == Success(tasks[i])
    decreases |tasks|
  {
    if |tasks| == 0 then [] else [ToRecord(tasks[0])] + Save(tasks[1..])
  }

  /** Decodes every record in order; the first record that cannot be decoded
      makes the whole decoding fail with that record's error. */
  function DecodeAll(rs: seq<Record>): (r: Result<seq<Task>, RecordError>)
    ensures r.Success? <==> forall i :: 0 <= i < |rs| ==> WellFormed(rs[i])
    ensures r.Success? ==> |r.value| == |rs|
    ensures r.Success? ==> forall i :: 0 <= i < |rs| ==> FromRecord(rs[i]) == Success(r.value[i])
    ensures r.Failure? ==> exists i :: 0 <= i < |rs| && FromRecord(rs[i]) == Failure(r.error)
                                                      && forall j :: 0 <= j < i ==> WellFormed(rs[j])
    decreases |rs|
  {
    if |rs| == 0 then Success([])
    else match FromRecord(rs[0])
      case Failure(e) => Failure(e)
      case Success(t) =>
        match DecodeAll(rs[1..])
        case Failure(e) =>
          ghost var i :| 0 <= i < |rs[1..]| && FromRecord(rs[1..][i]) == Failure(e)
                         && forall j :: 0 <= j < i ==> WellFormed(rs[1..][j]);
          assert FromRecord(rs[i + 1]) == Failure(e);
          Failure(e)
        case Success(ts) => Success([t] + ts)
  }

  /** Loads the stored list. With nothing stored the current list is kept; otherwise
      the current list is replaced by the decoded records, or the first record's
      decoding error is raised and the current list is kept by the caller. */
  function Load(current: seq<Task>, stored: Option<seq<Record>>): (r: Result<seq<Task>, RecordError>)
    ensures stored.None? ==> r == Success(current)
    ensures stored.Some? ==> (r.Success? <==> forall i :: 0 <= i < |stored.value| ==> WellFormed(stored.value[i]))
    ensures stored.Some? && r.Success? ==> |r.value| == |stored.value|
    ensures stored.Some? && r.Success? ==>
              forall i :: 0 <= i < |stored.value| ==> FromRecord(stored.value[i]) == Success(r.value[i])
    ensures stored.Some? && r.Failure? ==>
              exists i :: 0 <= i < |stored.value| && FromRecord(stored.value[i]) == Failure(r.error)
                          && forall j :: 0 <= j < i ==> WellFormed(stored.value[j])
  {
    match stored
    case None => Success(current)
    case Some(rs) => DecodeAll(rs)
  }

  /** A new manager starts empty and loads whatever is stored. */
  function Init(stored: Option<seq<Record>>): (r: Result<seq<Task>, RecordError>)
    ensures stored.None? ==> r == Success([])
    ensures stored.Some? ==> forall t :: Load(t, stored) == r
  {
    Load([], stored)
  }

  /** Loading what was saved gives back exactly the saved list, whatever was loaded before. */
  lemma LoadSave(current: seq<Task>, tasks: seq<Task>)
    ensures Load(current, Some(Save(tasks))) == Success(tasks)
  {
    var rs := Save(tasks);
    var r := Load(current, Some(rs));
    assert forall i :: 0 <= i < |rs| ==> WellFormed(rs[i]);
    forall i | 0 <= i < |tasks|
      ensures r.value[i] == tasks[i]
    {
      assert FromRecord(rs[i]) == Success(tasks[i]);
    }
    assert r.value == tasks;
  }

  /** Saving what was loaded gives back the stored records when each record carries both fields. */
  lemma SaveLoad(current: seq<Task>, rs: seq<Record>)
    requires forall i :: 0 <= i < |rs| ==> WellFormed(rs[i]) && CompletedField in rs[i]
    ensures Load(current, Some(rs)).Success?
    ensures Save(Load(current, Some(rs)).value) == rs
  {
    var ts := Load(current, Some(rs)).value;
    forall i | 0 <= i < |rs|
      ensures Save(ts)[i] == rs[i]
    {
      ToRecordOfFromRecord(rs[i]);
      assert Save(ts)[i].Keys == Fields;
      assert Save(ts)[i] == ToRecord(ts[i]) by {
        ToRecordOfFromRecord(Save(ts)[i]);
      }
    }
  }

  /** Loaded data does not depend on what was in memory before. */
  lemma LoadReplaces(a: seq<Task>, b: seq<Task>, rs: seq<Record>)
    ensures Load(a, Some(rs)) == Load(b, Some(rs))
  {
  }

  // ---------------------------------------------------------------------------
  // Relations between the operations

  /** Deleting the task just added restores the list. */
  lemma AddThenDelete(tasks: seq<Task>, title: string)
    ensures DeleteTask(AddTask(tasks, title), |tasks|) == tasks
  {
  }

  /** Editing an index twice keeps only the second title. */
  lemma EditLastWins(tasks: seq<Task>, index: int, a: string, b: string)
    ensures EditTask(EditTask(tasks, index, a), index, b) == EditTask(tasks, index, b)
  {
  }

  /** Editing back to the old title undoes an edit. */
  lemma EditUndo(tasks: seq<Task>, index: int, title: string)
    requires InRange(tasks, index)
    ensures EditTask(EditTask(tasks, index, title), index, tasks[index].title) == tasks
  {
  }

  /** Marking a task complete twice is the same as marking it once. */
  lemma MarkIdempotent(tasks: seq<Task>, index: int)
    ensures MarkTaskComplete(MarkTaskComplete(tasks, index), index) == MarkTaskComplete(tasks, index)
  {
  }

  /** Marking two tasks complete gives the same list in either order. */
  lemma MarkCommutes(tasks: seq<Task>, i: int, j: int)
    ensures MarkTaskComplete(MarkTaskComplete(tasks, i), j) == MarkTaskComplete(MarkTaskComplete(tasks, j), i)
  {
  }

  /** Retitling and marking complete are independent of each other. */
  lemma MarkEditCommute(tasks: seq<Task>, i: int, j: int, title: string)
    ensures MarkTaskComplete(EditTask(tasks, j, title), i) == EditTask(MarkTaskComplete(tasks, i), j, title)
  {
  }

  // ---------------------------------------------------------------------------
  // Number of completed tasks

  /** How many tasks in the list are completed. */
  function CompletedCount(tasks: seq<Task>): (n: nat)
    ensures n <= |tasks|
    decreases |tasks|
  {
    if |tasks| == 0 then 0 else Flag(tasks[0]) + CompletedCount(tasks[1..])
  }

  /** 1 for a completed task, 0 otherwise. */
  function Flag(t: Task): nat
  {
    if t.completed then 1 else 0
  }

  lemma {:induction false} CompletedCountConcat(a: seq<Task>, b: seq<Task>)
    ensures CompletedCount(a + b) == CompletedCount(a) + CompletedCount(b)
    decreases |a|
  {
    if |a| == 0 {
      assert a + b == b;
    } else {
      assert (a + b)[1..] == a[1..] + b;
      CompletedCountConcat(a[1..], b);
    }
  }

  /** Replacing one task changes the count by the difference of the two flags. */
  lemma CompletedCountUpdate(tasks: seq<Task>, index: int, t: Task)
    requires InRange(tasks, index)
    ensures CompletedCount(tasks[index := t]) + Flag(tasks[index]) == CompletedCount(tasks) + Flag(t)
  {
    var pre, post := tasks[..index], tasks[index + 1..];
    assert tasks == pre + [tasks[index]] + post;
    assert tasks[index := t] == pre + [t] + post;
    CompletedCountConcat(pre + [tasks[index]], post);
    CompletedCountConcat(pre, [tasks[index]]);
    CompletedCountConcat(pre + [t], post);
    CompletedCountConcat(pre, [t]);
  }

  /** Marking completes exactly one more task, unless the index is out of range
      or that task was already completed. */
  lemma MarkCompletesOne(tasks: seq<Task>, index: int)
    ensures CompletedCount(MarkTaskComplete(tasks, index))
            == CompletedCount(tasks) + (if InRange(tasks, index) && !tasks[index].completed then 1 else 0)
  {
    if InRange(tasks, index) {
      CompletedCountUpdate(tasks, index, Task(tasks[index].title, true));
    }
  }

  /** Retitling never changes how many tasks are completed. */
  lemma EditKeepsCount(tasks: seq<Task>, index: int, title: string)
    ensures CompletedCount(EditTask(tasks, index, title)) == CompletedCount(tasks)
  {
    if InRange(tasks, index) {
      CompletedCountUpdate(tasks, index, Task(title, tasks[index].completed));
    }
  }

  /** Adding never changes how many tasks are completed. */
  lemma AddKeepsCount(tasks: seq<Task>, title: string)
    ensures CompletedCount(AddTask(tasks, title)) == CompletedCount(tasks)
  {
    CompletedCountConcat(tasks, [NewTask(title)]);
  }

  /** Deleting lowers the count by one exactly when the deleted task was completed. */
  lemma DeleteCount(tasks: seq<Task>, index: int)
    ensures CompletedCount(DeleteTask(tasks, index))
            == CompletedCount(tasks) - (if InRange(tasks, index) && tasks[index].completed then 1 else 0)
  {
    if InRange(tasks, index) {
      var pre, post := tasks[..index], tasks[index + 1..];
      assert tasks == pre + [tasks[index]] + post;
      CompletedCountConcat(pre + [tasks[index]], post);
      CompletedCountConcat(pre, [tasks[index]]);
      CompletedCountConcat(pre, post);
    }
  }

  // ---------------------------------------------------------------------------
  // One user action at a time

  /** The actions the task list can be asked to perform, as the window dispatches them. */
  datatype Command =
    | Add(title: string)
    | Edit(index: int, newTitle: string)
    | Delete(index: int)
    | MarkComplete(index: int)

  /** Performs one action on the list. */
  function Apply(tasks: seq<Task>, c: Command): (r: seq<Task>)
    ensures c.Add? ==> |r| == |tasks| + 1
    ensures c.Delete? && InRange(tasks, c.index) ==> |r| == |tasks| - 1
    ensures !c.Add? && !c.Delete? ==> |r| == |tasks|
  {
    match c
    case Add(title) => AddTask(tasks, title)
    case Edit(index, title) => EditTask(tasks, index, title)
    case Delete(index) => DeleteTask(tasks, index)
    case MarkComplete(index) => MarkTaskComplete(tasks, index)
  }

  /** Performs a run of actions, first to last. */
  function Run(tasks: seq<Task>, cs: seq<Command>): seq<Task>
    decreases |cs|
  {
    if |cs| == 0 then tasks else Run(Apply(tasks, cs[0]), cs[1..])
  }

  /** Every index-addressed action with an index outside the list leaves it unchanged. */
  lemma OutOfRangeIsNoOp(tasks: seq<Task>, c: Command)
    requires !c.Add? && !InRange(tasks, c.index)
    ensures Apply(tasks, c) == tasks
  {
  }

  /** No run of actions without deletions lowers the number of completed tasks. */
  lemma {:induction false} RunNeverUncompletes(tasks: seq<Task>, cs: seq<Command>)
    requires forall k :: 0 <= k < |cs| ==> !cs[k].Delete?
    ensures CompletedCount(Run(tasks, cs)) >= CompletedCount(tasks)
    decreases |cs|
  {
    if |cs| > 0 {
      match cs[0] {
        case Add(title) => AddKeepsCount(tasks, title);
        case Edit(index, title) => EditKeepsCount(tasks, index, title);
        case MarkComplete(index) => MarkCompletesOne(tasks, index);
      }
      RunNeverUncompletes(Apply(tasks, cs[0]), cs[1..]);
    }
  }

  /** Starting empty, adding "A" and "B", completing the first, saving and loading
      into a fresh manager gives "A" completed followed by "B" incomplete. */
  lemma AddMarkSaveLoadScenario()
    ensures Init(Some(Save(Run([], [Add("A"), Add("B"), MarkComplete(0)]))))
            == Success([Task("A", true), Task("B", false)])
  {
    var ts := Run([], [Add("A"), Add("B"), MarkComplete(0)]);
    assert ts == [Task("A", true), Task("B", false)];
    LoadSave([], ts);
  }

  /** Editing index 5 of a two-task list changes nothing. */
  lemma EditBeyondEndScenario(a: Task, b: Task)
    ensures EditTask([a, b], 5, "X") == [a, b]
  {
  }
}
