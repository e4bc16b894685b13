/** A single task: a title and a completion flag, with its display string. */
module Tasks {

  import opened Wrappers

  /** One entry of the task list. */
  datatype Task = Task(title: string, completed: bool)

  /** The marker shown in front of a completed task's title. */
  const CompletedMarker: string := "\U{2713} Completed"

  /** The marker shown in front of an incomplete task's title. */
  const IncompleteMarker: string := "\U{2717} Incomplete"

  /** A freshly created task: the given title, not yet completed. */
  function NewTask(title: string): (t: Task)
    ensures t.title == title
    ensures !t.completed
  {
    Task(title, false)
  }

  /** The status marker a task is displayed with. */
  function Marker(completed: bool): string
  {
    if completed then CompletedMarker else IncompleteMarker
  }

  /** The display string of a task: its status marker, one space, then its title.
      Nothing is lost: the task can be read back from the string. */
  function Display(t: Task): (s: string)
    ensures |s| == |Marker(t.completed)| + 1 + |t.title|
    ensures s[..|Marker(t.completed)|] == Marker(t.completed)
    ensures s[|Marker(t.completed)|] == ' '
    ensures s[|s| - |t.title|..] == t.title
  {
    Marker(t.completed) + " " + t.title
  }

  /** Reads a task back from a display string; None when the string carries no status marker. */
  function ParseDisplay(s: string): (r: Option<Task>)
    ensures r.Some? <==> HasPrefix(s, CompletedMarker + " ") || HasPrefix(s, IncompleteMarker + " ")
    ensures r.Some? ==> (r.value.completed <==> HasPrefix(s, CompletedMarker + " "))
    ensures r.Some? ==> r.value.title == s[|Marker(r.value.completed)| + 1..]
  {
    var done := CompletedMarker + " ";
    var todo := IncompleteMarker + " ";
    if HasPrefix(s, done) then Some(Task(s[|done|..], true))
    else if HasPrefix(s, todo) then Some(Task(s[|todo|..], false))
    else None
  }

  predicate HasPrefix(s: string, p: string)
  {
    |p| <= |s| && s[..|p|] == p
  }

  /** The task can be read back from its display string: nothing is lost in the rendering. */
  lemma ParseDisplayOfDisplay(t: Task)
    ensures ParseDisplay(Display(t)) == Some(t)
  {
    var s := Display(t);
    var done := CompletedMarker + " ";
    var todo := IncompleteMarker + " ";
    if t.completed {
      assert s[..|done|] == done;
      assert s[|done|..] == t.title;
    } else {
      assert s[0] == todo[0] != done[0];
      assert !HasPrefix(s, done);
      assert s[..|todo|] == todo;
      assert s[|todo|..] == t.title;
    }
  }

  /** Two tasks with the same display string are the same task. */
  lemma DisplayInjective(t: Task, u: Task)
    requires Display(t) == Display(u)
    ensures t == u
  {
    ParseDisplayOfDisplay(t);
    ParseDisplayOfDisplay(u);
    assert Some(t) == ParseDisplay(Display(t)) == ParseDisplay(Display(u)) == Some(u);
  }

  /** A display string shows exactly one of the two markers, the one matching the flag. */
  lemma DisplayMarkerMatchesFlag(t: Task)
    ensures HasPrefix(Display(t), CompletedMarker) <==> t.completed
    ensures HasPrefix(Display(t), IncompleteMarker) <==> !t.completed
  {
    var s := Display(t);
    assert CompletedMarker[0] != IncompleteMarker[0];
    if t.completed {
      assert s[0] == CompletedMarker[0];
    } else {
      assert s[0] == IncompleteMarker[0];
    }
  }
}
