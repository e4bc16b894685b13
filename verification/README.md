# Task list model

A Dafny model of the data layer of a single-user desktop to-do list (`todolist.py`).
A task is a title plus a completion flag; the task manager keeps an ordered list of tasks
and offers three index-addressed operations (edit, delete, mark complete) and add, plus
whole-list save and load through a stored record form (one `{title, completed}` record
per task). Each index-addressed operation silently does nothing when the index is outside
`0 <= index < len(tasks)`, negative indices included.

Modules:

- `Wrappers` (`wrappers.dfy`): `Option` for "is there a stored file", `Result` for an operation that may raise.
- `Tasks` (`tasks.dfy`): the `Task` datatype, task creation, and the display string with its reader.
- `Records` (`records.dfy`): the stored record (`map<string, Value>`), `ToRecord` (a task's attribute
  dictionary) and `FromRecord` (keyword-argument construction of a task, with its errors).
- `TaskManager` (`task_manager.dfy`): the list operations on `seq<Task>`, `Save`, `Load`, `Init`,
  the `Command` dispatch, and the lemmas relating the operations.

The model is functional: the list is an immutable `seq<Task>` and every operation returns the new
list. The file and JSON layer are replaced by their abstract content: loading takes an
`Option<seq<Record>>` (None when no file exists) and saving returns a `seq<Record>`.

A record without a `completed` field is not an error: the constructor's parameter defaults to
false (`todolist.py:7`), so `FromRecord` yields an incomplete task (`Records.FromTitleOnly`).

## Model

| member | source | states |
|---|---|---|
| Tasks.NewTask | todolist.py:7-9 | a new task carries the given title and is not completed |
| Tasks.Display | todolist.py:11-13 | the display string is the status marker, one space, then the title, with lengths adding up |
| Tasks.ParseDisplay | todolist.py:11-13 | the inverse of the rendering, used to show that it loses nothing: a string is readable exactly when it starts with one of the two markers and a space; the flag is read from which marker and the title is everything after that space |
| Tasks.ParseDisplayOfDisplay | todolist.py:11-13 | reading a task's display string back gives that task: the rendering loses nothing |
| Tasks.DisplayInjective | todolist.py:11-13 | two tasks with the same display string are equal |
| Tasks.DisplayMarkerMatchesFlag | todolist.py:12 | the completed marker appears exactly for completed tasks, the incomplete marker exactly for the others |
| Records.ToRecord | todolist.py:46 | a task is stored as exactly the fields `title` and `completed`, and that record rebuilds the same task |
| Records.FromRecord | todolist.py:25 | keyword construction succeeds exactly for well-formed records; unknown fields and a missing title are the errors; the title is copied and a missing flag means incomplete |
| Records.ToRecordOfFromRecord | todolist.py:25 | a well-formed record with both fields is the stored form of the task it builds |
| Records.FromTitleOnly | todolist.py:7-9 | a record with only a title builds the same task as creating one with that title |
| TaskManager.AddTask | todolist.py:27-29 | adding appends exactly one incomplete task with the given title; earlier tasks are unchanged |
| TaskManager.EditTask | todolist.py:31-34 | in range, only that task's title changes and its flag is kept; every other position and the length are unchanged; out of range nothing changes |
| TaskManager.DeleteTask | todolist.py:36-38 | in range, the length drops by one, earlier tasks stay, later tasks shift down one place, and the multiset loses exactly the deleted task; out of range nothing changes |
| TaskManager.MarkTaskComplete | todolist.py:40-42 | in range, that task becomes completed with its title kept; other positions, all titles and every already completed flag are unchanged; out of range nothing changes |
| TaskManager.Save | todolist.py:44-46 | one record per task in list order, each with exactly the two fields and each rebuilding its task |
| TaskManager.DecodeAll | todolist.py:25 | records decode in order; success exactly when every record is well formed, with one task per record; otherwise the error of the first bad record |
| TaskManager.Load | todolist.py:21-25 | with nothing stored the list is kept; with stored records it succeeds exactly when every record is well formed, giving one task per record in order, and otherwise fails with the error of the first bad record |
| TaskManager.Init | todolist.py:16-19 | a new manager with nothing stored is empty; with stored data it gets exactly what loading that data gives from any list, success or the first record's error alike |
| TaskManager.LoadSave | todolist.py:44-46 | loading what was saved gives back the same list, in order, whatever was loaded before |
| TaskManager.SaveLoad | todolist.py:21-25 | saving what was loaded from records carrying both fields gives back those records |
| TaskManager.LoadReplaces | todolist.py:21-25 | loading stored records replaces the whole list: the result does not depend on the list in memory |
| TaskManager.AddThenDelete | todolist.py:27-38 | deleting the task just added restores the previous list |
| TaskManager.EditLastWins | todolist.py:31-34 | two edits of the same index leave only the second title |
| TaskManager.EditUndo | todolist.py:31-34 | editing back to the old title restores the list |
| TaskManager.MarkIdempotent | todolist.py:40-42 | marking complete twice equals marking once |
| TaskManager.MarkCommutes | todolist.py:40-42 | marking two indices complete gives the same list in either order |
| TaskManager.MarkEditCommute | todolist.py:31-42 | retitling one index and completing another (or the same) commute |
| TaskManager.MarkCompletesOne | todolist.py:40-42 | marking raises the number of completed tasks by one exactly when the index is in range and that task was incomplete |
| TaskManager.EditKeepsCount | todolist.py:31-34 | editing never changes the number of completed tasks |
| TaskManager.AddKeepsCount | todolist.py:27-29 | adding never changes the number of completed tasks |
| TaskManager.DeleteCount | todolist.py:36-38 | deleting lowers the number of completed tasks by one exactly when the deleted task was completed |
| TaskManager.Apply | todolist.py:27-42 | adding grows the list by one, an in-range delete shrinks it by one, edits and marks keep its length |
| TaskManager.OutOfRangeIsNoOp | todolist.py:31-42 | every edit, delete and mark with an index outside the list, negative ones included, leaves the list unchanged |
| TaskManager.RunNeverUncompletes | todolist.py:27-42 | no run of adds, edits and marks lowers the number of completed tasks: there is no way to clear a flag |
| TaskManager.AddMarkSaveLoadScenario | todolist.py:27-46 | adding "A" and "B", completing the first, saving and loading into a fresh manager yields A completed then B incomplete |
| TaskManager.EditBeyondEndScenario | todolist.py:31-34 | editing index 5 of a two-task list changes nothing |

## Left out

- The window layer (`TaskManagerApp`, todolist.py:48-139): widgets, dialogs, warnings, list-box selection and the event loop. `Command`/`Apply` stand for the single action a button dispatches.
- Auto-save on window close (todolist.py:132-134): event wiring of the window layer.
- The file system and the JSON codec (`os.path.exists`, `open`, `json.load`, `json.dump`): loading takes the stored records as an `Option` (None when no file exists) and saving returns them; the file name is therefore not modelled. Read and write failures of the file itself are not modelled.
- Records.FromRecord: is stricter than the code on value types: the code passes any stored value through as the title or flag, while the model rejects a non-string title (`TitleNotText`) and a non-boolean flag (`CompletedNotFlag`), because a model task only holds a string and a boolean.
- Records.FromRecord: reports an unexpected field without naming it, because a record is a map and has no field order to say which unexpected field comes first.
- Stored values other than strings and booleans (numbers, null, lists, objects) are collapsed into one `OtherValue`.
- Object identity: tasks are values here, which matches the code because no task is shared outside the list.
