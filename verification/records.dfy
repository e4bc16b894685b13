/** The stored form of a task: a keyword record with the fields `title` and `completed`,
    as produced from a task's attribute dictionary and consumed by keyword-argument
    construction of a task. */
module Records {

  import opened Wrappers
  import opened Tasks

  /** A stored field value. Any value that is neither a string nor a boolean is `OtherValue`. */
  datatype Value = Str(s: string) | Bool(b: bool) | OtherValue

  /** A stored record: field name to value. */
  type Record = map<string, Value>

  /** Why a record could not be turned back into a task. */
  datatype RecordError =
    | UnexpectedField                // a field the task constructor has no parameter for
    | MissingTitle                   // the required `title` parameter was not supplied
    | TitleNotText                   // `title` holds something other than a string
    | CompletedNotFlag               // `completed` holds something other than a boolean

  const TitleField: string := "title"
  const CompletedField: string := "completed"

  /** The field names the task constructor accepts. */
  const Fields: set<string> := {TitleField, CompletedField}

  /** A record the task constructor accepts: only known fields, a text title,
      and a boolean flag if the flag is present at all. */
  predicate WellFormed(rec: Record)
  {
    && rec.Keys <= Fields
    && TitleField in rec && rec[TitleField].Str?
    && (CompletedField in rec ==> rec[CompletedField].Bool?)
  }

  /** The stored form of a task: both attributes, under their own names. */
  function ToRecord(t: Task): (rec: Record)
    ensures rec.Keys == Fields
    ensures WellFormed(rec)
    ensures FromRecord(rec) == Success(t)
  {
    map[TitleField := Str(t.title), CompletedField := Bool(t.completed)]
  }

  /** Builds a task from a record by passing its fields as keyword arguments.
      A record without `completed` gives an incomplete task, as the parameter defaults to false. */
  function FromRecord(rec: Record): (r: Result<Task, RecordError>)
    ensures r.Success? <==> WellFormed(rec)
    ensures r.Success? ==> r.value.title == rec[TitleField].s
    ensures r.Success? ==> (r.value.completed <==> CompletedField in rec && rec[CompletedField].b)
    ensures r == Failure(UnexpectedField) <==> exists k :: k in rec && k !in Fields
    ensures r == Failure(MissingTitle) <==> rec.Keys <= Fields && TitleField !in rec
  {
    if !(rec.Keys <= Fields) then
      Failure(UnexpectedField)
    else if TitleField !in rec then Failure(MissingTitle)
    else if !rec[TitleField].Str? then Failure(TitleNotText)
    else if CompletedField in rec && !rec[CompletedField].Bool? then Failure(CompletedNotFlag)
    else Success(Task(rec[TitleField].s, CompletedField in rec && rec[CompletedField].b))
  }

  /** A record that carries both fields is exactly the stored form of the task it decodes to. */
  lemma ToRecordOfFromRecord(rec: Record)
    requires WellFormed(rec) && CompletedField in rec
    ensures FromRecord(rec).Success? && ToRecord(FromRecord(rec).value) == rec
  {
    var t := FromRecord(rec).value;
    assert rec.Keys == Fields;
    assert rec[TitleField] == Str(t.title);
    assert rec[CompletedField] == Bool(t.completed);
  }

  /** A record with only a title decodes to an incomplete task with that title. */
  lemma FromTitleOnly(title: string)
    ensures FromRecord(map[TitleField := Str(title)]) == Success(NewTask(title))
  {
  }
}
