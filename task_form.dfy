/** The add/edit task form: its field values, its error messages, and the
    record it hands to `onSubmit`. */
module TaskForm {
  import opened Wrappers
  import opened Tasks
  import opened Text

  /** `formData`: every field as the inputs hold it (`dueDate` `''` when unset). */
  datatype FormData = FormData(title: string, priority: Priority, dueDate: string, listId: string)

  datatype Field = TitleField | PriorityField | DueDateField | ListIdField

  /** One `handleChange(field, value)` call. */
  datatype FieldEdit =
    | EditTitle(title: string)
    | EditPriority(priority: Priority)
    | EditDueDate(dueDate: string)
    | EditListId(listId: string)

  /** What `onSubmit` receives. */
  datatype SubmitData = SubmitData(title: string, priority: Priority, dueDate: Option<string>, listId: string)

  const TitleRequired := "Title is required"

  /** The form a new task starts from. */
  function InitialForm(defaultListId: string): (f: FormData)
    ensures f.title == "" && f.priority == Medium && f.dueDate == "" && f.listId == defaultListId
  {
    FormData("", Medium, "", defaultListId)
  }

  /** The form an existing task is edited in: `title || ''`, `priority ||
      'medium'`, the due date cut before its 'T', `listId || defaultListId`. */
  function PrefillFrom(t: Task, defaultListId: string): (f: FormData)
    ensures f.title == t.title && f.priority == t.priority
    ensures f.dueDate <= t.dueDate.GetOr("") && 'T' !in f.dueDate
    ensures f.dueDate == "" <== !HasDueDate(t)
    ensures HasDueDate(t) ==> f.dueDate == DatePart(t.dueDate.value)
    ensures f.listId == (if t.listId == "" then defaultListId else t.listId)
  {
    FormData(
      t.title,
      t.priority,
      if HasDueDate(t) then DatePart(t.dueDate.value) else "",
      if t.listId != "" then t.listId else defaultListId)
  }

  /** `validateForm`'s new error record. */
  function ValidationErrors(f: FormData): (e: map<Field, string>)
    ensures e == map[] <==> !AllSpace(f.title)
    ensures e != map[] ==> e == map[TitleField := TitleRequired]
  {
    if Trim(f.title) == "" then
      var e := map[TitleField := TitleRequired];
      assert TitleField in e;
      e
    else map[]
  }

  /** `{ ...formData, title: formData.title.trim(), dueDate: formData.dueDate || null }` */
  function Normalise(f: FormData): (d: SubmitData)
    ensures d.title == Trim(f.title)
    ensures d.dueDate.None? <==> f.dueDate == ""
    ensures d.dueDate.Some? ==> d.dueDate.value == f.dueDate
    ensures d.priority == f.priority && d.listId == f.listId
  {
    SubmitData(Trim(f.title), f.priority, if f.dueDate == "" then None else Some(f.dueDate), f.listId)
  }

  function FieldOf(e: FieldEdit): Field {
    match e
    case EditTitle(_) => TitleField
    case EditPriority(_) => PriorityField
    case EditDueDate(_) => DueDateField
    case EditListId(_) => ListIdField
  }

  /** `{ ...prev, [field]: value }`: the edited field takes the value, the
      others keep theirs. */
  function ApplyEdit(f: FormData, e: FieldEdit): (r: FormData)
    ensures r.title == (if e.EditTitle? then e.title else f.title)
    ensures r.priority == (if e.EditPriority? then e.priority else f.priority)
    ensures r.dueDate == (if e.EditDueDate? then e.dueDate else f.dueDate)
    ensures r.listId == (if e.EditListId? then e.listId else f.listId)
  {
    match e
    case EditTitle(v) => f.(title := v)
    case EditPriority(v) => f.(priority := v)
    case EditDueDate(v) => f.(dueDate := v)
    case EditListId(v) => f.(listId := v)
  }

  /** The submitted title is already trimmed: trimming it again changes nothing. */
  lemma SubmittedTitleIsTrimmed(f: FormData)
    ensures Trim(Normalise(f).title) == Normalise(f).title
  {
    TrimIdempotent(f.title);
  }

  /** The submitted title is empty exactly when validation fails. */
  lemma SubmittedTitleEmptyIffInvalid(f: FormData)
    ensures Normalise(f).title == [] <==> ValidationErrors(f) != map[]
  {
  }

  /** The form's React state. */
  class FormState {
    const defaultListId: string
    var formData: FormData
    var errors: map<Field, string>

    constructor (defaultListId: string)
      ensures this.defaultListId == defaultListId
      ensures formData == InitialForm(defaultListId) && errors == map[]
    {
      this.defaultListId := defaultListId;
      formData := InitialForm(defaultListId);
      errors := map[];
    }

    /** The effect run when the `task` prop is set: without a task nothing changes. */
    method Prefill(task: Option<Task>)
      modifies this`formData
      ensures formData == if task.Some? then PrefillFrom(task.value, defaultListId) else old(formData)
    {
      if task.Some? {
        formData := PrefillFrom(task.value, defaultListId);
      }
    }

    /** Replaces the error record and reports whether it is empty. */
    method ValidateForm() returns (ok: bool)
      modifies this`errors
      ensures errors == ValidationErrors(formData)
      ensures ok <==> !AllSpace(formData.title)
    {
      var newErrors: map<Field, string> := map[];
      if Trim(formData.title) == "" {
        newErrors := newErrors[TitleField := TitleRequired];
      }
      errors := newErrors;
      ok := |newErrors| == 0;
    }

    /** `handleSubmit`: an invalid form yields nothing for `onSubmit`. */
    method HandleSubmit() returns (submitted: Option<SubmitData>)
      modifies this`errors
      ensures errors == ValidationErrors(formData)
      ensures submitted.None? <==> AllSpace(formData.title)
      ensures submitted.Some? ==> submitted.value == Normalise(formData)
    {
      var ok := ValidateForm();
      if !ok {
        return None;
      }
      return Some(Normalise(formData));
    }

    /** `handleChange`: sets one field and blanks that field's error if it had one. */
    method HandleChange(e: FieldEdit)
      modifies this`formData, this`errors
      ensures formData == ApplyEdit(old(formData), e)
      ensures var k := FieldOf(e);
        errors == if k in old(errors) && old(errors)[k] != "" then old(errors)[k := ""] else old(errors)
    {
      formData := ApplyEdit(formData, e);
      var k := FieldOf(e);
      if k in errors && errors[k] != "" {
        errors := errors[k := ""];
      }
    }
  }
}
