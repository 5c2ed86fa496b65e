/** The task form: its starting values, its check and the payload it submits. */
module TaskForm {
  import opened Wrappers
  import opened Dates
  import opened Records
  import Text
  import FormRules

  /** The form's fields; an empty date picker is `None`. */
  datatype FormData = FormData(title: string, description: string, priority: string, dueDate: Option<Day>, category: string)

  /** `categories[0]?.name || "Personal"`. */
  function DefaultCategory(categories: seq<Category>): (r: string)
    ensures |categories| > 0 && categories[0].name != "" ==> r == categories[0].name
    ensures !(|categories| > 0 && categories[0].name != "") ==> r == "Personal"
  {
    Text.OrElse(if |categories| > 0 then Some(categories[0].name) else None, "Personal")
  }

  /** The form's starting values: the edited task's, else the defaults. */
  function InitialForm(initial: Option<Task>, categories: seq<Category>): (r: FormData)
    ensures initial.None? ==> r == FormData("", "", "medium", None, DefaultCategory(categories))
    ensures initial.Some? ==> r.title == initial.value.title && r.dueDate == initial.value.dueDate
    ensures initial.Some? && initial.value.category != "" ==> r.category == initial.value.category
    ensures initial.Some? && initial.value.category == "" ==> r.category == DefaultCategory(categories)
    ensures initial.Some? ==> r.description == initial.value.description
    ensures initial.Some? && initial.value.priority != "" ==> r.priority == initial.value.priority
    ensures initial.Some? && initial.value.priority == "" ==> r.priority == "medium"
    ensures r.priority != ""
  {
    match initial
    case None => FormData("", "", "medium", None, DefaultCategory(categories))
    case Some(t) =>
      FormData(t.title, t.description, Text.OrElse(Some(t.priority), "medium"), t.dueDate,
               Text.OrElse(Some(t.category), DefaultCategory(categories)))
  }

  /** What `handleSubmit` passes on. */
  datatype Payload = Payload(title: string, description: string, priority: string, dueDate: Option<Day>, category: string)

  /** The outcome of pressing submit: the recorded error, or the payload and the form afterwards. */
  datatype SubmitOutcome =
    | Rejected(error: FormRules.FieldError)
    | Submitted(payload: Payload, next: FormData)

  /** `validateForm`: the title is the only checked field. */
  function Validate(form: FormData): (r: Option<FormRules.FieldError>)
    ensures r.None? <==> Text.Trim(form.title) != "" && Text.Utf16Length(form.title) <= FormRules.MaxLength
  {
    FormRules.TextFieldError(form.title)
  }

  /**
   * `handleSubmit`: stop on an error; otherwise submit the trimmed payload and
   * reset the form if it was creating a task.
   */
  function Submit(form: FormData, initial: Option<Task>, categories: seq<Category>): (r: SubmitOutcome)
    ensures r.Rejected? <==> Validate(form).Some?
    ensures r.Rejected? ==> Some(r.error) == Validate(form)
    ensures r.Submitted? ==>
      r.payload.title == Text.Trim(form.title) && r.payload.description == Text.Trim(form.description) &&
      r.payload.priority == form.priority && r.payload.dueDate == form.dueDate && r.payload.category == form.category
    ensures r.Submitted? ==> r.payload.title != "" && Text.Utf16Length(r.payload.title) <= FormRules.MaxLength
    ensures r.Submitted? && initial.None? ==> r.next == InitialForm(None, categories)
    ensures r.Submitted? && initial.Some? ==> r.next == form
  {
    match Validate(form)
    case Some(e) => Rejected(e)
    case None =>
      FormRules.TrimmedStillValid(form.title);
      var payload := Payload(Text.Trim(form.title), Text.Trim(form.description), form.priority, form.dueDate, form.category);
      Submitted(payload, if initial.None? then InitialForm(None, categories) else form)
  }

  /** A submitted payload, put back into the form, passes the check again. */
  lemma PayloadRevalidates(form: FormData, initial: Option<Task>, categories: seq<Category>)
    requires Submit(form, initial, categories).Submitted?
    ensures var p := Submit(form, initial, categories).payload;
      Validate(FormData(p.title, p.description, p.priority, p.dueDate, p.category)).None?
  {
    FormRules.TrimmedStillValid(form.title);
  }

  /** Submitting an already normalised payload again yields the same payload. */
  lemma SubmitIdempotent(form: FormData, categories: seq<Category>, t: Task)
    requires Submit(form, Some(t), categories).Submitted?
    ensures var p := Submit(form, Some(t), categories).payload;
      var again := Submit(FormData(p.title, p.description, p.priority, p.dueDate, p.category), Some(t), categories);
      again.Submitted? && again.payload == p
  {
    FormRules.TrimmedStillValid(form.title);
    Text.TrimIdempotent(form.title);
    Text.TrimIdempotent(form.description);
  }
}
