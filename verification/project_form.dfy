/** The project form: its starting values, its checks and the payload it submits. */
module ProjectForm {
  import opened Wrappers
  import opened Dates
  import opened Records
  import Text
  import FormRules

  /** The progress field holds a number when pre-filled and text once the user edits it. */
  datatype ProgressField = Number(n: int) | Entered(text: string)

  /** The form's fields; a cleared date picker is `None`. */
  datatype FormData = FormData(
    name: string, description: string, status: string, priority: string,
    startDate: Option<Day>, dueDate: Option<Day>, color: string, progress: ProgressField)

  /** The starting values of a new project's form, dated `today`. */
  function BlankForm(today: Day): FormData
  {
    FormData("", "", "planning", "medium", Some(today), None, "#4F46E5", Number(0))
  }

  /** The form's starting values: the edited project's, else the defaults. */
  function InitialForm(initial: Option<Project>, now: Time): (r: FormData)
    ensures initial.None? ==> r == BlankForm(DayOf(now))
    ensures initial.Some? ==>
      r.name == initial.value.name && r.dueDate == initial.value.dueDate
    ensures initial.Some? ==>
      r.startDate == Some(initial.value.startDate.GetOr(DayOf(now))) &&
      r.progress == Number(initial.value.progress.GetOr(0))
    ensures initial.Some? ==> r.description == initial.value.description
    ensures initial.Some? ==>
      r.status == (if initial.value.status != "" then initial.value.status else "planning") &&
      r.priority == (if initial.value.priority != "" then initial.value.priority else "medium") &&
      r.color == (if initial.value.color != "" then initial.value.color else "#4F46E5")
    ensures r.status != "" && r.priority != "" && r.color != "" && r.startDate.Some?
  {
    match initial
    case None => BlankForm(DayOf(now))
    case Some(p) =>
      FormData(p.name, p.description, Text.OrElse(Some(p.status), "planning"), Text.OrElse(Some(p.priority), "medium"),
               Some(p.startDate.GetOr(DayOf(now))), p.dueDate, Text.OrElse(Some(p.color), "#4F46E5"),
               Number(p.progress.GetOr(0)))
  }

  /** The errors `validateForm` records, one slot per field that can fail. */
  datatype Errors = Errors(name: Option<FormRules.FieldError>, dueBeforeStart: bool)
  {
    predicate IsEmpty() { name.None? && !dueBeforeStart }
  }

  /** `validateForm`: the name rule, and a due date earlier than the start date. */
  function Validate(form: FormData): (r: Errors)
    ensures r.IsEmpty() <==>
      Text.Trim(form.name) != "" && Text.Utf16Length(form.name) <= FormRules.MaxLength &&
      !(form.startDate.Some? && form.dueDate.Some? && form.dueDate.value < form.startDate.value)
    ensures r.dueBeforeStart ==> form.startDate.Some? && form.dueDate.Some?
  {
    var late := form.dueDate.Some? && form.startDate.Some? && Midnight(form.dueDate.value) < Midnight(form.startDate.value);
    Errors(FormRules.TextFieldError(form.name), late)
  }

  /**
   * What `handleSubmit` passes on: `startDate` is `None` for a cleared date
   * (the empty string), `dueDate` is `None` for `null`, and `progress` is
   * `None` where `parseInt` gives NaN.
   */
  datatype Payload = Payload(
    name: string, description: string, status: string, priority: string,
    startDate: Option<Day>, dueDate: Option<Day>, color: string, progress: Option<int>)

  datatype SubmitOutcome =
    | Rejected(errors: Errors)
    | Submitted(payload: Payload, next: FormData)

  /** `parseInt(formData.progress)`. */
  function ParsedProgress(p: ProgressField): (r: Option<int>)
    ensures p.Number? ==> r == Some(p.n)
    ensures p.Entered? ==> r == Text.ParseInt(p.text)
  {
    match p
    case Number(n) =>
      Text.ParseIntDecimal(n);
      Text.ParseInt(Text.Shown(n))
    case Entered(s) => Text.ParseInt(s)
  }

  /**
   * `handleSubmit`: stop on any error; otherwise submit the trimmed payload and
   * reset the form if it was creating a project.
   */
  function Submit(form: FormData, initial: Option<Project>, now: Time): (r: SubmitOutcome)
    ensures r.Rejected? <==> !Validate(form).IsEmpty()
    ensures r.Rejected? ==> r.errors == Validate(form)
    ensures r.Submitted? ==>
      r.payload.name == Text.Trim(form.name) && r.payload.description == Text.Trim(form.description) &&
      r.payload.status == form.status && r.payload.priority == form.priority &&
      r.payload.startDate == form.startDate && r.payload.dueDate == form.dueDate &&
      r.payload.color == form.color && r.payload.progress == ParsedProgress(form.progress)
    ensures r.Submitted? ==> r.payload.name != "" && Text.Utf16Length(r.payload.name) <= FormRules.MaxLength
    ensures r.Submitted? && r.payload.startDate.Some? && r.payload.dueDate.Some? ==>
      r.payload.startDate.value <= r.payload.dueDate.value
    ensures r.Submitted? && initial.None? ==> r.next == BlankForm(DayOf(now))
    ensures r.Submitted? && initial.Some? ==> r.next == form
  {
    var errors := Validate(form);
    if !errors.IsEmpty() then Rejected(errors)
    else
      FormRules.TrimmedStillValid(form.name);
      var payload := Payload(Text.Trim(form.name), Text.Trim(form.description), form.status, form.priority,
                             form.startDate, form.dueDate, form.color, ParsedProgress(form.progress));
      Submitted(payload, if initial.None? then BlankForm(DayOf(now)) else form)
  }

  /**
   * Due and start on the same day is accepted, and a due date alone is never
   * checked: then only the name decides.
   */
  lemma SameDayOrNoStartAccepted(form: FormData)
    requires form.startDate.None? || form.dueDate == form.startDate
    ensures Validate(form).IsEmpty() <==> FormRules.TextFieldError(form.name).None?
  {
  }

  /**
   * A pre-filled form for a stored project submits its progress unchanged;
   * a stored NaN comes back as 0.
   */
  lemma EditKeepsProgress(p: Project, now: Time)
    ensures var r := Submit(InitialForm(Some(p), now), Some(p), now);
      r.Submitted? ==> r.payload.progress == Some(p.progress.GetOr(0))
  {
  }

  /** Typed progress reaches the payload as NaN exactly when no digits follow its blanks and sign. */
  lemma TypedProgressNaN(form: FormData, now: Time)
    requires form.progress.Entered?
    ensures var r := Submit(form, None, now);
      r.Submitted? ==>
        (r.payload.progress.None? <==> Text.LeadingDigits(Text.SignStripped(Text.TrimStart(form.progress.text))) == "")
  {
  }
}
