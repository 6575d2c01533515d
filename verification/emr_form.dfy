/** The "Create New EMR Record" form: five required text fields, three
    check boxes and free notes. The payload is the form itself, and the form
    keeps its contents after a successful submit. */
module EmrForm {
  import opened Forms

  datatype Form = Form(
    emr: string,
    profileLink: string,
    startDate: string,
    trainingReminder: string,
    fourWeeks: string,
    reminderSent: bool,
    reinstatee: bool,
    loa: bool,
    notes: string)

  /** The state the form starts in. */
  const Blank := Form("", "", "", "", "", false, false, false, "")

  /** The five required fields are filled in; the check boxes and the notes
      are not consulted. */
  predicate Complete(f: Form) {
    && f.emr != ""
    && f.profileLink != ""
    && f.trainingReminder != ""
    && f.startDate != ""
    && f.fourWeeks != ""
  }

  /** The request `handleSubmit` sends: none when a required field is empty,
      otherwise an exact copy of the form. */
  function Submit(f: Form): (s: Submission<Form>)
    ensures s.Rejected? <==>
      f.emr == "" || f.profileLink == "" || f.trainingReminder == ""
      || f.startDate == "" || f.fourWeeks == ""
    ensures s.Posted? ==> s.payload == f
  {
    if Complete(f) then Posted(f) else Rejected
  }

  /** One submit: the request sent (if any) and the form state afterwards,
      which is the same form whatever the endpoint answers. */
  function HandleSubmit(f: Form, reply: Reply): (r: (Submission<Form>, Form))
    ensures r.0 == Submit(f)
    ensures r.1 == f
  {
    (Submit(f), f)
  }

  /** The notes and the three check boxes never decide whether a submit goes
      through. */
  lemma OptionalFieldsNotRequired(f: Form, notes: string, reminderSent: bool, reinstatee: bool, loa: bool)
    ensures var g := f.(notes := notes, reminderSent := reminderSent, reinstatee := reinstatee, loa := loa);
      Submit(g).Rejected? == Submit(f).Rejected?
  {
  }

  /** Because the form is not cleared, a successful submit can be repeated and
      posts the same payload again. */
  lemma ResubmitPostsAgain(f: Form)
    requires Complete(f)
    ensures HandleSubmit(HandleSubmit(f, Succeeded).1, Succeeded).0 == Posted(f)
  {
  }
}
