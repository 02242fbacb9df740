/**
 The contact form: six pieces of state and the submit handler that validates
 the fields, enters a sending phase and settles on success or failure.

 The handler's 2000 ms delay is modelled as two steps (`Begin`, then
 `Complete`), and its random draw as the `delivered` flag passed to
 `Complete`. The `disabled={isSubmitting}` attributes on the three inputs and
 the button are modelled in `Step`, which ignores edits and submits while a
 submission is in flight.
 */
module ContactForm {
  import opened Strings
  import opened Email

  datatype Status = Idle | Success | Error

  datatype Form = Form(
    name: string,
    email: string,
    message: string,
    isSubmitting: bool,
    status: Status,
    errorMessage: string)

  const BlankFieldsMessage: string := "Please fill in all fields."
  const InvalidEmailMessage: string := "Invalid email address."
  const SendFailedMessage: string := "Failed to send message."
  const FallbackMessage: string := "An error occurred. Please try again."

  /** The state the form mounts with: the initial value of every `useState`. */
  const Initial: Form := Form("", "", "", false, Idle, "")

  /** The outcome of validation: accepted, or rejected with the text shown. */
  datatype Verdict = Accepted | Rejected(reason: string)

  /** The three inputs a user can type into. */
  datatype Field = NameField | EmailField | MessageField

  /** What can happen to the form: typing into an input, pressing the submit
      button, and the end of the simulated delay with its drawn outcome. */
  datatype Event = Edit(field: Field, value: string) | Submit | Resolve(delivered: bool)

  /** Some field is empty or whitespace only. */
  ghost predicate SomeFieldBlank(f: Form) {
    AllWhitespace(f.name) || AllWhitespace(f.email) || AllWhitespace(f.message)
  }

  /** The form may be sent: no field is blank and the e-mail, untrimmed,
      matches the pattern. */
  ghost predicate Acceptable(f: Form) {
    !SomeFieldBlank(f) && RegexMatches(f.email)
  }

  /** The text the handler shows for a validation failure: the blank check
      comes first, so a whitespace-only e-mail is reported as a blank field. */
  ghost function RejectionText(f: Form): string
    requires !Acceptable(f)
  {
    if SomeFieldBlank(f) then BlankFieldsMessage else InvalidEmailMessage
  }

  /** `error.message || 'An error occurred. Please try again.'` */
  function CaughtMessage(thrown: string): (m: string)
    ensures m != ""
    ensures thrown != "" ==> m == thrown
    ensures thrown == "" ==> m == FallbackMessage
  {
    if thrown != "" then thrown else FallbackMessage
  }

  /** The handler's two checks in their order: `trim` on each field, then
      the e-mail pattern on the untrimmed e-mail. */
  function Validate(f: Form): (v: Verdict)
    ensures v == Accepted <==> Acceptable(f)
    ensures v.Rejected? ==> v.reason == RejectionText(f)
  {
    ValidEmailMatches(f.email);
    if IsBlank(f.name) || IsBlank(f.email) || IsBlank(f.message) then Rejected(BlankFieldsMessage)
    else if !ValidEmail(f.email) then Rejected(InvalidEmailMessage)
    else Accepted
  }

  /** The part of `handleSubmit` before the delay: mark the form as sending,
      then validate; a rejection undoes the sending mark and reports the
      reason. The fields themselves are never touched. */
  function Begin(f: Form): (r: Form)
    ensures r.name == f.name && r.email == f.email && r.message == f.message
    ensures r.isSubmitting <==> Acceptable(f)
    ensures r.isSubmitting ==> r.status == Idle && r.errorMessage == ""
    ensures !r.isSubmitting ==> r.status == Error && r.errorMessage == RejectionText(f)
  {
    var sending := f.(isSubmitting := true, status := Idle, errorMessage := "");
    match Validate(f)
    case Rejected(reason) => sending.(isSubmitting := false, status := Error, errorMessage := reason)
    case Accepted => sending
  }

  /** The part of `handleSubmit` after the delay. Success clears the three
      fields and leaves the error text alone; failure keeps the fields and
      reports the thrown error; either way the form stops submitting. */
  function Complete(f: Form, delivered: bool): (r: Form)
    ensures !r.isSubmitting
    ensures delivered ==> r.status == Success && r.name == "" && r.email == "" && r.message == ""
    ensures delivered ==> r.errorMessage == f.errorMessage
    ensures !delivered ==> r.status == Error && r.errorMessage == SendFailedMessage
    ensures !delivered ==> r.name == f.name && r.email == f.email && r.message == f.message
  {
    var settled :=
      if delivered then f.(status := Success, name := "", email := "", message := "")
      else f.(status := Error, errorMessage := CaughtMessage(SendFailedMessage));
    settled.(isSubmitting := false)
  }

  /** One whole run of `handleSubmit`, from the submit event to the end of
      its `finally` block, with the drawn outcome `delivered`. */
  function HandleSubmit(f: Form, delivered: bool): (r: Form)
    ensures !r.isSubmitting
    ensures r.status == Success <==> Acceptable(f) && delivered
    ensures r.status == Success ==> r.name == "" && r.email == "" && r.message == "" && r.errorMessage == ""
    ensures r.status == Error <==> !(Acceptable(f) && delivered)
    ensures r.status != Success ==> r.name == f.name && r.email == f.email && r.message == f.message
    ensures r.status == Error && !Acceptable(f) ==> r.errorMessage == RejectionText(f)
    ensures r.status == Error && Acceptable(f) ==> r.errorMessage == SendFailedMessage
  {
    var started := Begin(f);
    if started.isSubmitting then Complete(started, delivered) else started
  }

  /** `onChange` of one input. */
  function SetField(f: Form, field: Field, value: string): Form {
    match field
    case NameField => f.(name := value)
    case EmailField => f.(email := value)
    case MessageField => f.(message := value)
  }

  /** One event, with the inputs and the button disabled while submitting;
      the delay ends only while a submission is in flight. */
  function Step(f: Form, e: Event): (r: Form)
    ensures f.isSubmitting && !e.Resolve? ==> r == f
    ensures !f.isSubmitting && e.Resolve? ==> r == f
    ensures !f.isSubmitting && e.Edit? ==>
      && r.isSubmitting == f.isSubmitting && r.status == f.status && r.errorMessage == f.errorMessage
      && r.name == (if e.field == NameField then e.value else f.name)
      && r.email == (if e.field == EmailField then e.value else f.email)
      && r.message == (if e.field == MessageField then e.value else f.message)
  {
    match e
    case Edit(field, value) => if f.isSubmitting then f else SetField(f, field, value)
    case Submit => if f.isSubmitting then f else Begin(f)
    case Resolve(delivered) => if f.isSubmitting then Complete(f, delivered) else f
  }

  /** The state after a sequence of events. */
  function Run(f: Form, events: seq<Event>): Form
    decreases |events|
  {
    if |events| == 0 then f else Run(Step(f, events[0]), events[1..])
  }

  /** The invariant every reachable state keeps: the error text is set exactly
      when the status is `Error`, and is one of the three texts the handler
      uses; a form that is submitting shows no banner and holds fields that
      passed validation. */
  ghost predicate Consistent(f: Form) {
    && (f.status != Error ==> f.errorMessage == "")
    && (f.status == Error ==> f.errorMessage in {BlankFieldsMessage, InvalidEmailMessage, SendFailedMessage})
    && (f.isSubmitting ==> f.status == Idle && Acceptable(f))
  }

  lemma InitialConsistent()
    ensures Consistent(Initial)
  {
  }

  lemma StepConsistent(f: Form, e: Event)
    requires Consistent(f)
    ensures Consistent(Step(f, e))
  {
  }

  lemma {:induction false} RunConsistent(f: Form, events: seq<Event>)
    requires Consistent(f)
    ensures Consistent(Run(f, events))
    decreases |events|
  {
    if |events| > 0 {
      StepConsistent(f, events[0]);
      RunConsistent(Step(f, events[0]), events[1..]);
    }
  }

  /** Every state reachable from the initial one is consistent; in particular
      a `Success` banner never comes with an error text. */
  lemma ReachableConsistent(events: seq<Event>)
    ensures Consistent(Run(Initial, events))
    ensures Run(Initial, events).status == Success ==> Run(Initial, events).errorMessage == ""
  {
    InitialConsistent();
    RunConsistent(Initial, events);
  }

  /** Pressing submit on an idle form and letting the delay end is exactly
      one run of the handler. */
  lemma SubmitThenResolve(f: Form, delivered: bool)
    requires !f.isSubmitting
    ensures Run(f, [Submit, Resolve(delivered)]) == HandleSubmit(f, delivered)
  {
    var events := [Submit, Resolve(delivered)];
    var started := Step(f, Submit);
    assert events[1..] == [Resolve(delivered)];
    assert Run(f, events) == Run(started, [Resolve(delivered)]);
    assert [Resolve(delivered)][1..] == [];
    assert Run(started, [Resolve(delivered)]) == Step(started, Resolve(delivered));
  }

  /** While a submission is in flight no further submission starts and no
      field changes, whatever is typed or pressed. */
  lemma {:induction false} InFlightIgnoresInput(f: Form, events: seq<Event>)
    requires f.isSubmitting
    requires forall k :: 0 <= k < |events| ==> !events[k].Resolve?
    ensures Run(f, events) == f
    decreases |events|
  {
    if |events| > 0 {
      InFlightIgnoresInput(f, events[1..]);
    }
  }

  /** A whitespace-only e-mail is reported as a blank field, never as an
      invalid address, whatever the other fields hold. */
  lemma BlankEmailReportedBlank(f: Form, delivered: bool)
    requires AllWhitespace(f.email)
    ensures HandleSubmit(f, delivered).status == Error
    ensures HandleSubmit(f, delivered).errorMessage == BlankFieldsMessage
  {
  }

  lemma BlankEmailExample(delivered: bool)
    ensures HandleSubmit(Form("Ada", " \t ", "Hi", false, Idle, ""), delivered).errorMessage == BlankFieldsMessage
  {
    BlankEmailReportedBlank(Form("Ada", " \t ", "Hi", false, Idle, ""), delivered);
  }

  /** The pattern sees the untrimmed e-mail: a leading space makes it invalid. */
  lemma PaddedEmailExample(delivered: bool)
    ensures HandleSubmit(Form("Ada", " a@b.co", "Hi", false, Idle, ""), delivered).errorMessage == InvalidEmailMessage
  {
    var f := Form("Ada", " a@b.co", "Hi", false, Idle, "");
    assert !SomeFieldBlank(f) by {
      assert !IsJsWhitespace(f.name[0]) && !IsJsWhitespace(f.email[1]) && !IsJsWhitespace(f.message[0]);
    }
    RejectsLeadingSpace();
    ValidEmailMatches(f.email);
  }

  lemma MissingAtExample(delivered: bool)
    ensures HandleSubmit(Form("Ada", "not-an-email", "Hi", false, Idle, ""), delivered).errorMessage == InvalidEmailMessage
  {
    var f := Form("Ada", "not-an-email", "Hi", false, Idle, "");
    assert !SomeFieldBlank(f) by {
      assert !IsJsWhitespace(f.name[0]) && !IsJsWhitespace(f.email[0]) && !IsJsWhitespace(f.message[0]);
    }
    RejectsMissingAt();
    ValidEmailMatches(f.email);
  }

  /** A well-formed submission is sent; its outcome decides the banner. */
  lemma SendExample(delivered: bool)
    ensures var r := HandleSubmit(Form("Ada", "a@b.co", "Hi", false, Idle, ""), delivered);
      r.status == (if delivered then Success else Error)
  {
    var f := Form("Ada", "a@b.co", "Hi", false, Idle, "");
    assert !SomeFieldBlank(f) by {
      assert !IsJsWhitespace(f.name[0]) && !IsJsWhitespace(f.email[0]) && !IsJsWhitespace(f.message[0]);
    }
    AcceptsShortAddress();
    ValidEmailMatches(f.email);
    assert Acceptable(f);
  }
}
