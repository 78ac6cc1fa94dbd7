/**
  The research-form validator. One submission reads the seven inputs, clears
  every error message on the page, runs each field's rule (all of them, none
  short-circuiting another), writes at most one message per failing field,
  and reports whether the whole form passed. A passing form is confirmed to
  the user and reset; a failing one keeps its values.
 */
module Validation {
  import opened Wrappers
  import opened Text
  import opened Email

  /** The seven inputs of the form, as read at submission time. `field` is
      the value of the field-of-interest select; `agree` is the checkbox. */
  datatype FormInput = FormInput(
    firstName: string,
    lastName: string,
    email: string,
    topic: string,
    field: string,
    message: string,
    agree: bool)

  /** The form's inputs, each with its own error slot on the page. */
  datatype FieldId = FirstName | LastName | EmailAddress | Topic | FieldOfInterest | Message | Agreement

  /** The order in which the rules run. */
  const AllFields: seq<FieldId> :=
    [FirstName, LastName, EmailAddress, Topic, FieldOfInterest, Message, Agreement]

  /** The raw value a field contributes to the form. */
  datatype FieldValue = TextValue(text: string) | Checked(on: bool)

  function ValueOf(x: FormInput, f: FieldId): FieldValue {
    match f
    case FirstName => TextValue(x.firstName)
    case LastName => TextValue(x.lastName)
    case EmailAddress => TextValue(x.email)
    case Topic => TextValue(x.topic)
    case FieldOfInterest => TextValue(x.field)
    case Message => TextValue(x.message)
    case Agreement => Checked(x.agree)
  }

  // The messages the page shows.
  const FirstNameRequired := "First name is required"
  const FirstNameTooShort := "First name must be at least 2 characters"
  const LastNameRequired := "Last name is required"
  const LastNameTooShort := "Last name must be at least 2 characters"
  const EmailRequired := "Email is required"
  const EmailInvalid := "Please enter a valid email address"
  const TopicRequired := "Research topic is required"
  const TopicTooShort := "Research topic must be at least 5 characters"
  const FieldMissing := "Please select a field of interest"
  const MessageRequired := "Message is required"
  const MessageTooShort := "Message must be at least 20 characters"
  const AgreementMissing := "You must confirm this is for academic collaboration"

  // Minimum lengths, measured on the untrimmed value.
  const NameMinLength := 2
  const TopicMinLength := 5
  const MessageMinLength := 20

  /** The error messages on display: a field absent from the map shows an
      empty message. */
  type ErrorDisplay = map<FieldId, string>

  /** Sets one field's message, leaving every other field's message as it was. */
  function ShowError(shown: ErrorDisplay, f: FieldId, msg: string): (r: ErrorDisplay)
    ensures r.Keys == shown.Keys + {f}
    ensures r[f] == msg
    ensures forall g | g in shown && g != f :: r[g] == shown[g]
  {
    shown[f := msg]
  }

  /** Blanks every error message on the page, whatever was shown before. */
  function ClearErrors(shown: ErrorDisplay): (r: ErrorDisplay)
    ensures forall f: FieldId :: f !in r
  {
    map[]
  }

  /** The rule shared by the free-text fields: "required" when the value is
      blank, otherwise "too short" when the untrimmed value is shorter than
      `minLength`. */
  function TextRule(v: string, minLength: nat, required: string, tooShort: string): (r: Option<string>)
    ensures r.None? <==> !IsBlank(v) && |v| >= minLength
    ensures IsBlank(v) ==> r == Some(required)
    ensures !IsBlank(v) && |v| < minLength ==> r == Some(tooShort)
  {
    if Trim(v) == "" then Some(required)
    else if |v| < minLength then Some(tooShort)
    else None
  }

  /** "required" when the value is blank, otherwise "invalid" unless the
      untrimmed value matches the address expression. */
  function EmailRule(v: string): (r: Option<string>)
    ensures r.None? <==> EmailPattern(v)
    ensures IsBlank(v) ==> r == Some(EmailRequired)
    ensures !IsBlank(v) && !EmailPattern(v) ==> r == Some(EmailInvalid)
  {
    IsValidEmailCorrect(v);
    if Trim(v) == "" then Some(EmailRequired)
    else if !IsValidEmail(v) then Some(EmailInvalid)
    else None
  }

  /** The rule of one field, looking only at that field's value. */
  function FieldError(x: FormInput, f: FieldId): (r: Option<string>)
    ensures f == FirstName ==> (r.None? <==> !IsBlank(x.firstName) && |x.firstName| >= NameMinLength)
    ensures f == LastName ==> (r.None? <==> !IsBlank(x.lastName) && |x.lastName| >= NameMinLength)
    ensures f == EmailAddress ==> (r.None? <==> EmailPattern(x.email))
    ensures f == Topic ==> (r.None? <==> !IsBlank(x.topic) && |x.topic| >= TopicMinLength)
    ensures f == FieldOfInterest ==> (r.None? <==> x.field != "")
    ensures f == Message ==> (r.None? <==> !IsBlank(x.message) && |x.message| >= MessageMinLength)
    ensures f == Agreement ==> (r.None? <==> x.agree)
  {
    match f
    case FirstName => TextRule(x.firstName, NameMinLength, FirstNameRequired, FirstNameTooShort)
    case LastName => TextRule(x.lastName, NameMinLength, LastNameRequired, LastNameTooShort)
    case EmailAddress => EmailRule(x.email)
    case Topic => TextRule(x.topic, TopicMinLength, TopicRequired, TopicTooShort)
    case FieldOfInterest => if x.field == "" then Some(FieldMissing) else None
    case Message => TextRule(x.message, MessageMinLength, MessageRequired, MessageTooShort)
    case Agreement => if !x.agree then Some(AgreementMissing) else None
  }

  /** The errors on display and the overall verdict of one submission. */
  datatype Outcome = Outcome(errors: ErrorDisplay, valid: bool)

  /** The message a field shows after the outcome, if any. */
  function ErrorOf(r: Outcome, f: FieldId): Option<string> {
    if f in r.errors then Some(r.errors[f]) else None
  }

  /** Runs the rules of `fs` in order on top of `shown`, clearing `valid`
      whenever a rule fires. Every rule runs; none is skipped because an
      earlier one failed. */
  function RunRules(x: FormInput, fs: seq<FieldId>, shown: ErrorDisplay, valid: bool): (r: Outcome)
    ensures forall f :: f in r.errors <==> f in shown || (f in fs && FieldError(x, f).Some?)
    ensures forall f | f in fs && FieldError(x, f).Some? :: r.errors[f] == FieldError(x, f).value
    ensures forall f | f in shown && (f !in fs || FieldError(x, f).None?) :: r.errors[f] == shown[f]
    ensures r.valid <==> valid && forall f | f in fs :: FieldError(x, f).None?
    decreases |fs|
  {
    if fs == [] then Outcome(shown, valid)
    else
      match FieldError(x, fs[0])
      case Some(msg) => RunRules(x, fs[1..], ShowError(shown, fs[0], msg), false)
      case None => RunRules(x, fs[1..], shown, valid)
  }

  lemma AllFieldsComplete(f: FieldId)
    ensures f in AllFields
  {
    match f
    case FirstName =>
    case LastName =>
    case EmailAddress =>
    case Topic =>
    case FieldOfInterest =>
    case Message =>
    case Agreement =>
  }

  /** `validateForm`: clear the page's messages, run all seven rules, report.
      Exactly the failing fields carry a message afterwards, each its own
      rule's message, whatever was shown before; the form is valid iff no
      field carries one. */
  function Validate(shown: ErrorDisplay, x: FormInput): (r: Outcome)
    ensures forall f :: f in r.errors <==> FieldError(x, f).Some?
    ensures forall f | f in r.errors :: r.errors[f] == FieldError(x, f).value
    ensures r.valid <==> r.errors == map[]
  {
    forall f: FieldId ensures f in AllFields {
      AllFieldsComplete(f);
    }
    var r := RunRules(x, AllFields, ClearErrors(shown), true);
    assert r.errors != map[] ==> exists f :: f in r.errors;
    r
  }

  /** What a form that passes every rule looks like, written field by field
      with no reference to trimming or to the rule functions. */
  ghost predicate Acceptable(x: FormInput) {
    && !IsBlank(x.firstName) && |x.firstName| >= 2
    && !IsBlank(x.lastName) && |x.lastName| >= 2
    && EmailPattern(x.email)
    && !IsBlank(x.topic) && |x.topic| >= 5
    && x.field != ""
    && !IsBlank(x.message) && |x.message| >= 20
    && x.agree
  }

  /** No rule fires exactly for acceptable forms. */
  lemma AcceptableIffNoRuleFires(x: FormInput)
    ensures Acceptable(x) <==> forall f: FieldId :: FieldError(x, f).None?
  {
    if !Acceptable(x) {
      if FieldError(x, FirstName).None? && FieldError(x, LastName).None?
        && FieldError(x, EmailAddress).None? && FieldError(x, Topic).None?
        && FieldError(x, FieldOfInterest).None? && FieldError(x, Message).None?
      {
        assert FieldError(x, Agreement).Some?;
      }
    }
  }

  /** The submission succeeds exactly for acceptable forms. */
  lemma ValidIffAcceptable(shown: ErrorDisplay, x: FormInput)
    ensures Validate(shown, x).valid <==> Acceptable(x)
  {
    var r := Validate(shown, x);
    AcceptableIffNoRuleFires(x);
    if !r.valid {
      var f :| f in r.errors;
      assert FieldError(x, f).Some?;
    } else {
      forall f: FieldId ensures FieldError(x, f).None? {
        assert f !in r.errors;
      }
    }
  }

  /** The message a field shows after a submission is its own rule's verdict. */
  lemma ErrorOfValidate(shown: ErrorDisplay, x: FormInput, f: FieldId)
    ensures ErrorOf(Validate(shown, x), f) == FieldError(x, f)
  {
  }

  /** A field's message depends only on that field's own value: not on the
      other six inputs, and not on what was on display before the call. */
  lemma FieldIndependence(shown1: ErrorDisplay, x: FormInput, shown2: ErrorDisplay, y: FormInput, f: FieldId)
    requires ValueOf(x, f) == ValueOf(y, f)
    ensures ErrorOf(Validate(shown1, x), f) == ErrorOf(Validate(shown2, y), f)
  {
    ErrorOfValidate(shown1, x, f);
    ErrorOfValidate(shown2, y, f);
    RuleSeesOnlyItsField(x, y, f);
  }

  lemma RuleSeesOnlyItsField(x: FormInput, y: FormInput, f: FieldId)
    requires ValueOf(x, f) == ValueOf(y, f)
    ensures FieldError(x, f) == FieldError(y, f)
  {
    match f
    case FirstName => assert x.firstName == y.firstName;
    case LastName => assert x.lastName == y.lastName;
    case EmailAddress => assert x.email == y.email;
    case Topic => assert x.topic == y.topic;
    case FieldOfInterest => assert x.field == y.field;
    case Message => assert x.message == y.message;
    case Agreement => assert x.agree == y.agree;
  }

  /** First and last names: blank means "required"; otherwise "too short"
      iff the untrimmed value has fewer than 2 characters; never both. */
  lemma NameRules(shown: ErrorDisplay, x: FormInput)
    ensures IsBlank(x.firstName) ==> ErrorOf(Validate(shown, x), FirstName) == Some(FirstNameRequired)
    ensures !IsBlank(x.firstName) ==>
      (ErrorOf(Validate(shown, x), FirstName) == Some(FirstNameTooShort) <==> |x.firstName| < 2)
    ensures ErrorOf(Validate(shown, x), FirstName).None? <==> !IsBlank(x.firstName) && |x.firstName| >= 2
    ensures IsBlank(x.lastName) ==> ErrorOf(Validate(shown, x), LastName) == Some(LastNameRequired)
    ensures !IsBlank(x.lastName) ==>
      (ErrorOf(Validate(shown, x), LastName) == Some(LastNameTooShort) <==> |x.lastName| < 2)
    ensures ErrorOf(Validate(shown, x), LastName).None? <==> !IsBlank(x.lastName) && |x.lastName| >= 2
  {
    ErrorOfValidate(shown, x, FirstName);
    ErrorOfValidate(shown, x, LastName);
  }

  /** Email: blank means "required"; otherwise "invalid" iff the untrimmed
      value is outside the address language. */
  lemma EmailRules(shown: ErrorDisplay, x: FormInput)
    ensures IsBlank(x.email) ==> ErrorOf(Validate(shown, x), EmailAddress) == Some(EmailRequired)
    ensures !IsBlank(x.email) ==>
      (ErrorOf(Validate(shown, x), EmailAddress) == Some(EmailInvalid) <==> !EmailPattern(x.email))
    ensures ErrorOf(Validate(shown, x), EmailAddress).None? <==> EmailPattern(x.email)
  {
    ErrorOfValidate(shown, x, EmailAddress);
  }

  /** Topic and message: blank means "required"; otherwise "too short" iff
      the untrimmed value is shorter than 5 (topic) or 20 (message). */
  lemma TopicAndMessageRules(shown: ErrorDisplay, x: FormInput)
    ensures IsBlank(x.topic) ==> ErrorOf(Validate(shown, x), Topic) == Some(TopicRequired)
    ensures !IsBlank(x.topic) ==>
      (ErrorOf(Validate(shown, x), Topic) == Some(TopicTooShort) <==> |x.topic| < 5)
    ensures ErrorOf(Validate(shown, x), Topic).None? <==> !IsBlank(x.topic) && |x.topic| >= 5
    ensures IsBlank(x.message) ==> ErrorOf(Validate(shown, x), Message) == Some(MessageRequired)
    ensures !IsBlank(x.message) ==>
      (ErrorOf(Validate(shown, x), Message) == Some(MessageTooShort) <==> |x.message| < 20)
    ensures ErrorOf(Validate(shown, x), Message).None? <==> !IsBlank(x.message) && |x.message| >= 20
  {
    ErrorOfValidate(shown, x, Topic);
    ErrorOfValidate(shown, x, Message);
  }

  /** The select fails iff its value is exactly empty (no trimming); the
      checkbox fails iff unchecked. */
  lemma SelectAndAgreementRules(shown: ErrorDisplay, x: FormInput)
    ensures ErrorOf(Validate(shown, x), FieldOfInterest) ==
      (if x.field == "" then Some(FieldMissing) else None)
    ensures ErrorOf(Validate(shown, x), Agreement) ==
      (if x.agree then None else Some(AgreementMissing))
  {
    ErrorOfValidate(shown, x, FieldOfInterest);
    ErrorOfValidate(shown, x, Agreement);
  }

  /** The page after a submission: the inputs and the messages on display. */
  datatype Page = Page(input: FormInput, shown: ErrorDisplay)

  /** One press of the submit button. `defaults` are the values `form.reset()`
      restores. `confirmed` signals the success alert. */
  datatype Submission = Submission(page: Page, confirmed: bool)

  function Submit(defaults: FormInput, p: Page): (r: Submission)
    ensures r.confirmed <==> Acceptable(p.input)
    ensures r.confirmed ==> r.page.input == defaults && r.page.shown == map[]
    ensures !r.confirmed ==> r.page.input == p.input && r.page.shown != map[]
    ensures forall f :: f in r.page.shown ==> FieldError(p.input, f).Some?
    ensures !r.confirmed ==> forall f :: f in r.page.shown <==> FieldError(p.input, f).Some?
    ensures forall f | f in r.page.shown :: r.page.shown[f] == FieldError(p.input, f).value
  {
    var o := Validate(p.shown, p.input);
    ValidIffAcceptable(p.shown, p.input);
    if o.valid then Submission(Page(defaults, o.errors), true)
    else Submission(Page(p.input, o.errors), false)
  }
}
