/**
 * The contact section's form: its state, the per-field validation it shows, and the
 * submission to the form relay. The relay's answer (or the exception `fetch` throws)
 * and the configured access key are parameters of the submission.
 */
module Contact {
  import opened Wrappers
  import opened Text
  import opened Validation

  /** The form's inputs, named as their `name` attributes. `Honeypot` is the hidden anti-spam input. */
  datatype Field = Name | Email | Message | Honeypot

  datatype FormData = FormData(name: string, email: string, message: string, honeypot: string) {

    function Get(f: Field): string {
      match f
      case Name => name
      case Email => email
      case Message => message
      case Honeypot => honeypot
    }

    /** `{ ...prev, [f]: value }`. */
    function With(f: Field, value: string): (d: FormData)
      ensures d.Get(f) == value
      ensures forall g :: g != f ==> d.Get(g) == Get(g)
    {
      match f
      case Name => this.(name := value)
      case Email => this.(email := value)
      case Message => this.(message := value)
      case Honeypot => this.(honeypot := value)
    }
  }

  const BlankForm := FormData("", "", "", "")

  const NotConfiguredMessage := "Email service is not configured. Please contact me directly via email."
  const SendFailedMessage := "Failed to send message"
  const FallbackMessage := "Something went wrong. Please try again or email me directly."
  const SenderName := "Portfolio Contact Form"
  const SubjectPrefix := "New Contact Form Submission from "

  /** The JSON body posted to the relay. */
  datatype RelayRequest = RelayRequest(
    accessKey: string, name: string, email: string, message: string, fromName: string, subject: string)

  /** What `fetch` gives back: a response with its HTTP status, or an exception with its message. */
  datatype RelayOutcome = Responded(status: int) | Threw(message: string)

  /** `response.ok`. */
  predicate IsOk(status: int) { 200 <= status <= 299 }

  /** A JavaScript value used as a condition: `null` and `''` are false. */
  predicate Truthy(v: Option<string>) { v.Some? && v.value != "" }

  /** The validator the form applies to one field; the honeypot has none. */
  function FieldError(f: Field, value: string): Option<string> {
    match f
    case Name => ValidateName(Some(value))
    case Email => ValidateEmail(Some(value))
    case Message => ValidateMessage(Some(value))
    case Honeypot => None
  }

  /** `validate()`: the fields whose validator complains, each with its message. */
  function FormErrors(d: FormData): (errs: map<Field, string>)
    ensures forall f :: f in errs <==> f != Honeypot && Truthy(FieldError(f, d.Get(f)))
    ensures forall f :: f in errs ==> Some(errs[f]) == FieldError(f, d.Get(f))
  {
    map f | f in {Name, Email, Message} && Truthy(FieldError(f, d.Get(f))) :: FieldError(f, d.Get(f)).value
  }

  /** The validators' messages are never empty, so "truthy" and "present" agree. */
  lemma FieldErrorTruthy(f: Field, value: string)
    ensures Truthy(FieldError(f, value)) <==> FieldError(f, value).Some?
  {
    assert NatToString(2) != [] && NatToString(10) != [];
  }

  /** The form passes validation exactly when none of the three validators complains. */
  lemma FormErrorsEmptyIffNoComplaint(d: FormData)
    ensures FormErrors(d) == map[] <==>
      ValidateName(Some(d.name)) == None && ValidateEmail(Some(d.email)) == None && ValidateMessage(Some(d.message)) == None
  {
    FieldErrorTruthy(Name, d.name);
    FieldErrorTruthy(Email, d.email);
    FieldErrorTruthy(Message, d.message);
    var errs := FormErrors(d);
    if errs != map[] {
      var f :| f in errs;
    } else {
      assert Name !in errs && Email !in errs && Message !in errs;
    }
  }

  /**
   * The form passes validation exactly when the name has 2 to 100 characters, the
   * email matches the address pattern and the message has 10 to 2000 characters
   * (minimums on the trimmed value, maximums on the raw one).
   */
  lemma FormErrorsEmptyIff(d: FormData)
    ensures FormErrors(d) == map[] <==>
      && 2 <= |Trim(d.name)| && |d.name| <= 100
      && EmailShape(d.email)
      && 10 <= |Trim(d.message)| && |d.message| <= 2000
  {
    FormErrorsEmptyIffNoComplaint(d);
    ValidateNameVerdict(d.name);
    ValidateEmailVerdict(Some(d.email));
    ValidateMessageVerdict(d.message);
  }

  /** `errors[f]` used as a condition: an error message is on display under the field. */
  predicate Shown(errors: map<Field, Option<string>>, f: Field) {
    f in errors && Truthy(errors[f])
  }

  /**
   * Every message on display is still the verdict of that field's validator on the
   * field's current value: editing a field removes its message, so nothing stale stays.
   */
  predicate ErrorsCurrent(d: FormData, errors: map<Field, Option<string>>) {
    forall f :: Shown(errors, f) ==> f in FormErrors(d) && errors[f] == Some(FormErrors(d)[f])
  }

  /** Editing one field leaves every other field's verdict as it was. */
  lemma EditKeepsOtherVerdicts(d: FormData, f: Field, value: string, g: Field)
    requires g != f
    ensures g in FormErrors(d.With(f, value)) <==> g in FormErrors(d)
    ensures g in FormErrors(d) ==> FormErrors(d.With(f, value))[g] == FormErrors(d)[g]
  {
    assert d.With(f, value).Get(g) == d.Get(g);
  }

  /** Taking down the edited field's message keeps every message on display current. */
  lemma EditKeepsErrorsCurrent(d: FormData, errors: map<Field, Option<string>>, f: Field, value: string)
    requires ErrorsCurrent(d, errors)
    ensures ErrorsCurrent(d.With(f, value), if Shown(errors, f) then errors[f := None] else errors)
  {
    var after := if Shown(errors, f) then errors[f := None] else errors;
    forall g | Shown(after, g)
      ensures g in FormErrors(d.With(f, value)) && after[g] == Some(FormErrors(d.With(f, value))[g])
    {
      assert g != f && Shown(errors, g);
      EditKeepsOtherVerdicts(d, f, value, g);
    }
  }

  /** `setErrors(newErrors)`: the error state holds exactly the new messages. */
  function ShowErrors(errs: map<Field, string>): (shown: map<Field, Option<string>>)
    ensures shown.Keys == errs.Keys && forall f :: f in errs ==> shown[f] == Some(errs[f])
  {
    map f | f in errs :: Some(errs[f])
  }

  /** Displaying a form's own verdicts keeps them current. */
  lemma ShownVerdictsAreCurrent(d: FormData)
    ensures ErrorsCurrent(d, ShowErrors(FormErrors(d)))
  {
  }

  /** A form that passes validation has no message on display, and no message on display is never stale. */
  lemma PassingFormShowsNothing(d: FormData, errors: map<Field, Option<string>>)
    requires ErrorsCurrent(d, errors) && FormErrors(d) == map[]
    ensures forall f :: !Shown(errors, f)
    ensures forall d' :: ErrorsCurrent(d', errors)
  {
  }

  /** The text `setError` receives for a thrown error: its message, or the fallback for an empty one. */
  function ErrorText(message: string): string {
    if message != "" then message else FallbackMessage
  }

  /**
   * The body posted for a form. The `subject` names the sender so the recipient can
   * tell messages apart.
   */
  function RequestFor(key: string, d: FormData): RelayRequest {
    RelayRequest(key, d.name, d.email, d.message, SenderName, SubjectPrefix + d.name)
  }

  /**
   * The message the `try` block throws for a valid form, or `None` when the message
   * was delivered: a missing key stops before any request, a response outside
   * 200–299 is a failure, and an exception from `fetch` passes its own message on.
   */
  function DeliveryFailure(key: Option<string>, outcome: RelayOutcome): Option<string> {
    if !Truthy(key) then Some(NotConfiguredMessage)
    else match outcome
      case Responded(status) => if IsOk(status) then None else Some(SendFailedMessage)
      case Threw(message) => Some(message)
  }

  /** A delivery fails without a key whatever the relay would have said, and succeeds only on a 2xx answer. */
  lemma DeliveryFailureCases(key: Option<string>, outcome: RelayOutcome)
    ensures DeliveryFailure(key, outcome) == None <==> Truthy(key) && outcome.Responded? && IsOk(outcome.status)
    ensures !Truthy(key) ==> ErrorText(DeliveryFailure(key, outcome).value) == NotConfiguredMessage
    ensures Truthy(key) && outcome.Responded? && !IsOk(outcome.status) ==>
      ErrorText(DeliveryFailure(key, outcome).value) == SendFailedMessage
    ensures Truthy(key) && outcome.Threw? ==>
      ErrorText(DeliveryFailure(key, outcome).value) == (if outcome.message == "" then FallbackMessage else outcome.message)
  {
  }

  /** The contact form's state, as the component keeps it. */
  class ContactForm {
    var formData: FormData
    var errors: map<Field, Option<string>>
    var submitting: bool
    var submitted: bool
    var error: Option<string>

    predicate Valid()
      reads this
    {
      ErrorsCurrent(formData, errors)
    }

    /** The initial state: empty inputs, no errors, nothing sent. */
    constructor()
      ensures formData == BlankForm && errors == map[]
      ensures !submitting && !submitted && error == None
      ensures Valid()
    {
      formData := BlankForm;
      errors := map[];
      submitting := false;
      submitted := false;
      error := None;
    }

    /** `handleChange`: store the new value and take down that field's message if one is shown. */
    method HandleChange(f: Field, value: string)
      requires Valid()
      modifies this
      ensures Valid()
      ensures formData == old(formData).With(f, value)
      ensures errors == if Shown(old(errors), f) then old(errors)[f := None] else old(errors)
      ensures !Shown(errors, f)
      ensures submitting == old(submitting) && submitted == old(submitted) && error == old(error)
    {
      EditKeepsErrorsCurrent(formData, errors, f, value);
      formData := formData.With(f, value);
      if f in errors && Truthy(errors[f]) {
        errors := errors[f := None];
      }
    }

    /**
     * `handleSubmit`: a filled honeypot ends it silently; a form that fails validation
     * only shows its messages; otherwise the request is posted (when a key is
     * configured) and the outcome decides between the thank-you state with a cleared
     * form and an error message. `sent` is the request posted, if any.
     */
    method HandleSubmit(key: Option<string>, outcome: RelayOutcome) returns (sent: Option<RelayRequest>)
      requires Valid()
      modifies this
      ensures Valid()
      ensures old(formData.honeypot) != "" ==>
        sent == None && formData == old(formData) && errors == old(errors)
        && submitting == old(submitting) && submitted == old(submitted) && error == old(error)
      ensures old(formData.honeypot) == "" && FormErrors(old(formData)) != map[] ==>
        sent == None && errors == ShowErrors(FormErrors(old(formData))) && formData == old(formData)
        && submitting == old(submitting) && submitted == old(submitted) && error == old(error)
      ensures old(formData.honeypot) == "" && FormErrors(old(formData)) == map[] ==>
        && sent == (if Truthy(key) then Some(RequestFor(key.value, old(formData))) else None)
        && !submitting && errors == old(errors) && (forall f :: !Shown(errors, f))
        && (DeliveryFailure(key, outcome) == None ==> submitted && formData == BlankForm && error == None)
        && (DeliveryFailure(key, outcome).Some? ==>
              submitted == old(submitted) && formData == old(formData)
              && error == Some(ErrorText(DeliveryFailure(key, outcome).value)))
    {
      sent := None;
      if formData.honeypot != "" {
        return;
      }

      var newErrors := FormErrors(formData);
      if |newErrors| > 0 {
        ShownVerdictsAreCurrent(formData);
        errors := ShowErrors(newErrors);
        return;
      }
      PassingFormShowsNothing(formData, errors);

      submitting := true;
      error := None;
      var thrown: Option<string> := None;
      if !Truthy(key) {
        thrown := Some(NotConfiguredMessage);
      } else {
        sent := Some(RequestFor(key.value, formData));
        match outcome {
          case Responded(status) =>
            if !IsOk(status) {
              thrown := Some(SendFailedMessage);
            }
          case Threw(message) =>
            thrown := Some(message);
        }
      }
      if thrown.None? {
        submitted := true;
        formData := BlankForm;
      } else {
        error := Some(ErrorText(thrown.value));
      }
      submitting := false;
    }
  }

  /**
   * A request built from a form that passes validation carries the key and the form's
   * fields, and those fields pass every rule, minimums and maximums. That nothing else is sent (no bot, no
   * invalid form) is stated by `ContactForm.HandleSubmit`.
   */
  lemma OnlyValidFormsAreSent(d: FormData, key: Option<string>)
    requires d.honeypot == "" && FormErrors(d) == map[] && Truthy(key)
    ensures var r := RequestFor(key.value, d);
      && r.accessKey == key.value && r.name == d.name && r.email == d.email && r.message == d.message
      && EmailShape(r.email) && 2 <= |Trim(r.name)| && |r.name| <= 100
      && 10 <= |Trim(r.message)| && |r.message| <= 2000
      && r.subject == SubjectPrefix + r.name && r.fromName == SenderName
  {
    FormErrorsEmptyIff(d);
  }
}
