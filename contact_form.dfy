/** The inquiry form of the contact section: its required-field validation, the status
    message, and the submit handler from the submit gesture to the resolution of the
    request it sends. The request's outcome is an input; nothing is sent anywhere. */
module ContactForm {
  import opened Wrappers
  import opened Text
  import opened Email

  /** The `type` attribute, as far as validation cares. */
  datatype Kind = EmailInput | OtherInput

  /** One control of the form: its name and current value, the value `reset()` restores,
      whether it carries `required`, its kind, and whether it carries the class `is-invalid`. */
  datatype Field = Field(name: string, value: string, defaultValue: string,
                         required: bool, kind: Kind, invalid: bool)

  /** The check a required field fails: an empty trimmed value, or an e-mail field whose
      non-empty trimmed value the e-mail pattern rejects. In the form's own terms: the
      value is all white space, or it is an e-mail value whose trimmed form does not match
      the regular expression. */
  function Fails(f: Field): (r: bool)
    ensures r <==> AllWhitespace(f.value)
                   || (f.kind == EmailInput && !EmailPattern(Trim(f.value)))
  {
    TrimEmptyIff(f.value);
    var v := Trim(f.value);
    v == [] || (f.kind == EmailInput && v != [] && !IsEmail(v))
  }

  /** One pass of the validator over one field: a required field loses its old mark and is
      marked again if it fails; a field without `required` is not among those visited. */
  function Recheck(f: Field): (r: Field)
    ensures r == f.(invalid := r.invalid)
    ensures f.required ==> (r.invalid <==> Fails(f))
    ensures !f.required ==> r == f
  {
    if f.required then f.(invalid := Fails(f)) else f
  }

  /** The fields after the validator has visited them, in document order: each one
      rechecked on its own (`ValidatedAt` spells out what that does to each field). */
  function Validated(fs: seq<Field>): (r: seq<Field>)
    ensures |r| == |fs|
    ensures forall k :: 0 <= k < |fs| ==> r[k] == Recheck(fs[k])
  {
    if fs == [] then [] else [Recheck(fs[0])] + Validated(fs[1..])
  }

  /** The verdict the validator folds over the fields: true exactly when every required
      field passes its check. */
  function AllPass(fs: seq<Field>): (r: bool)
    ensures r <==> forall k :: 0 <= k < |fs| && fs[k].required ==> !Fails(fs[k])
  {
    if fs == [] then true
    else
      var rest := fs[1..];
      assert forall k :: 1 <= k < |fs| ==> fs[k] == rest[k - 1];
      (!fs[0].required || !Fails(fs[0])) && AllPass(rest)
  }

  /** After validation a required field is marked exactly when it fails its check, whatever
      mark it had before; any other field keeps its mark; nothing but the mark changes. */
  lemma {:induction false} ValidatedAt(fs: seq<Field>, k: nat)
    requires k < |fs|
    ensures |Validated(fs)| == |fs|
    ensures Validated(fs)[k].invalid == (if fs[k].required then Fails(fs[k]) else fs[k].invalid)
    ensures Validated(fs)[k] == fs[k].(invalid := Validated(fs)[k].invalid)
  {
    if k > 0 {
      ValidatedAt(fs[1..], k - 1);
    } else if |fs| > 1 {
      ValidatedAt(fs[1..], 0);
    }
  }

  /** The verdict over a field put in front of others. */
  lemma AllPassCons(f: Field, rest: seq<Field>)
    ensures AllPass([f] + rest) <==> (!f.required || !Fails(f)) && AllPass(rest)
  {
    assert ([f] + rest)[1..] == rest;
  }

  /** A field without `required` has no effect on the verdict: dropping it gives the same
      verdict, so even an e-mail field holding something that is not an address does not
      block submission. */
  lemma {:induction false} UnrequiredFieldIgnored(fs: seq<Field>, k: nat)
    requires k < |fs| && !fs[k].required
    ensures AllPass(fs) <==> AllPass(fs[..k] + fs[k + 1..])
  {
    if k == 0 {
      assert fs[..0] + fs[1..] == fs[1..];
    } else {
      var tail := fs[1..];
      UnrequiredFieldIgnored(tail, k - 1);
      DropBehindHead(fs, k);
      AllPassCons(fs[0], tail[..k - 1] + tail[k..]);
    }
  }

  /** Dropping a position behind the head keeps the head in front. */
  lemma DropBehindHead<T>(xs: seq<T>, k: nat)
    requires 0 < k < |xs|
    ensures xs[..k] + xs[k + 1..] == [xs[0]] + (xs[1..][..k - 1] + xs[1..][k..])
  {
  }

  /** Rechecking each field on its own gives the validated fields. */
  lemma RecheckedEach(fs: seq<Field>, after: seq<Field>)
    requires |after| == |fs| && forall k :: 0 <= k < |fs| ==> after[k] == Recheck(fs[k])
    ensures after == Validated(fs)
  {
    forall k | 0 <= k < |fs| ensures after[k] == Validated(fs)[k] {
      ValidatedAt(fs, k);
    }
  }

  /** The verdict in the terms of the form: every required field has a non-empty trimmed
      value, and every required e-mail field's trimmed value matches the e-mail pattern. */
  lemma ValidationVerdict(fs: seq<Field>)
    ensures AllPass(fs) <==> forall k :: 0 <= k < |fs| && fs[k].required ==>
      Trim(fs[k].value) != [] && (fs[k].kind == EmailInput ==> EmailPattern(Trim(fs[k].value)))
  {
    forall k | 0 <= k < |fs| {
      TrimEmptyIff(fs[k].value);
    }
  }

  /** The verdict and the marks agree: validation succeeds exactly when it leaves no
      required field marked. */
  lemma VerdictMatchesMarks(fs: seq<Field>)
    ensures AllPass(fs) <==>
      forall k :: 0 <= k < |fs| && fs[k].required ==> !Validated(fs)[k].invalid
  {
    forall k | 0 <= k < |fs| {
      ValidatedAt(fs, k);
    }
  }

  /** Validating twice marks the same fields as validating once. */
  lemma ValidatedIdempotent(fs: seq<Field>)
    ensures Validated(Validated(fs)) == Validated(fs)
  {
    var once := Validated(fs);
    forall k | 0 <= k < |fs| ensures Validated(once)[k] == once[k] {
      ValidatedAt(fs, k);
      ValidatedAt(once, k);
    }
  }

  /** `reset()`: every value returns to its default; names, kinds and marks stay. */
  function Reset(fs: seq<Field>): (r: seq<Field>)
    ensures |r| == |fs|
    ensures forall k :: 0 <= k < |fs| ==>
      r[k].value == fs[k].defaultValue && r[k] == fs[k].(value := r[k].value)
  {
    seq(|fs|, k requires 0 <= k < |fs| => fs[k].(value := fs[k].defaultValue))
  }

  /** Resetting a reset form changes nothing. */
  lemma ResetIdempotent(fs: seq<Field>)
    ensures Reset(Reset(fs)) == Reset(fs)
  {
  }

  // The request body.

  type Entry = (string, string)

  const SubjectText := "New Inquiry from Rajasthan Silica Quartz Website"
  const CcAddress := "Chittora.learning@gmail.com"
  const AutoResponseText := "Thank you for your inquiry. We will contact you within 24 hours with a detailed quote and product information."
  const SourceText := "Website Contact Form"

  /** The entries `new FormData(form)` takes from the controls, in document order. */
  function FormEntries(fs: seq<Field>): (r: seq<Entry>)
    ensures |r| == |fs|
    ensures forall k :: 0 <= k < |fs| ==> r[k].0 == fs[k].name && r[k].1 == fs[k].value
  {
    seq(|fs|, k requires 0 <= k < |fs| => (fs[k].name, fs[k].value))
  }

  function Keys(entries: seq<Entry>): seq<string> {
    seq(|entries|, k requires 0 <= k < |entries| => entries[k].0)
  }

  /** The request body: every control's entry, then exactly five appended entries with the
      keys `_subject`, `_cc`, `_autoresponse`, `timestamp`, `source`, in that order; the
      timestamp is the one given, the other four are fixed texts. */
  function BuildPayload(fs: seq<Field>, timestamp: string): (p: seq<Entry>)
    ensures |p| == |fs| + 5
    ensures p[..|fs|] == FormEntries(fs)
    ensures forall k :: 0 <= k < |fs| ==> p[k] == (fs[k].name, fs[k].value)
    ensures Keys(p[|fs|..]) == ["_subject", "_cc", "_autoresponse", "timestamp", "source"]
    ensures p[|fs| + 3].1 == timestamp
    ensures p[|fs|].1 == SubjectText && p[|fs| + 1].1 == CcAddress
    ensures p[|fs| + 2].1 == AutoResponseText && p[|fs| + 4].1 == SourceText
  {
    FormEntries(fs) + [("_subject", SubjectText), ("_cc", CcAddress),
                       ("_autoresponse", AutoResponseText), ("timestamp", timestamp),
                       ("source", SourceText)]
  }

  /** Validation changes only marks, so the body sent after it carries the values the
      user submitted. */
  lemma ValidationKeepsEntries(fs: seq<Field>)
    ensures FormEntries(Validated(fs)) == FormEntries(fs)
  {
    forall k | 0 <= k < |fs| ensures FormEntries(Validated(fs))[k] == FormEntries(fs)[k] {
      ValidatedAt(fs, k);
    }
    if fs != [] {
      ValidatedAt(fs, 0);
    }
  }

  // The status message.

  const SuccessClass := "alert alert-success mt-3"
  const DangerClass := "alert alert-danger mt-3"
  const ValidationErrorText := "Please fill in all required fields correctly."
  const SuccessText := "Thank you for your inquiry! We will contact you within 24 hours with detailed information about our silica quartz products."
  const FailureText := "Sorry, there was an error submitting your inquiry. Please try again or contact us directly via phone or WhatsApp."

  /** The class string of the message box: the success style for the type `success` and the
      danger style for every other type. */
  function AlertClass(kind: string): (c: string)
    ensures c == SuccessClass <==> kind == "success"
    ensures c == DangerClass <==> kind != "success"
  {
    "alert alert-" + (if kind == "success" then "success" else "danger") + " mt-3"
  }

  /** The message element: its text, its class attribute and whether it is displayed. */
  datatype Message = Message(text: string, className: string, visible: bool)

  /** The submit button: its inner content, `disabled`, and whether it has the class `loading`. */
  datatype Button = Button(content: string, disabled: bool, loading: bool)

  const SpinnerContent := "<i class=\"fas fa-spinner fa-spin me-2\"></i>Sending..."

  /** How the request ended: a response, with its `ok` flag and whether its body parsed as
      JSON, or a transport failure in which no response arrived. */
  datatype Outcome = Response(ok: bool, jsonBody: bool) | TransportError

  /** Only an `ok` response whose body parses reaches the success branch; a failed JSON
      parse rejects the promise chain just as a non-`ok` status does. */
  function Succeeded(o: Outcome): (r: bool)
    ensures r <==> o == Response(true, true)
  {
    o.Response? && o.ok && o.jsonBody
  }

  /** The form with its controls, its submit button, the message element, the requests
      issued so far, and, while a request is in flight, the button content to restore. */
  class InquiryForm {
    const fields: array<Field>
    var button: Button
    var message: Message
    var outbox: seq<seq<Entry>>
    var pending: Option<string>

    /** The button is disabled, and carries `loading`, exactly while a request is in flight. */
    ghost predicate Valid()
      reads this
    {
      (button.disabled <==> pending.Some?) && (button.loading <==> pending.Some?)
    }

    constructor (controls: seq<Field>, caption: string)
      ensures Valid()
      ensures fresh(fields) && fields[..] == controls
      ensures button == Button(caption, false, false) && pending == None
      ensures outbox == [] && !message.visible
    {
      fields := new Field[|controls|](k requires 0 <= k < |controls| => controls[k]);
      button := Button(caption, false, false);
      message := Message("", "", false);
      outbox := [];
      pending := None;
    }

    /** `showFormMessage`: sets the text, picks the class from the type, and displays it. */
    method ShowFormMessage(text: string, kind: string)
      modifies this`message
      ensures message == Message(text, AlertClass(kind), true)
      ensures message.visible && message.text == text
      ensures message.className == if kind == "success" then SuccessClass else DangerClass
    {
      message := Message(text, AlertClass(kind), true);
    }

    /** The body of the validator's loop, for the required field at position `i`: its old
        mark is removed, and it is marked again if its trimmed value is empty or, for an
        e-mail field, if the non-empty trimmed value is not an address. */
    method CheckField(i: nat) returns (failed: bool)
      requires i < fields.Length
      modifies fields
      ensures fields[i] == Recheck(old(fields[i]))
      ensures failed == (fields[i].required && fields[i].invalid)
      ensures forall k :: 0 <= k < fields.Length && k != i ==> fields[k] == old(fields[k])
    {
      var field := fields[i];
      failed := false;
      if field.required {
        var value := Trim(field.value);
        var marked := false;
        if value == [] {
          marked := true;
        }
        if field.kind == EmailInput && value != [] {
          if !IsEmail(value) {
            marked := true;
          }
        }
        failed := marked;
        fields[i] := field.(invalid := marked);
      }
    }

    /** `validateForm`: re-marks every required field, and on failure shows the one
        aggregate error message. */
    method ValidateForm() returns (isValid: bool)
      modifies fields, this`message
      ensures fields[..] == Validated(old(fields[..]))
      ensures isValid == AllPass(old(fields[..]))
      ensures isValid ==> message == old(message)
      ensures !isValid ==> message == Message(ValidationErrorText, DangerClass, true)
    {
      ghost var before := fields[..];
      isValid := true;
      var i := 0;
      while i < fields.Length
        invariant 0 <= i <= fields.Length
        invariant forall k :: 0 <= k < i ==> fields[k] == Recheck(before[k])
        invariant forall k :: i <= k < fields.Length ==> fields[k] == before[k]
        invariant isValid == forall k :: 0 <= k < i && fields[k].required ==> !fields[k].invalid
        invariant message == old(message)
      {
        var fieldFailed := CheckField(i);
        if fieldFailed {
          isValid := false;
        }
        i := i + 1;
      }
      RecheckedEach(before, fields[..]);
      VerdictMatchesMarks(before);
      if !isValid {
        ShowFormMessage(ValidationErrorText, "error");
      }
    }

    /** The synchronous part of the submit handler. An invalid form stops it before the
        button or the outbox is touched. A valid form puts the button into its loading
        state, remembers its content, and issues one request whose body is the submitted
        values followed by the five metadata entries. */
    method Submit(timestamp: string) returns (sent: bool)
      requires Valid() && !button.disabled
      modifies this, fields
      ensures Valid()
      ensures fields[..] == Validated(old(fields[..]))
      ensures sent == AllPass(old(fields[..]))
      ensures !sent ==> button == old(button) && pending == None && outbox == old(outbox)
      ensures !sent ==> message == Message(ValidationErrorText, DangerClass, true)
      ensures sent ==> button == Button(SpinnerContent, true, true)
      ensures sent ==> pending == Some(old(button.content)) && message == old(message)
      ensures sent ==> outbox == old(outbox) + [BuildPayload(old(fields[..]), timestamp)]
      ensures sent ==> forall k :: 0 <= k < fields.Length && fields[k].required ==> !fields[k].invalid
    {
      ghost var before := fields[..];
      sent := ValidateForm();
      if !sent {
        return;
      }
      var originalContent := button.content;
      button := Button(SpinnerContent, true, true);
      pending := Some(originalContent);
      var body := BuildPayload(fields[..], timestamp);
      ValidationKeepsEntries(before);
      outbox := outbox + [body];
      VerdictMatchesMarks(before);
      forall k | 0 <= k < fields.Length {
        ValidatedAt(before, k);
      }
    }

    /** The continuation once the request has resolved. Success resets the controls and
        shows the thank-you message; any failure shows the error message and keeps the
        values. Either way the button gets its content back, is enabled, and loses `loading`. */
    method Resolve(outcome: Outcome)
      requires Valid() && pending.Some?
      modifies this, fields
      ensures Valid() && pending == None && outbox == old(outbox)
      ensures button == Button(old(pending.value), false, false)
      ensures Succeeded(outcome) ==> fields[..] == Reset(old(fields[..]))
      ensures Succeeded(outcome) ==> message == Message(SuccessText, SuccessClass, true)
      ensures !Succeeded(outcome) ==> fields[..] == old(fields[..])
      ensures !Succeeded(outcome) ==> message == Message(FailureText, DangerClass, true)
    {
      if Succeeded(outcome) {
        ShowFormMessage(SuccessText, "success");
        forall k | 0 <= k < fields.Length {
          fields[k] := fields[k].(value := fields[k].defaultValue);
        }
      } else {
        ShowFormMessage(FailureText, "error");
      }
      button := Button(pending.value, false, false);
      pending := None;
    }
  }

  /** A blank required field: nothing is sent, the field is marked, the button is untouched. */
  method BlankFieldScenario()
  {
    var blank := Field("name", " ", "", true, OtherInput, false);
    assert Trim(blank.value) == [] by {
      TrimEmptyIff(blank.value);
    }
    assert !AllPass([blank]) && Validated([blank])[0].invalid by {
      ValidatedAt([blank], 0);
    }
    var form := new InquiryForm([blank], "Send");
    var sent := form.Submit("t0");
    assert !sent && form.outbox == [] && form.button == Button("Send", false, false);
    assert form.fields[..][0].invalid;
  }

  /** A required e-mail field holding `a@b.co` passes its check. */
  lemma AddressPasses(address: Field)
    requires address == Field("email", "a@b.co", "", true, EmailInput, true)
    ensures !Fails(address)
  {
    TrimKeeps(address.value);
    AcceptsSample();
  }

  /** A filled-in form is sent, and whichever way the request ends the button returns;
      only success clears the value. */
  method FilledFormScenario(ok: bool)
  {
    var address := Field("email", "a@b.co", "", true, EmailInput, true);
    var cleared := address.(invalid := false);
    assert AllPass([address]) && Validated([address]) == [cleared] by {
      AddressPasses(address);
      ValidatedAt([address], 0);
    }
    var form := new InquiryForm([address], "Send");
    var sent := form.Submit("t1");
    assert sent && |form.outbox| == 1 && form.button.disabled;
    assert form.fields[..] == [cleared];
    form.Resolve(if ok then Response(true, true) else TransportError);
    assert form.button == Button("Send", false, false);
    assert form.fields[..] == if ok then Reset([cleared]) else [cleared];
    assert form.fields[0].value == if ok then "" else "a@b.co";
  }
}
