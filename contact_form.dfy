/**
 * The submit handler of the contact form, with `showError` and
 * `clearErrors`. The `.error-message` elements are a map from element id to
 * text content; the inputs are a map from input id to border colour; the
 * submit button is its text and its `disabled` flag.
 */
module ContactForm {
  import opened Text
  import opened EmailAddress
  import opened Wrappers

  /** The four values read from the form. */
  datatype FormData = FormData(name: string, email: string, subject: string, message: string)

  datatype Field = Name | Email | Subject | Message

  /** The border colour `showError` gives the input before an error element. */
  const ErrorBorder: string := "#ef4444"

  const SendingText: string := "Sending..."

  /** The id of the element that shows a field's error. */
  function ErrorId(f: Field): string
  {
    match f
    case Name => "nameError"
    case Email => "emailError"
    case Subject => "subjectError"
    case Message => "messageError"
  }

  function ErrorMessage(f: Field): string
  {
    match f
    case Name => "Name must be at least 2 characters long"
    case Email => "Please enter a valid email address"
    case Subject => "Subject must be at least 3 characters long"
    case Message => "Message must be at least 10 characters long"
  }

  /** Every value with white space trimmed from both ends. */
  function Trimmed(raw: FormData): (d: FormData)
    ensures NoEdgeSpace(d.name) && NoEdgeSpace(d.email) && NoEdgeSpace(d.subject) && NoEdgeSpace(d.message)
    ensures |d.name| <= |raw.name| && |d.email| <= |raw.email|
    ensures |d.subject| <= |raw.subject| && |d.message| <= |raw.message|
  {
    FormData(Trim(raw.name), Trim(raw.email), Trim(raw.subject), Trim(raw.message))
  }

  /** The check the handler makes on one (trimmed) field. */
  predicate Passes(f: Field, d: FormData)
  {
    match f
    case Name => Utf16Length(d.name) >= 2
    case Email => IsValidEmail(d.email)
    case Subject => Utf16Length(d.subject) >= 3
    case Message => Utf16Length(d.message) >= 10
  }

  /** The form may be sent: all four checks pass. */
  ghost predicate FormValid(d: FormData)
  {
    && Utf16Length(d.name) >= 2
    && WellFormed(d.email)
    && Utf16Length(d.subject) >= 3
    && Utf16Length(d.message) >= 10
  }

  /** The field whose error element has id `id`, if any. */
  function FieldOf(id: string): (r: Option<Field>)
    ensures forall f :: r == Some(f) <==> ErrorId(f) == id
  {
    if id == "nameError" then Some(Name)
    else if id == "emailError" then Some(Email)
    else if id == "subjectError" then Some(Subject)
    else if id == "messageError" then Some(Message)
    else None
  }

  /** The four error elements have different ids. */
  lemma ErrorIdsDistinct()
    ensures ErrorId(Name) != ErrorId(Email) && ErrorId(Name) != ErrorId(Subject) && ErrorId(Name) != ErrorId(Message)
    ensures ErrorId(Email) != ErrorId(Subject) && ErrorId(Email) != ErrorId(Message)
    ensures ErrorId(Subject) != ErrorId(Message)
  {
    assert ErrorId(Subject)[0] != ErrorId(Message)[0];
  }

  /** The fields whose check fails on `d`. */
  function Failures(d: FormData): (bad: set<Field>)
    ensures forall f :: f in bad <==> !Passes(f, d)
  {
    (if Passes(Name, d) then {} else {Name})
    + (if Passes(Email, d) then {} else {Email})
    + (if Passes(Subject, d) then {} else {Subject})
    + (if Passes(Message, d) then {} else {Message})
  }

  /** The four conjuncts of validity are the four checks. */
  lemma ValidIffAllPass(d: FormData)
    ensures FormValid(d) <==> forall f :: Passes(f, d)
  {
    assert Passes(Email, d) <==> WellFormed(d.email);
    if forall f :: Passes(f, d) {
      assert Passes(Name, d) && Passes(Email, d) && Passes(Subject, d) && Passes(Message, d);
    }
  }

  /** The form is valid exactly when no check fails. */
  lemma ValidIffNoFailures(d: FormData)
    ensures FormValid(d) <==> Failures(d) == {}
  {
    ValidIffAllPass(d);
    if Failures(d) != {} {
      var f :| f in Failures(d);
    }
  }

  /** The text an error element holds once the fields in `bad` have failed. */
  function ErrorText(id: string, bad: set<Field>): (t: string)
    ensures t != "" <==> exists f :: ErrorId(f) == id && f in bad
    ensures forall f :: ErrorId(f) == id ==> t == (if f in bad then ErrorMessage(f) else "")
  {
    match FieldOf(id)
    case None => ""
    case Some(f) => if f in bad then ErrorMessage(f) else ""
  }

  /** The form is valid exactly when no error element shows a message. */
  lemma ValidIffNoErrors(d: FormData)
    ensures FormValid(d) <==> forall f :: ErrorText(ErrorId(f), Failures(d)) == ""
  {
    ValidIffAllPass(d);
    assert forall f :: ErrorText(ErrorId(f), Failures(d)) == "" <==> Passes(f, d);
  }

  /** A single emoji is two UTF-16 code units, so it passes the name check. */
  lemma SingleEmojiNamePasses(d: FormData)
    requires d.name == "\U{1F600}"
    ensures Passes(Name, d)
  {
  }

  /** Padding a value with white space changes nothing the handler checks. */
  lemma PaddingIgnored(raw: FormData, pad: string)
    requires AllSpace(pad) && NoEdgeSpace(raw.name) && NoEdgeSpace(raw.email)
    requires NoEdgeSpace(raw.subject) && NoEdgeSpace(raw.message)
    ensures Trimmed(FormData(pad + raw.name + pad, pad + raw.email + pad,
                             pad + raw.subject + pad, pad + raw.message + pad)) == raw
  {
    TrimOfPadded(pad, raw.name, pad);
    TrimOfPadded(pad, raw.email, pad);
    TrimOfPadded(pad, raw.subject, pad);
    TrimOfPadded(pad, raw.message, pad);
  }

  /** One check's effect on the error texts: a failing field writes its message. */
  function ReportOne(m: map<string, string>, f: Field, bad: set<Field>): map<string, string>
  {
    if f in bad then m[ErrorId(f) := ErrorMessage(f)] else m
  }

  /** The error texts after the four checks, in the handler's order. */
  function Reported(m: map<string, string>, bad: set<Field>): map<string, string>
  {
    ReportOne(ReportOne(ReportOne(ReportOne(m, Name, bad), Email, bad), Subject, bad), Message, bad)
  }

  /** The four checks add no error element. */
  lemma ReportedKeys(m: map<string, string>, bad: set<Field>)
    requires forall f :: ErrorId(f) in m
    ensures Reported(m, bad).Keys == m.Keys
  {
  }

  /** The text of one element after the four checks. */
  lemma ReportedAt(m: map<string, string>, bad: set<Field>, k: string)
    requires k in m
    ensures k in Reported(m, bad)
    ensures Reported(m, bad)[k] == match FieldOf(k) case None => m[k] case Some(f) => if f in bad then ErrorMessage(f) else m[k]
  {
    ErrorIdsDistinct();
  }

  /**
   * Starting from cleared errors, every error element ends up holding the
   * message of its failing field and nothing otherwise; no check is skipped.
   */
  lemma ReportedAfterClear(m: map<string, string>, bad: set<Field>)
    requires forall f :: ErrorId(f) in m
    requires forall k :: k in m ==> m[k] == ""
    ensures Reported(m, bad).Keys == m.Keys
    ensures forall k :: k in m ==> Reported(m, bad)[k] == ErrorText(k, bad)
  {
    ReportedKeys(m, bad);
    forall k | k in m
      ensures Reported(m, bad)[k] == ErrorText(k, bad)
    {
      ReportedAt(m, bad, k);
    }
  }

  /**
   * One check's effect on the input borders: a failing field paints the
   * input before its error element (the page always has one, see `Form.Valid`).
   */
  function PaintOne(b: map<string, string>, before: map<string, string>, f: Field, bad: set<Field>): map<string, string>
  {
    if f in bad && ErrorId(f) in before then b[before[ErrorId(f)] := ErrorBorder] else b
  }

  /** The input borders after the four checks, in the handler's order. */
  function Painted(b: map<string, string>, before: map<string, string>, bad: set<Field>): map<string, string>
  {
    PaintOne(PaintOne(PaintOne(PaintOne(b, before, Name, bad), before, Email, bad), before, Subject, bad), before, Message, bad)
  }

  /** Whether validating `d` paints the border of input `k`. */
  ghost predicate Flagged(k: string, before: map<string, string>, bad: set<Field>)
  {
    exists f :: ErrorId(f) in before && before[ErrorId(f)] == k && f in bad
  }

  /** Starting from cleared borders, exactly the inputs before a failing field's error are red. */
  lemma PaintedAfterClear(b: map<string, string>, before: map<string, string>, bad: set<Field>)
    requires forall f :: ErrorId(f) in before && before[ErrorId(f)] in b
    requires forall k :: k in b ==> b[k] == ""
    ensures Painted(b, before, bad).Keys == b.Keys
    ensures forall k :: k in b ==>
      Painted(b, before, bad)[k] == (if Flagged(k, before, bad) then ErrorBorder else "")
  {
    var r := Painted(b, before, bad);
    forall k | k in b
      ensures r[k] == (if Flagged(k, before, bad) then ErrorBorder else "")
    {
      if Flagged(k, before, bad) {
        var f :| ErrorId(f) in before && before[ErrorId(f)] == k && f in bad;
      } else {
        assert !(before[ErrorId(Name)] == k && Name in bad);
        assert !(before[ErrorId(Email)] == k && Email in bad);
        assert !(before[ErrorId(Subject)] == k && Subject in bad);
        assert !(before[ErrorId(Message)] == k && Message in bad);
      }
    }
  }

  /** One `forEach` of `clearErrors`: every element of `m` set to the empty string. */
  method BlankAll(m: map<string, string>) returns (r: map<string, string>)
    ensures r.Keys == m.Keys
    ensures forall k :: k in r ==> r[k] == ""
  {
    r := m;
    var todo := m.Keys;
    while todo != {}
      invariant todo <= m.Keys
      invariant r.Keys == m.Keys
      invariant forall k :: k in r && k !in todo ==> r[k] == ""
      decreases todo
    {
      var k :| k in todo;
      r := r[k := ""];
      todo := todo - {k};
    }
  }

  class Form {
    /** The text content of each `.error-message` element, by element id. */
    var errorText: map<string, string>
    /** The border colour of each input, by input id. */
    var border: map<string, string>
    /** For each error element, the id of the input just before it. */
    const inputBefore: map<string, string>
    var buttonText: string
    var buttonDisabled: bool

    /** The page has the four error elements, each after an input. */
    ghost predicate Valid()
      reads this`errorText, this`border
    {
      forall f :: ErrorId(f) in errorText && ErrorId(f) in inputBefore && inputBefore[ErrorId(f)] in border
    }

    constructor (errors: map<string, string>, inputs: map<string, string>, before: map<string, string>)
      requires forall f :: ErrorId(f) in errors && ErrorId(f) in before && before[ErrorId(f)] in inputs
      ensures Valid()
      ensures errorText == errors && border == inputs && inputBefore == before
      ensures buttonText == "Send Message" && !buttonDisabled
    {
      errorText, border, inputBefore := errors, inputs, before;
      buttonText, buttonDisabled := "Send Message", false;
    }

    /** `clearErrors`: every error text and every input border emptied. */
    method ClearErrors()
      modifies this
      ensures Valid() <==> old(Valid())
      ensures errorText.Keys == old(errorText.Keys) && forall k :: k in errorText ==> errorText[k] == ""
      ensures border.Keys == old(border.Keys) && forall k :: k in border ==> border[k] == ""
      ensures buttonText == old(buttonText) && buttonDisabled == old(buttonDisabled)
    {
      errorText := BlankAll(errorText);
      border := BlankAll(border);
    }

    /** `showError`: the message into the element, the red border onto the input before it. */
    method ShowError(id: string, message: string)
      requires id in errorText && id in inputBefore && inputBefore[id] in border
      modifies this
      ensures errorText == old(errorText)[id := message]
      ensures border == old(border)[inputBefore[id] := ErrorBorder]
      ensures buttonText == old(buttonText) && buttonDisabled == old(buttonDisabled)
    {
      errorText := errorText[id := message];
      border := border[inputBefore[id] := ErrorBorder];
    }

    /** One `if` of the handler: on failure show the field's error and clear the flag. */
    method Check(f: Field, failed: bool, isValid: bool) returns (stillValid: bool)
      requires Valid()
      modifies this
      ensures Valid()
      ensures stillValid == (isValid && !failed)
      ensures errorText == if failed then old(errorText)[ErrorId(f) := ErrorMessage(f)] else old(errorText)
      ensures border == if failed then old(border)[inputBefore[ErrorId(f)] := ErrorBorder] else old(border)
      ensures buttonText == old(buttonText) && buttonDisabled == old(buttonDisabled)
    {
      stillValid := isValid;
      if failed {
        ShowError(ErrorId(f), ErrorMessage(f));
        stillValid := false;
      }
    }

    /** The four checks of the handler, in order and without short-circuit. */
    method Validate(d: FormData) returns (isValid: bool)
      requires Valid()
      modifies this
      ensures Valid()
      ensures isValid <==> Failures(d) == {}
      ensures errorText == Reported(old(errorText), Failures(d))
      ensures border == Painted(old(border), inputBefore, Failures(d))
      ensures buttonText == old(buttonText) && buttonDisabled == old(buttonDisabled)
    {
      ghost var bad := Failures(d);
      isValid := true;
      isValid := Check(Name, Utf16Length(d.name) < 2, isValid);
      isValid := Check(Email, !IsValidEmail(d.email), isValid);
      isValid := Check(Subject, Utf16Length(d.subject) < 3, isValid);
      isValid := Check(Message, Utf16Length(d.message) < 10, isValid);
      assert isValid ==> bad == {};
    }

    /**
     * What the handler does after clearing the errors and reading the
     * trimmed values `d`: run all four checks (each failure shows its own
     * message), then disable the button only when every check passed.
     */
    method Respond(d: FormData) returns (sent: bool)
      requires Valid()
      requires forall k :: k in errorText ==> errorText[k] == ""
      requires forall k :: k in border ==> border[k] == ""
      modifies this
      ensures Valid()
      ensures sent <==> FormValid(d)
      ensures errorText.Keys == old(errorText.Keys)
      ensures forall k :: k in errorText ==> errorText[k] == ErrorText(k, Failures(d))
      ensures border.Keys == old(border.Keys)
      ensures forall k :: k in border ==>
        border[k] == (if Flagged(k, inputBefore, Failures(d)) then ErrorBorder else "")
      ensures sent ==> buttonText == SendingText && buttonDisabled
      ensures !sent ==> buttonText == old(buttonText) && buttonDisabled == old(buttonDisabled)
    {
      ReportedAfterClear(errorText, Failures(d));
      PaintedAfterClear(border, inputBefore, Failures(d));
      ValidIffNoFailures(d);
      var isValid := Validate(d);
      if !isValid {
        return false;
      }
      buttonText := SendingText;
      buttonDisabled := true;
      sent := true;
    }

    /**
     * The submit handler up to the simulated request: clear the errors,
     * trim the values, check them, and mark the button as sending only
     * when the form is valid.
     */
    method Submit(raw: FormData) returns (sent: bool)
      requires Valid()
      modifies this
      ensures Valid()
      ensures sent <==> FormValid(Trimmed(raw))
      ensures errorText.Keys == old(errorText.Keys)
      ensures forall k :: k in errorText ==> errorText[k] == ErrorText(k, Failures(Trimmed(raw)))
      ensures border.Keys == old(border.Keys)
      ensures forall k :: k in border ==>
        border[k] == (if Flagged(k, inputBefore, Failures(Trimmed(raw))) then ErrorBorder else "")
      ensures sent ==> buttonText == SendingText && buttonDisabled
      ensures !sent ==> buttonText == old(buttonText) && buttonDisabled == old(buttonDisabled)
    {
      ClearErrors();
      sent := Respond(Trimmed(raw));
    }
  }
}
