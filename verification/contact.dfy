/**
  The contact form: four controlled text fields and an `isSubmitting` flag. A submit
  sets the flag, waits, clears every field and drops the flag. The wait and the
  success alert are not modelled; the submit is two steps, begin and complete.
*/
module Contact {

  /** The `name` attributes of the form's inputs. */
  datatype Field = Name | Email | Subject | Message

  datatype FormData = FormData(name: string, email: string, subject: string, message: string)

  datatype ContactForm = ContactForm(data: FormData, isSubmitting: bool)

  const EmptyForm: FormData := FormData("", "", "", "")

  /** The state after mount. */
  const Init: ContactForm := ContactForm(EmptyForm, false)

  function Get(d: FormData, f: Field): string {
    match f
    case Name => d.name
    case Email => d.email
    case Subject => d.subject
    case Message => d.message
  }

  /** `{ ...prev, [name]: value }`. */
  function Set(d: FormData, f: Field, value: string): (r: FormData)
    ensures Get(r, f) == value
    ensures forall g :: g != f ==> Get(r, g) == Get(d, g)
  {
    match f
    case Name => d.(name := value)
    case Email => d.(email := value)
    case Subject => d.(subject := value)
    case Message => d.(message := value)
  }

  /** Two forms that agree on every field are the same form. */
  lemma FieldsDetermineForm(a: FormData, b: FormData)
    requires forall f :: Get(a, f) == Get(b, f)
    ensures a == b
  {
    assert Get(a, Name) == Get(b, Name);
    assert Get(a, Email) == Get(b, Email);
    assert Get(a, Subject) == Get(b, Subject);
    assert Get(a, Message) == Get(b, Message);
  }

  /** A second change of the same field replaces the first. */
  lemma SetSet(d: FormData, f: Field, v1: string, v2: string)
    ensures Set(Set(d, f, v1), f, v2) == Set(d, f, v2)
  {
    FieldsDetermineForm(Set(Set(d, f, v1), f, v2), Set(d, f, v2));
  }

  /** Changes to different fields commute. */
  lemma SetCommutes(d: FormData, f: Field, g: Field, v: string, w: string)
    requires f != g
    ensures Set(Set(d, f, v), g, w) == Set(Set(d, g, w), f, v)
  {
    FieldsDetermineForm(Set(Set(d, f, v), g, w), Set(Set(d, g, w), f, v));
  }

  /** `handleInputChange`: the named field takes the input's value. The flag is not
      consulted, so the fields stay editable while a submit is pending. */
  function HandleInputChange(s: ContactForm, f: Field, value: string): (r: ContactForm)
    ensures Get(r.data, f) == value
    ensures forall g :: g != f ==> Get(r.data, g) == Get(s.data, g)
    ensures r.isSubmitting == s.isSubmitting
  {
    s.(data := Set(s.data, f, value))
  }

  /** The synchronous part of `handleSubmit`: `setIsSubmitting(true)`. */
  function BeginSubmit(s: ContactForm): (r: ContactForm)
    ensures r.isSubmitting
    ensures r.data == s.data
  {
    s.(isSubmitting := true)
  }

  /** The part of `handleSubmit` after the wait: the fields are reset and the flag dropped. */
  function CompleteSubmit(s: ContactForm): (r: ContactForm)
    ensures forall f :: Get(r.data, f) == ""
    ensures !r.isSubmitting
  {
    ContactForm(EmptyForm, false)
  }

  /** The submit button's `disabled` attribute. */
  function ButtonDisabled(s: ContactForm): bool {
    s.isSubmitting
  }

  /** The submit button's text. */
  function ButtonLabel(s: ContactForm): string {
    if s.isSubmitting then "Sending..." else "Send Message"
  }

  /** The button is disabled, and reads "Sending...", exactly while a submit is pending. */
  lemma ButtonReflectsSubmitting(s: ContactForm)
    ensures ButtonDisabled(s) <==> s.isSubmitting
    ensures ButtonLabel(s) == "Sending..." <==> s.isSubmitting
    ensures !s.isSubmitting ==> ButtonLabel(s) == "Send Message"
  {
  }

  /** When the browser lets `handleSubmit` run at all. Every control is `required`, so
      form validation blocks the submit while a field is empty, and the submit button
      cannot be pressed while it is disabled. The email field's syntax check by the
      browser is not part of this predicate. */
  predicate CanSubmit(s: ContactForm) {
    !ButtonDisabled(s) && forall f :: Get(s.data, f) != ""
  }

  /** The form after mount cannot be submitted, a pending submit cannot be repeated,
      and after a completed submit the fields must be filled in again. */
  lemma SubmitGateClosed(s: ContactForm)
    ensures !CanSubmit(Init)
    ensures !CanSubmit(BeginSubmit(s))
    ensures !CanSubmit(CompleteSubmit(s))
  {
    assert Get(Init.data, Name) == "";
    assert Get(CompleteSubmit(s).data, Name) == "";
  }

  /** Filling in all four fields of an idle form opens the gate. */
  lemma FillingOpensGate(s: ContactForm, name: string, email: string, subject: string, message: string)
    requires !s.isSubmitting
    requires name != "" && email != "" && subject != "" && message != ""
    ensures CanSubmit(HandleInputChange(HandleInputChange(HandleInputChange(HandleInputChange(
      s, Name, name), Email, email), Subject, subject), Message, message))
  {
    var r := HandleInputChange(HandleInputChange(HandleInputChange(HandleInputChange(
      s, Name, name), Email, email), Subject, subject), Message, message);
    assert Get(r.data, Name) == name && Get(r.data, Email) == email;
    assert Get(r.data, Subject) == subject && Get(r.data, Message) == message;
    forall f ensures Get(r.data, f) != "" {
      match f
      case Name =>
      case Email =>
      case Subject =>
      case Message =>
    }
  }

  lemma InitIsEmpty()
    ensures forall f :: Get(Init.data, f) == ""
    ensures !Init.isSubmitting && !ButtonDisabled(Init)
  {
  }

  /** A submit returns the form to its state after mount, and whatever was typed while
      it was pending is discarded too. */
  lemma SubmitResets(s: ContactForm, edits: seq<(Field, string)>)
    ensures CompleteSubmit(ApplyEdits(BeginSubmit(s), edits)) == Init
  {
    FieldsDetermineForm(CompleteSubmit(ApplyEdits(BeginSubmit(s), edits)).data, EmptyForm);
  }

  /** A sequence of input changes. */
  function ApplyEdits(s: ContactForm, edits: seq<(Field, string)>): (r: ContactForm)
    ensures r.isSubmitting == s.isSubmitting
    decreases |edits|
  {
    if |edits| == 0 then s else ApplyEdits(HandleInputChange(s, edits[0].0, edits[0].1), edits[1..])
  }

  /** After a sequence of input changes each field holds the last value typed into it,
      or its old value when it was not touched. */
  lemma {:induction false} ApplyEditsLastWins(s: ContactForm, edits: seq<(Field, string)>, f: Field)
    ensures (exists k | 0 <= k < |edits| :: edits[k].0 == f)
      ==> Get(ApplyEdits(s, edits).data, f) == edits[LastIndex(edits, f)].1
    ensures (forall k | 0 <= k < |edits| :: edits[k].0 != f)
      ==> Get(ApplyEdits(s, edits).data, f) == Get(s.data, f)
    decreases |edits|
  {
    if |edits| > 0 {
      var s' := HandleInputChange(s, edits[0].0, edits[0].1);
      ApplyEditsLastWins(s', edits[1..], f);
      if exists k | 0 <= k < |edits[1..]| :: edits[1..][k].0 == f {
        var k :| 0 <= k < |edits[1..]| && edits[1..][k].0 == f;
        assert edits[k + 1].0 == f;
      } else {
        forall k | 0 < k < |edits| ensures edits[k].0 != f {
          assert edits[1..][k - 1] == edits[k];
        }
      }
    }
  }

  /** The last position at which field `f` was edited. */
  function LastIndex(edits: seq<(Field, string)>, f: Field): (i: nat)
    requires exists k | 0 <= k < |edits| :: edits[k].0 == f
    ensures 0 <= i < |edits| && edits[i].0 == f
    ensures forall k | i < k < |edits| :: edits[k].0 != f
    decreases |edits|
  {
    if exists k | 0 <= k < |edits[1..]| :: edits[1..][k].0 == f then
      1 + LastIndex(edits[1..], f)
    else
      assert forall k | 0 < k < |edits| :: edits[k].0 != f by {
        forall k | 0 < k < |edits| ensures edits[k].0 != f {
          assert edits[1..][k - 1] == edits[k];
        }
      }
      0
  }
}
