/** What `validateField` and `showError` do to one form field on the page:
    the field's `error`/`success` classes, the display of its error and
    success elements, and the text of its error element. */
module FieldDisplay {
  import opened Text
  import opened Validation

  /** The presentation state of one field, as a value. */
  datatype Presentation = Presentation(
    errorClass: bool, successClass: bool,
    errorShown: bool, successShown: bool,
    errorText: string)

  /** The presentation after validating with verdict `v`: everything reset,
      then, on a failure, the error class set, the message written and the
      error element shown. The old error text stays when the field passes. */
  function AfterValidation(p: Presentation, v: Verdict): (q: Presentation)
    ensures !q.successClass && !q.successShown
    ensures q.errorClass == q.errorShown == v.Fail?
    ensures q.errorText == if v.Fail? then v.message else p.errorText
  {
    match v
    case Fail(m) => Presentation(true, false, true, false, m)
    case Pass(_) => Presentation(false, false, false, false, p.errorText)
  }

  /** Validating the same value twice leaves the page as validating it once. */
  lemma ValidationIdempotent(p: Presentation, v: Verdict)
    ensures AfterValidation(AfterValidation(p, v), v) == AfterValidation(p, v)
  {
  }

  /** One input field with its error and success elements. */
  class Field {
    const id: string
    var value: string
    var errorClass: bool     // 'error' in the field's class list
    var successClass: bool   // 'success' in the field's class list
    var errorShown: bool     // the error element is displayed
    var successShown: bool   // the success element is displayed
    var errorText: string    // the error element's text

    function View(): (p: Presentation)
      reads this
    {
      Presentation(errorClass, successClass, errorShown, successShown, errorText)
    }

    constructor (id: string, value: string)
      ensures this.id == id && this.value == value
      ensures View() == Presentation(false, false, false, false, "")
    {
      this.id := id;
      this.value := value;
      errorClass, successClass, errorShown, successShown, errorText := false, false, false, false, "";
    }

    /** The reset at the start of validateField: both classes removed and
        both elements hidden. */
    method Reset()
      modifies this
      ensures View() == old(View()).(errorClass := false, successClass := false,
                                     errorShown := false, successShown := false)
      ensures value == old(value)
    {
      errorClass, successClass := false, false;
      errorShown, successShown := false, false;
    }

    /** showError: set the error class, write the message, show the element. */
    method ShowError(message: string)
      modifies this
      ensures View() == old(View()).(errorClass := true, errorShown := true, errorText := message)
      ensures value == old(value)
    {
      errorClass := true;
      errorText := message;
      errorShown := true;
    }

    /** validateField on this field. `livePassword` is the current value of
        the `password` field. Returns the boolean validateField returns, and
        whether it would go on to call showSuccess, which is not part of
        this model. */
    method ValidateField(livePassword: string) returns (ok: bool, callsShowSuccess: bool)
      modifies this
      ensures value == old(value)
      ensures var v := ValidateValue(id, value, livePassword);
        ok == v.Pass?
        && callsShowSuccess == (v.Pass? && v.showSuccess)
        && View() == AfterValidation(old(View()), v)
    {
      var v := ValidateValue(id, value, livePassword);
      Reset();
      match v {
        case Fail(message) =>
          ShowError(message);
          ok, callsShowSuccess := false, false;
        case Pass(showSuccess) =>
          ok, callsShowSuccess := true, showSuccess;
      }
    }
  }
}
