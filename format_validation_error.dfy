/** `FormatValidationError` of internal/shared/http/utils/format_validation_error.go:
    the user-facing message for a failed request validation. */
module ValidationMessages {
  import opened Common

  /** One failed rule of the validator: the field's name, the rule's tag and its parameter. */
  datatype FieldError = FieldError(field: string, tag: string, param: string)

  /** The error value handed to the formatter: a validator error list, or any other error. */
  datatype ValidationFailure =
    | ValidationErrors(errors: seq<FieldError>)
    | OtherError(message: string)

  const InvalidData := "Datos inválidos"
  const InvalidEmailFormat := "Formato de email inválido"

  /** The three tags the formatter has a message for. */
  predicate Recognised(e: FieldError) {
    e.tag == "required" || e.tag == "email" || e.tag == "min"
  }

  function MessageFor(e: FieldError): (msg: string)
    requires Recognised(e)
    ensures msg != InvalidData
  {
    var msg :=
      if e.tag == "required" then "El campo '" + e.field + "' es requerido"
      else if e.tag == "email" then InvalidEmailFormat
      else "El campo '" + e.field + "' debe tener al menos " + e.param + " caracteres";
    assert msg[0] != InvalidData[0];
    msg
  }

  /** The loop over the list with its early return, and the fall-through message. */
  function FormatErrors(errs: seq<FieldError>): string {
    if errs == [] then InvalidData
    else if Recognised(errs[0]) then MessageFor(errs[0])
    else FormatErrors(errs[1..])
  }

  function FormatValidationError(err: ValidationFailure): string {
    match err
    case ValidationErrors(errs) => FormatErrors(errs)
    case OtherError(_) => InvalidData
  }

  /** The message is the one of the first error, in list order, whose tag is recognised. */
  lemma {:induction false} FirstRecognisedDecides(errs: seq<FieldError>, i: nat)
    requires i < |errs| && Recognised(errs[i])
    requires forall j :: 0 <= j < i ==> !Recognised(errs[j])
    ensures FormatValidationError(ValidationErrors(errs)) == MessageFor(errs[i])
  {
    if i > 0 {
      FirstRecognisedDecides(errs[1..], i - 1);
    }
  }

  /** The generic message comes out exactly for a non-validation error and for
      a list in which no tag is recognised (the empty list included). */
  lemma {:induction false} GenericMessageIff(err: ValidationFailure)
    ensures FormatValidationError(err) == InvalidData
        <==> err.OtherError? || forall e :: e in err.errors ==> !Recognised(e)
  {
    if err.ValidationErrors? {
      GenericMessageIffList(err.errors);
    }
  }

  lemma {:induction false} GenericMessageIffList(errs: seq<FieldError>)
    ensures FormatErrors(errs) == InvalidData <==> forall e :: e in errs ==> !Recognised(e)
  {
    if errs != [] && !Recognised(errs[0]) {
      GenericMessageIffList(errs[1..]);
      assert forall e :: e in errs ==> e == errs[0] || e in errs[1..];
    }
  }
}
