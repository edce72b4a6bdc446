/**
 * The guardrail service's two validation endpoints. Both run the policy
 * checker over the submitted text; they differ in how a rejection is
 * reported. The lenient endpoint always answers with a response record; the
 * strict endpoint answers with a small record on success and with an HTTP
 * error (status 400) otherwise, also when the payload has no string "text".
 */
module Guardrails {
  import opened Wrappers
  import opened Policy

  /** The lenient endpoint's answer. */
  datatype ValidationResponse = ValidationResponse(
    status: string,
    isValid: bool,
    validatedText: Option<string>,
    violations: Option<seq<string>>)

  /**
   * What every lenient answer looks like: an accepted text is echoed with no
   * violation list, a rejected one carries a non-empty list and no text.
   */
  predicate WellFormed(r: ValidationResponse) {
    if r.isValid then
      r.status == "OK" && r.validatedText.Some? && r.violations.None?
    else
      r.status == "VIOLATION" && r.validatedText.None? && r.violations.Some? && r.violations.value != []
  }

  method ValidateText(text: string) returns (r: ValidationResponse)
    ensures WellFormed(r)
    ensures r.isValid <==> IsClean(text)
    ensures r.isValid ==> r.validatedText == Some(text)
    ensures !r.isValid ==> r.violations == Some(Violations(text))
  {
    var violations := PolicyCheck(text);
    NoViolationsExactlyWhenClean(text);
    if violations != [] {
      return ValidationResponse("VIOLATION", false, None, Some(violations));
    }
    return ValidationResponse("OK", true, Some(text), None);
  }

  /** A value in the strict endpoint's untyped JSON payload. */
  datatype PayloadValue = Str(s: string) | NonString

  type Payload = map<string, PayloadValue>

  /** The `detail` of an HTTP error: a plain message or a structured policy rejection. */
  datatype ErrorDetail = Message(text: string) | PolicyViolation(error: string, violations: seq<string>)

  datatype HttpError = HttpError(statusCode: int, detail: ErrorDetail)

  /** The strict endpoint's answer on success. */
  datatype StrictOk = StrictOk(status: string, validatedText: string)

  const NotAStringMessage: string := "Field 'text' must be a string."

  /** The payload carries a string under "text". */
  predicate HasText(payload: Payload) {
    "text" in payload && payload["text"].Str?
  }

  method ValidateTextStrict(payload: Payload) returns (r: Result<StrictOk, HttpError>)
    ensures !HasText(payload) ==> r == Failure(HttpError(400, Message(NotAStringMessage)))
    ensures r.Success? <==> HasText(payload) && IsClean(payload["text"].s)
    ensures r.Success? ==> r.value == StrictOk("OK", payload["text"].s)
    ensures HasText(payload) && !IsClean(payload["text"].s) ==>
      r == Failure(HttpError(400, PolicyViolation("POLICY_VIOLATION", Violations(payload["text"].s))))
  {
    if !HasText(payload) {
      return Failure(HttpError(400, Message(NotAStringMessage)));
    }
    var text := payload["text"].s;
    var violations := PolicyCheck(text);
    NoViolationsExactlyWhenClean(text);
    if violations != [] {
      return Failure(HttpError(400, PolicyViolation("POLICY_VIOLATION", violations)));
    }
    return Success(StrictOk("OK", text));
  }
}
