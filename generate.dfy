/**
 * One call of `generate_content_with_retry`: the reply of the generation
 * endpoint is unwrapped into the generated text or an error, and the
 * exponential-backoff decorator around it gives up on every error whose
 * message lacks the "API limit" marker.
 */
module Ollama {
  import opened Wrappers
  import opened Text

  /** The parsed JSON body of a reply, or the reason it could not be parsed. */
  datatype Payload = Unparsable(reason: string) | Parsed(fields: map<string, string>)

  /** What one POST to the endpoint produces: a transport failure or a reply. */
  datatype HttpOutcome =
    | TransportFailure(reason: string)
    | Reply(status: int, text: string, payload: Payload)

  /** A raised exception, known to its handlers only through `str(e)`. */
  datatype ApiError = ApiError(message: string)

  const ErrorPrefix: string := "API 返回错误: "
  const RateLimitMarker: string := "API limit"
  /** Seconds the handler sleeps before re-raising a rate-limit error. */
  const RateLimitPause: int := 5

  /** The message of the exception raised for a reply whose status is not 200. */
  function StatusErrorMessage(status: int, text: string): (m: string)
    ensures |m| == |ErrorPrefix| + |IntToDecimal(status)| + |" - "| + |text|
    ensures m[..|ErrorPrefix|] == ErrorPrefix && m[|m| - |text|..] == text
    ensures status >= 0 ==> m[|ErrorPrefix|..|ErrorPrefix| + |NatToDecimal(status)|] == NatToDecimal(status)
    ensures status < 0 ==> m[|ErrorPrefix|] == '-' &&
                           m[|ErrorPrefix| + 1..|ErrorPrefix| + 1 + |NatToDecimal(-status)|] == NatToDecimal(-status)
    ensures m[|ErrorPrefix| + |IntToDecimal(status)|..|m| - |text|] == " - "
  {
    var m := ErrorPrefix + IntToDecimal(status) + " - " + text;
    assert m[|m| - |text|..] == text;
    m
  }

  /** The status of a non-200 reply can be read back from its error message. */
  lemma StatusReadBack(status: nat, text: string)
    ensures var m := StatusErrorMessage(status, text);
            var digits := m[|ErrorPrefix|..|ErrorPrefix| + |NatToDecimal(status)|];
            (forall i | 0 <= i < |digits| :: '0' <= digits[i] <= '9') && DecimalValue(digits) == status
  {
    DecimalRoundTrip(status);
  }

  /**
   * The body of `generate_content_with_retry`: status 200 with a parsed body
   * yields its "response" field, or "" when the field is absent; every other
   * reply, and every transport or parse failure, is an error.
   */
  function Unwrap(o: HttpOutcome): (r: Result<string, ApiError>)
    ensures r.Success? <==> o.Reply? && o.status == 200 && o.payload.Parsed?
    ensures r.Success? && "response" in o.payload.fields ==> r.value == o.payload.fields["response"]
    ensures r.Success? && "response" !in o.payload.fields ==> r.value == ""
    ensures o.TransportFailure? ==> r.error.message == o.reason
    ensures o.Reply? && o.status != 200 ==> r.error.message == StatusErrorMessage(o.status, o.text)
    ensures o.Reply? && o.status == 200 && o.payload.Unparsable? ==> r.error.message == o.payload.reason
  {
    match o
    case TransportFailure(reason) => Failure(ApiError(reason))
    case Reply(status, text, payload) =>
      if status != 200 then Failure(ApiError(StatusErrorMessage(status, text)))
      else
        match payload
        case Unparsable(reason) => Failure(ApiError(reason))
        case Parsed(fields) =>
          Success(if "response" in fields then fields["response"] else "")
  }

  /** The give-up predicate of the backoff decorator around the call. */
  predicate GiveUp(e: ApiError) {
    !Contains(e.message, RateLimitMarker)
  }

  /** The result of one call and the seconds its error handler slept. */
  datatype Invocation = Invocation(result: Result<string, ApiError>, pauses: seq<int>)

  /**
   * One call, error handler included: a rate-limit error is re-raised after a
   * pause of `RateLimitPause` seconds, any other error at once.
   */
  function Invoke(o: HttpOutcome): (r: Invocation)
    ensures r.result == Unwrap(o)
    ensures r.pauses == [] || r.pauses == [RateLimitPause]
    ensures r.pauses != [] <==> r.result.Failure? && !GiveUp(r.result.error)
  {
    var res := Unwrap(o);
    Invocation(res, if res.Failure? && Contains(res.error.message, RateLimitMarker) then [RateLimitPause] else [])
  }

  /**
   * A reply with a non-200 status is retried by the decorator exactly when the
   * body it carries contains the "API limit" marker: neither the fixed prefix,
   * nor the status, nor the separator can contribute to a match.
   */
  lemma StatusErrorRetriedIffMarked(status: int, text: string)
    ensures !GiveUp(ApiError(StatusErrorMessage(status, text))) <==> Contains(text, RateLimitMarker)
  {
    var p := ErrorPrefix + IntToDecimal(status) + " - ";
    assert StatusErrorMessage(status, text) == p + text;
    if Contains(text, RateLimitMarker) {
      MarkerInBody(p, text);
    }
    if Contains(p + text, RateLimitMarker) {
      FixedPartHasNoMarkerStart(status);
      MarkerOnlyInBody(p, text);
    }
  }

  lemma MarkerInBody(p: string, text: string)
    requires Contains(text, RateLimitMarker)
    ensures Contains(p + text, RateLimitMarker)
  {
    var n := |RateLimitMarker|;
    var i :| 0 <= i <= |text| - n && OccursAt(text, RateLimitMarker, i);
    assert (p + text)[|p| + i..|p| + i + n] == text[i..i + n];
    assert OccursAt(p + text, RateLimitMarker, |p| + i);
  }

  lemma MarkerOnlyInBody(p: string, text: string)
    requires NoMarkerStart(p) && Contains(p + text, RateLimitMarker)
    ensures Contains(text, RateLimitMarker)
  {
    var m := p + text;
    var n := |RateLimitMarker|;
    var i :| 0 <= i <= |m| - n && OccursAt(m, RateLimitMarker, i);
    assert m[i] == 'A' && m[i + 4] == 'l' by {
      assert m[i..i + n][0] == m[i] && m[i..i + n][4] == m[i + 4];
    }
    assert m[..|p|] == p;
    MatchStartsInBody(p, m, i);
    assert m[i..i + n] == text[i - |p|..i - |p| + n];
    assert OccursAt(text, RateLimitMarker, i - |p|);
  }

  /** No character of `p` can begin the marker, up to where `p` ends. */
  predicate NoMarkerStart(p: string) {
    forall i | 0 <= i < |p| :: p[i] != 'A' || (i + 4 < |p| && p[i + 4] != 'l')
  }

  /** The fixed part of a status error message cannot begin the marker. */
  lemma FixedPartHasNoMarkerStart(status: int)
    ensures NoMarkerStart(ErrorPrefix + IntToDecimal(status) + " - ")
  {
    var d := IntToDecimal(status);
    var p := ErrorPrefix + d + " - ";
    forall i | 0 <= i < |p| ensures p[i] != 'A' || (i + 4 < |p| && p[i + 4] != 'l') {
      if i < |ErrorPrefix| {
        assert p[i] == ErrorPrefix[i] && p[4] == ErrorPrefix[4];
      } else if i < |ErrorPrefix| + |d| {
        assert p[i] == d[i - |ErrorPrefix|];
      } else {
        assert p[i] == " - "[i - |ErrorPrefix| - |d|];
      }
    }
  }

  /** A match whose first and fifth characters are those of the marker starts after `p`. */
  lemma MatchStartsInBody(p: string, m: string, i: int)
    requires NoMarkerStart(p) && |p| <= |m| && m[..|p|] == p
    requires 0 <= i && i + 4 < |m| && m[i] == 'A' && m[i + 4] == 'l'
    ensures i >= |p|
  {
  }
}
