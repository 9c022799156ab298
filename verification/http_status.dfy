/**
 The symbolic HTTP statuses the error classes use, and their numeric codes
 from the HTTP status code registry (section 15.5 of RFC 9110).
 */
module HttpStatus {
  import opened Wrappers

  /** `:bad_request`, `:unauthorized` and `:forbidden`. */
  datatype Status = BadRequest | Unauthorized | Forbidden

  /** The numeric code of a symbolic status: 400 (section 15.5.1 of RFC 9110),
      401 (section 15.5.2) or 403 (section 15.5.4). */
  function StatusCode(s: Status): (code: int)
    ensures 400 <= code < 500
  {
    match s
    case BadRequest => 400
    case Unauthorized => 401
    case Forbidden => 403
  }

  /** The reverse lookup, from a numeric code back to its symbolic status. */
  function StatusOf(code: int): (r: Option<Status>)
    ensures r.Some? ==> 400 <= code < 500
  {
    if code == 400 then Some(BadRequest)
    else if code == 401 then Some(Unauthorized)
    else if code == 403 then Some(Forbidden)
    else None
  }

  /** `StatusCode` and `StatusOf` are inverse: a code names a status exactly
      when that status maps to the code. Hence distinct statuses never share
      a code. */
  lemma StatusCodeRoundTrip(s: Status, code: int)
    ensures StatusOf(StatusCode(s)) == Some(s)
    ensures StatusOf(code) == Some(s) <==> StatusCode(s) == code
  {
  }

  /** No two symbolic statuses share a numeric code. */
  lemma StatusCodeInjective(s: Status, t: Status)
    ensures StatusCode(s) == StatusCode(t) ==> s == t
  {
    StatusCodeRoundTrip(s, StatusCode(t));
  }
}
