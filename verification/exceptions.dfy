/**
 The HTTP error classes raised by the authorization layer: `HTTPError`, its
 `BadRequest` and `Unauthorized` subclasses, and the two subclasses of
 `Unauthorized`, `PermissionError` and `MissingScopeError`. Errors are plain
 values; raising and rescuing them is not modelled.
 */
module Exceptions {
  import opened Wrappers
  import opened Strings
  import HttpStatus

  /** The Ruby class an error was built from. */
  datatype ErrorClass = HTTPError | BadRequest | Unauthorized | PermissionError | MissingScopeError

  /** How far below `HTTPError` a class sits. */
  function Depth(c: ErrorClass): nat {
    match c
    case HTTPError => 0
    case BadRequest => 1
    case Unauthorized => 1
    case PermissionError => 2
    case MissingScopeError => 2
  }

  /** The direct superclass of `c` among the error classes; `HTTPError`
      itself derives from Ruby's `StandardError`, which is not modelled. */
  function Superclass(c: ErrorClass): (r: Option<ErrorClass>)
    ensures r.None? <==> Depth(c) == 0
    ensures r.Some? ==> Depth(r.value) + 1 == Depth(c)
  {
    match c
    case HTTPError => None
    case BadRequest => Some(HTTPError)
    case Unauthorized => Some(HTTPError)
    case PermissionError => Some(Unauthorized)
    case MissingScopeError => Some(Unauthorized)
  }

  /** Ruby's `is_a?`: `c` is `d` or one of its descendants. */
  predicate IsA(c: ErrorClass, d: ErrorClass)
    decreases Depth(c)
  {
    c == d || (Superclass(c).Some? && IsA(Superclass(c).value, d))
  }

  /** Every error class is an `HTTPError`; exactly `Unauthorized` and its two
      subclasses are `Unauthorized`; only `BadRequest` is a `BadRequest`. */
  lemma ClassHierarchy(c: ErrorClass)
    ensures IsA(c, HTTPError)
    ensures IsA(c, Unauthorized) <==> c in {Unauthorized, PermissionError, MissingScopeError}
    ensures IsA(c, BadRequest) <==> c == BadRequest
    ensures IsA(c, PermissionError) <==> c == PermissionError
    ensures IsA(c, MissingScopeError) <==> c == MissingScopeError
  {
  }

  /** The acting user, known by an identifier; `None` stands for `nil`. */
  type User = Option<nat>

  /** What an `Unauthorized` records about the refused request: the acting
      user, the action and the resource class as they render in a message,
      and the missing scopes in the order given. */
  datatype Denial = Denial(user: User, action: string, resourceClass: string, scopes: seq<string>)

  /** An error value. `status` is `None` when it was never assigned; `denial`
      holds the `Unauthorized` fields. */
  datatype Error = Error(
    cls: ErrorClass,
    message: string,
    status: Option<HttpStatus.Status>,
    denial: Option<Denial>)

  // The two message openings, each written as a few shorter literals so
  // that the verifier can look inside them.
  const PermissionPrefix: string :=
    "Authorized user is not allowed " + "to take the requested operation "
  const ScopePrefix: string :=
    "Insufficient scope to process " + "the requested operation. " + "Missing scope(s): "
  const ScopeSeparator: string := ", "

  /** Two occurrences of `", "` can never overlap. */
  lemma ScopeSeparatorBorderFree()
    ensures BorderFree(ScopeSeparator)
  {
    forall m | 0 < m < |ScopeSeparator|
      ensures ScopeSeparator[m..] != ScopeSeparator[..|ScopeSeparator| - m]
    {
      assert ScopeSeparator[1..][0] == ' ' && ScopeSeparator[..1][0] == ',';
    }
  }

  /** The message an `Unauthorized` derives from its inputs: a refusal of
      `action` on `resourceClass` when no scope is missing, otherwise the
      list of missing scopes. */
  function UnauthorizedMessage(action: string, resourceClass: string, scopes: seq<string>): (m: string)
    ensures |scopes| == 0 ==>
              StartsWith(m, PermissionPrefix + action) && EndsWith(m, " on " + resourceClass)
    ensures |scopes| > 0 ==>
              StartsWith(m, ScopePrefix + scopes[0]) && EndsWith(m, scopes[|scopes| - 1])
  {
    if |scopes| == 0 then PermissionPrefix + action + " on " + resourceClass
    else ScopePrefix + Join(scopes, ScopeSeparator)
  }

  /** What every error built by the constructors below satisfies: the
      `Unauthorized` fields are present exactly for the `Unauthorized`
      family, and such an error's message is the one derived from them. */
  predicate Valid(e: Error) {
    && (e.denial.Some? <==> IsA(e.cls, Unauthorized))
    && (e.denial.Some? ==>
          e.message == UnauthorizedMessage(e.denial.value.action, e.denial.value.resourceClass, e.denial.value.scopes))
  }

  /** `status_code`: the numeric code of the error's status, or `None` when
      no status was ever assigned. */
  function Code(e: Error): (r: Option<int>)
    ensures r.Some? <==> e.status.Some?
    ensures r.Some? ==> HttpStatus.StatusOf(r.value) == e.status
  {
    match e.status
    case None => None
    case Some(s) =>
      HttpStatus.StatusCodeRoundTrip(s, HttpStatus.StatusCode(s));
      Some(HttpStatus.StatusCode(s))
  }

  /** `HTTPError.new(message)`: the message is kept and no status is set. */
  function NewHTTPError(message: string): (e: Error)
    ensures e.cls == HTTPError && e.message == message
    ensures e.status.None? && Code(e).None?
    ensures e.denial.None? && Valid(e)
  {
    Error(HTTPError, message, None, None)
  }

  /** `BadRequest.new(error)`: status `:bad_request` (code 400) and the
      caller's message, unchanged. */
  function NewBadRequest(error: string): (e: Error)
    ensures e.cls == BadRequest && e.message == error
    ensures e.status == Some(HttpStatus.BadRequest) && Code(e) == Some(400)
    ensures e.denial.None? && Valid(e)
  {
    Error(BadRequest, error, Some(HttpStatus.BadRequest), None)
  }

  /** `Unauthorized.new(user, action, resource_class, status, scopes)` and the
      same call on either subclass: every argument is stored as given and the
      message follows the template chosen by whether `scopes` is empty. */
  function NewUnauthorized(
    cls: ErrorClass, user: User, action: string, resourceClass: string,
    status: HttpStatus.Status, scopes: seq<string>): (e: Error)
    requires IsA(cls, Unauthorized)
    ensures e.cls == cls && e.status == Some(status)
    ensures e.denial == Some(Denial(user, action, resourceClass, scopes))
    ensures |scopes| == 0 ==> e.message == PermissionPrefix + action + " on " + resourceClass
    ensures |scopes| > 0 ==> e.message == ScopePrefix + Join(scopes, ScopeSeparator)
    ensures Valid(e)
  {
    Error(cls, UnauthorizedMessage(action, resourceClass, scopes), Some(status),
          Some(Denial(user, action, resourceClass, scopes)))
  }

  /** `Unauthorized.new(user, action, resource_class)`: the defaults give
      status `:forbidden` (code 403), no missing scopes, and the refusal
      message. */
  function NewUnauthorizedWithDefaults(
    cls: ErrorClass, user: User, action: string, resourceClass: string): (e: Error)
    requires IsA(cls, Unauthorized)
    ensures e.cls == cls
    ensures e.status == Some(HttpStatus.Forbidden) && Code(e) == Some(403)
    ensures e.denial == Some(Denial(user, action, resourceClass, []))
    ensures e.message == PermissionPrefix + action + " on " + resourceClass
    ensures Valid(e)
  {
    NewUnauthorized(cls, user, action, resourceClass, HttpStatus.Forbidden, [])
  }

  /** The `status=` writer: only the status changes. The message was fixed at
      construction, so it does not follow the new status. */
  function SetStatus(e: Error, status: Option<HttpStatus.Status>): (r: Error)
    ensures r.status == status
    ensures r.cls == e.cls && r.message == e.message && r.denial == e.denial
    ensures Valid(e) ==> Valid(r)
    ensures status.Some? ==> Code(r) == Some(HttpStatus.StatusCode(status.value))
  {
    e.(status := status)
  }

  /** Reads the missing scopes back out of a message: `None` unless the
      message uses the missing-scope template. */
  function DecodeMissingScopes(message: string): Option<seq<string>> {
    if StartsWith(message, ScopePrefix) then Some(Split(message[|ScopePrefix|..], ScopeSeparator))
    else None
  }

  /** The template is chosen by whether `scopes` is empty, and the two
      templates are told apart by their opening words. */
  lemma TemplateChoice(action: string, resourceClass: string, scopes: seq<string>)
    ensures StartsWith(UnauthorizedMessage(action, resourceClass, scopes), PermissionPrefix) <==> |scopes| == 0
    ensures StartsWith(UnauthorizedMessage(action, resourceClass, scopes), ScopePrefix) <==> |scopes| > 0
  {
    var m := UnauthorizedMessage(action, resourceClass, scopes);
    if |scopes| == 0 {
      assert m[..|PermissionPrefix|] == PermissionPrefix;
      assert m[0] == PermissionPrefix[0] != ScopePrefix[0];
    } else {
      assert m[..|ScopePrefix|] == ScopePrefix;
      assert m[0] == ScopePrefix[0] != PermissionPrefix[0];
    }
  }

  /** A message names its missing scopes exactly, in order: when no scope
      contains `", "`, the scopes of an `Unauthorized` are recovered from
      its message, and a refusal message decodes to no scopes at all. */
  lemma MissingScopesRecoverable(
    cls: ErrorClass, user: User, action: string, resourceClass: string,
    status: HttpStatus.Status, scopes: seq<string>)
    requires IsA(cls, Unauthorized)
    requires NoneContains(scopes, ScopeSeparator)
    ensures DecodeMissingScopes(NewUnauthorized(cls, user, action, resourceClass, status, scopes).message)
            == if |scopes| == 0 then None else Some(scopes)
  {
    var m := UnauthorizedMessage(action, resourceClass, scopes);
    TemplateChoice(action, resourceClass, scopes);
    if |scopes| > 0 {
      assert m[|ScopePrefix|..] == Join(scopes, ScopeSeparator);
      ScopeSeparatorBorderFree();
      SplitJoin(scopes, ScopeSeparator);
    }
  }

  /** Two errors whose scopes differ (and contain no `", "`) carry different
      messages. */
  lemma MessagesDistinguishScopes(
    cls: ErrorClass, user: User, action: string, resourceClass: string, status: HttpStatus.Status,
    scopes1: seq<string>, scopes2: seq<string>)
    requires IsA(cls, Unauthorized)
    requires NoneContains(scopes1, ScopeSeparator)
    requires NoneContains(scopes2, ScopeSeparator)
    requires scopes1 != scopes2
    ensures NewUnauthorized(cls, user, action, resourceClass, status, scopes1).message
         != NewUnauthorized(cls, user, action, resourceClass, status, scopes2).message
  {
    MissingScopesRecoverable(cls, user, action, resourceClass, status, scopes1);
    MissingScopesRecoverable(cls, user, action, resourceClass, status, scopes2);
  }

  /** The message depends on the action, the resource class and the scopes
      only: neither the class, the user nor the status changes it. */
  lemma MessageIgnoresUserAndStatus(
    cls1: ErrorClass, cls2: ErrorClass, user1: User, user2: User,
    status1: HttpStatus.Status, status2: HttpStatus.Status,
    action: string, resourceClass: string, scopes: seq<string>)
    requires IsA(cls1, Unauthorized) && IsA(cls2, Unauthorized)
    ensures NewUnauthorized(cls1, user1, action, resourceClass, status1, scopes).message
         == NewUnauthorized(cls2, user2, action, resourceClass, status2, scopes).message
  {
  }

  /** `PermissionError` and `MissingScopeError` inherit the constructor
      unchanged: built from the same arguments they differ in class only. */
  lemma SubclassesShareConstructor(
    cls: ErrorClass, user: User, action: string, resourceClass: string,
    status: HttpStatus.Status, scopes: seq<string>)
    requires IsA(cls, Unauthorized)
    ensures NewUnauthorized(cls, user, action, resourceClass, status, scopes)
         == NewUnauthorized(Unauthorized, user, action, resourceClass, status, scopes).(cls := cls)
  {
  }

  /** The class does not pick the template: a `MissingScopeError` without
      scopes carries the refusal message, and a `PermissionError` with scopes
      carries the missing-scope message. */
  lemma ClassDoesNotChooseTemplate(
    user: User, action: string, resourceClass: string,
    status: HttpStatus.Status, scopes: seq<string>)
    requires |scopes| > 0
    ensures NewUnauthorized(MissingScopeError, user, action, resourceClass, status, []).message
         == PermissionPrefix + action + " on " + resourceClass
    ensures StartsWith(NewUnauthorized(PermissionError, user, action, resourceClass, status, scopes).message,
                       ScopePrefix)
  {
    TemplateChoice(action, resourceClass, scopes);
  }

  /** A single missing scope is listed without any separator. */
  lemma SingleScopeMessage(
    cls: ErrorClass, user: User, action: string, resourceClass: string,
    status: HttpStatus.Status, scope: string)
    requires IsA(cls, Unauthorized)
    ensures NewUnauthorized(cls, user, action, resourceClass, status, [scope]).message == ScopePrefix + scope
  {
  }

  /** Two missing scopes are listed in the order given, separated by `", "`. */
  lemma TwoScopesMessage(
    cls: ErrorClass, user: User, action: string, resourceClass: string,
    status: HttpStatus.Status, a: string, b: string)
    requires IsA(cls, Unauthorized)
    ensures NewUnauthorized(cls, user, action, resourceClass, status, [a, b]).message
         == ScopePrefix + a + ", " + b
  {
    assert [a, b][1..] == [b];
    var joined := Join([a, b], ScopeSeparator);
    assert joined == a + ScopeSeparator + Join([b], ScopeSeparator);
    assert joined == a + ScopeSeparator + b;
    ConcatRegroup(ScopePrefix, a, ScopeSeparator, b);
  }

  /** Without the hypothesis on `", "` the scopes cannot be told apart: one
      scope `"a, b"` gives the same message as the two scopes `"a"` and `"b"`. */
  lemma ScopeWithSeparatorCollides(
    cls: ErrorClass, user: User, action: string, resourceClass: string, status: HttpStatus.Status)
    requires IsA(cls, Unauthorized)
    ensures NewUnauthorized(cls, user, action, resourceClass, status, ["a, b"]).message
         == NewUnauthorized(cls, user, action, resourceClass, status, ["a", "b"]).message
  {
    assert ["a", "b"][1..] == ["b"];
    var joined := Join(["a", "b"], ScopeSeparator);
    assert joined == "a" + ScopeSeparator + "b";
    assert |joined| == 4 && joined[0] == 'a' && joined[1] == ',' && joined[2] == ' ' && joined[3] == 'b';
    assert joined == "a, b";
    assert UnauthorizedMessage(action, resourceClass, ["a", "b"]) == ScopePrefix + joined;
    assert UnauthorizedMessage(action, resourceClass, ["a, b"]) == ScopePrefix + "a, b";
  }
}
