# Garage authorization errors and the no-authentication strategy

This project is a Dafny model of two small parts of the authorization layer
of Garage, a Rails framework for building REST APIs:

- **The HTTP error classes** (`Garage::HTTPError`, `BadRequest`,
  `Unauthorized`, `PermissionError`, `MissingScopeError`). They are modelled
  as one immutable `Error` record. The record carries a class tag, the message,
  the optional symbolic status and, for the `Unauthorized` family, the
  captured `Denial` context (user, action, resource class, missing scopes).
  The constructors are pure functions. The `status=` writer is `SetStatus`.
  `status_code` is `Code`, which uses the RFC 9110 status table in
  `HttpStatus`. An `Unauthorized` message is chosen between two templates
  depending on whether the missing scopes list is empty. The scopes are joined
  with `", "` by `Strings.Join`, which models Ruby's `Array#join`.
- **The `NoAuthentication` strategy** (`Garage::Strategy::NoAuthentication`).
  It is the one variant of the `AuthenticationStrategy` datatype. Its two
  operations are `access_token`, which always returns `nil`, and
  `verify_permission?`, which always returns `false`.

Files:

- `wrappers.dfy`: `Option`, which stands for Ruby's `nil`.
- `strings.dfy`: `Join`, its inverse `Split`, and lemmas about order,
  length and separators. It also has a loop version of `join`.
- `http_status.dfy`: the symbolic statuses, their numeric codes, and the
  reverse lookup.
- `exceptions.dfy`: the error classes, their constructors, the message
  templates and the properties of the messages.
- `strategy.dfy`: the strategy datatype and its two operations.

Three things the source does not enforce, and the model does not assume:

- The source enforces neither a non-empty message nor a recognised status.
  `BadRequest.new("")` has an empty message, and a bare `HTTPError` never gets
  a status. So `Error.status` is an `Option`.
- Nothing ties `PermissionError` to empty scopes or `MissingScopeError` to
  non-empty ones. The class never picks the template (see
  `ClassDoesNotChooseTemplate`).
- `lib/garage/exceptions.rb` and `lib/garage/strategy/no_authentication.rb` contain no authorization decision step, such as a
  permission check or a scope difference, so none is modelled.

## Model

| member | source | states |
|---|---|---|
| HttpStatus.StatusCode | lib/garage/exceptions.rb:4-6 | Every modelled symbolic status has a code in the 4xx client-error class. |
| HttpStatus.StatusCodeRoundTrip | lib/garage/exceptions.rb:4-6 | The status table and its reverse lookup are inverses, both ways: a code maps back to a status exactly when that status maps to the code (400 bad_request, 401 unauthorized, 403 forbidden). |
| HttpStatus.StatusCodeInjective | lib/garage/exceptions.rb:4-6 | Distinct statuses never share a numeric code. |
| Exceptions.Code | lib/garage/exceptions.rb:4-6 | `status_code` has a value exactly when a status is set, and that value maps back to the stored status. |
| Exceptions.UnauthorizedMessage | lib/garage/exceptions.rb:22-26 | With empty scopes the message opens with the refusal words and the action, and ends with `" on "` and the resource class. Otherwise it opens with the missing-scope words and the first scope, and ends with the last scope. |
| Exceptions.ClassHierarchy | lib/garage/exceptions.rb:2-31 | Every error class is an `HTTPError`. Exactly `Unauthorized`, `PermissionError` and `MissingScopeError` are `Unauthorized`. `BadRequest` is not an `Unauthorized`. |
| Exceptions.NewHTTPError | lib/garage/exceptions.rb:2-7 | A bare `HTTPError` keeps its message, has no status (so no code) and no denial context. |
| Exceptions.NewBadRequest | lib/garage/exceptions.rb:9-13 | A `BadRequest` has status `:bad_request`, code 400, and exactly the caller's message. |
| Exceptions.NewUnauthorized | lib/garage/exceptions.rb:19-27 | User, action, resource class, status and scopes are stored unchanged. With empty scopes the message is the refusal template with action and resource class. Otherwise it is the missing-scope template with the scopes joined by `", "`. The result satisfies `Valid`. |
| Exceptions.NewUnauthorizedWithDefaults | lib/garage/exceptions.rb:19-23 | With the default arguments the status is `:forbidden`, the code is 403, there are no scopes, and the message is the refusal template. |
| Exceptions.SetStatus | lib/garage/exceptions.rb:3 | The `status=` writer changes only the status. The message, class and context are unchanged, validity is preserved, and the code follows the new status. |
| Exceptions.TemplateChoice | lib/garage/exceptions.rb:22-26 | The message opens with the refusal words exactly when scopes is empty, and with the missing-scope words exactly when it is not. |
| Exceptions.MissingScopesRecoverable | lib/garage/exceptions.rb:24-25 | The missing scopes can be read back from the message, in order, when no scope contains `", "`. A refusal message reads back as no scopes. |
| Exceptions.MessagesDistinguishScopes | lib/garage/exceptions.rb:24-25 | Different scope lists, none containing `", "`, give different messages. |
| Exceptions.MessageIgnoresUserAndStatus | lib/garage/exceptions.rb:19-26 | The message depends only on action, resource class and scopes. The class, user and status never change it. |
| Exceptions.SubclassesShareConstructor | lib/garage/exceptions.rb:30-31 | `PermissionError` and `MissingScopeError` built from the same arguments as `Unauthorized` differ from it only in their class. |
| Exceptions.ClassDoesNotChooseTemplate | lib/garage/exceptions.rb:22-31 | A `MissingScopeError` with empty scopes carries the refusal message. A `PermissionError` with scopes carries the missing-scope message. |
| Exceptions.SingleScopeMessage | lib/garage/exceptions.rb:25 | A single missing scope is listed without a separator. |
| Exceptions.TwoScopesMessage | lib/garage/exceptions.rb:25 | For every two scopes `a` and `b`, the list `[a, b]` appears as `a`, then `", "`, then `b`. |
| Exceptions.ScopeWithSeparatorCollides | lib/garage/exceptions.rb:25 | A scope that contains `", "` cannot be told apart in the message: `["a, b"]` and `["a", "b"]` give the same message. So the hypothesis on `", "` above is needed. |
| Strings.Join | lib/garage/exceptions.rb:25 | `scopes.join(", ")`: an empty list joins to the empty string. A non-empty list joins to text that opens with its first element and closes with its last. |
| Strings.JoinSnoc | lib/garage/exceptions.rb:25 | Adding a scope at the end of a non-empty list adds the separator and then that scope at the end of the joined text. This is the order property. |
| Strings.JoinLength | lib/garage/exceptions.rb:25 | The joined text is as long as all the scopes together plus one separator for each gap between neighbours. |
| Strings.SplitJoin | lib/garage/exceptions.rb:25 | Splitting the joined text gives back the original non-empty list, in order. This needs a separator that cannot overlap itself, such as `", "`, and no element that contains the separator. |
| Strings.JoinLoop | lib/garage/exceptions.rb:25 | A left-to-right loop, written the way `join` runs, gives the same result as `Join` on every input. |
| Strategy.AccessToken | lib/garage/strategy/no_authentication.rb:4-6 | `NoAuthentication#access_token` is always `nil`. |
| Strategy.VerifyPermission | lib/garage/strategy/no_authentication.rb:8-10 | `NoAuthentication#verify_permission?` is always `false`. |
| Strategy.Replay | lib/garage/strategy/no_authentication.rb:3-11 | The closed `Operation` datatype lists the strategy's only two operations. In any sequence of calls, each reply is the `nil` token or `false`, whatever calls came before it. |
| Strategy.RepeatedCallsAgree | lib/garage/strategy/no_authentication.rb:4-10 | The same operation gets the same reply at any two points of a call sequence. |

## Left out

- Rack's full status table is not modelled, nor how Rack treats unknown symbols or `nil`. `Status` is closed over three statuses. `:bad_request` is the one `BadRequest` sets (exceptions.rb:11), and `:forbidden` is the default status of `Unauthorized` (exceptions.rb:19). `:unauthorized` is not named by this code; it stands for the override a caller may pass instead. So an `Unauthorized` can only be given one of these. `Code` is `None` when no status was ever assigned.
- Raising, rescuing and propagating exceptions are not modelled: errors are plain values.
- `action` and `resource_class` are Ruby objects that string interpolation renders with `to_s`. They are modelled as their rendered strings, and so is each scope. Ruby's `join` would also flatten nested arrays, which a list of strings cannot hold.
- The `error` argument of `BadRequest.new` and the message of `HTTPError.new` are modelled as strings only. With `nil`, either constructor's message is the class name, and `HTTPError.new` with no argument gives the same. `BadRequest.new` with no argument raises `ArgumentError`, because `error` is required (exceptions.rb:10). None of these cases is modelled.
- An explicit `scopes` of `nil` makes `scopes.empty?` raise `NoMethodError`. This is not modelled, because `scopes` is always a list here.
- Ruby stores references to the `action`, `resource_class` and `scopes` arguments, not copies. If the caller later changes those objects in place, the readers change but the message does not. The model has only immutable values, so `Valid` holds for every error it builds. This aliasing is not modelled.
- `join` and string interpolation can raise `Encoding::CompatibilityError` on strings with incompatible encodings. Strings here are plain character sequences, so this is not modelled.
- The `user` can be any Ruby object. It is modelled as an optional identifier, with `None` standing for `nil`. An access token is modelled by its token string.
- Exceptions.MissingScopesRecoverable: holds only when no scope name contains `", "`. Such a scope makes the joined list ambiguous (see `ScopeWithSeparatorCollides`), and the source does not prevent it. A scope may contain a comma or a space on its own.
- Exceptions.MessagesDistinguishScopes: has the same restriction on `", "`, for the same reason.
- app/controllers/garage/meta/resources_controller.rb is controller plumbing around the data layer and is not part of this model.
- Other authentication strategies, such as OAuth, and the request pipeline that picks one are not part of this model.
