/**
 The authentication strategy seam. A strategy answers two questions: which
 access token the request carries, and whether permissions must be verified.
 `NoAuthentication` is the strategy that switches authorization off.
 */
module Strategy {
  import opened Wrappers

  /** The strategies of this model; other strategies are not part of it. */
  datatype AuthenticationStrategy = NoAuthentication

  /** The operations a strategy defines, exactly two: `access_token` and
      `verify_permission?`. Neither takes an argument. */
  datatype Operation = AccessTokenCall | VerifyPermissionCall

  /** An access token, known by its token string. */
  type Token = string

  /** The answer to one operation: a token (or `nil`) for `access_token`,
      a flag for `verify_permission?`. */
  datatype Reply = TokenReply(token: Option<Token>) | Verdict(verify: bool)

  /** `access_token`: `NoAuthentication` never has a token. */
  function AccessToken(s: AuthenticationStrategy): (t: Option<Token>)
    ensures t.None?
  {
    match s
    case NoAuthentication => None
  }

  /** `verify_permission?`: `NoAuthentication` never asks for permissions to
      be verified. */
  function VerifyPermission(s: AuthenticationStrategy): (v: bool)
    ensures !v
  {
    match s
    case NoAuthentication => false
  }

  /** The replies to a sequence of calls, made one after another on the same
      strategy. Since neither operation reads or changes any state, every
      reply is the `nil` token or `false`, whatever came before. */
  function Replay(s: AuthenticationStrategy, calls: seq<Operation>): (rs: seq<Reply>)
    ensures |rs| == |calls|
    ensures forall i :: 0 <= i < |calls| ==>
              rs[i] == (if calls[i].AccessTokenCall? then TokenReply(None) else Verdict(false))
    decreases |calls|
  {
    if |calls| == 0 then []
    else
      var reply := if calls[0].AccessTokenCall? then TokenReply(AccessToken(s))
                   else Verdict(VerifyPermission(s));
      [reply] + Replay(s, calls[1..])
  }

  /** Repeated calls agree: the same operation always gets the same reply,
      at any two points of any call sequence. */
  lemma RepeatedCallsAgree(s: AuthenticationStrategy, calls: seq<Operation>, i: nat, j: nat)
    requires i < |calls| && j < |calls| && calls[i] == calls[j]
    ensures Replay(s, calls)[i] == Replay(s, calls)[j]
  {
  }
}
