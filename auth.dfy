/**
 * The handshake middleware: take the token out of the cookie header, verify
 * it, and either attach the decoded user id to the connection or refuse the
 * handshake. Signature checking is an oracle: it yields the decoded `id` of a
 * valid token and None where verification would throw.
 */
module Auth {
  import opened Wrappers
  import opened TokenCookie
  import opened Events

  type Verifier = string -> Option<UserId>

  const AuthError: string := "Authentication error"

  datatype AuthOutcome = Accepted(userId: UserId) | Rejected(error: string)

  /** Outcome of the handshake for a `cookie` header (None when absent). */
  function Authenticate(cookie: Option<string>, verify: Verifier): (r: AuthOutcome)
    ensures r.Rejected? ==> r.error == AuthError
    ensures r.Accepted? <==>
      cookie.Some? && ExtractToken(cookie.value).Some? &&
      verify(ExtractToken(cookie.value).value).Some?
    ensures r.Accepted? ==> r.userId == verify(ExtractToken(cookie.value).value).value
  {
    // An absent or empty header is falsy and is not scanned; an empty
    // header would not match anyway.
    if cookie.None? || cookie.value == "" then Rejected(AuthError)
    else
      match ExtractToken(cookie.value)
      case None => Rejected(AuthError)
      case Some(token) =>
        match verify(token)
        case None => Rejected(AuthError)
        case Some(id) => Accepted(id)
  }

  /**
   * Reject before join: without a qualifying `token=` the handshake is
   * refused with the one authentication error, whatever the verifier says.
   */
  lemma NoTokenRejected(cookie: Option<string>, verify: Verifier)
    requires cookie.None? || NoMatch(cookie.value)
    ensures Authenticate(cookie, verify) == Rejected(AuthError)
  {
  }

  /** Every failure, whether no token or a failed verification, is the same error. */
  lemma FailuresCollapse(c1: Option<string>, v1: Verifier, c2: Option<string>, v2: Verifier)
    requires Authenticate(c1, v1).Rejected? && Authenticate(c2, v2).Rejected?
    ensures Authenticate(c1, v1) == Authenticate(c2, v2)
  {
  }

  /**
   * The cookie the login flow sets authenticates as the user its token
   * names, whatever cookies follow it in the header.
   */
  lemma LoginCookieAccepted(t: string, rest: string, verify: Verifier, u: UserId)
    requires 0 < |t| && forall k :: 0 <= k < |t| ==> t[k] != ';'
    requires rest == [] || rest[0] == ';'
    requires verify(t) == Some(u)
    ensures Authenticate(Some(Key + t + rest), verify) == Accepted(u)
  {
    LeadingTokenCookie(t, rest);
  }
}
