/** The token lifecycle of `EcobeePoller`: which credential call, if any,
    must come before the next thermostat request. The checks in
    `__init__` run once after loading the stored bundle; `update_tokens`
    runs before every poll. The ecobee service calls themselves are
    foreign: what they hand back is an input here. */
module Tokens {
  import opened Wrappers

  /** The credential fields of the stored service object that the decision
      reads. Times are whole seconds on one clock. */
  datatype Credentials = Credentials(
    authorizationToken: Option<string>,
    accessToken: Option<string>,
    accessTokenExpiresOn: int,
    refreshToken: Option<string>,
    refreshTokenExpiresOn: int)

  /** Python truthiness of an optional token: set and non-empty. */
  predicate Present(token: Option<string>)
  {
    token.Some? && token.value != ""
  }

  datatype TokenAction =
    | Authorize      // obtain a PIN, save, and stop (at startup: the process exits)
    | RequestTokens  // exchange the authorization token for tokens, save
    | Reauthorize    // the refresh token expired: authorize (which stops the
                     // polling thread), then request tokens
    | Refresh        // the access token expired: refresh it
    | Proceed        // the access token is usable

  /** The two checks of `__init__`. */
  function StartupAction(c: Credentials): TokenAction
  {
    if !Present(c.authorizationToken) then Authorize
    else if !Present(c.accessToken) then RequestTokens
    else Proceed
  }

  /** `update_tokens`: the refresh-token expiry is checked first; both
      comparisons are strict. */
  function UpdateAction(c: Credentials, now: int): TokenAction
  {
    if now > c.refreshTokenExpiresOn then Reauthorize
    else if now > c.accessTokenExpiresOn then Refresh
    else Proceed
  }

  /** The decision over both, first match wins: the startup checks, then
      the expiry checks. */
  function NextAction(c: Credentials, now: int): (a: TokenAction)
    ensures a == Authorize <==> !Present(c.authorizationToken)
    ensures a == RequestTokens <==> Present(c.authorizationToken) && !Present(c.accessToken)
    ensures a == Reauthorize <==>
      Present(c.authorizationToken) && Present(c.accessToken) && now > c.refreshTokenExpiresOn
    ensures a == Refresh <==>
      && Present(c.authorizationToken) && Present(c.accessToken)
      && c.accessTokenExpiresOn < now <= c.refreshTokenExpiresOn
    ensures a == Proceed <==>
      && Present(c.authorizationToken) && Present(c.accessToken)
      && now <= c.accessTokenExpiresOn && now <= c.refreshTokenExpiresOn
  {
    var startup := StartupAction(c);
    if startup != Proceed then startup else UpdateAction(c, now)
  }

  /** Once the startup checks pass, the per-poll check alone decides. */
  lemma UpdateDecidesAfterStartup(c: Credentials, now: int)
    requires StartupAction(c) == Proceed
    ensures NextAction(c, now) == UpdateAction(c, now)
    ensures UpdateAction(c, now) == Proceed <==>
      now <= c.accessTokenExpiresOn && now <= c.refreshTokenExpiresOn
  {
  }

  /** A usable access token stays usable at every earlier time, and an
      expired credential stays expired at every later time. */
  lemma DecisionMonotoneInTime(c: Credentials, now: int, later: int)
    requires now <= later
    ensures NextAction(c, later) == Proceed ==> NextAction(c, now) == Proceed
    ensures NextAction(c, now) in {Reauthorize, Refresh} ==> NextAction(c, later) in {Reauthorize, Refresh}
    ensures NextAction(c, now) == Reauthorize ==> NextAction(c, later) == Reauthorize
  {
  }

  /** The tokens the ecobee service hands back from a token request or a
      refresh. */
  datatype Grant = Grant(accessToken: string, accessTokenExpiresOn: int, refreshToken: string, refreshTokenExpiresOn: int)

  /** What carrying out an action leaves: either polling stops for good
      after saving the bundle, or it goes on with the new credentials, saved
      or not. Authorizing at startup exits the process with status 1; the
      same exit raised on the polling thread during a re-authorization ends
      that thread only, and the process stays up without polling. */
  datatype Outcome =
    | Halted(stored: Credentials)
    | Ready(credentials: Credentials, saved: Option<Credentials>)

  /** The bundle the authorize call leaves: the new authorization code,
      every other field as it was. */
  function Authorized(c: Credentials, code: string): Credentials
  {
    c.(authorizationToken := Some(code))
  }

  function Granted(c: Credentials, g: Grant): Credentials
  {
    c.(accessToken := Some(g.accessToken), accessTokenExpiresOn := g.accessTokenExpiresOn,
       refreshToken := Some(g.refreshToken), refreshTokenExpiresOn := g.refreshTokenExpiresOn)
  }

  /** Carry out an action with the authorization code `code` that the
      service's authorize call returns and the tokens `g` its token calls
      return. Authorizing saves the bundle and stops, so re-authorizing never
      reaches its token request; a re-authorization therefore also drops the
      stale access token, so that the next start requests tokens (see
      `ReauthorizeAsWrittenRepeats`). Requesting tokens saves the bundle; the
      refresh in `update_tokens` calls the service directly and saves
      nothing. */
  function Perform(a: TokenAction, c: Credentials, code: string, g: Grant): (r: Outcome)
    ensures r.Halted? <==> a == Authorize || a == Reauthorize
    ensures r.Halted? ==>
      && r.stored.authorizationToken == Some(code)
      && r.stored.accessTokenExpiresOn == c.accessTokenExpiresOn
      && r.stored.refreshToken == c.refreshToken
      && r.stored.refreshTokenExpiresOn == c.refreshTokenExpiresOn
    ensures a == Authorize ==> r.Halted? && r.stored.accessToken == c.accessToken
    ensures a == Reauthorize ==> r.Halted? && r.stored.accessToken == None
    ensures a in {RequestTokens, Refresh} ==>
      && r.Ready?
      && r.credentials.authorizationToken == c.authorizationToken
      && r.credentials.accessToken == Some(g.accessToken)
      && r.credentials.accessTokenExpiresOn == g.accessTokenExpiresOn
      && r.credentials.refreshToken == Some(g.refreshToken)
      && r.credentials.refreshTokenExpiresOn == g.refreshTokenExpiresOn
    ensures r.Ready? ==> (r.saved.Some? <==> a == RequestTokens)
    ensures r.Ready? && r.saved.Some? ==> r.saved.value == r.credentials
    ensures a == Proceed ==> r == Ready(c, None)
  {
    match a
    case Authorize => Halted(Authorized(c, code))
    case Reauthorize => Halted(Authorized(c, code).(accessToken := None))
    case RequestTokens => Ready(Granted(c, g), Some(Granted(c, g)))
    case Refresh => Ready(Granted(c, g), None)
    case Proceed => Ready(c, None)
  }

  /** Requesting or refreshing tokens with a grant that is not yet expired
      leaves credentials that need nothing more at the same time. */
  lemma FreshGrantSettles(c: Credentials, now: int, code: string, g: Grant)
    requires NextAction(c, now) in {RequestTokens, Refresh}
    requires g.accessToken != "" && now <= g.accessTokenExpiresOn && now <= g.refreshTokenExpiresOn
    ensures Perform(NextAction(c, now), c, code, g).Ready?
    ensures NextAction(Perform(NextAction(c, now), c, code, g).credentials, now) == Proceed
  {
  }

  /** Polling stops for pairing exactly when there is no authorization
      token, or when both tokens are present and the refresh token has
      expired; an expired refresh token without an access token leads to a
      token request instead. */
  lemma HaltsOnlyForPairing(c: Credentials, now: int, code: string, g: Grant)
    ensures Perform(NextAction(c, now), c, code, g).Halted? <==>
      !Present(c.authorizationToken)
      || (Present(c.accessToken) && now > c.refreshTokenExpiresOn)
  {
  }

  /** As written, a re-authorization saves the new authorization code
      beside the stale access token and the expired refresh token. On the
      next start `__init__` sees both tokens and skips the token request, and
      the first `update_tokens` re-authorizes again, at any later time: the
      re-pairing never completes. */
  lemma ReauthorizeAsWrittenRepeats(c: Credentials, now: int, later: int, code: string)
    requires NextAction(c, now) == Reauthorize
    requires now <= later && code != ""
    ensures StartupAction(Authorized(c, code)) == Proceed
    ensures NextAction(Authorized(c, code), later) == Reauthorize
  {
  }

  /** With the stale access token dropped, the next start requests tokens,
      and a grant valid at that time settles the credentials. */
  lemma ReauthorizeLeadsToTokenRequest(c: Credentials, now: int, later: int, code: string, g: Grant)
    requires NextAction(c, now) == Reauthorize
    requires code != ""
    requires g.accessToken != "" && later <= g.accessTokenExpiresOn && later <= g.refreshTokenExpiresOn
    ensures Perform(Reauthorize, c, code, g).Halted?
    ensures
      var stored := Perform(Reauthorize, c, code, g).stored;
      && NextAction(stored, later) == RequestTokens
      && Perform(RequestTokens, stored, code, g).Ready?
      && NextAction(Perform(RequestTokens, stored, code, g).credentials, later) == Proceed
  {
  }
}
