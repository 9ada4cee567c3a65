/** The OAuth callback handler (`GET /api/auth/callback`): an ordered chain of
    early-return checks, then the session cookie is written and the state
    cookie deleted. Signature verification of the state token and the
    code-for-token exchange are inputs, as functions of what they are given. */
module AuthCallback {
  import opened Js

  /** What verifying the state cookie yields under the session secret and the
      current time: failure (bad signature, malformed, expired) or the
      payload's `state` and `mode` claims, whatever their types. */
  datatype Verification = VerifyFailed | Verified(state: Value, mode: Value)

  /** The decoded JSON reply of the code-for-token exchange. */
  datatype TokenReply = TokenReply(accessToken: Value, error: Value, errorDescription: Value)

  /** The claims of the session token the success path signs. */
  datatype SessionClaims = SessionClaims(githubToken: Value, mode: string, lifetime: nat)

  /** Seven days, in seconds: the session token's expiry and the cookie's max age. */
  const SessionLifetime: nat := 60 * 60 * 24 * 7

  const MissingParameters: string := "Invalid request: missing parameters."
  const BadStateToken: string := "Invalid or expired OAuth state token."
  const StateMismatch: string := "Invalid CSRF token (state mismatch)."

  /** A cookie value: plain text as received, or a signed session token. */
  datatype CookieValue = Plain(text: string) | SignedSession(claims: SessionClaims)

  /** A `Set-Cookie` the response will carry. */
  datatype CookieWrite =
    | SetCookie(value: CookieValue, path: string, httpOnly: bool, secure: bool, sameSite: string, maxAge: int)
    | DeleteCookie(path: string)

  datatype Response = Text(status: int, body: string) | Redirect(status: int, location: string)

  /** The request URL: its protocol (`https:`) and its query pairs in order. */
  datatype Url = Url(protocol: string, query: seq<(string, string)>)

  /** `query[i]` is the first pair named `name`. */
  predicate FirstNamed(query: seq<(string, string)>, i: nat, name: string) {
    i < |query| && query[i].0 == name && forall j :: 0 <= j < i ==> query[j].0 != name
  }

  /** `url.searchParams.get(name)`: the first value given for `name`. */
  function QueryGet(query: seq<(string, string)>, name: string): (r: Option<string>)
    ensures r.None? <==> forall i :: 0 <= i < |query| ==> query[i].0 != name
    ensures r.Some? ==> exists i: nat :: FirstNamed(query, i, name) && query[i].1 == r.value
  {
    if query == [] then None
    else if query[0].0 == name then
      assert FirstNamed(query, 0, name);
      Some(query[0].1)
    else
      var r := QueryGet(query[1..], name);
      assert forall i :: 1 <= i < |query| ==> query[i] == query[1..][i - 1];
      assert forall i: nat :: FirstNamed(query[1..], i, name) ==> FirstNamed(query, i + 1, name);
      r
  }

  /** A query parameter or cookie that is present and not empty: `!v` is
      false for a string that may be null exactly when it is given. */
  predicate Given(v: Option<string>)
    ensures Given(v) <==> v.Some? && Truthy(Str(v.value))
  {
    v.Some? && v.value != ""
  }

  /** `data.error_description || data.error || 'Unknown error'` */
  function ExchangeError(reply: TokenReply): (message: string)
    ensures Truthy(reply.errorDescription) ==> message == ToText(reply.errorDescription)
    ensures !Truthy(reply.errorDescription) && Truthy(reply.error) ==> message == ToText(reply.error)
    ensures !Truthy(reply.errorDescription) && !Truthy(reply.error) ==> message == "Unknown error"
  {
    ToText(Or(Or(reply.errorDescription, reply.error), Str("Unknown error")))
  }

  datatype Decision = Reject(status: int, message: string) | Accept(claims: SessionClaims)

  /** The outcome of the handler's checks, in the handler's order. */
  function Decide(code: Option<string>, stateParam: Option<string>, stateCookie: Option<string>,
                  verify: string -> Verification, exchange: string -> TokenReply): (d: Decision)
    ensures d.Reject? ==> d.status == 400 || d.status == 403 || d.status == 500
    ensures (d == Reject(400, MissingParameters)) <==> !(Given(code) && Given(stateParam) && Given(stateCookie))
    ensures d.Accept? ==>
              && Given(code) && Given(stateParam) && Given(stateCookie)
              && verify(stateCookie.value) == Verified(Str(stateParam.value), Str(d.claims.mode))
              && Truthy(exchange(code.value).accessToken)
              && d.claims == SessionClaims(exchange(code.value).accessToken, d.claims.mode, SessionLifetime)
  {
    if !Given(code) || !Given(stateParam) || !Given(stateCookie) then
      Reject(400, MissingParameters)
    else
      var v := verify(stateCookie.value);
      if v.VerifyFailed? || !v.state.Str? || !v.mode.Str? then
        Reject(403, BadStateToken)
      else if stateParam.value != v.state.s then
        Reject(403, StateMismatch)
      else
        var reply := exchange(code.value);
        if !Truthy(reply.accessToken) then
          Reject(500, "Failed to get token: " + ExchangeError(reply))
        else
          Accept(SessionClaims(reply.accessToken, v.mode.s, SessionLifetime))
  }

  /** The framework's cookie jar for one request: the cookies the request
      carried, and the cookie writes the response will carry. */
  class CookieJar {
    const incoming: map<string, string>
    var outgoing: map<string, CookieWrite>

    constructor (requestCookies: map<string, string>)
      ensures incoming == requestCookies && outgoing == map[]
    {
      incoming := requestCookies;
      outgoing := map[];
    }

    /** `cookies.get(name)` */
    function Get(name: string): (r: Option<string>)
      reads this
      ensures r.Some? <==> name in incoming
      ensures r.Some? ==> r.value == incoming[name]
    {
      if name in incoming then Some(incoming[name]) else None
    }

    method Set(name: string, value: CookieValue, path: string, httpOnly: bool, secure: bool, sameSite: string, maxAge: int)
      modifies this
      ensures outgoing == old(outgoing)[name := SetCookie(value, path, httpOnly, secure, sameSite, maxAge)]
    {
      outgoing := outgoing[name := SetCookie(value, path, httpOnly, secure, sameSite, maxAge)];
    }

    method Delete(name: string, path: string)
      modifies this
      ensures outgoing == old(outgoing)[name := DeleteCookie(path)]
    {
      outgoing := outgoing[name := DeleteCookie(path)];
    }
  }

  /** The cookie writes of the success path: the signed session cookie, the
      state cookie's deletion, and every other write left as it was. */
  function SuccessWrites(before: map<string, CookieWrite>, claims: SessionClaims, protocol: string): (r: map<string, CookieWrite>)
    ensures r.Keys == before.Keys + {"session", "oauth_state"}
    ensures r["session"].SetCookie? && r["session"].value == SignedSession(claims)
    ensures r["session"].path == "/" && r["session"].httpOnly && r["session"].sameSite == "strict"
    ensures r["session"].secure <==> protocol == "https:"
    ensures r["session"].maxAge == SessionLifetime
    ensures r["oauth_state"] == DeleteCookie("/")
    ensures forall k :: k in before && k != "session" && k != "oauth_state" ==> r[k] == before[k]
  {
    before["session" := SetCookie(SignedSession(claims), "/", true, protocol == "https:", "strict", SessionLifetime)]
          ["oauth_state" := DeleteCookie("/")]
  }

  /** `GET`: the early returns, then the cookie effects and the redirect. */
  method Get(url: Url, cookies: CookieJar, verify: string -> Verification, exchange: string -> TokenReply)
    returns (response: Response)
    modifies cookies
    ensures var d := Decide(QueryGet(url.query, "code"), QueryGet(url.query, "state"), cookies.Get("oauth_state"),
                            verify, exchange);
            && (d.Reject? ==> response == Text(d.status, d.message) && cookies.outgoing == old(cookies.outgoing))
            && (d.Accept? ==> response == Redirect(302, "/") &&
                              cookies.outgoing == SuccessWrites(old(cookies.outgoing), d.claims, url.protocol))
  {
    var code := QueryGet(url.query, "code");
    var stateFromParam := QueryGet(url.query, "state");
    var oauthStateCookie := cookies.Get("oauth_state");

    if !Given(code) || !Given(stateFromParam) || !Given(oauthStateCookie) {
      return Text(400, MissingParameters);
    }

    var payload := verify(oauthStateCookie.value);
    if payload.VerifyFailed? || !payload.state.Str? || !payload.mode.Str? {
      return Text(403, BadStateToken);
    }
    var stateFromToken := payload.state.s;
    var mode := payload.mode.s;

    if stateFromParam.value != stateFromToken {
      return Text(403, StateMismatch);
    }

    var data := exchange(code.value);
    var accessToken := data.accessToken;
    if !Truthy(accessToken) {
      return Text(500, "Failed to get token: " + ExchangeError(data));
    }

    var session := SignedSession(SessionClaims(accessToken, mode, SessionLifetime));
    cookies.Set("session", session, "/", true, url.protocol == "https:", "strict", SessionLifetime);
    cookies.Delete("oauth_state", "/");
    response := Redirect(302, "/");
  }

  // -----------------------------------------------------------------------
  // Properties of the decision chain.

  /** A missing parameter is decided before any verification or exchange:
      the outcome does not depend on either. */
  lemma MissingParameterFirst(code: Option<string>, stateParam: Option<string>, stateCookie: Option<string>,
                              verify1: string -> Verification, exchange1: string -> TokenReply,
                              verify2: string -> Verification, exchange2: string -> TokenReply)
    requires !(Given(code) && Given(stateParam) && Given(stateCookie))
    ensures Decide(code, stateParam, stateCookie, verify1, exchange1) == Reject(400, MissingParameters)
    ensures Decide(code, stateParam, stateCookie, verify1, exchange1)
         == Decide(code, stateParam, stateCookie, verify2, exchange2)
  {
  }

  /** Every 400 and 403 outcome is reached without the token exchange: the
      exchange could have answered anything. */
  lemma NoExchangeBeforeValidation(code: Option<string>, stateParam: Option<string>, stateCookie: Option<string>,
                                   verify: string -> Verification, exchange1: string -> TokenReply,
                                   exchange2: string -> TokenReply)
    requires Decide(code, stateParam, stateCookie, verify, exchange1).Reject?
    requires Decide(code, stateParam, stateCookie, verify, exchange1).status != 500
    ensures Decide(code, stateParam, stateCookie, verify, exchange2)
         == Decide(code, stateParam, stateCookie, verify, exchange1)
  {
  }

  /** A state token that fails verification, or whose claims are not both
      strings, is refused with 403 once the parameters are present. */
  lemma BadTokenRefused(code: Option<string>, stateParam: Option<string>, stateCookie: Option<string>,
                        verify: string -> Verification, exchange: string -> TokenReply)
    requires Given(code) && Given(stateParam) && Given(stateCookie)
    requires verify(stateCookie.value).VerifyFailed? ||
             !verify(stateCookie.value).state.Str? || !verify(stateCookie.value).mode.Str?
    ensures Decide(code, stateParam, stateCookie, verify, exchange) == Reject(403, BadStateToken)
  {
  }

  /** The state echoed back must equal the signed one exactly: any other
      value is refused with 403, the same value passes the CSRF check and the
      outcome is then decided by the exchange alone. */
  lemma StateRoundTrip(code: string, echoed: string, stateCookie: string, state: string, mode: string,
                       verify: string -> Verification, exchange: string -> TokenReply)
    requires code != "" && echoed != "" && stateCookie != ""
    requires verify(stateCookie) == Verified(Str(state), Str(mode))
    ensures echoed != state ==>
              Decide(Some(code), Some(echoed), Some(stateCookie), verify, exchange) == Reject(403, StateMismatch)
    ensures echoed == state ==>
              Decide(Some(code), Some(echoed), Some(stateCookie), verify, exchange) ==
                if Truthy(exchange(code).accessToken)
                then Accept(SessionClaims(exchange(code).accessToken, mode, SessionLifetime))
                else Reject(500, "Failed to get token: " + ExchangeError(exchange(code)))
  {
  }

  /** A reply without a usable token is a 500 that names the upstream error. */
  lemma ExchangeFailureReported(code: Option<string>, stateParam: Option<string>, stateCookie: Option<string>,
                                verify: string -> Verification, exchange: string -> TokenReply)
    requires Decide(code, stateParam, stateCookie, verify, exchange).Reject?
    requires Decide(code, stateParam, stateCookie, verify, exchange).status == 500
    ensures !Truthy(exchange(code.value).accessToken)
    ensures Decide(code, stateParam, stateCookie, verify, exchange).message
         == "Failed to get token: " + ExchangeError(exchange(code.value))
  {
  }
}
