/** What one run of the authentication filter guarantees, stated over
    `Authenticate`, the function `DoFilterInternal` is proved to follow. */
module FilterProperties {
  import opened Wrappers
  import opened AppConstant
  import opened StringUtils
  import opened Servlet
  import opened SpringSecurity
  import opened JwtTokenProvider
  import opened AuthenticationFilter

  // ---------------------------------------------------------------------------
  // Token extraction

  /** The literal 7 that `getJwtFromRequest` cuts off is the prefix's length. */
  lemma PrefixLengthIsSeven()
    ensures |TOKEN_PREFIX| == 7 && TOKEN_PREFIX[6] == ' '
  {
  }

  /** Any token sent as "Bearer <token>" comes back out unchanged. */
  lemma ExtractionRoundTrip(request: Request, token: string)
    requires GetHeader(request, HEADER_STRING) == Some(TOKEN_PREFIX + token)
    ensures GetJwtFromRequest(request) == Some(token)
  {
  }

  /** A missing, blank or wrongly prefixed header yields no token: the prefix
      test is exact and case-sensitive. */
  lemma RejectedHeaders(request: Request)
    requires GetHeader(request, HEADER_STRING) in
      {None, Some(""), Some("   "), Some("Bearer"), Some("bearer x"), Some("Token x"), Some(" Bearer x")}
    ensures GetJwtFromRequest(request).None?
  {
  }

  // ---------------------------------------------------------------------------
  // Paths that leave the context alone

  /** With no token that has text, the filter only forwards the request. */
  lemma NoTokenOnlyForwards(prior: Option<Authentication>, request: Request, response: Response,
                            provider: TokenProvider, users: UserDetailsService)
    requires !HasText(GetJwtFromRequest(request))
    ensures Authenticate(prior, request, response, provider, users) == FilterRun(Forwarded, prior, [DoFilter(request, response)])
  {
  }

  /** "Bearer " followed by nothing or only whitespace: the token is extracted
      but has no text, so nothing is decoded and the request is only forwarded. */
  lemma BlankBearerTokenOnlyForwards(prior: Option<Authentication>, request: Request, response: Response,
                                     provider: TokenProvider, users: UserDetailsService, token: string)
    requires GetHeader(request, HEADER_STRING) == Some(TOKEN_PREFIX + token)
    requires forall i :: 0 <= i < |token| ==> IsWhitespace(token[i])
    ensures GetJwtFromRequest(request) == Some(token) && !HasText(Some(token))
    ensures Authenticate(prior, request, response, provider, users) == FilterRun(Forwarded, prior, [DoFilter(request, response)])
  {
  }

  /** The three caught decode exceptions, and a null subject, leave the username
      null: the user store is not consulted and the context is unchanged. */
  lemma CaughtDecodeFailureOnlyForwards(prior: Option<Authentication>, request: Request, response: Response,
                                        provider: TokenProvider, users: UserDetailsService)
    requires HasText(GetJwtFromRequest(request))
    requires provider.getUsernameFromToken(GetJwtFromRequest(request).value) in {IllegalArgument, Expired, BadSignature, NullSubject}
    ensures Authenticate(prior, request, response, provider, users) ==
            FilterRun(Forwarded, prior, [GetUsernameFromToken(GetJwtFromRequest(request).value), DoFilter(request, response)])
  {
  }

  /** An authentication already in the context is never replaced, and the user
      store and token validation are not consulted. */
  lemma ExistingAuthenticationKept(prior: Option<Authentication>, request: Request, response: Response,
                                   provider: TokenProvider, users: UserDetailsService)
    requires prior.Some?
    ensures var r := Authenticate(prior, request, response, provider, users);
            r.authentication == prior &&
            forall c :: c in r.calls ==> !c.LoadUserByUsername? && !c.ValidateToken? && !c.SetAuthentication?
  {
  }

  // ---------------------------------------------------------------------------
  // Exceptions that escape

  /** A decode failure other than the three caught kinds escapes: nothing is
      forwarded and the user store is not consulted. */
  lemma UncaughtDecodeFailurePropagates(prior: Option<Authentication>, request: Request, response: Response,
                                        provider: TokenProvider, users: UserDetailsService)
    requires HasText(GetJwtFromRequest(request))
    requires provider.getUsernameFromToken(GetJwtFromRequest(request).value).OtherFailure?
    ensures var jwt := GetJwtFromRequest(request).value;
            Authenticate(prior, request, response, provider, users) ==
            FilterRun(Thrown(JwtException(jwt)), prior, [GetUsernameFromToken(jwt)])
  {
  }

  /** A decoded username the store does not know escapes as an exception after
      the lookup: nothing is validated, written or forwarded. */
  lemma UnknownUserPropagates(request: Request, response: Response,
                              provider: TokenProvider, users: UserDetailsService, username: string)
    requires HasText(GetJwtFromRequest(request))
    requires provider.getUsernameFromToken(GetJwtFromRequest(request).value) == Ok(username)
    requires users.loadUserByUsername(username).NotFound?
    ensures var jwt := GetJwtFromRequest(request).value;
            Authenticate(None, request, response, provider, users) ==
            FilterRun(Thrown(UsernameNotFound(username)), None, [GetUsernameFromToken(jwt), LoadUserByUsername(username)])
  {
  }

  /** The run throws exactly on those two paths. */
  lemma ThrowsExactlyWhen(prior: Option<Authentication>, request: Request, response: Response,
                          provider: TokenProvider, users: UserDetailsService)
    ensures var jwt := GetJwtFromRequest(request);
            Authenticate(prior, request, response, provider, users).outcome.Thrown? <==>
              HasText(jwt) &&
              (provider.getUsernameFromToken(jwt.value).OtherFailure? ||
               (provider.getUsernameFromToken(jwt.value).Ok? && prior.None? &&
                users.loadUserByUsername(provider.getUsernameFromToken(jwt.value).username).NotFound?))
  {
  }

  // ---------------------------------------------------------------------------
  // The one write to the context

  /** The conditions under which the filter installs an authentication: a token
      with text, a decoded username, an empty context, a user found under that
      username, and a token the provider accepts for that user. */
  predicate Installs(prior: Option<Authentication>, request: Request, provider: TokenProvider, users: UserDetailsService)
  {
    var jwt := GetJwtFromRequest(request);
    && prior.None?
    && HasText(jwt)
    && provider.getUsernameFromToken(jwt.value).Ok?
    && users.loadUserByUsername(provider.getUsernameFromToken(jwt.value).username).Found?
    && provider.validateToken(jwt.value, users.loadUserByUsername(provider.getUsernameFromToken(jwt.value).username).user)
  }

  /** The context changes exactly when `Installs` holds, and then holds the
      loaded user with no credentials and the single authority ROLE_ADMIN,
      whatever authorities the user record itself carries. */
  lemma ContextChangesExactlyWhenInstalled(prior: Option<Authentication>, request: Request, response: Response,
                                           provider: TokenProvider, users: UserDetailsService)
    ensures var r := Authenticate(prior, request, response, provider, users);
            (r.authentication != prior <==> Installs(prior, request, provider, users)) &&
            ((exists c :: c in r.calls && c.SetAuthentication?) <==> Installs(prior, request, provider, users))
    ensures Installs(prior, request, provider, users) ==>
            var user := users.loadUserByUsername(provider.getUsernameFromToken(GetJwtFromRequest(request).value).username).user;
            var a := Authenticate(prior, request, response, provider, users).authentication;
            a == Some(InstalledAuthentication(user, request)) &&
            a.value.principal == user && a.value.credentials.None? &&
            a.value.authorities == [SimpleGrantedAuthority(ROLE_ADMIN)]
  {
    var r := Authenticate(prior, request, response, provider, users);
    if Installs(prior, request, provider, users) {
      assert r.calls[3] in r.calls && r.calls[3].SetAuthentication?;
    }
  }

  /** The context is written at most once per run, only when it was empty, and
      always before the request is forwarded. */
  lemma SingleWriteBeforeForward(prior: Option<Authentication>, request: Request, response: Response,
                                 provider: TokenProvider, users: UserDetailsService)
    ensures var r := Authenticate(prior, request, response, provider, users);
            forall i, j :: 0 <= i < j < |r.calls| && r.calls[i].SetAuthentication? ==> r.calls[j].DoFilter?
    ensures var r := Authenticate(prior, request, response, provider, users);
            forall i :: 0 <= i < |r.calls| && r.calls[i].SetAuthentication? ==>
              prior.None? && Some(r.calls[i].authentication) == r.authentication
  {
  }

  /** The user store is asked for exactly the username the token decoded to,
      and validation gets the same token that was decoded and the user the
      store returned. */
  lemma LookupKeys(prior: Option<Authentication>, request: Request, response: Response,
                   provider: TokenProvider, users: UserDetailsService)
    ensures var r := Authenticate(prior, request, response, provider, users);
            var jwt := GetJwtFromRequest(request);
            forall c :: c in r.calls && c.LoadUserByUsername? ==>
              HasText(jwt) && provider.getUsernameFromToken(jwt.value) == Ok(c.username)
    ensures var r := Authenticate(prior, request, response, provider, users);
            var jwt := GetJwtFromRequest(request);
            forall c :: c in r.calls && c.ValidateToken? ==>
              jwt == Some(c.token) && GetUsernameFromToken(c.token) in r.calls &&
              provider.getUsernameFromToken(c.token).Ok? &&
              users.loadUserByUsername(provider.getUsernameFromToken(c.token).username) == Found(c.user)
  {
  }

  // ---------------------------------------------------------------------------
  // Forwarding

  /** A run that does not throw passes the same request and response down the
      chain exactly once, as its last step; a run that throws never does. */
  lemma ForwardsExactlyOnce(prior: Option<Authentication>, request: Request, response: Response,
                            provider: TokenProvider, users: UserDetailsService)
    ensures var r := Authenticate(prior, request, response, provider, users);
            r.outcome.Forwarded? ==>
              r.calls[|r.calls| - 1] == DoFilter(request, response) &&
              forall i :: 0 <= i < |r.calls| - 1 ==> !r.calls[i].DoFilter?
    ensures var r := Authenticate(prior, request, response, provider, users);
            r.outcome.Thrown? ==> forall c :: c in r.calls ==> !c.DoFilter?
  {
  }

  /** Running the filter again on the context it left changes nothing more. */
  lemma RerunKeepsContext(prior: Option<Authentication>, request: Request, response: Response,
                          provider: TokenProvider, users: UserDetailsService)
    ensures var first := Authenticate(prior, request, response, provider, users);
            Authenticate(first.authentication, request, response, provider, users).authentication == first.authentication
  {
  }
}
