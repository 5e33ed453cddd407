/** The per-request authentication filter (config/filter/JwtAuthenticationFilter.java). */
module AuthenticationFilter {
  import opened Wrappers
  import opened AppConstant
  import opened StringUtils
  import opened Servlet
  import opened SpringSecurity
  import opened JwtTokenProvider

  /** The collaborator calls and context writes one run of the filter performs,
      in order. */
  datatype Call =
    | GetUsernameFromToken(token: string)
    | LoadUserByUsername(username: string)
    | ValidateToken(token: string, user: UserDetails)
    | SetAuthentication(authentication: Authentication)
    | DoFilter(request: Request, response: Response)

  /** An exception that escapes the filter. */
  datatype FilterError =
    | JwtException(token: string)           // an uncaught failure of getUsernameFromToken
    | UsernameNotFound(username: string)    // loadUserByUsername found nobody

  /** How a run ends: the request went down the chain, or an exception escaped. */
  datatype FilterOutcome = Forwarded | Thrown(error: FilterError)

  /** The observable result of one run: its outcome, the context slot afterwards,
      and the calls made. */
  datatype FilterRun = FilterRun(outcome: FilterOutcome, authentication: Option<Authentication>, calls: seq<Call>)

  /** The single authority granted to every authenticated user. */
  const ROLE_ADMIN: string := "ROLE_ADMIN"

  /** `getJwtFromRequest`: the Authorization header with its first seven
      characters cut off, provided it has text and starts with "Bearer ". */
  function GetJwtFromRequest(request: Request): (jwt: Option<string>)
    ensures jwt.Some? <==> GetHeader(request, HEADER_STRING).Some? && TOKEN_PREFIX <= GetHeader(request, HEADER_STRING).value
    ensures jwt.Some? ==> TOKEN_PREFIX + jwt.value == GetHeader(request, HEADER_STRING).value
    ensures jwt.Some? ==> |jwt.value| == |GetHeader(request, HEADER_STRING).value| - |TOKEN_PREFIX|
  {
    var bearerToken := GetHeader(request, HEADER_STRING);
    if HasText(bearerToken) && TOKEN_PREFIX <= bearerToken.value then
      Some(bearerToken.value[7..])
    else
      None
  }

  /** The authentication record the filter installs for `user`: the user as
      principal, no credentials, the one authority ROLE_ADMIN, and the request's
      details. */
  function InstalledAuthentication(user: UserDetails, request: Request): (a: Authentication)
    ensures a.principal == user && a.credentials.None? && a.authenticated
    ensures a.authorities == [SimpleGrantedAuthority(ROLE_ADMIN)]
    ensures a.details == Some(BuildDetails(request))
  {
    NewAuthenticatedToken(user, None, [SimpleGrantedAuthority(ROLE_ADMIN)]).(details := Some(BuildDetails(request)))
  }

  /** One run of `doFilterInternal` from a context slot holding `prior`. The
      run either passes the request on, as its very last call, or ends in an
      exception with the slot untouched. */
  function Authenticate(prior: Option<Authentication>, request: Request, response: Response,
                        provider: TokenProvider, users: UserDetailsService): (r: FilterRun)
    ensures r.outcome.Forwarded? ==> |r.calls| > 0 && r.calls[|r.calls| - 1] == DoFilter(request, response)
    ensures r.outcome.Thrown? ==> r.authentication == prior
    ensures r.authentication != prior ==> prior.None? && r.outcome.Forwarded? && r.authentication.Some?
  {
    var jwt := GetJwtFromRequest(request);
    var forward := DoFilter(request, response);
    if !HasText(jwt) then
      FilterRun(Forwarded, prior, [forward])
    else
      var decode := GetUsernameFromToken(jwt.value);
      match provider.getUsernameFromToken(jwt.value)
      case OtherFailure =>
        FilterRun(Thrown(JwtException(jwt.value)), prior, [decode])
      case Ok(username) =>
        if prior.Some? then
          FilterRun(Forwarded, prior, [decode, forward])
        else
          var load := LoadUserByUsername(username);
          (match users.loadUserByUsername(username)
           case NotFound =>
             FilterRun(Thrown(UsernameNotFound(username)), prior, [decode, load])
           case Found(user) =>
             var validate := ValidateToken(jwt.value, user);
             if provider.validateToken(jwt.value, user) then
               var a := InstalledAuthentication(user, request);
               FilterRun(Forwarded, Some(a), [decode, load, validate, SetAuthentication(a), forward])
             else
               FilterRun(Forwarded, prior, [decode, load, validate, forward]))
      case _ =>
        // NullSubject, or one of the three caught exceptions: the username stays null
        FilterRun(Forwarded, prior, [decode, forward])
  }

  /** The filter bean with its two injected collaborators. */
  class JwtAuthenticationFilter {
    const jwtTokenProvider: TokenProvider
    const userDetailsService: UserDetailsService

    constructor (jwtTokenProvider: TokenProvider, userDetailsService: UserDetailsService)
      ensures this.jwtTokenProvider == jwtTokenProvider && this.userDetailsService == userDetailsService
    {
      this.jwtTokenProvider := jwtTokenProvider;
      this.userDetailsService := userDetailsService;
    }

    /** `doFilterInternal`: authenticate the request from its bearer token into
        `context`, then pass it down the chain. `calls` records what the run
        did, in order. */
    method DoFilterInternal(context: SecurityContext, request: Request, response: Response)
      returns (outcome: FilterOutcome, calls: seq<Call>)
      modifies context
      ensures var r := Authenticate(old(context.authentication), request, response, jwtTokenProvider, userDetailsService);
              outcome == r.outcome && context.authentication == r.authentication && calls == r.calls
    {
      calls := [];
      var jwt := GetJwtFromRequest(request);
      var username: Option<string> := None;
      if HasText(jwt) {
        calls := calls + [GetUsernameFromToken(jwt.value)];
        match jwtTokenProvider.getUsernameFromToken(jwt.value)
        case Ok(u) =>
          username := Some(u);
        case NullSubject =>
        case IllegalArgument =>
        case Expired =>
        case BadSignature =>
        case OtherFailure =>
          return Thrown(JwtException(jwt.value)), calls;
      }

      if username.Some? && context.authentication.None? {
        calls := calls + [LoadUserByUsername(username.value)];
        var lookup := userDetailsService.loadUserByUsername(username.value);
        if lookup.NotFound? {
          return Thrown(UsernameNotFound(username.value)), calls;
        }
        var userDetails := lookup.user;
        calls := calls + [ValidateToken(jwt.value, userDetails)];
        if jwtTokenProvider.validateToken(jwt.value, userDetails) {
          var authentication := InstalledAuthentication(userDetails, request);
          context.SetAuthentication(Some(authentication));
          calls := calls + [SetAuthentication(authentication)];
        }
      }

      calls := calls + [DoFilter(request, response)];
      outcome := Forwarded;
    }
  }
}
