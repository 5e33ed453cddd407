/** The Spring Security types the filter reads and writes. */
module SpringSecurity {
  import opened Wrappers
  import opened Servlet

  /** A `UserDetails` record as the user store returns it. */
  datatype UserDetails = UserDetails(username: string, password: string, authorities: set<string>)

  /** `UserDetailsService.loadUserByUsername`: a user, or a
      `UsernameNotFoundException`. */
  datatype LookupOutcome = Found(user: UserDetails) | NotFound

  /** The user store, a collaborator the filter calls but does not implement. */
  datatype UserDetailsService = UserDetailsService(loadUserByUsername: string -> LookupOutcome)

  datatype GrantedAuthority = SimpleGrantedAuthority(role: string)

  /** `WebAuthenticationDetails`: the client address and the session id, if any. */
  datatype WebAuthenticationDetails = WebAuthenticationDetails(remoteAddress: string, sessionId: Option<string>)

  /** `WebAuthenticationDetailsSource.buildDetails`. */
  function BuildDetails(request: Request): WebAuthenticationDetails {
    WebAuthenticationDetails(request.remoteAddress, request.sessionId)
  }

  /** `UsernamePasswordAuthenticationToken`; `credentials` and `details` are
      nullable. */
  datatype Authentication = UsernamePasswordAuthenticationToken(
    principal: UserDetails,
    credentials: Option<string>,
    authorities: seq<GrantedAuthority>,
    details: Option<WebAuthenticationDetails>,
    authenticated: bool)

  /** The three-argument constructor, which marks the token authenticated and
      leaves the details unset. */
  function NewAuthenticatedToken(principal: UserDetails, credentials: Option<string>, authorities: seq<GrantedAuthority>): Authentication {
    UsernamePasswordAuthenticationToken(principal, credentials, authorities, None, true)
  }

  /** The security context of the current request: one slot that holds the
      authentication, or null. */
  class SecurityContext {
    var authentication: Option<Authentication>

    constructor ()
      ensures authentication.None?
    {
      authentication := None;
    }

    /** `SecurityContext.setAuthentication`: replaces the slot and nothing else. */
    method SetAuthentication(a: Option<Authentication>)
      modifies this
      ensures authentication == a
    {
      authentication := a;
    }
  }
}
