/** The token provider as the filter sees it. Its signing, parsing and expiry
    checks are not part of this model; only the outcomes the filter can observe
    are. */
module JwtTokenProvider {
  import opened SpringSecurity

  /** What `getUsernameFromToken` does with a token: return a subject, return
      null (a token without a subject claim), or throw. Only the three exception
      kinds the filter catches are told apart; every other failure (a malformed
      or unsupported token, for one) is `OtherFailure`. */
  datatype DecodeOutcome =
    | Ok(username: string)
    | NullSubject
    | IllegalArgument
    | Expired
    | BadSignature
    | OtherFailure

  /** The provider's two operations the filter calls. */
  datatype TokenProvider = TokenProvider(
    getUsernameFromToken: string -> DecodeOutcome,
    validateToken: (string, UserDetails) -> bool)
}
