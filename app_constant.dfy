/** The application's constants (util/AppConstant.java). */
module AppConstant {
  /** Lifetime of an access token, in seconds (five hours). It is consumed by the
      token provider, whose signing and expiry logic is not part of this model. */
  const ACCESS_TOKEN_VALIDITY_SECONDS: int := 5 * 60 * 60

  /** The prefix a bearer credential carries in the header. */
  const TOKEN_PREFIX: string := "Bearer "

  /** The request header that carries the credential. */
  const HEADER_STRING: string := "Authorization"
}
