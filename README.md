# JWT request authentication filter, modelled in Dafny

This project models the per-request authentication step of a Spring Security
JWT service, `JwtAuthenticationFilter`. For each inbound request the filter:

1. reads the `Authorization` header and, if it has text and starts with
   `"Bearer "`, takes the rest as the token (`getJwtFromRequest`);
2. asks the token provider for the token's username, catching three exception
   kinds (illegal argument, expired, bad signature);
3. if a username came back and the security context is still empty, loads the
   user from the `UserDetailsService`;
4. if the provider validates the token for that user, stores an authenticated
   `UsernamePasswordAuthenticationToken` in the security context. This record
   carries the user, no credentials, the single authority `ROLE_ADMIN` and the
   request's details;
5. passes the request and response down the filter chain.

Modules, one file each:

- `Wrappers` (`wrappers.dfy`): `Option`, standing for Java's nullable references.
- `AppConstant` (`app_constant.dfy`): the header name `"Authorization"`, the prefix `"Bearer "` and the 18000-second token lifetime.
- `StringUtils` (`string_utils.dfy`): Spring's `hasText`, over Java's `Character.isWhitespace`.
- `Servlet` (`servlet.dfy`): the request (headers, client address, session id) and an opaque response.
- `SpringSecurity` (`spring_security.dfy`): `UserDetails`, the user store, the authentication token, and the `SecurityContext` class with its one mutable slot.
- `JwtTokenProvider` (`jwt_token_provider.dfy`): the token provider as outcomes. `getUsernameFromToken` returns a username, returns null, or throws one of the three caught kinds or something else. `validateToken` is an arbitrary predicate supplied by the caller.
- `AuthenticationFilter` (`jwt_authentication_filter.dfy`): `GetJwtFromRequest` and `Authenticate`. `Authenticate` is the specification of one run: the outcome, the context slot afterwards, and the ordered trace of collaborator calls and context writes. The module also holds the class `JwtAuthenticationFilter`, whose imperative `DoFilterInternal` updates a `SecurityContext` in place and is proved to follow `Authenticate`.
- `FilterProperties` (`filter_properties.dfy`): lemmas about `Authenticate` and `GetJwtFromRequest`.

Two behaviours of the filter worth knowing:

- Only the three exception kinds above are caught. Any other decode failure, such as a malformed or unsupported token, escapes the filter as an exception. So does a username the user store does not know. In both cases the request is not forwarded, rather than going on unauthenticated.
- The granted authority is always `ROLE_ADMIN`. The user record's own authorities are not consulted.

`Servlet.GetHeader`, `StringUtils.IsWhitespace`, `SpringSecurity.BuildDetails`, `SpringSecurity.NewAuthenticatedToken` and the `SpringSecurity.SecurityContext` constructor stand for library calls the filter makes: `getHeader`, `Character.isWhitespace`, `buildDetails`, the three-argument token constructor and a fresh, empty context. They are helpers with no row below. Only the constructor has a contract, and it promises just an empty slot.

## Model

| member | source | states |
|---|---|---|
| StringUtils.ContainsText | src/main/java/com/example/security/config/filter/JwtAuthenticationFilter.java:100 | true exactly when some character of the string is not Java whitespace |
| StringUtils.HasText | src/main/java/com/example/security/config/filter/JwtAuthenticationFilter.java:65 | true exactly when the value is non-null and has a non-whitespace character; such a string is non-empty |
| AuthenticationFilter.GetJwtFromRequest | src/main/java/com/example/security/config/filter/JwtAuthenticationFilter.java:98-104 | a token is returned exactly when the Authorization header is present and starts with "Bearer "; then "Bearer " + token is the header and the token is 7 characters shorter |
| AuthenticationFilter.InstalledAuthentication | src/main/java/com/example/security/config/filter/JwtAuthenticationFilter.java:82-87 | the installed record has the loaded user as principal, null credentials, is authenticated, has exactly the authorities [ROLE_ADMIN] and the request's details |
| AuthenticationFilter.Authenticate | src/main/java/com/example/security/config/filter/JwtAuthenticationFilter.java:60-96 | a forwarded run ends with forwarding the same request and response; a run that throws leaves the context as it was; the context changes only from empty to an authentication, on a forwarded run |
| AuthenticationFilter.JwtAuthenticationFilter.constructor | src/main/java/com/example/security/config/filter/JwtAuthenticationFilter.java:47-48 | the filter holds the injected token provider and user store |
| AuthenticationFilter.JwtAuthenticationFilter.DoFilterInternal | src/main/java/com/example/security/config/filter/JwtAuthenticationFilter.java:60-96 | the outcome, the new content of the context slot and the ordered calls are those of Authenticate from the old slot content |
| SpringSecurity.SecurityContext.SetAuthentication | src/main/java/com/example/security/config/filter/JwtAuthenticationFilter.java:91 | the slot holds the given authentication afterwards |
| FilterProperties.PrefixLengthIsSeven | src/main/java/com/example/security/config/filter/JwtAuthenticationFilter.java:101 | the 7 characters cut off are exactly the prefix "Bearer ", ending in a space |
| FilterProperties.ExtractionRoundTrip | src/main/java/com/example/security/config/filter/JwtAuthenticationFilter.java:98-104 | for every token, a header "Bearer " + token yields exactly that token |
| FilterProperties.RejectedHeaders | src/main/java/com/example/security/config/filter/JwtAuthenticationFilter.java:99-103 | a missing, empty, blank, "Bearer", "bearer x", "Token x" or " Bearer x" header yields no token |
| FilterProperties.NoTokenOnlyForwards | src/main/java/com/example/security/config/filter/JwtAuthenticationFilter.java:63-79 | without a token that has text, the run's only call is forwarding, and the context is unchanged |
| FilterProperties.BlankBearerTokenOnlyForwards | src/main/java/com/example/security/config/filter/JwtAuthenticationFilter.java:65 | "Bearer " followed by only whitespace yields a token without text; nothing is decoded, the request is only forwarded and the context is unchanged |
| FilterProperties.CaughtDecodeFailureOnlyForwards | src/main/java/com/example/security/config/filter/JwtAuthenticationFilter.java:66-74 | an illegal-argument, expired or bad-signature failure, or a null subject, leads to one decode call and the forward: no lookup, no validation, context unchanged |
| FilterProperties.ExistingAuthenticationKept | src/main/java/com/example/security/config/filter/JwtAuthenticationFilter.java:79 | an authentication already in the context is kept, and the user store, validation and context write are never reached |
| FilterProperties.UncaughtDecodeFailurePropagates | src/main/java/com/example/security/config/filter/JwtAuthenticationFilter.java:66-74 | any other decode failure escapes after the decode call: no lookup, no forward, context unchanged |
| FilterProperties.UnknownUserPropagates | src/main/java/com/example/security/config/filter/JwtAuthenticationFilter.java:80 | an unknown username escapes after the lookup: no validation, no write, no forward |
| FilterProperties.ThrowsExactlyWhen | src/main/java/com/example/security/config/filter/JwtAuthenticationFilter.java:64-81 | a run throws if and only if decoding fails uncaught, or the context is empty and the decoded username is unknown |
| FilterProperties.ContextChangesExactlyWhenInstalled | src/main/java/com/example/security/config/filter/JwtAuthenticationFilter.java:79-92 | the context changes, and a context write happens, if and only if: the token has text, a username is decoded, the context was empty, the user is found and the token validates; it then holds the user with null credentials and only ROLE_ADMIN |
| FilterProperties.SingleWriteBeforeForward | src/main/java/com/example/security/config/filter/JwtAuthenticationFilter.java:91-95 | a context write happens only into an empty context, writes the final slot value, and is followed only by the forward |
| FilterProperties.LookupKeys | src/main/java/com/example/security/config/filter/JwtAuthenticationFilter.java:80-81 | the lookup gets exactly the decoded username; validation gets the token that was decoded and the user the store returned |
| FilterProperties.ForwardsExactlyOnce | src/main/java/com/example/security/config/filter/JwtAuthenticationFilter.java:95 | a run that does not throw forwards the same request and response exactly once, as its last step; a run that throws never forwards |
| FilterProperties.RerunKeepsContext | src/main/java/com/example/security/config/filter/JwtAuthenticationFilter.java:79 | running the filter again on the context a run left does not change that context |

## Left out

- The token provider (`JwtTokenProvider`): signing, parsing and expiry depend on a JWT library, a secret key and the wall clock, and its source is not part of this model. `getUsernameFromToken` is a caller-supplied function to outcomes. `validateToken` is a caller-supplied predicate, so the model assumes it never throws.
- Logging calls: they are diagnostics only and do not change control flow.
- Header lookup is by exact name and assumes one value per header. A servlet container matches header names case-insensitively and returns the first of several values.
- `WebAuthenticationDetails` is reduced to the client address and session id.
- `SecurityContextHolder` is thread-local. The model instead passes one request's `SecurityContext` explicitly. Concurrency across requests is not modelled.
- The filter chain is a recorded `DoFilter` call. Whatever the rest of the chain does or throws is outside the filter.
- The once-per-request dispatch of `OncePerRequestFilter` is framework code and is not modelled.
- `WebSecurityConfig.java` (route permit list, CSRF/CORS, session policy, bean wiring) is declarative configuration that the framework interprets.
- `JwtAuthenticationEntryPoint.java` only sends a 401 response, which is I/O.
- `User.java` is an entity with accessors only. `AuthenticationController.java` is presentation glue. `SpringSecurityJwtApplication.java` is bootstrap.
- The secret key constant is used only by the token provider.
- The commented-out `AbstractAuthenticationProcessingFilter` variant at the end of JwtAuthenticationFilter.java is dead code.
