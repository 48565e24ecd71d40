/**
 * The request gate in front of the employee endpoints: a bypass for the
 * authentication and health paths, and a bearer-token check for every other
 * request. Token validation (signature and expiry) is a parameter, an
 * uninterpreted validator from token text to outcome.
 */
module JwtFilter {
  import opened JavaRuntime

  const BearerPrefix: string := "Bearer "
  const AuthPrefix: string := "/api/v1/auth/"
  const HealthPrefix: string := "/api/v1/health"

  /** `HttpServletResponse.SC_UNAUTHORIZED`. */
  const Unauthorized: int := 401

  // ---------------------------------------------------------------------------
  // Bypass

  /**
   * `shouldNotFilter`: requests to the authentication and health endpoints
   * skip the token check, that is, exactly the paths one of the two prefixes
   * is a prefix of.
   */
  function ShouldNotFilter(path: string): (skip: bool)
    ensures skip <==> AuthPrefix <= path || HealthPrefix <= path
  {
    StartsWith(path, AuthPrefix) || StartsWith(path, HealthPrefix)
  }

  /** Extending a bypassed path keeps it bypassed. */
  lemma BypassClosedUnderExtension(path: string, suffix: string)
    requires ShouldNotFilter(path)
    ensures ShouldNotFilter(path + suffix)
  {
  }

  /**
   * The token endpoint and the health endpoint are bypassed and the employee
   * endpoint is not. The authentication prefix ends in a slash and the health
   * prefix does not, so "/api/v1/auth" is checked while "/api/v1/healthz" is not.
   */
  lemma BypassExamples()
    ensures ShouldNotFilter("/api/v1/auth/token")
    ensures ShouldNotFilter("/api/v1/health")
    ensures !ShouldNotFilter("/api/v1/employee")
    ensures !ShouldNotFilter("/api/v1/auth")
    ensures ShouldNotFilter("/api/v1/healthz")
  {
    assert "/api/v1/auth/token"[..|AuthPrefix|] == AuthPrefix;
    assert "/api/v1/health"[..|HealthPrefix|] == HealthPrefix;
    assert "/api/v1/employee"[..|HealthPrefix|][8] != HealthPrefix[8];
    assert "/api/v1/employee"[..|AuthPrefix|][8] != AuthPrefix[8];
    assert "/api/v1/healthz"[..|HealthPrefix|] == HealthPrefix;
  }

  // ---------------------------------------------------------------------------
  // Token check

  /** The outcome of token validation: rejected, or accepted with the token's subject (possibly `null`). */
  datatype Validation = Invalid | Valid(subject: JString)

  /** What the filter does with a request: answer 401, or authenticate the principal and pass it on. */
  datatype Decision = Reject | Admit(principal: JString)

  /** `authHeader.substring(7)`: the header without its bearer prefix. */
  function BearerToken(header: string): (token: string)
    requires StartsWith(header, BearerPrefix)
    ensures BearerPrefix + token == header
  {
    assert header == header[..7] + header[7..];
    header[7..]
  }

  /** Prefixing a token and stripping the prefix again gives the token back. */
  lemma BearerTokenRoundTrip(token: string)
    ensures StartsWith(BearerPrefix + token, BearerPrefix)
    ensures BearerToken(BearerPrefix + token) == token
  {
  }

  /**
   * The decision `doFilterInternal` takes for an `Authorization` header: a
   * request is admitted exactly when the header is present, starts with
   * "Bearer " and the rest of it validates, and the principal is the subject
   * the validator found.
   */
  function Decide(header: JString, validate: string -> Validation): (d: Decision)
    ensures d.Admit? <==> header.Some? && StartsWith(header.value, BearerPrefix) &&
                          validate(header.value[|BearerPrefix|..]).Valid?
    ensures d.Admit? ==> Valid(d.principal) == validate(header.value[|BearerPrefix|..])
  {
    if header.Some? && StartsWith(header.value, BearerPrefix) then
      match validate(BearerToken(header.value))
      case Invalid => Reject
      case Valid(username) => Admit(username)
    else Reject
  }

  /** The validator is asked about the token alone, exactly as it followed the prefix. */
  lemma DecideSeesOnlyToken(token: string, validate: string -> Validation)
    ensures Decide(Some(BearerPrefix + token), validate) ==
            match validate(token)
            case Invalid => Reject
            case Valid(username) => Admit(username)
  {
  }

  /** Without a bearer header no validator can admit the request. */
  lemma NoBearerNoAdmission(header: JString, validate: string -> Validation)
    requires header.None? || !StartsWith(header.value, BearerPrefix)
    ensures Decide(header, validate) == Reject
  {
  }

  /** The prefix is compared case-sensitively: a lower-case scheme is rejected whatever the token. */
  lemma LowerCaseSchemeRejected(token: string, validate: string -> Validation)
    ensures Decide(Some("bearer " + token), validate) == Reject
  {
  }

  /**
   * One request passing through the filter: the response status, the
   * authentication in the security context, and how often the rest of the
   * filter chain has been invoked.
   */
  class Exchange {
    var status: int
    var authentication: Option<JString>
    var chainInvocations: nat

    constructor (status: int)
      ensures this.status == status && authentication == None && chainInvocations == 0
    {
      this.status := status;
      authentication := None;
      chainInvocations := 0;
    }
  }

  /**
   * `doFilterInternal`: a rejected request gets status 401 and goes no
   * further; an admitted one is authenticated as its principal and handed to
   * the chain exactly once.
   */
  method DoFilterInternal(header: JString, validate: string -> Validation, exchange: Exchange)
    modifies exchange
    ensures Decide(header, validate) == Reject ==>
              exchange.status == Unauthorized &&
              exchange.authentication == old(exchange.authentication) &&
              exchange.chainInvocations == old(exchange.chainInvocations)
    ensures Decide(header, validate).Admit? ==>
              exchange.status == old(exchange.status) &&
              exchange.authentication == Some(Decide(header, validate).principal) &&
              exchange.chainInvocations == old(exchange.chainInvocations) + 1
  {
    if header.Some? && StartsWith(header.value, BearerPrefix) {
      var token := BearerToken(header.value);
      match validate(token) {
        case Invalid =>
          exchange.status := Unauthorized;
          return;
        case Valid(username) =>
          exchange.authentication := Some(username);
      }
    } else {
      exchange.status := Unauthorized;
      return;
    }
    exchange.chainInvocations := exchange.chainInvocations + 1;
  }
}
