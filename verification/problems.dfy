/** The problem vocabulary of the OAuth 2.0 validator (`OAuth2.Problems`) and its
 *  translation into the error codes of RFC 6749 (`OAuth2.Problems.TO_ERROR_CODE`).
 *
 *  In the source a problem is identified by a string constant; here it is one
 *  constructor of a closed datatype. Three of the kinds (`InvalidClient`,
 *  `InvalidRequest`, `InvalidScope`) stand for the `OAuth2.ErrorCode` constants
 *  that the tests name as problems. Of the modelled checks, `validateResponseType`
 *  raises `InvalidRequest` and `validateScope` raises `InvalidScope`; none raises
 *  `InvalidClient`, which line 66 of the test expects for a wrong secret.
 */
module Problems {

  datatype ProblemKind =
    | ParameterAbsent
    | ParameterRejected
    | ClientIdMismatch
    | ClientSecretMismatch
    | RedirectUriMismatch
    | UnsupportedResponseType
    | UnsupportedGrantType
    | InvalidScope
    | InvalidClient
    | InvalidRequest
    | InvalidGrant
    | CodeExpired
    | CodeAlreadyUsed

  /** Error codes an authorization endpoint may send (section 4.1.2.1 of RFC 6749). */
  const AuthorizationEndpointErrors: set<string> :=
    {"invalid_request", "unauthorized_client", "access_denied", "unsupported_response_type",
     "invalid_scope", "server_error", "temporarily_unavailable"}

  /** Error codes a token endpoint may send (section 5.2 of RFC 6749). */
  const TokenEndpointErrors: set<string> :=
    {"invalid_request", "invalid_client", "invalid_grant", "unauthorized_client",
     "unsupported_grant_type", "invalid_scope"}

  /** `TO_ERROR_CODE`: the wire error for each problem kind. Total, and every code it
   *  yields is one that RFC 6749 defines for one of the two endpoints. */
  function WireError(k: ProblemKind): (w: string)
    ensures w in AuthorizationEndpointErrors + TokenEndpointErrors
  {
    match k
    case ParameterAbsent => "invalid_request"
    case ParameterRejected => "invalid_request"
    case InvalidRequest => "invalid_request"
    case RedirectUriMismatch => "invalid_request"
    case UnsupportedResponseType => "unsupported_response_type"
    case UnsupportedGrantType => "unsupported_grant_type"
    case InvalidScope => "invalid_scope"
    case ClientIdMismatch => "invalid_client"
    case InvalidClient => "invalid_client"
    case ClientSecretMismatch => "unauthorized_client"
    case InvalidGrant => "invalid_grant"
    case CodeExpired => "invalid_grant"
    case CodeAlreadyUsed => "invalid_grant"
  }

  /** The four table entries the validator tests look up. */
  lemma AssertedWireErrors()
    ensures WireError(ClientIdMismatch) == "invalid_client"
    ensures WireError(ClientSecretMismatch) == "unauthorized_client"
    ensures WireError(ParameterAbsent) == "invalid_request"
    ensures WireError(UnsupportedResponseType) == "unsupported_response_type"
  {
  }

  /** Exactly the malformed-request kinds go out as "invalid_request"; in particular a
   *  redirect URI mismatch and a plain INVALID_REQUEST look the same on the wire. */
  lemma InvalidRequestKinds(k: ProblemKind)
    ensures WireError(k) == "invalid_request" <==>
      k in {ParameterAbsent, ParameterRejected, InvalidRequest, RedirectUriMismatch}
  {
  }

  /** The key under which a problem names the offending parameter. */
  const ParameterNameKey: string := "parameter_name"

  /** `OAuth2ProblemException`: the problem name and its extra parameters. */
  datatype Problem = Problem(kind: ProblemKind, parameters: map<string, string>)

  /** Kinds that carry the name of the offending parameter. */
  predicate NamesParameter(k: ProblemKind)
  {
    k == ParameterAbsent || k == ParameterRejected
  }

  /** A problem names a parameter exactly when its kind is about one parameter. */
  predicate WellFormed(p: Problem)
  {
    (ParameterNameKey in p.parameters) <==> NamesParameter(p.kind)
  }

  /** PARAMETER_ABSENT for `name`. */
  function Absent(name: string): Problem
  {
    Problem(ParameterAbsent, map[ParameterNameKey := name])
  }

  /** A problem that carries no parameters. */
  function Plain(kind: ProblemKind): Problem
  {
    Problem(kind, map[])
  }

  /** What a validator operation produces: it returns normally, or it throws a problem. */
  datatype Outcome = Pass | Fail(problem: Problem)
}
