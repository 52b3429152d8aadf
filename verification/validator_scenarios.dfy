/** The cases of OAuth2ValidatorTest, each stated as a lemma about the decoded test form.
 *
 *  The tests catch the problem and assert on it, but none of them fails when no
 *  problem is thrown; so strictly they only say which problem is raised IF one is.
 *  The lemmas state the intended outcome: the operation fails, and with that problem.
 *
 *  The percent-decoder stays abstract; each lemma assumes only what
 *  `URLDecoder.decode` does to the strings involved: text without '%' or '+' comes
 *  back unchanged, and (where it matters) the escaped callback URI decodes to the
 *  plain one.
 */
module ValidatorScenarios {
  import opened Wrappers
  import opened FormDecoding
  import opened Problems
  import opened Validator

  /** Text with neither '%' nor '+', which `URLDecoder.decode` returns unchanged. */
  predicate PlainText(s: string)
  {
    forall i :: 0 <= i < |s| ==> s[i] != '%' && s[i] != '+'
  }

  /** The decoder returns plain text unchanged. */
  ghost predicate LeavesPlainTextAlone(decode: Decoder)
  {
    forall s {:trigger PlainText(s)} :: PlainText(s) ==> decode(s) == s
  }

  const GrantTypeName: string := "grant_type"
  const CodeName: string := "code"
  const AuthorizationCode: string := "authorization_code"
  const Invalid: string := "invalid"
  const TestCode: string := "i1WsRn1uB1"
  const Token: string := "token"

  /** The escaped callback URI of the test forms, and what it decodes to. */
  const EncodedCallback: string := "https%3A%2F%2Fclient%2Eexample%2Ecom%2Fcb"
  const Callback: string := "https://client.example.com/cb"

  /** `new OAuth2Client("https://client.example.com/cb", "s6BhdRkqt3", "gX1fBat3bV")`. */
  const TestClient: Client := Client(Callback, "s6BhdRkqt3", "gX1fBat3bV", None)
  /** The same client registered with "https://client.example.com/case/invalid". */
  const OtherRedirectClient: Client :=
    Client("https://client.example.com/case/invalid", "s6BhdRkqt3", "gX1fBat3bV", None)

  /** A test form, as its `name=value` pairs before they are joined with '&'. */
  type Pairs = seq<(string, string)>

  function Segments(pairs: Pairs): seq<string>
  {
    seq(|pairs|, k requires 0 <= k < |pairs| => pairs[k].0 + [EqualsSign] + pairs[k].1)
  }

  /** The form string, `name=value&name=value...`. */
  function FormText(pairs: Pairs): string
  {
    Join(Segments(pairs), Ampersand)
  }

  /** What the tests build: `new OAuth2Message("", "", decodeForm(parameters))`. */
  function TestMessage(pairs: Pairs, decode: Decoder): Message
  {
    Message("", "", DecodeFormSpec(Some(FormText(pairs)), decode))
  }

  /** A name with no separator and nothing to decode. */
  predicate PlainName(s: string)
  {
    forall i :: 0 <= i < |s| ==> s[i] != EqualsSign && s[i] != Ampersand && s[i] != '%' && s[i] != '+'
  }

  /** A value that does not end its segment early. */
  predicate SafeValue(s: string)
  {
    forall i :: 0 <= i < |s| ==> s[i] != Ampersand
  }

  /** Plain names, safe values. */
  predicate WellFormedPairs(pairs: Pairs)
  {
    |pairs| >= 1 && forall k :: 0 <= k < |pairs| ==> PlainName(pairs[k].0) && SafeValue(pairs[k].1)
  }

  /** The names the test forms use. */
  lemma TestNames()
    ensures PlainName(GrantTypeName) && PlainName(ClientIdName) && PlainName(ClientSecretName)
    ensures PlainName(CodeName) && PlainName(RedirectUriName) && PlainName(ScopeName)
    ensures PlainName(ResponseTypeName)
  {
  }

  /** A value that both stays inside its segment and decodes to itself. */
  predicate PlainValue(s: string)
  {
    SafeValue(s) && PlainText(s)
  }

  /** The client's credentials as the forms carry them. */
  lemma CredentialValues()
    ensures PlainValue(TestClient.clientId) && PlainValue(TestClient.clientSecret)
  {
  }

  /** The other values of the test forms; the escaped callback is safe but not plain. */
  lemma OtherValues()
    ensures PlainValue(AuthorizationCode) && PlainValue(TestCode)
    ensures PlainValue(Invalid) && PlainValue(Token)
    ensures SafeValue(EncodedCallback)
  {
  }

  /** A form of `name=value` pairs decodes to those pairs, each half decoded, in order. */
  lemma DecodePairs(pairs: Pairs, decode: Decoder)
    requires WellFormedPairs(pairs)
    ensures |DecodeFormSpec(Some(FormText(pairs)), decode)| == |pairs|
    ensures forall k :: 0 <= k < |pairs| ==>
      DecodeFormSpec(Some(FormText(pairs)), decode)[k] == Parameter(decode(pairs[k].0), Some(decode(pairs[k].1)))
  {
    var segs := Segments(pairs);
    forall k | 0 <= k < |segs|
      ensures Ampersand !in segs[k]
      ensures DecodeSegment(segs[k], decode) == Parameter(decode(pairs[k].0), Some(decode(pairs[k].1)))
    {
      assert PlainName(pairs[k].0) && SafeValue(pairs[k].1);
      SplitsAtFirstEquals(pairs[k].0, pairs[k].1, decode);
    }
    assert segs[|segs| - 1][|pairs[|segs| - 1].0|] == EqualsSign;
    OnePerSegment(segs, decode);
  }

  /** The message finds a pair by its name, with the value decoded, when no earlier pair
   *  has that name. */
  lemma LookupPair(pairs: Pairs, decode: Decoder, i: int)
    requires LeavesPlainTextAlone(decode)
    requires WellFormedPairs(pairs)
    requires 0 <= i < |pairs|
    requires forall j :: 0 <= j < i ==> pairs[j].0 != pairs[i].0
    ensures GetParameter(TestMessage(pairs, decode), pairs[i].0) == Some(decode(pairs[i].1))
  {
    DecodePairs(pairs, decode);
    var ps := TestMessage(pairs, decode).parameters;
    forall j | 0 <= j <= i
      ensures ps[j] == Parameter(pairs[j].0, Some(decode(pairs[j].1)))
    {
      assert PlainText(pairs[j].0);
    }
    FirstValueAt(ps, pairs[i].0, i);
  }

  /** A name no pair carries is absent from the message. */
  lemma MissingPair(pairs: Pairs, decode: Decoder, name: string)
    requires LeavesPlainTextAlone(decode)
    requires WellFormedPairs(pairs)
    requires forall j :: 0 <= j < |pairs| ==> pairs[j].0 != name
    ensures GetParameter(TestMessage(pairs, decode), name).None?
  {
    DecodePairs(pairs, decode);
    var ps := TestMessage(pairs, decode).parameters;
    forall j | 0 <= j < |pairs|
      ensures ps[j].name != name
    {
      assert PlainText(pairs[j].0);
    }
  }

  // ---------------------------------------------------------------------------
  // The forms of the test cases
  // ---------------------------------------------------------------------------

  /** The pairs the token-request forms are built from, with the client's own credentials. */
  const GrantTypePair: (string, string) := (GrantTypeName, AuthorizationCode)
  const ClientIdPair: (string, string) := (ClientIdName, TestClient.clientId)
  const ClientSecretPair: (string, string) := (ClientSecretName, TestClient.clientSecret)
  const CodePair: (string, string) := (CodeName, TestCode)
  const RedirectUriPair: (string, string) := (RedirectUriName, EncodedCallback)

  /** Line 48: the registered secret with a client_id that is not the client's. */
  const InvalidClientIdForm: Pairs :=
    [GrantTypePair, (ClientIdName, Invalid), ClientSecretPair, CodePair, RedirectUriPair]
  /** Line 61: the registered client_id with a wrong secret. */
  const InvalidSecretForm: Pairs :=
    [GrantTypePair, ClientIdPair, (ClientSecretName, Invalid), CodePair, RedirectUriPair]
  /** Line 74: no client_id. */
  const NoClientIdForm: Pairs := [GrantTypePair, ClientSecretPair, CodePair, RedirectUriPair]
  /** Line 89: no client_secret. */
  const NoSecretForm: Pairs := [GrantTypePair, ClientIdPair, CodePair, RedirectUriPair]
  /** Line 102: no redirect_uri. */
  const NoRedirectUriForm: Pairs := [GrantTypePair, ClientIdPair, ClientSecretPair, CodePair]
  /** Line 115: every parameter present and correct for `TestClient`. */
  const FullForm: Pairs := [GrantTypePair, ClientIdPair, ClientSecretPair, CodePair, RedirectUriPair]
  /** Line 128: scope=invalid in place of client_secret. */
  const ScopeForm: Pairs := [GrantTypePair, ClientIdPair, (ScopeName, Invalid), CodePair, RedirectUriPair]
  /** Line 139: an authorization request without response_type. */
  const NoResponseTypeForm: Pairs := [ClientIdPair, RedirectUriPair]
  /** Line 152: response_type=token. */
  const TokenForm: Pairs := [(ResponseTypeName, Token), ClientIdPair, RedirectUriPair]

  // Each test form is made of plain names and safe values.

  lemma InvalidClientIdFormWellFormed()
    ensures WellFormedPairs(InvalidClientIdForm)
  {
    TestNames();
    CredentialValues();
    OtherValues();
  }

  lemma InvalidSecretFormWellFormed()
    ensures WellFormedPairs(InvalidSecretForm)
  {
    TestNames();
    CredentialValues();
    OtherValues();
  }

  lemma NoClientIdFormWellFormed()
    ensures WellFormedPairs(NoClientIdForm)
  {
    TestNames();
    CredentialValues();
    OtherValues();
  }

  lemma NoSecretFormWellFormed()
    ensures WellFormedPairs(NoSecretForm)
  {
    TestNames();
    CredentialValues();
    OtherValues();
  }

  lemma NoRedirectUriFormWellFormed()
    ensures WellFormedPairs(NoRedirectUriForm)
  {
    TestNames();
    CredentialValues();
    OtherValues();
  }

  lemma FullFormWellFormed()
    ensures WellFormedPairs(FullForm)
  {
    TestNames();
    CredentialValues();
    OtherValues();
  }

  lemma ScopeFormWellFormed()
    ensures WellFormedPairs(ScopeForm)
  {
    TestNames();
    CredentialValues();
    OtherValues();
  }

  lemma NoResponseTypeFormWellFormed()
    ensures WellFormedPairs(NoResponseTypeForm)
  {
    TestNames();
    CredentialValues();
    OtherValues();
  }

  lemma TokenFormWellFormed()
    ensures WellFormedPairs(TokenForm)
  {
    TestNames();
    CredentialValues();
    OtherValues();
  }

  // ---------------------------------------------------------------------------
  // What the validator makes of them
  // ---------------------------------------------------------------------------

  /** The table entries for the problems that the remaining tests expect. */
  lemma ScenarioWireErrors()
    ensures WireError(RedirectUriMismatch) == "invalid_request"
    ensures WireError(InvalidScope) == "invalid_scope"
    ensures WireError(InvalidRequest) == "invalid_request"
  {
  }

  /** "invalid" is neither of the client's credentials. */
  lemma InvalidIsNoCredential()
    ensures Invalid != TestClient.clientId && Invalid != TestClient.clientSecret
  {
    assert |Invalid| == 7 && |TestClient.clientId| == 10 && |TestClient.clientSecret| == 10;
  }

  /** Both credentials present, the id not the client's: CLIENT_ID_MISMATCH. */
  lemma WrongClientId(msg: Message, accessor: Accessor, id: string, secret: string)
    requires GetParameter(msg, ClientIdName) == Some(id)
    requires GetParameter(msg, ClientSecretName) == Some(secret)
    requires id != accessor.client.clientId
    ensures ValidateClientIdWithPassword(msg, accessor) == Fail(Problem(ClientIdMismatch, map[]))
  {
  }

  /** The client's own id with a secret that is not its own: CLIENT_SECRET_MISMATCH. */
  lemma WrongClientSecret(msg: Message, accessor: Accessor, secret: string)
    requires GetParameter(msg, ClientIdName) == Some(accessor.client.clientId)
    requires GetParameter(msg, ClientSecretName) == Some(secret)
    requires secret != accessor.client.clientSecret
    ensures ValidateClientIdWithPassword(msg, accessor) == Fail(Problem(ClientSecretMismatch, map[]))
  {
  }

  lemma InvalidClientIdFormClientId(decode: Decoder)
    requires LeavesPlainTextAlone(decode)
    ensures GetParameter(TestMessage(InvalidClientIdForm, decode), ClientIdName) == Some(Invalid)
  {
    InvalidClientIdFormWellFormed();
    OtherValues();
    LookupPair(InvalidClientIdForm, decode, 1);
  }

  lemma InvalidClientIdFormSecret(decode: Decoder)
    requires LeavesPlainTextAlone(decode)
    ensures GetParameter(TestMessage(InvalidClientIdForm, decode), ClientSecretName) == Some(TestClient.clientSecret)
  {
    InvalidClientIdFormWellFormed();
    CredentialValues();
    LookupPair(InvalidClientIdForm, decode, 2);
  }

  /** testInvalidClientIdWithPassword: a wrong client_id with the right secret is
   *  CLIENT_ID_MISMATCH, sent as "invalid_client". */
  lemma InvalidClientIdWithPassword(decode: Decoder)
    requires LeavesPlainTextAlone(decode)
    ensures var r := ValidateClientIdWithPassword(TestMessage(InvalidClientIdForm, decode), Accessor(TestClient));
            r == Fail(Problem(ClientIdMismatch, map[])) && WireError(r.problem.kind) == "invalid_client"
  {
    InvalidClientIdFormClientId(decode);
    InvalidClientIdFormSecret(decode);
    InvalidIsNoCredential();
    WrongClientId(TestMessage(InvalidClientIdForm, decode), Accessor(TestClient), Invalid, TestClient.clientSecret);
    AssertedWireErrors();
  }

  lemma InvalidSecretFormClientId(decode: Decoder)
    requires LeavesPlainTextAlone(decode)
    ensures GetParameter(TestMessage(InvalidSecretForm, decode), ClientIdName) == Some(TestClient.clientId)
  {
    InvalidSecretFormWellFormed();
    CredentialValues();
    LookupPair(InvalidSecretForm, decode, 1);
  }

  lemma InvalidSecretFormSecret(decode: Decoder)
    requires LeavesPlainTextAlone(decode)
    ensures GetParameter(TestMessage(InvalidSecretForm, decode), ClientSecretName) == Some(Invalid)
  {
    InvalidSecretFormWellFormed();
    OtherValues();
    LookupPair(InvalidSecretForm, decode, 2);
  }

  /** testClientIdWithInvalidPassword: the right client_id with a wrong secret is
   *  CLIENT_SECRET_MISMATCH, sent as "unauthorized_client".
   *
   *  The two assertions of the test disagree. Line 66 expects the problem to be
   *  `ErrorCode.INVALID_CLIENT` (sent as "invalid_client"); line 67 looks up
   *  CLIENT_SECRET_MISMATCH. This lemma follows the second reading, with a secret
   *  check separate from the id check; the first reading stays open. */
  lemma ClientIdWithInvalidPassword(decode: Decoder)
    requires LeavesPlainTextAlone(decode)
    ensures var r := ValidateClientIdWithPassword(TestMessage(InvalidSecretForm, decode), Accessor(TestClient));
            r == Fail(Problem(ClientSecretMismatch, map[])) && WireError(r.problem.kind) == "unauthorized_client"
  {
    InvalidSecretFormClientId(decode);
    InvalidSecretFormSecret(decode);
    InvalidIsNoCredential();
    WrongClientSecret(TestMessage(InvalidSecretForm, decode), Accessor(TestClient), Invalid);
    AssertedWireErrors();
  }

  /** testNoClientId: without client_id the check stops at once with PARAMETER_ABSENT
   *  naming client_id, sent as "invalid_request". */
  lemma NoClientId(decode: Decoder)
    requires LeavesPlainTextAlone(decode)
    ensures var r := ValidateClientIdWithPassword(TestMessage(NoClientIdForm, decode), Accessor(TestClient));
            r.Fail? && r.problem.kind == ParameterAbsent && WireError(r.problem.kind) == "invalid_request" &&
            ParameterNameKey in r.problem.parameters && r.problem.parameters[ParameterNameKey] == "client_id"
  {
    NoClientIdFormWellFormed();
    MissingPair(NoClientIdForm, decode, ClientIdName);
    AssertedWireErrors();
  }

  lemma NoSecretFormClientId(decode: Decoder)
    requires LeavesPlainTextAlone(decode)
    ensures GetParameter(TestMessage(NoSecretForm, decode), ClientIdName) == Some(TestClient.clientId)
  {
    NoSecretFormWellFormed();
    CredentialValues();
    LookupPair(NoSecretForm, decode, 1);
  }

  lemma NoSecretFormSecret(decode: Decoder)
    requires LeavesPlainTextAlone(decode)
    ensures GetParameter(TestMessage(NoSecretForm, decode), ClientSecretName).None?
  {
    NoSecretFormWellFormed();
    MissingPair(NoSecretForm, decode, ClientSecretName);
  }

  /** testClientIdWithNoPassword: client_id without client_secret is PARAMETER_ABSENT
   *  naming client_secret, sent as "invalid_request". */
  lemma ClientIdWithNoPassword(decode: Decoder)
    requires LeavesPlainTextAlone(decode)
    ensures var r := ValidateClientIdWithPassword(TestMessage(NoSecretForm, decode), Accessor(TestClient));
            r.Fail? && r.problem.kind == ParameterAbsent && WireError(r.problem.kind) == "invalid_request" &&
            ParameterNameKey in r.problem.parameters && r.problem.parameters[ParameterNameKey] == "client_secret"
  {
    NoSecretFormClientId(decode);
    NoSecretFormSecret(decode);
    AssertedWireErrors();
  }

  /** testNoRedirectUri: without redirect_uri the check is PARAMETER_ABSENT naming
   *  redirect_uri, sent as "invalid_request". */
  lemma NoRedirectUri(decode: Decoder)
    requires LeavesPlainTextAlone(decode)
    ensures var r := ValidateRedirectUri(TestMessage(NoRedirectUriForm, decode), TestClient);
            r.Fail? && r.problem.kind == ParameterAbsent && WireError(r.problem.kind) == "invalid_request" &&
            ParameterNameKey in r.problem.parameters && r.problem.parameters[ParameterNameKey] == "redirect_uri"
  {
    NoRedirectUriFormWellFormed();
    MissingPair(NoRedirectUriForm, decode, RedirectUriName);
    AssertedWireErrors();
  }

  lemma FullFormRedirectUri(decode: Decoder)
    requires LeavesPlainTextAlone(decode)
    requires decode(EncodedCallback) == Callback
    ensures GetParameter(TestMessage(FullForm, decode), RedirectUriName) == Some(Callback)
  {
    FullFormWellFormed();
    LookupPair(FullForm, decode, 4);
  }

  /** testInvalidRedirectUri: the decoded callback differs from the URI the client
   *  registered, so the check fails, and the failure goes out as "invalid_request".
   *
   *  Line 120 expects the problem to be `ErrorCode.INVALID_REQUEST`; this lemma
   *  proves REDIRECT_URI_MISMATCH. The two agree only on the wire code
   *  (`Problems.InvalidRequestKinds`); the commented-out line 121 expected
   *  "redirect_uri_mismatch" instead. Which problem the validator raises stays open. */
  lemma InvalidRedirectUri(decode: Decoder)
    requires LeavesPlainTextAlone(decode)
    requires decode(EncodedCallback) == Callback
    ensures var r := ValidateRedirectUri(TestMessage(FullForm, decode), OtherRedirectClient);
            r == Fail(Problem(RedirectUriMismatch, map[])) && WireError(r.problem.kind) == "invalid_request"
  {
    FullFormRedirectUri(decode);
    ScenarioWireErrors();
  }

  /** The same form passes the check for the client that registered the callback. */
  lemma MatchingRedirectUri(decode: Decoder)
    requires LeavesPlainTextAlone(decode)
    requires decode(EncodedCallback) == Callback
    ensures ValidateRedirectUri(TestMessage(FullForm, decode), TestClient) == Pass
  {
    FullFormRedirectUri(decode);
  }

  lemma ScopeFormScope(decode: Decoder)
    requires LeavesPlainTextAlone(decode)
    ensures GetParameter(TestMessage(ScopeForm, decode), ScopeName) == Some(Invalid)
  {
    ScopeFormWellFormed();
    OtherValues();
    LookupPair(ScopeForm, decode, 2);
  }

  /** "invalid" has no space, so as a scope value it is a single token. */
  lemma InvalidIsOneToken()
    ensures ScopeSeparator !in Invalid
  {
    assert forall i :: 0 <= i < |Invalid| ==> Invalid[i] != ScopeSeparator;
  }

  /** The client of testInvalidScope registers no scopes, so the global policy applies. */
  lemma NoOwnScopes(globalScopes: set<string>)
    ensures AllowedScopes(OtherRedirectClient, globalScopes) == globalScopes
  {
  }

  /** A scope value of one token that the policy does not allow is INVALID_SCOPE. */
  lemma SingleScopeOutsidePolicy(msg: Message, client: Client, globalScopes: set<string>, token: string)
    requires ScopeSeparator !in token
    requires GetParameter(msg, ScopeName) == Some(token)
    requires token !in AllowedScopes(client, globalScopes)
    ensures ValidateScope(msg, client, globalScopes) == Fail(Problem(InvalidScope, map[]))
  {
    SingleTokenScope(token, AllowedScopes(client, globalScopes));
    ScopeValueOutcome(msg, client, globalScopes, token);
  }

  /** testInvalidScope: a scope the policy does not allow is INVALID_SCOPE, sent as
   *  "invalid_scope". The client registers no scopes of its own, so the global policy
   *  decides; any policy without "invalid" rejects it. */
  lemma InvalidScopeRejected(decode: Decoder, globalScopes: set<string>)
    requires LeavesPlainTextAlone(decode)
    requires Invalid !in globalScopes
    ensures var r := ValidateScope(TestMessage(ScopeForm, decode), OtherRedirectClient, globalScopes);
            r == Fail(Problem(InvalidScope, map[])) && WireError(r.problem.kind) == "invalid_scope"
  {
    ScopeFormScope(decode);
    InvalidIsOneToken();
    NoOwnScopes(globalScopes);
    SingleScopeOutsidePolicy(TestMessage(ScopeForm, decode), OtherRedirectClient, globalScopes, Invalid);
    ScenarioWireErrors();
  }

  lemma NoResponseTypeFormResponseType(decode: Decoder)
    requires LeavesPlainTextAlone(decode)
    ensures GetParameter(TestMessage(NoResponseTypeForm, decode), ResponseTypeName).None?
  {
    NoResponseTypeFormWellFormed();
    MissingPair(NoResponseTypeForm, decode, ResponseTypeName);
  }

  lemma TokenFormResponseType(decode: Decoder)
    requires LeavesPlainTextAlone(decode)
    ensures GetParameter(TestMessage(TokenForm, decode), ResponseTypeName) == Some(Token)
  {
    TokenFormWellFormed();
    OtherValues();
    LookupPair(TokenForm, decode, 0);
  }

  /** "token" is not the supported response type. */
  lemma TokenIsNotCode()
    ensures Token != CodeResponseType
  {
    assert |Token| == 5 && |CodeResponseType| == 4;
  }

  /** A response type other than "code": UNSUPPORTED_RESPONSE_TYPE. */
  lemma UnsupportedResponseTypeFor(msg: Message, responseType: string)
    requires GetParameter(msg, ResponseTypeName) == Some(responseType)
    requires responseType != CodeResponseType
    ensures ValidateResponseType(msg) == Fail(Problem(UnsupportedResponseType, map[]))
  {
  }

  /** testNoResponseType: an authorization request without response_type is the plain
   *  problem "invalid_request", with no parameter name. */
  lemma NoResponseType(decode: Decoder)
    requires LeavesPlainTextAlone(decode)
    ensures var r := ValidateResponseType(TestMessage(NoResponseTypeForm, decode));
            r == Fail(Problem(InvalidRequest, map[])) && WireError(r.problem.kind) == "invalid_request"
  {
    NoResponseTypeFormResponseType(decode);
    ScenarioWireErrors();
  }

  /** testInvalidResponseType: response_type=token is UNSUPPORTED_RESPONSE_TYPE, sent as
   *  "unsupported_response_type". */
  lemma InvalidResponseType(decode: Decoder)
    requires LeavesPlainTextAlone(decode)
    ensures var r := ValidateResponseType(TestMessage(TokenForm, decode));
            r == Fail(Problem(UnsupportedResponseType, map[])) && WireError(r.problem.kind) == "unsupported_response_type"
  {
    TokenFormResponseType(decode);
    TokenIsNotCode();
    UnsupportedResponseTypeFor(TestMessage(TokenForm, decode), Token);
    AssertedWireErrors();
  }
}
