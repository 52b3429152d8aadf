/** The observable contract of `SimpleOAuth2Validator` that the validator tests pin down.
 *
 *  Each operation reads a message's decoded parameters (and a registered client) and
 *  either passes or fails with one problem; the first failed precondition is the one
 *  reported. Operations the tests do not exercise (grant type, authorization code and
 *  its expiry) are not part of this model.
 */
module Validator {
  import opened Wrappers
  import opened FormDecoding
  import opened Problems

  /** `OAuth2Client(redirectUri, clientId, clientSecret)`, with the client's own scope
   *  policy when it has one. */
  datatype Client = Client(
    redirectUri: string,
    clientId: string,
    clientSecret: string,
    allowedScopes: Option<set<string>>)

  /** `OAuth2Accessor`, reduced to the client it was issued to. */
  datatype Accessor = Accessor(client: Client)

  /** `OAuth2Message(method, url, parameters)`. */
  datatype Message = Message(httpMethod: string, url: string, parameters: seq<Parameter>)

  const ClientIdName: string := "client_id"
  const ClientSecretName: string := "client_secret"
  const RedirectUriName: string := "redirect_uri"
  const ScopeName: string := "scope"
  const ResponseTypeName: string := "response_type"
  /** The one response type the validator supports. */
  const CodeResponseType: string := "code"
  const ScopeSeparator: char := ' '

  /** `p` is a parameter called `name` that carries a value. */
  predicate HasValue(p: Parameter, name: string)
  {
    p.name == name && p.value.Some?
  }

  /** Position `i` holds the first valued parameter called `name`. */
  predicate FirstWithValue(ps: seq<Parameter>, name: string, i: int)
  {
    0 <= i < |ps| && HasValue(ps[i], name) && forall j :: 0 <= j < i ==> !HasValue(ps[j], name)
  }

  /** The value of the first parameter called `name` that has one; duplicates after it are ignored. */
  function FirstValue(ps: seq<Parameter>, name: string): (r: Option<string>)
    ensures r.None? <==> forall i :: 0 <= i < |ps| ==> !HasValue(ps[i], name)
    ensures r.Some? ==> exists i :: FirstWithValue(ps, name, i) && ps[i].value == r
  {
    if |ps| == 0 then None
    else if HasValue(ps[0], name) then
      assert FirstWithValue(ps, name, 0);
      ps[0].value
    else
      var r := FirstValue(ps[1..], name);
      if r.Some? then
        var i :| FirstWithValue(ps[1..], name, i) && ps[1..][i].value == r;
        assert FirstWithValue(ps, name, i + 1);
        r
      else
        r
  }

  /** The first valued parameter with that name is the one found. */
  lemma {:induction false} FirstValueAt(ps: seq<Parameter>, name: string, i: int)
    requires FirstWithValue(ps, name, i)
    ensures FirstValue(ps, name) == ps[i].value
    decreases i
  {
    if i > 0 {
      assert !HasValue(ps[0], name);
      var tail := ps[1..];
      assert tail[i - 1] == ps[i];
      assert forall j :: 0 <= j < i - 1 ==> tail[j] == ps[j + 1];
      FirstValueAt(tail, name, i - 1);
      assert FirstValue(ps, name) == FirstValue(tail, name);
    }
  }

  /** `OAuth2Message.getParameter`: the value of the first parameter called `name` that has one. */
  function GetParameter(msg: Message, name: string): (r: Option<string>)
    ensures r.None? <==> forall i :: 0 <= i < |msg.parameters| ==> !HasValue(msg.parameters[i], name)
    ensures r.Some? ==> exists i :: FirstWithValue(msg.parameters, name, i) && msg.parameters[i].value == r
  {
    FirstValue(msg.parameters, name)
  }

  /** `requireParameters`: the value, or PARAMETER_ABSENT naming the missing parameter. */
  function RequireParameter(msg: Message, name: string): (r: Result<string, Problem>)
    ensures (forall i :: 0 <= i < |msg.parameters| ==> !HasValue(msg.parameters[i], name)) ==>
      r.Failure? && r.error.kind == ParameterAbsent && r.error.parameters == map[ParameterNameKey := name]
    ensures r.Success? ==>
      exists i :: FirstWithValue(msg.parameters, name, i) && msg.parameters[i].value == Some(r.value)
    ensures GetParameter(msg, name).Some? ==> r == Success(GetParameter(msg, name).value)
    ensures r.Failure? ==> WellFormed(r.error)
  {
    match GetParameter(msg, name)
    case None => Failure(Absent(name))
    case Some(v) => Success(v)
  }

  /** `validateClientIdWithPassword`: client_id is required first, then client_secret; then
   *  the id is compared with the accessor's client, then the secret. */
  function ValidateClientIdWithPassword(msg: Message, accessor: Accessor): (r: Outcome)
    ensures r.Pass? <==>
      GetParameter(msg, ClientIdName) == Some(accessor.client.clientId) &&
      GetParameter(msg, ClientSecretName) == Some(accessor.client.clientSecret)
    ensures r.Fail? ==> WellFormed(r.problem)
    ensures GetParameter(msg, ClientIdName).None? ==>
      r == Fail(Problem(ParameterAbsent, map[ParameterNameKey := ClientIdName]))
    ensures GetParameter(msg, ClientIdName).Some? && GetParameter(msg, ClientSecretName).None? ==>
      r == Fail(Problem(ParameterAbsent, map[ParameterNameKey := ClientSecretName]))
    ensures (GetParameter(msg, ClientIdName).Some? && GetParameter(msg, ClientSecretName).Some? &&
             GetParameter(msg, ClientIdName) != Some(accessor.client.clientId)) ==>
      r == Fail(Problem(ClientIdMismatch, map[]))
    ensures (GetParameter(msg, ClientIdName) == Some(accessor.client.clientId) &&
             GetParameter(msg, ClientSecretName).Some? &&
             GetParameter(msg, ClientSecretName) != Some(accessor.client.clientSecret)) ==>
      r == Fail(Problem(ClientSecretMismatch, map[]))
  {
    match RequireParameter(msg, ClientIdName)
    case Failure(p) => Fail(p)
    case Success(clientId) =>
      match RequireParameter(msg, ClientSecretName)
      case Failure(p) => Fail(p)
      case Success(clientSecret) =>
        if clientId != accessor.client.clientId then Fail(Plain(ClientIdMismatch))
        else if clientSecret != accessor.client.clientSecret then Fail(Plain(ClientSecretMismatch))
        else Pass
  }

  /** `validateRedirectUri`: redirect_uri is required and must equal the registered URI
   *  exactly. Every failure goes out as "invalid_request". */
  function ValidateRedirectUri(msg: Message, client: Client): (r: Outcome)
    ensures r.Pass? <==> GetParameter(msg, RedirectUriName) == Some(client.redirectUri)
    ensures r.Fail? ==> WellFormed(r.problem) && WireError(r.problem.kind) == "invalid_request"
    ensures GetParameter(msg, RedirectUriName).None? ==>
      r == Fail(Problem(ParameterAbsent, map[ParameterNameKey := RedirectUriName]))
  {
    match RequireParameter(msg, RedirectUriName)
    case Failure(p) => Fail(p)
    case Success(uri) =>
      if uri != client.redirectUri then Fail(Plain(RedirectUriMismatch)) else Pass
  }

  /** The scopes a client may ask for: its own policy, or the global one when it has none. */
  function AllowedScopes(client: Client, globalScopes: set<string>): set<string>
  {
    if client.allowedScopes.Some? then client.allowedScopes.value else globalScopes
  }

  /** A scope token: one or more printable ASCII characters other than space, '\\' and '"'. */
  predicate ScopeToken(t: string)
  {
    |t| > 0 && forall i :: 0 <= i < |t| ==> '!' <= t[i] <= '~' && t[i] != '\\' && t[i] != '"'
  }

  /** Every token in `tokens` is well formed and allowed. */
  predicate TokensAllowed(tokens: seq<string>, allowed: set<string>)
  {
    forall k :: 0 <= k < |tokens| ==> ScopeToken(tokens[k]) && tokens[k] in allowed
  }

  /** Every space-separated token of `scope` is well formed and allowed. */
  predicate ScopeTokensAllowed(scope: string, allowed: set<string>)
  {
    TokensAllowed(SplitAll(scope, ScopeSeparator), allowed)
  }

  /** `validateScope`: no scope passes; otherwise any empty, malformed or disallowed token
   *  is INVALID_SCOPE. */
  function ValidateScope(msg: Message, client: Client, globalScopes: set<string>): (r: Outcome)
    ensures GetParameter(msg, ScopeName).None? ==> r.Pass?
    ensures r.Fail? ==> r.problem == Problem(InvalidScope, map[]) && WellFormed(r.problem)
  {
    match GetParameter(msg, ScopeName)
    case None => Pass
    case Some(scope) =>
      if ScopeTokensAllowed(scope, AllowedScopes(client, globalScopes)) then Pass
      else Fail(Plain(InvalidScope))
  }

  /** A scope value without a space is one token, judged on its own. */
  lemma SingleTokenScope(token: string, allowed: set<string>)
    requires ScopeSeparator !in token
    ensures ScopeTokensAllowed(token, allowed) <==> ScopeToken(token) && token in allowed
  {
    var tokens := SplitAll(token, ScopeSeparator);
    assert tokens == [token];
    assert tokens[0] == token;
  }

  /** With a scope present, the outcome is decided by its tokens alone. */
  lemma ScopeValueOutcome(msg: Message, client: Client, globalScopes: set<string>, scope: string)
    requires GetParameter(msg, ScopeName) == Some(scope)
    ensures ValidateScope(msg, client, globalScopes) ==
      if ScopeTokensAllowed(scope, AllowedScopes(client, globalScopes)) then Pass else Fail(Plain(InvalidScope))
  {
  }

  /** Tokens joined with single spaces are judged token by token. */
  lemma JoinedScopeTokens(tokens: seq<string>, allowed: set<string>)
    requires |tokens| >= 1
    requires forall k :: 0 <= k < |tokens| ==> ScopeSeparator !in tokens[k]
    ensures ScopeTokensAllowed(Join(tokens, ScopeSeparator), allowed) <==> TokensAllowed(tokens, allowed)
  {
    SplitJoin(tokens, ScopeSeparator);
  }

  /** A scope list is accepted exactly when each of its tokens is allowed, and rejected
   *  as soon as one is not. */
  lemma ScopeListOutcome(msg: Message, client: Client, globalScopes: set<string>, tokens: seq<string>)
    requires |tokens| >= 1
    requires forall k :: 0 <= k < |tokens| ==> ScopeSeparator !in tokens[k]
    requires GetParameter(msg, ScopeName) == Some(Join(tokens, ScopeSeparator))
    ensures ValidateScope(msg, client, globalScopes).Pass? <==> TokensAllowed(tokens, AllowedScopes(client, globalScopes))
  {
    JoinedScopeTokens(tokens, AllowedScopes(client, globalScopes));
    ScopeValueOutcome(msg, client, globalScopes, Join(tokens, ScopeSeparator));
  }

  /** `validateResponseType`: response_type must be "code". A missing one is reported as
   *  INVALID_REQUEST with no parameter name, unlike the PARAMETER_ABSENT of the other checks. */
  function ValidateResponseType(msg: Message): (r: Outcome)
    ensures r.Pass? <==> GetParameter(msg, ResponseTypeName) == Some(CodeResponseType)
    ensures r.Fail? ==> WellFormed(r.problem)
    ensures GetParameter(msg, ResponseTypeName).None? ==> r == Fail(Problem(InvalidRequest, map[]))
    ensures GetParameter(msg, ResponseTypeName).Some? && GetParameter(msg, ResponseTypeName) != Some(CodeResponseType) ==>
      r == Fail(Problem(UnsupportedResponseType, map[]))
  {
    match GetParameter(msg, ResponseTypeName)
    case None => Fail(Plain(InvalidRequest))
    case Some(responseType) =>
      if responseType != CodeResponseType then Fail(Plain(UnsupportedResponseType)) else Pass
  }
}
