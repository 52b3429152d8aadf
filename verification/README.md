# OAuth2ValidatorTest form parser and validator outcomes, in Dafny

This project models the test class `OAuth2ValidatorTest` of the OAuth 2.0 validator.
The class has two parts.

**The form parser.** `decodeForm` turns an `application/x-www-form-urlencoded`
string into a list of `OAuth2.Parameter`s. It takes three steps:

1. A null or empty form gives the empty list (`isEmpty`).
2. Otherwise the form is split on `&` the way Java's `String.split("\\&")` does it.
   Trailing empty pieces are dropped, so `"a&"` and `"a"` give the same list and
   `"&&"` gives none.
3. Each piece is cut at its first `=`, and both halves are percent-decoded
   (`decodePercent`). A piece without `=` becomes a parameter with a null value.

**The validator outcomes.** Nine tests feed such forms to `SimpleOAuth2Validator`
and check which problem it raises. Six of them also look up an entry of
`OAuth2.Problems.TO_ERROR_CODE`, the table from problems to RFC 6749 error codes
(lines 54, 67, 80, 95, 108 and 158). The lookups of testInvalidRedirectUri,
testInvalidScope and testNoResponseType are commented out (lines 121, 134 and 145).
testClientIdWithInvalidPassword looks up CLIENT_SECRET_MISMATCH (line 67), not the
INVALID_CLIENT it asserts as the problem (line 66).

How the model is laid out:

- `wrappers.dfy` (`Wrappers`): `Option`, standing for a Java null, and `Result`.
- `form_decoding.dfy` (`FormDecoding`):
  - the parser, as the method `DecodeForm`, which builds the list in a loop the way
    the source does;
  - the function `DecodeFormSpec`, which `DecodeForm` is proved against;
  - the splitting and first-`=` rules, and an encoder paired with the parser.
- `problems.dfy` (`Problems`): the closed set of problem kinds and the wire-code
  table. The table's codes are checked against sections 4.1.2.1 and 5.2 of RFC 6749.
- `validator.dfy` (`Validator`): messages, registered clients, parameter lookup, and
  the four validator operations the tests call:
  - `validateClientIdWithPassword`
  - `validateRedirectUri`
  - `validateScope`
  - `validateResponseType`
- `validator_scenarios.dfy` (`ValidatorScenarios`): each test case as a lemma about
  the message that `decodeForm` builds from that test's literal form.

The percent-decoder is a library call (`URLDecoder.decode(s, "UTF-8")`). It stays
abstract: a `Decoder` function passed to every operation.

The scenario lemmas assume two things about it:

- text with no `%` and no `+` comes back unchanged;
- where a lemma needs it, the escaped callback URI decodes to
  `https://client.example.com/cb`.

The tests catch the exception and assert on it, but none of them fails when
nothing is thrown. The scenario lemmas therefore state the stronger, intended
reading: the operation fails, and with that problem.

The validator's own source is not part of this model. The model gives it these
rules, for the parts the tests exercise:

- A parameter is looked up by name. The first parameter of that name that has a
  value is the one found.
- `validateClientIdWithPassword` requires client_id, then client_secret. Either one
  missing is PARAMETER_ABSENT, naming it under "parameter_name". A client_id other
  than the client's is CLIENT_ID_MISMATCH. After that, a secret other than the
  client's is CLIENT_SECRET_MISMATCH.
- `validateRedirectUri` requires redirect_uri; a missing one is PARAMETER_ABSENT.
  The decoded value must equal the registered URI exactly, or the check fails
  with REDIRECT_URI_MISMATCH.
- `validateScope` passes when there is no scope. Otherwise the value is split on
  single spaces. Every token must be one or more printable ASCII characters other
  than space, `\` and `"`, and must be in the client's scope set, or in the global
  set when the client has none. Anything else is INVALID_SCOPE. No test line
  backs the token-syntax part; testInvalidScope only needs "invalid" to be outside
  the policy.
- `validateResponseType` requires response_type to be exactly "code". A missing one
  is INVALID_REQUEST with no parameter name. Any other value is
  UNSUPPORTED_RESPONSE_TYPE.

Three test assertions disagree with these rules, and the model does not settle
them. Each scenario lemma proves the rules' outcome and says so in its doc comment.
"## Left out" names each one.

- Line 66 expects `ErrorCode.INVALID_CLIENT` when the secret is wrong, which goes
  out as "invalid_client". Line 67 then looks up `CLIENT_SECRET_MISMATCH`, which
  goes out as "unauthorized_client". The model raises `ClientSecretMismatch`.
- Line 120 expects `ErrorCode.INVALID_REQUEST` for a mismatched redirect URI. The
  model raises `RedirectUriMismatch`. `Problems.InvalidRequestKinds` shows that
  both go out as `"invalid_request"`. The commented-out line 121 expected
  "redirect_uri_mismatch" for REDIRECT_URI_MISMATCH, but the model's table sends
  it to "invalid_request".
- Line 133 expects `ErrorCode.INVALID_SCOPE`. The model's `InvalidScope` kind stands
  for that constant.

## Model

| member | source | states |
|---|---|---|
| FormDecoding.IsEmpty | test/src/test/java/net/oauth/v2/OAuth2ValidatorTest.java:192-194 | true for null and for the string of length zero; no contract of its own, and `DecodeFormEmptyIff` states what it means for the parser |
| FormDecoding.Split | test/src/test/java/net/oauth/v2/OAuth2ValidatorTest.java:166 | `split("\\&")` with limit 0: no '&' gives the whole string; otherwise the full list of pieces with only trailing empty pieces removed, none containing '&'; `DecodeFormEmptyIff`, `OnePerSegment` and `TrailingAmpersandIgnored` state the consequences |
| FormDecoding.DecodeFormSpec | test/src/test/java/net/oauth/v2/OAuth2ValidatorTest.java:163-181 | the list `decodeForm` returns; no contract of its own: `DecodeForm` is proved equal to it, and `DecodeFormEmptyIff`, `OnePerSegment` and `RoundTrip` state its properties |
| FormDecoding.IndexOf | test/src/test/java/net/oauth/v2/OAuth2ValidatorTest.java:167 | `indexOf('=')`: -1 exactly when the character is absent; otherwise a position holding it with no earlier occurrence |
| FormDecoding.SplitAll | test/src/test/java/net/oauth/v2/OAuth2ValidatorTest.java:166 | the pieces between separators: at least one, and none contains the separator |
| FormDecoding.DropTrailingEmpty | test/src/test/java/net/oauth/v2/OAuth2ValidatorTest.java:166 | the result is a prefix of the pieces; it does not end in an empty piece; everything cut off is empty |
| FormDecoding.JoinSplit | test/src/test/java/net/oauth/v2/OAuth2ValidatorTest.java:166 | splitting loses nothing: joining the pieces with the separator gives the string back |
| FormDecoding.SplitJoin | test/src/test/java/net/oauth/v2/OAuth2ValidatorTest.java:166 | splitting undoes joining, for pieces without the separator |
| FormDecoding.SplitAllAppendSeparator | test/src/test/java/net/oauth/v2/OAuth2ValidatorTest.java:166 | a separator appended to a string adds exactly one empty piece at the end |
| FormDecoding.DecodeSegment | test/src/test/java/net/oauth/v2/OAuth2ValidatorTest.java:167-176 | the value is null exactly when the segment has no '='; then the name is the whole segment, decoded |
| FormDecoding.SplitsAtFirstEquals | test/src/test/java/net/oauth/v2/OAuth2ValidatorTest.java:167-176 | a segment is cut at its first '=': name before it, value after it (later '=' kept in the value), both decoded |
| FormDecoding.DecodeForm | test/src/test/java/net/oauth/v2/OAuth2ValidatorTest.java:163-181 | the loop adds one decoded parameter per split segment, in order; the list equals `DecodeFormSpec` |
| FormDecoding.DecodeFormEmptyIff | test/src/test/java/net/oauth/v2/OAuth2ValidatorTest.java:163-166 | the list is empty exactly when the form is null, empty, or made only of '&' |
| FormDecoding.OnePerSegment | test/src/test/java/net/oauth/v2/OAuth2ValidatorTest.java:163-181 | a form joined from '&'-free segments, the last non-empty, yields one parameter per segment, in order, empty segments included |
| FormDecoding.TrailingAmpersandIgnored | test/src/test/java/net/oauth/v2/OAuth2ValidatorTest.java:166 | a trailing '&' adds no parameter |
| FormDecoding.SegmentRoundTrip | test/src/test/java/net/oauth/v2/OAuth2ValidatorTest.java:167-177 | an encodable parameter, encoded as one segment, decodes back to itself |
| FormDecoding.RoundTrip | test/src/test/java/net/oauth/v2/OAuth2ValidatorTest.java:163-181 | decoding an encoded parameter list gives the list back, when its last parameter does not encode to the empty segment |
| FormDecoding.TrailingValuelessParameterLost | test/src/test/java/net/oauth/v2/OAuth2ValidatorTest.java:166 | where the round trip ends: a final parameter with an empty name and no value is lost |
| Problems.WireError | test/src/test/java/net/oauth/v2/OAuth2ValidatorTest.java:32 | `TO_ERROR_CODE` is total, and each code it gives is one RFC 6749 defines for the authorization or the token endpoint |
| Problems.AssertedWireErrors | test/src/test/java/net/oauth/v2/OAuth2ValidatorTest.java:54-158 | the four looked-up entries: invalid_client, unauthorized_client, invalid_request, unsupported_response_type |
| Problems.InvalidRequestKinds | test/src/test/java/net/oauth/v2/OAuth2ValidatorTest.java:113-123 | exactly PARAMETER_ABSENT, PARAMETER_REJECTED, INVALID_REQUEST and REDIRECT_URI_MISMATCH go out as "invalid_request" |
| Validator.FirstValue | test/src/test/java/net/oauth/v2/OAuth2ValidatorTest.java:50 | the message's value for a name: none exactly when no parameter of that name has a value; otherwise the first such value |
| Validator.GetParameter | test/src/test/java/net/oauth/v2/OAuth2ValidatorTest.java:50 | `OAuth2Message.getParameter`: none exactly when no parameter of that name has a value; otherwise the value of the first one that has one |
| Validator.FirstValueAt | test/src/test/java/net/oauth/v2/OAuth2ValidatorTest.java:50 | the first valued parameter of a name is the one found, whatever follows it |
| Validator.RequireParameter | test/src/test/java/net/oauth/v2/OAuth2ValidatorTest.java:70-83 | a missing parameter is PARAMETER_ABSENT naming it under "parameter_name"; a present one gives Success with its first value, and a Success holds nothing else |
| Validator.ValidateClientIdWithPassword | test/src/test/java/net/oauth/v2/OAuth2ValidatorTest.java:44-98 | passes exactly when both credentials match; otherwise the first failing check, in order: missing id, missing secret, id mismatch, secret mismatch |
| Validator.ValidateRedirectUri | test/src/test/java/net/oauth/v2/OAuth2ValidatorTest.java:100-123 | passes exactly when redirect_uri equals the registered URI; a missing one is PARAMETER_ABSENT naming it; every failure is "invalid_request" |
| Validator.ValidateScope | test/src/test/java/net/oauth/v2/OAuth2ValidatorTest.java:126-136 | no scope passes; the only failure is INVALID_SCOPE with no parameters |
| Validator.SingleTokenScope | test/src/test/java/net/oauth/v2/OAuth2ValidatorTest.java:126-136 | a scope value without a space is one token: accepted exactly when that token is well formed and allowed |
| Validator.JoinedScopeTokens | test/src/test/java/net/oauth/v2/OAuth2ValidatorTest.java:126-136 | space-free tokens joined with single spaces are split back into those tokens, so the value is accepted exactly when each token is |
| Validator.ScopeListOutcome | test/src/test/java/net/oauth/v2/OAuth2ValidatorTest.java:126-136 | a space-separated scope list passes exactly when every token is well formed and allowed by the client's, or else the global, policy |
| Validator.ValidateResponseType | test/src/test/java/net/oauth/v2/OAuth2ValidatorTest.java:138-160 | passes exactly for "code"; a missing one is INVALID_REQUEST with no parameter name; any other value is UNSUPPORTED_RESPONSE_TYPE |
| ValidatorScenarios.DecodePairs | test/src/test/java/net/oauth/v2/OAuth2ValidatorTest.java:163-181 | a form of `name=value` pairs with plain names and '&'-free values decodes to those pairs, each half decoded, in order |
| ValidatorScenarios.LookupPair | test/src/test/java/net/oauth/v2/OAuth2ValidatorTest.java:49-50 | a message built by `decodeForm` finds a pair by its name, with the decoded value, when no earlier pair has that name |
| ValidatorScenarios.MissingPair | test/src/test/java/net/oauth/v2/OAuth2ValidatorTest.java:74-75 | a name that no pair of the form carries is absent from the message |
| ValidatorScenarios.InvalidClientIdWithPassword | test/src/test/java/net/oauth/v2/OAuth2ValidatorTest.java:44-56 | a wrong client_id with the right secret fails with CLIENT_ID_MISMATCH, wire "invalid_client" |
| ValidatorScenarios.ClientIdWithInvalidPassword | test/src/test/java/net/oauth/v2/OAuth2ValidatorTest.java:57-69 | the right client_id with a wrong secret fails with CLIENT_SECRET_MISMATCH, wire "unauthorized_client" |
| ValidatorScenarios.NoClientId | test/src/test/java/net/oauth/v2/OAuth2ValidatorTest.java:70-83 | no client_id: PARAMETER_ABSENT with parameter_name "client_id", wire "invalid_request" |
| ValidatorScenarios.ClientIdWithNoPassword | test/src/test/java/net/oauth/v2/OAuth2ValidatorTest.java:85-98 | no client_secret: PARAMETER_ABSENT with parameter_name "client_secret", wire "invalid_request" |
| ValidatorScenarios.NoRedirectUri | test/src/test/java/net/oauth/v2/OAuth2ValidatorTest.java:100-111 | no redirect_uri: PARAMETER_ABSENT with parameter_name "redirect_uri", wire "invalid_request" |
| ValidatorScenarios.InvalidRedirectUri | test/src/test/java/net/oauth/v2/OAuth2ValidatorTest.java:113-123 | the decoded callback differs from the registered "…/case/invalid": REDIRECT_URI_MISMATCH, wire "invalid_request" |
| ValidatorScenarios.MatchingRedirectUri | test/src/test/java/net/oauth/v2/OAuth2ValidatorTest.java:113-123 | the same form passes for the client registered with the callback, so the mismatch is the only cause of the failure above |
| ValidatorScenarios.InvalidScopeRejected | test/src/test/java/net/oauth/v2/OAuth2ValidatorTest.java:126-136 | scope=invalid under any policy that does not allow "invalid": INVALID_SCOPE, wire "invalid_scope" |
| ValidatorScenarios.NoResponseType | test/src/test/java/net/oauth/v2/OAuth2ValidatorTest.java:138-149 | no response_type: the plain problem INVALID_REQUEST, with no parameter name |
| ValidatorScenarios.InvalidResponseType | test/src/test/java/net/oauth/v2/OAuth2ValidatorTest.java:151-160 | response_type=token: UNSUPPORTED_RESPONSE_TYPE, wire "unsupported_response_type" |

## Left out

- `URLDecoder.decode` is a library routine and stays an abstract `Decoder` parameter. Its `%XX` and `+` handling, and its rejection of malformed escapes, are not modelled.
- The `UnsupportedEncodingException` path of `decodePercent` is left out. It cannot happen for "UTF-8".
- `String.split` takes a regular expression. Only the one-character separator `&` that the source passes is modelled.
- Java's `List` is modelled as a `seq`. The list is local to `decodeForm`, so no aliasing is lost.
- The validator's source (`SimpleOAuth2Validator`, `OAuth2Message`, `OAuth2.Problems`) is not part of this model. Its operations follow the rules listed above, for the cases the tests check.
- Validator.FirstValue: lookup returns the first parameter of that name that has a value. `OAuth2Message.getParameter` itself is not part of this model, so this rule is not checked against its code.
- Validator.ScopeTokensAllowed: the token syntax (printable ASCII without space, `\` or `"`) is not backed by any test line. Only the set-membership part is exercised, by line 128.
- ValidatorScenarios.ClientIdWithInvalidPassword: line 66 asserts the problem is `ErrorCode.INVALID_CLIENT` ("invalid_client" on the wire). The lemma proves CLIENT_SECRET_MISMATCH ("unauthorized_client"), following the table lookup on line 67. No modelled operation raises `InvalidClient`, so the first reading is not modelled.
- ValidatorScenarios.InvalidRedirectUri: line 120 asserts the problem is `ErrorCode.INVALID_REQUEST`. The lemma proves REDIRECT_URI_MISMATCH. The two agree only on the wire code "invalid_request". The commented-out line 121 would have sent it as "redirect_uri_mismatch".
- Validator.ValidateClientIdWithPassword: the constant-time secret comparison is not modelled. Plain string equality stands in for it.
- The grant-type, authorization-code and code-expiry checks are left out. So are the clock that `setUp` overrides (`currentTimeMsec`) and the JUnit fixture. No test here exercises them.
- The tests pass even when no exception is thrown. The scenario lemmas state the intended, stronger outcome instead.
- FormDecoding.RoundTrip: one might expect decoding an encoded list always to give the list back. The code breaks that for a list whose last parameter has an empty name and no value, because `split` drops the empty trailing segment. The model follows the code: the lemma requires a non-empty last segment, and `TrailingValuelessParameterLost` shows the lost case.
