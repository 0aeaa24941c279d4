# Wallet backend: issuance handshake, presentation submission and stores

A model, in Dafny, of the protocol bookkeeping of the wallet backend
`wallet-creation-application`. It covers four services:

- **`SiopServiceImpl`** is the presentation side of SIOP / OpenID for
  Verifiable Presentations. It reads the scopes out of an authentication
  request (`scope=[a,b,...]`). It builds the presentation submission of
  section 6 of DIF Presentation Exchange 2.0.0 from a verifiable
  presentation. It posts the authentication response.
- **`VerifiableCredentialServiceImpl`** runs the pre-authorised-code flow of
  OpenID for Verifiable Credential Issuance (draft 13). It extracts and
  URL-decodes the credential-offer URI, fetches the offer and the issuer
  metadata from the well-known URI (section 11.2.2), and exchanges the
  pre-authorised code at the token endpoint (section 6.1). It then keeps the
  access token and `c_nonce`. Later it builds the proof JWT (section 7.2.1.1)
  and requests the credential, rotates the nonce, and forwards the
  credential to the wallet-data service.
- **`CredentialRequestDataServiceImpl`** keeps one record per (issuer, user)
  pair, holding the issuer's nonce and access token.
- **`AppUserServiceImpl`** is the user registry. Usernames and emails are
  unique.

## Structure

- `common.dfy` (`Common`) holds `Option`, `Result`, the errors the services
  raise, and the constants of `WalletUtils.kt`.
- `text.dfy` (`Text`) holds Kotlin's `split`/`joinToString` on one
  character and the decimal rendering of an index. `utf8.dfy` (`Utf8`) and
  `url_decoding.dfy` (`UrlDecoding`) hold `URLDecoder.decode(s, "UTF-8")`
  and the form encoding it inverts.
- `http.dfy` (`Http`) holds the requests the services send and a
  `Transport`. The transport records every request sent, in order. It
  answers the n-th request with `respond(n, request)`, where `respond` is
  given and stands for the remote parties. A re-fetch may therefore get a
  different answer.
- `siop.dfy`, `verifiable_credentials.dfy`, `credential_request_data.dfy`
  and `app_users.dfy` hold the four services.

Each service is a `class` whose methods change its repository or the
transport. Each orchestrating method is specified by a pure function of the
inputs, the old state and the responder:

- `ProcessRun` and `GetRun` specify the SIOP methods.
- `StartIssuance` specifies `getCredentialIssuerMetadata`.
- `RequestCredential` specifies `getVerifiableCredential`.

Each of these functions returns the requests sent, the store writes and the
result. The ordering properties are lemmas about these functions.

Library code is a record of functions the model takes as given:

- JSON decoding with Jackson;
- `VerifiablePresentation.fromString`;
- JWS parsing and the bearer's subject;
- the upstream signature check;
- signing.

The library functions that can fail in the source return a `Result`. The
`toString` renderings of the strict metadata and of a JSON tree
(`renderMetadata`, `renderTree`) and the serialisation of the presentation
submission (`writeSubmission`) are total functions; "## Left out" says why.

The two JPA repositories are sequences of rows, and `save` is modelled as
JPA's: it overwrites the row with the same primary key or appends one. The
lookup by (issuer, user) or by username is a search of those rows. "At most
one record per (issuer, user) pair" and "usernames and emails are unique"
are therefore invariants that every operation is proved to keep
(`ValidTable`, `Unique`), not properties a map would give for free.
`Lookup` is the map view of the table. The metadata kept per issuer is a
map (`IssuerStore`).

### Where the code differs from its comments

- **Descriptor chain.** `addCredentialDescriptorMap` walks to the end of the
  chain and returns the last node with the new descriptor nested in it. It
  does not re-wrap the nodes above, so those are dropped. For N >= 2
  credentials the submission therefore nests only the descriptors of
  credentials N-2 and N-1 (`ChainHoldsLastTwo`). For three or more, no
  descriptor points at credential 0 (`FirstCredentialUnreachable`). The
  model follows the code.
- **Offer URI.** The offer URI is `split("=")[1]`: the text between the
  first and the second `=`, not everything after the first. A link with no
  `=` fails on index 1.
- **Unreachable error messages.** `createJwtPayload` and
  `getExistentAccessToken` call `getCredentialRequestDataByIssuerName`,
  which never returns an empty `Optional`: it throws
  `The <issuer> was not found` itself. So the messages `Nonce not found ...`
  and `Access token not found ...` are never raised. The model raises the
  store's message.
- **Signing key.** `createJwt` signs with a freshly generated key. The
  caller's DID goes only into the header's `kid`. The key set-up is a
  parameter `key` of `RequestCredential`, which is either the key or the
  failure of the set-up. Signing with it may fail too.

## Model

| member | source | states |
|---|---|---|
| Siop.LastNode | src/main/kotlin/es/in2/wallet/wca/service/impl/SiopServiceImpl.kt:169-173 | the end of a descriptor chain has nothing nested and is one of the chain's nodes |
| Siop.AddCredentialDescriptorMap | src/main/kotlin/es/in2/wallet/wca/service/impl/SiopServiceImpl.kt:165-174 | the result is the chain's last node with the new descriptor nested in it; every node above it is dropped |
| Siop.KeptChain | src/main/kotlin/es/in2/wallet/wca/service/impl/SiopServiceImpl.kt:139-152 | there is a chain exactly when there is a credential; every node of it is a `jwt_vc` descriptor; its last node is the descriptor of the last credential, at that credential's index |
| Siop.GenerateDescriptorMap | src/main/kotlin/es/in2/wallet/wca/service/impl/SiopServiceImpl.kt:135-160 | a null credential list fails with NullPointer; otherwise the root has format `jwt_vp`, the presentation's id and path `$`, and it nests exactly the chain left by the loop (none, the single descriptor, or the last two) |
| Siop.ChainHoldsLastTwo | src/main/kotlin/es/in2/wallet/wca/service/impl/SiopServiceImpl.kt:139-174 | for N >= 2 credentials the nested chain has exactly two nodes: `jwt_vc` descriptors of credentials N-2 and N-1 with their ids and `$.verifiableCredential[i]` paths |
| Siop.ChainLength | src/main/kotlin/es/in2/wallet/wca/service/impl/SiopServiceImpl.kt:139-152 | the chain has min(N, 2) nodes; zero credentials leave no chain and one leaves its own descriptor at index 0 |
| Siop.FirstCredentialUnreachable | src/main/kotlin/es/in2/wallet/wca/service/impl/SiopServiceImpl.kt:139-152 | with three or more credentials, no node of the submission has the path of credential 0 |
| Siop.CredentialPathInjective | src/main/kotlin/es/in2/wallet/wca/service/impl/SiopServiceImpl.kt:141-145 | distinct credential indices give distinct descriptor paths |
| Siop.Submission | src/main/kotlin/es/in2/wallet/wca/service/impl/SiopServiceImpl.kt:98-102 | the submission holds exactly one descriptor, the root, with definition id `CustomerPresentationDefinition` and id `CustomerPresentationSubmission` |
| Siop.FormBody | src/main/kotlin/es/in2/wallet/wca/service/impl/SiopServiceImpl.kt:105-107 | the body is specified by `FormBodyFields` and `FormBodyFieldCount` below |
| Siop.FormBodyFields | src/main/kotlin/es/in2/wallet/wca/service/impl/SiopServiceImpl.kt:105-107 | when no value contains `&`, the body splits back into exactly `state=`, `vp_token=` and `presentation_submission=` followed by the given values |
| Siop.FormBodyFieldCount | src/main/kotlin/es/in2/wallet/wca/service/impl/SiopServiceImpl.kt:105-107 | values are not escaped: every `&` inside a value adds one field to the body |
| Siop.ExtractScope | src/main/kotlin/es/in2/wallet/wca/service/impl/SiopServiceImpl.kt:183-192 | there is always at least one scope, and no scope contains `,` or `]` |
| Siop.ScopeGroup | src/main/kotlin/es/in2/wallet/wca/service/impl/SiopServiceImpl.kt:184-188 | the captured group is non-empty, holds no `]`, and is followed by the closing `]` |
| Siop.FirstScopeMatch | src/main/kotlin/es/in2/wallet/wca/service/impl/SiopServiceImpl.kt:185 | `find` returns the leftmost position where `scope=\[([^]]+)]` matches, or none when it matches nowhere |
| Siop.ScopeOfFirstMatch | src/main/kotlin/es/in2/wallet/wca/service/impl/SiopServiceImpl.kt:183-188 | with a match, the scopes are the first match's bracket contents split on `,`, untrimmed, empty pieces kept; joining them gives the group back |
| Siop.ScopeDefault | src/main/kotlin/es/in2/wallet/wca/service/impl/SiopServiceImpl.kt:189-191 | with no match, the scopes are exactly `["VerifiableId"]` |
| Siop.EmptyBracketsMatchNothing | src/main/kotlin/es/in2/wallet/wca/service/impl/SiopServiceImpl.kt:184-191 | `scope=[` immediately followed by `]` never matches there, since the class needs one non-`]` character; a request in which every `scope=[` is closed at once (such as `scope=[]`) yields the default scope |
| Siop.ScopeAtStart | src/main/kotlin/es/in2/wallet/wca/service/impl/SiopServiceImpl.kt:183-188 | a request opening with `scope=[group]` yields the pieces of `group` split on `,` |
| Siop.TwoScopes | src/main/kotlin/es/in2/wallet/wca/service/impl/SiopServiceImpl.kt:183-188 | `scope=[VerifiableId,Email]` yields `["VerifiableId", "Email"]` in request order |
| Siop.ProcessLookup | src/main/kotlin/es/in2/wallet/wca/service/impl/SiopServiceImpl.kt:57-83 | the selectable credentials are looked up once, by a POST carrying the bearer token and the extracted scopes, and only for a request that parses; the prompt holds the request's redirect URI and state and the decoded lookup answer |
| Siop.VerificationGuardsProcessing | src/main/kotlin/es/in2/wallet/wca/service/impl/SiopServiceImpl.kt:31-50 | a request whose fetch, verification or `auth_request` claim fails sends only the fetch; otherwise the claim is processed as the next request |
| Siop.ProcessRun | src/main/kotlin/es/in2/wallet/wca/service/impl/SiopServiceImpl.kt:57-83 | a request that does not parse sends nothing and fails with the parser's error; otherwise exactly one POST goes to the lookup URL with the caller's bearer token; a prompt comes back only when that lookup was answered |
| Siop.GetRun | src/main/kotlin/es/in2/wallet/wca/service/impl/SiopServiceImpl.kt:31-50 | the first request is always the GET of the request URI, and at most one more follows, the lookup POST; a prompt comes back only when the fetch was answered and its JWS verified |
| Siop.SiopService.ProcessSiopAuthenticationRequest | src/main/kotlin/es/in2/wallet/wca/service/impl/SiopServiceImpl.kt:57-83 | the requests sent and the result are those of `ProcessRun` for the number of requests sent before |
| Siop.SiopService.GetSiopAuthenticationRequest | src/main/kotlin/es/in2/wallet/wca/service/impl/SiopServiceImpl.kt:31-50 | the requests sent and the result are those of `GetRun` |
| Siop.SiopService.SendAuthenticationResponse | src/main/kotlin/es/in2/wallet/wca/service/impl/SiopServiceImpl.kt:94-117 | an unparsable presentation or a null credential list sends nothing; otherwise exactly one POST of the form body (with the submission of the generated root) goes to the selection's redirect URI and its answer is returned |
| Text.Split | src/main/kotlin/es/in2/wallet/wca/service/impl/SiopServiceImpl.kt:188 | `split` always gives at least one piece; `SplitPieces`, `JoinSplit` and `SplitJoin` below state what the pieces are |
| Text.SplitKeepsAbsent | src/main/kotlin/es/in2/wallet/wca/service/impl/SiopServiceImpl.kt:188 | a character absent from the text is absent from every piece |
| Text.JoinSplit | src/main/kotlin/es/in2/wallet/wca/service/impl/SiopServiceImpl.kt:188 | `split(",")` loses nothing: joining the pieces gives the text back |
| Text.SplitPieces | src/main/kotlin/es/in2/wallet/wca/service/impl/SiopServiceImpl.kt:188 | there is one piece more than there are delimiters and no piece contains the delimiter |
| Text.SplitJoin | src/main/kotlin/es/in2/wallet/wca/service/impl/VerifiableCredentialServiceImpl.kt:138-139 | splitting the join of delimiter-free pieces gives the pieces back |
| Text.ParseNatToString | src/main/kotlin/es/in2/wallet/wca/service/impl/SiopServiceImpl.kt:144 | the decimal index written into a descriptor path reads back as the index |
| Utf8.Decode | src/main/kotlin/es/in2/wallet/wca/service/impl/VerifiableCredentialServiceImpl.kt:140-141 | decoding never gives more characters than there are bytes |
| Utf8.DecodeEncode | src/main/kotlin/es/in2/wallet/wca/service/impl/VerifiableCredentialServiceImpl.kt:140-141 | decoding the UTF-8 encoding of a string gives the string |
| UrlDecoding.EscapeValue | src/main/kotlin/es/in2/wallet/wca/service/impl/VerifiableCredentialServiceImpl.kt:140-141 | an escape `%XY` is accepted exactly when `parseInt(XY, 16)` yields a value from 0 to 255 (two hex digits, ASCII or fullwidth letters included, `+` before a hex digit, or `-0`), and its value is that number; otherwise the error is an IllegalArgument |
| UrlDecoding.EscapeValueMessages | src/main/kotlin/es/in2/wallet/wca/service/impl/VerifiableCredentialServiceImpl.kt:140-141 | a refused escape's message is `URLDecoder: Illegal hex characters in escape (%) pattern - ` followed by `negative value` for `-` before a nonzero digit, or by `parseInt`'s own message `Error at index k in: "XY"`, where k is 0 when X is neither a hex digit nor a sign and 1 otherwise |
| UrlDecoding.FullwidthEscapes | src/main/kotlin/es/in2/wallet/wca/service/impl/VerifiableCredentialServiceImpl.kt:140-141 | `Character.digit` reads fullwidth Latin letters as hex digits: `%ＡＡ` is the octet 0xAA, `%ａｆ` is 0xAF, and `%Ｇ0` is refused |
| UrlDecoding.Decode | src/main/kotlin/es/in2/wallet/wca/service/impl/VerifiableCredentialServiceImpl.kt:140-141 | every decoding failure is an IllegalArgument error |
| UrlDecoding.FormEncodeAlphabet | src/main/kotlin/es/in2/wallet/wca/service/impl/VerifiableCredentialServiceImpl.kt:137-141 | a form-encoded string holds only unreserved characters, `+` and `%`, so no `=` |
| UrlDecoding.DecodeFormEncode | src/main/kotlin/es/in2/wallet/wca/service/impl/VerifiableCredentialServiceImpl.kt:140-141 | URL-decoding the form encoding of any string gives the string back |
| VerifiableCredentials.Field | src/main/kotlin/es/in2/wallet/wca/service/impl/VerifiableCredentialServiceImpl.kt:213 | `node[field].asText()` is the field's text when present and a NullPointer otherwise |
| VerifiableCredentials.OfferUri | src/main/kotlin/es/in2/wallet/wca/service/impl/VerifiableCredentialServiceImpl.kt:137-144 | a decoded offer URI needs an `=` in the link; every failure is either index 1 out of bounds or a decoding error |
| VerifiableCredentials.OfferUriNeedsEquals | src/main/kotlin/es/in2/wallet/wca/service/impl/VerifiableCredentialServiceImpl.kt:137-144 | the offer URI fails with index 1 out of bounds exactly when the link has no `=` |
| VerifiableCredentials.OfferUriSecondPiece | src/main/kotlin/es/in2/wallet/wca/service/impl/VerifiableCredentialServiceImpl.kt:138-141 | only the text between the first and second `=` is decoded; anything from a second `=` on is dropped |
| VerifiableCredentials.OfferUriRoundTrip | src/main/kotlin/es/in2/wallet/wca/service/impl/VerifiableCredentialServiceImpl.kt:137-144 | a link whose value is the form encoding of a URI yields that URI |
| VerifiableCredentials.MetadataUri | src/main/kotlin/es/in2/wallet/wca/service/impl/VerifiableCredentialServiceImpl.kt:158-160 | the metadata URI is the offer's `credentialIssuer` followed by `/.well-known/openid-credential-issuer` |
| VerifiableCredentials.MetadataUriInjective | src/main/kotlin/es/in2/wallet/wca/service/impl/VerifiableCredentialServiceImpl.kt:158-160 | distinct issuers give distinct metadata URIs |
| VerifiableCredentials.TokenForm | src/main/kotlin/es/in2/wallet/wca/service/impl/VerifiableCredentialServiceImpl.kt:196-200 | the form is specified by `TokenFormFields` below |
| VerifiableCredentials.TokenFormFields | src/main/kotlin/es/in2/wallet/wca/service/impl/VerifiableCredentialServiceImpl.kt:196-200 | the token form has exactly the fields `grant_type` (the pre-authorized-code grant type) and `pre-authorized_code` (the code stored under that grant type in the offer, null when absent) |
| VerifiableCredentials.NonceAndToken | src/main/kotlin/es/in2/wallet/wca/service/impl/VerifiableCredentialServiceImpl.kt:202-206 | a token response yields `[c_nonce, access_token]` exactly when both fields are present, and NullPointer otherwise |
| VerifiableCredentials.ProofHeader | src/main/kotlin/es/in2/wallet/wca/service/impl/VerifiableCredentialServiceImpl.kt:280-285 | the header is specified by `CredentialRequestShape` below: ES256, type `openid4vci-proof+jwt`, key id the caller's DID |
| VerifiableCredentials.ProofClaims | src/main/kotlin/es/in2/wallet/wca/service/impl/VerifiableCredentialServiceImpl.kt:287-298 | the claims exist exactly when the store has a record for the pair: audience is the issuer, issue time is now, nonce is the stored nonce; otherwise the store's not-found error |
| VerifiableCredentials.CredentialRequestFor | src/main/kotlin/es/in2/wallet/wca/service/impl/VerifiableCredentialServiceImpl.kt:300-303 | the body is specified by `CredentialRequestShape` below: format `jwt_vc_json` and a `jwt` proof holding the signed JWT |
| VerifiableCredentials.ExistentAccessToken | src/main/kotlin/es/in2/wallet/wca/service/impl/VerifiableCredentialServiceImpl.kt:305-310 | the stored access token of the pair, or the store's not-found error |
| VerifiableCredentials.StartIssuance | src/main/kotlin/es/in2/wallet/wca/service/impl/VerifiableCredentialServiceImpl.kt:57-90 | a run succeeds exactly when it saves tokens; it sends at most four requests; a bearer token without a subject sends nothing; the first request, if any, fetches the decoded offer URI of the link |
| VerifiableCredentials.Exchange | src/main/kotlin/es/in2/wallet/wca/service/impl/VerifiableCredentialServiceImpl.kt:68-74 | after the metadata write, exactly one more request is sent, the token POST to the endpoint for the offer; tokens are saved exactly when the run succeeds, and then for the offer's issuer and the bearer's subject |
| VerifiableCredentials.Fallback | src/main/kotlin/es/in2/wallet/wca/service/impl/VerifiableCredentialServiceImpl.kt:75-89 | the fallback sends one to three requests after those already sent, the first being the metadata fetch; it succeeds exactly when tokens are saved, and a save is for the offer's issuer and subject and comes after a metadata write for that issuer |
| VerifiableCredentials.AfterOffer | src/main/kotlin/es/in2/wallet/wca/service/impl/VerifiableCredentialServiceImpl.kt:62-89 | after the offer, one to three requests are sent, the first being the metadata fetch; the run succeeds exactly when tokens are saved, and a save is for the offer's issuer and subject and comes after a metadata write for that issuer |
| VerifiableCredentials.StartIssuanceSaves | src/main/kotlin/es/in2/wallet/wca/service/impl/VerifiableCredentialServiceImpl.kt:57-90 | a run that succeeds saves, for the bearer's subject, the `c_nonce` and access token read from the answer to its last request, which is the token form POST |
| VerifiableCredentials.MetadataWrittenBeforeExchange | src/main/kotlin/es/in2/wallet/wca/service/impl/VerifiableCredentialServiceImpl.kt:62-89 | tokens are saved only for the issuer whose metadata was written, and no token request is sent before the write |
| VerifiableCredentials.StrictPath | src/main/kotlin/es/in2/wallet/wca/service/impl/VerifiableCredentialServiceImpl.kt:62-74 | when the metadata decodes, the requests are the offer fetch, one metadata fetch and the token request to `credentialToken`, and the decoded metadata is written |
| VerifiableCredentials.FallbackPath | src/main/kotlin/es/in2/wallet/wca/service/impl/VerifiableCredentialServiceImpl.kt:75-89 | on an unrecognised property the metadata is fetched again, read as a tree and written; the token endpoint is its `credential_token`, and a missing one ends the run after the write with NullPointer |
| VerifiableCredentials.OtherMetadataFailure | src/main/kotlin/es/in2/wallet/wca/service/impl/VerifiableCredentialServiceImpl.kt:57-90 | any other metadata decoding failure ends the run after two requests, with no write and no save |
| VerifiableCredentials.RequestCredential | src/main/kotlin/es/in2/wallet/wca/service/impl/VerifiableCredentialServiceImpl.kt:98-129 | at most two requests are sent; success means both were sent and the nonce was rotated for the issuer and the bearer's subject; a bearer token without a subject sends nothing; any request at all means the key set-up succeeded and the pair has a stored record |
| VerifiableCredentials.AfterCredential | src/main/kotlin/es/in2/wallet/wca/service/impl/VerifiableCredentialServiceImpl.kt:110-128 | the credential request is sent first; the nonce is rotated exactly when a second request (the forward) is sent, and success needs the rotation |
| VerifiableCredentials.LookupsBeforeRequests | src/main/kotlin/es/in2/wallet/wca/service/impl/VerifiableCredentialServiceImpl.kt:98-111 | without a stored record for the pair nothing is sent and nothing rotated; the result is the failure of the key set-up when it failed (it runs before the lookup), and the not-found error otherwise |
| VerifiableCredentials.SigningBeforeRequests | src/main/kotlin/es/in2/wallet/wca/service/impl/VerifiableCredentialServiceImpl.kt:250-278 | a failed key set-up or a failed signature ends the run with that failure before any request is sent and before any nonce is rotated |
| VerifiableCredentials.CredentialRequestShape | src/main/kotlin/es/in2/wallet/wca/service/impl/VerifiableCredentialServiceImpl.kt:98-111 | when a credential request is sent, the key set-up and the signature succeeded, and the request goes to the stored `credential_endpoint` with the stored access token as bearer and a `jwt_vc_json` body whose `jwt` proof is the signature, with the set-up key, over header (ES256, `openid4vci-proof+jwt`, kid = the DID) and claims (audience = issuer, nonce = stored nonce) |
| VerifiableCredentials.RotationBeforeForward | src/main/kotlin/es/in2/wallet/wca/service/impl/VerifiableCredentialServiceImpl.kt:110-128 | the nonce is rotated exactly when the credential answer decodes, to its `cNonce`, for the issuer and the bearer's subject; only then is the credential forwarded, as the second and last request |
| VerifiableCredentials.IssuerStore.UpsertIssuerData | src/main/kotlin/es/in2/wallet/wca/service/impl/VerifiableCredentialServiceImpl.kt:64-67 | the issuer's metadata text is set and every other issuer's is kept |
| VerifiableCredentials.IssuerStore.GetMetadata | src/main/kotlin/es/in2/wallet/wca/service/impl/VerifiableCredentialServiceImpl.kt:107 | the stored metadata of the issuer, or IssuerNotFound |
| VerifiableCredentials.VerifiableCredentialService.AccessTokenAndNonce | src/main/kotlin/es/in2/wallet/wca/service/impl/VerifiableCredentialServiceImpl.kt:191-225 | one token request is posted to the endpoint and the result is `[c_nonce, access_token]` of its answer |
| VerifiableCredentials.VerifiableCredentialService.ExchangeAndSave | src/main/kotlin/es/in2/wallet/wca/service/impl/VerifiableCredentialServiceImpl.kt:68-74 | the token exchange followed by the save of the tokens for the pair |
| VerifiableCredentials.VerifiableCredentialService.FallbackAndSave | src/main/kotlin/es/in2/wallet/wca/service/impl/VerifiableCredentialServiceImpl.kt:75-89 | the requests sent, the metadata written, the tokens saved and the result are those of `Fallback`; the store stays valid |
| VerifiableCredentials.VerifiableCredentialService.AfterOfferAndSave | src/main/kotlin/es/in2/wallet/wca/service/impl/VerifiableCredentialServiceImpl.kt:62-89 | the requests sent, the metadata written, the tokens saved and the result are those of `AfterOffer`; the store stays valid |
| VerifiableCredentials.VerifiableCredentialService.GetCredentialIssuerMetadata | src/main/kotlin/es/in2/wallet/wca/service/impl/VerifiableCredentialServiceImpl.kt:57-90 | the requests sent, the metadata written, the tokens saved and the result are those of `StartIssuance`; the store stays valid |
| VerifiableCredentials.VerifiableCredentialService.GetVerifiableCredential | src/main/kotlin/es/in2/wallet/wca/service/impl/VerifiableCredentialServiceImpl.kt:98-129 | the requests sent, the nonce rotation and the result are those of `RequestCredential`; the store stays valid |
| CredentialRequestData.SaveRow | src/main/kotlin/es/in2/wallet/wca/service/impl/CredentialRequestDataServiceImpl.kt:28-40 | `save` overwrites the row with the same id or appends the new row; every row with another id stays where it was |
| CredentialRequestData.Lookup | src/main/kotlin/es/in2/wallet/wca/service/impl/CredentialRequestDataServiceImpl.kt:45-52 | the row of the (issuer, user) pair exactly when one exists; otherwise `The <issuer> was not found` (never an empty result) |
| CredentialRequestData.Upsert | src/main/kotlin/es/in2/wallet/wca/service/impl/CredentialRequestDataServiceImpl.kt:20-43 | a save adds at most one row and never removes one, and afterwards some row of the pair holds the written nonce and access token |
| CredentialRequestData.RotateNonce | src/main/kotlin/es/in2/wallet/wca/service/impl/CredentialRequestDataServiceImpl.kt:53-56 | renewing a nonce keeps the number of rows |
| CredentialRequestData.UpsertValid | src/main/kotlin/es/in2/wallet/wca/service/impl/CredentialRequestDataServiceImpl.kt:20-43 | saving keeps row ids and (issuer, user) pairs distinct, so at most one record per pair |
| CredentialRequestData.LookupAfterUpsert | src/main/kotlin/es/in2/wallet/wca/service/impl/CredentialRequestDataServiceImpl.kt:20-43 | after a save, the pair's record holds the written nonce and token, under the id it had or the fresh id |
| CredentialRequestData.UpsertFrame | src/main/kotlin/es/in2/wallet/wca/service/impl/CredentialRequestDataServiceImpl.kt:20-43 | saving one pair leaves the record of every other pair unchanged |
| CredentialRequestData.UpsertSize | src/main/kotlin/es/in2/wallet/wca/service/impl/CredentialRequestDataServiceImpl.kt:22-41 | a save adds a row exactly when the pair had none |
| CredentialRequestData.UpsertTwice | src/main/kotlin/es/in2/wallet/wca/service/impl/CredentialRequestDataServiceImpl.kt:20-43 | saving twice for a pair is saving the second values under the identity the first save gave it |
| CredentialRequestData.RotateNonceEffect | src/main/kotlin/es/in2/wallet/wca/service/impl/CredentialRequestDataServiceImpl.kt:53-56 | renewing the nonce keeps the table valid and changes only the pair's nonce, leaving its id, issuer, user and access token; a missing pair changes nothing and raises nothing |
| CredentialRequestData.RotateNonceFrame | src/main/kotlin/es/in2/wallet/wca/service/impl/CredentialRequestDataServiceImpl.kt:53-56 | renewing one pair's nonce leaves every other pair's record unchanged |
| CredentialRequestData.CredentialRequestDataService.GetCredentialRequestDataByIssuerName | src/main/kotlin/es/in2/wallet/wca/service/impl/CredentialRequestDataServiceImpl.kt:45-52 | the record of the pair, or the not-found error |
| CredentialRequestData.CredentialRequestDataService.SaveCredentialRequestData | src/main/kotlin/es/in2/wallet/wca/service/impl/CredentialRequestDataServiceImpl.kt:20-43 | the rows become `Upsert` of the old rows, and the table stays valid |
| CredentialRequestData.CredentialRequestDataService.SaveNewIssuerNonceByIssuerName | src/main/kotlin/es/in2/wallet/wca/service/impl/CredentialRequestDataServiceImpl.kt:53-56 | the rows become `RotateNonce` of the old rows, and the table stays valid |
| AppUsers.FindByUsername | src/main/kotlin/es/in2/wallet/api/service/impl/AppUserServiceImpl.kt:63-66 | a user with that username exactly when one is stored |
| AppUsers.FindByEmail | src/main/kotlin/es/in2/wallet/api/service/impl/AppUserServiceImpl.kt:68-71 | a user with that email exactly when one is stored |
| AppUsers.FindById | src/main/kotlin/es/in2/wallet/api/service/impl/AppUserServiceImpl.kt:58-61 | the user with that id exactly when one is stored |
| AppUsers.SaveUser | src/main/kotlin/es/in2/wallet/api/service/impl/AppUserServiceImpl.kt:73-76 | `save` appends a user with a new id; for a known id it keeps the number of users, stores the given user, and leaves every user with another id where it was |
| AppUsers.Register | src/main/kotlin/es/in2/wallet/api/service/impl/AppUserServiceImpl.kt:39-51 | a registration succeeds only when neither the username nor the email is taken, and then the new user (fresh id, username, email, encoded password) is stored |
| AppUsers.RegisterOutcome | src/main/kotlin/es/in2/wallet/api/service/impl/AppUserServiceImpl.kt:41-42 | registration fails with UsernameAlreadyExists when the username is taken (checked first), otherwise with EmailAlreadyExists when the email is taken, and succeeds otherwise |
| AppUsers.RegisterAppends | src/main/kotlin/es/in2/wallet/api/service/impl/AppUserServiceImpl.kt:43-50 | a successful registration appends exactly one user with the fresh id, the username, the email and the encoded password |
| AppUsers.RegisterKeepsUnique | src/main/kotlin/es/in2/wallet/api/service/impl/AppUserServiceImpl.kt:39-51 | registration keeps ids, usernames and emails unique |
| AppUsers.FindAfterRegister | src/main/kotlin/es/in2/wallet/api/service/impl/AppUserServiceImpl.kt:39-51 | after registration the new user is found by its username and by its email |
| AppUsers.FoundIsUnique | src/main/kotlin/es/in2/wallet/api/service/impl/AppUserServiceImpl.kt:63-71 | with unique usernames and emails, a lookup finds the one user holding the key |
| AppUsers.AppUserService.CheckIfUserExists | src/main/kotlin/es/in2/wallet/api/service/impl/AppUserServiceImpl.kt:24-31 | the stored user with that username, or NoSuchElement `The username <u> does not exist.` |
| AppUsers.AppUserService.GetUserWithContextAuthentication | src/main/kotlin/es/in2/wallet/api/service/impl/AppUserServiceImpl.kt:33-37 | the stored user named by the principal, or NoSuchElement `No value present` |
| AppUsers.AppUserService.RegisterUser | src/main/kotlin/es/in2/wallet/api/service/impl/AppUserServiceImpl.kt:39-51 | the users become the result of `Register`, unchanged on either error, and uniqueness is kept |
| AppUsers.AppUserService.GetUsers | src/main/kotlin/es/in2/wallet/api/service/impl/AppUserServiceImpl.kt:53-56 | every stored user, in repository order |
| AppUsers.AppUserService.GetUserById | src/main/kotlin/es/in2/wallet/api/service/impl/AppUserServiceImpl.kt:58-61 | the user with that id exactly when one is stored |
| AppUsers.AppUserService.GetUserByUsername | src/main/kotlin/es/in2/wallet/api/service/impl/AppUserServiceImpl.kt:63-66 | a user with that username exactly when one is stored |
| AppUsers.AppUserService.GetUserByEmail | src/main/kotlin/es/in2/wallet/api/service/impl/AppUserServiceImpl.kt:68-71 | a user with that email exactly when one is stored |
| AppUsers.AppUserService.CheckIfUsernameAlreadyExist | src/main/kotlin/es/in2/wallet/api/service/impl/AppUserServiceImpl.kt:78-83 | fails exactly when the username is taken, with `Username already exists: <u>` |
| AppUsers.AppUserService.CheckIfEmailAlreadyExist | src/main/kotlin/es/in2/wallet/api/service/impl/AppUserServiceImpl.kt:85-90 | fails exactly when the email is taken, with `Email already exists: <e>` |

## Left out

- HTTP transport: `ApplicationUtils.getRequest`/`postRequest` is not part of this model. The model sees a request log and a response function; status codes, headers of the answer and timeouts are not modelled, and a non-2xx answer is one `TransportFailure`.
- Serialisation: bodies that Jackson or `buildUrlEncodedFormDataRequestBody` serialise (the token form, the selectable-VC query, the credential request) are kept as the values serialised, not as bytes.
- Library decoding: Jackson with the custom deserializers, `VerifiablePresentation.fromString`, `parseOpenIdConfig`, `toString` of the metadata object and JSON trees are functions the model takes as given; a JSON tree is a map of field names to their text, so non-text values of `asText()` are not modelled.
- JWT and key libraries: the key set-up of `createJwt` (service matrix, key generation, DID creation, JWK export and parsing) is the parameter `key`, either a key or a failure; ECDSA signing, `SignedJWT.parse` in `getUserID` and `JWSObject.parse` in `getAuthRequestClaim` are functions the model takes as given (`sign`, `subjectOf`, `authRequestClaim`), each of which may fail. When the payload has no `auth_request` claim, `getAuthRequestClaim` (SiopServiceImpl.kt:176-179) calls `toString()` on null and gets the text `null`, which is then processed as a request; in the model that is `authRequestClaim` returning `Ok("null")`, and only a payload that cannot be read fails.
- Total serialisations: Jackson's `writeValueAsString` of the credential request body (VerifiableCredentialServiceImpl.kt:238) and of the presentation submission (`writeSubmission`) and the `toString` of the strict metadata and of a JSON tree (`renderMetadata`, `renderTree`) are modelled as total: they write plain objects of strings and lists, and the model does not capture a `JsonProcessingException` from them. The selectable-VC query is kept as the value serialised.
- Upstream verification: `verifySiopAuthRequestAsJwsFormat` is not part of this model; it is a given function that may fail.
- Nondeterministic values: `Instant.now()`, `UUID.randomUUID()` and the BCrypt encoding are parameters (`now`, `freshId`, `encodedPassword`); a fresh id is required to be unused, as a random UUID is in practice.
- `IssuerServiceImpl` is not part of this model: the issuer store is a map from issuer name to metadata text, and a missing issuer is an `IssuerNotFound` error.
- The values of `SAVE_CREDENTIAL` and `GET_SELECTABLE_VCS` are not part of this model: the paths are constructor parameters of the services.
- `walletCryptoBaseUrl` is injected but only used in commented-out code; it is not modelled.
- `SecurityContextHolder`: `getUserWithContextAuthentication` takes the authenticated principal's name as a parameter.
- Spring Data queries: the JPQL update behind `saveNewIssuerNonceByIssuerName` and the derived finders are modelled by their evident meaning; the exception a derived finder raises on duplicate results cannot occur because uniqueness is an invariant.
- `@Transactional`, concurrency and isolation of the stores are not modelled; every operation runs alone.
- Logging and printing are left out.
- `WebSecurityConfig.kt`, `ApiExceptionHandler.kt` and `IssuerController.kt` are configuration, exception-to-status mapping and routing; they are not modelled.
- Utf8.Decode: malformed UTF-8 is replaced by U+FFFD one byte at a time; the JDK's decoder replaces each maximal ill-formed subsequence, which may give fewer replacement characters.
- UrlDecoding.EscapeValue: `Character.digit`, which `Integer.parseInt` uses, also accepts the decimal digits of other scripts (Unicode category Nd, the fullwidth digits among them); the model accepts the ASCII digits and letters and the fullwidth letters A to F and a to f, but no other digit. The error messages follow `Integer.parseInt(CharSequence, int, int, int)` of JDK 9 and later.
- UrlDecoding.EscapeRun, UrlDecoding.EscapeValueMessages: a Dafny string is a sequence of Unicode scalar values, while a Kotlin string counts UTF-16 units. A supplementary character (above U+FFFF) in one of the two places after `%` is one character here and two units to the JDK, so the model gives a different IllegalArgument message there: `%😀` is an incomplete escape here, while the JDK reports an illegal hex character. A message quoting a lone surrogate cannot be written as a Dafny string.
