/** `VerifiableCredentialServiceImpl`: the wallet side of the pre-authorised
    code flow of OpenID for Verifiable Credential Issuance (draft 13). The
    offer URI is read from the wallet link; the offer names the issuer, whose
    metadata (section 11.2.2 of that draft) gives the token endpoint; the
    token response (section 6.2) gives the `c_nonce` and the access token
    that are kept per (issuer, user). Later a credential is requested with a
    proof JWT (section 7.2.1.1) carrying the kept nonce, the fresh `c_nonce`
    of the answer replaces the kept one, and the credential is handed on to
    the wallet-data service. */
module VerifiableCredentials {
  import opened Common
  import opened Text
  import UrlDecoding
  import opened Http
  import Store = CredentialRequestData

  const WELL_KNOWN_CREDENTIAL_ISSUER: string := "/.well-known/openid-credential-issuer"
  const GRANT_TYPE_FIELD: string := "grant_type"
  const PRE_AUTHORIZED_CODE_FIELD: string := "pre-authorized_code"
  const CREDENTIAL_TOKEN_FIELD: string := "credential_token"
  const CREDENTIAL_ENDPOINT_FIELD: string := "credential_endpoint"
  const ACCESS_TOKEN_FIELD: string := "access_token"
  const C_NONCE_FIELD: string := "c_nonce"
  const PROOF_ALGORITHM: string := "ES256"
  const PROOF_TYPE: string := "openid4vci-proof+jwt"
  const CREDENTIAL_FORMAT: string := "jwt_vc_json"
  const PROOF_JWT: string := "jwt"

  // ---------------------------------------------------------------------
  // Data

  /** The `pre-authorized_code` grant of an offer. */
  datatype Grant = Grant(preAuthorizedCode: string)

  /** `CredentialOfferForPreAuthorizedCodeFlow`, as far as it is read. */
  datatype CredentialOffer = CredentialOffer(credentialIssuer: string, grants: map<string, Grant>)

  /** The strictly typed `CredentialIssuerMetadata`, as far as it is read. */
  datatype CredentialIssuerMetadata = CredentialIssuerMetadata(credentialIssuer: string, credentialToken: string)

  /** A Jackson tree, as far as its top-level text fields are read. */
  type JsonObject = map<string, string>

  /** `VerifiableCredentialResponseDTO`. */
  datatype CredentialResponse = CredentialResponse(credential: string, cNonce: string)

  /** `CredentialRequestDTO`: which issuer to ask, and the holder's DID. */
  datatype CredentialRequestDto = CredentialRequestDto(issuerName: string, did: string)

  /** The JOSE header of the proof JWT. */
  datatype JwtHeader = JwtHeader(alg: string, typ: string, kid: string)

  /** The claims of the proof JWT; `issueTime` is `Instant.now()`. */
  datatype JwtClaims = JwtClaims(audience: string, issueTime: int, nonce: string)

  /** Library code the service calls: bearer parsing (`getUserID`), Jackson
      and the typed metadata decoder with its custom deserialisers, the
      `toString` of the strict metadata and of a JSON tree, and signing with
      the key `createJwt` generates (a `JOSEException` is a failure). */
  datatype VcCodec = VcCodec(
    subjectOf: string -> Result<string>,
    decodeOffer: string -> Result<CredentialOffer>,
    decodeMetadata: string -> Result<CredentialIssuerMetadata>,
    renderMetadata: CredentialIssuerMetadata -> string,
    readTree: string -> Result<JsonObject>,
    renderTree: JsonObject -> string,
    decodeCredentialResponse: string -> Result<CredentialResponse>,
    sign: (nat, JwtHeader, JwtClaims) -> Result<string>)

  /** `node[field].asText()`: a missing field is a null node. */
  function Field(json: JsonObject, field: string): (r: Result<string>)
    ensures r.Ok? <==> field in json
    ensures r.Ok? ==> r.value == json[field]
    ensures r.Err? ==> r.error == NullPointer
  {
    if field in json then Ok(json[field]) else Err(NullPointer)
  }

  // ---------------------------------------------------------------------
  // Offer URI

  /** `getCredentialOfferUri`: the text between the first and the second
      `=` of the wallet link, URL-decoded. Without an `=` there is no piece
      at index 1. */
  function OfferUri(link: string): (r: Result<string>)
    ensures r.Ok? ==> '=' in link
    ensures r.Err? ==> r.error == IndexOutOfBounds(1) || r.error.IllegalArgument?
  {
    var pieces := Split(link, '=');
    SplitPieces(link, '=');
    CountPositive(link, '=');
    if |pieces| < 2 then Err(IndexOutOfBounds(1)) else UrlDecoding.Decode(pieces[1])
  }

  /** The link fails on index 1 exactly when it has no `=`; decoding errors
      are of another kind. */
  lemma OfferUriNeedsEquals(link: string)
    ensures OfferUri(link) == Err(IndexOutOfBounds(1)) <==> '=' !in link
  {
    SplitPieces(link, '=');
    CountPositive(link, '=');
  }

  /** Only the piece after the first `=` counts: anything from a second `=`
      on is dropped. */
  lemma OfferUriSecondPiece(prefix: string, value: string, rest: string)
    requires '=' !in prefix && '=' !in value
    ensures OfferUri(prefix + "=" + value + "=" + rest) == UrlDecoding.Decode(value)
  {
    assert prefix + "=" + value + "=" + rest == prefix + ['='] + (value + ['='] + rest);
    SplitAtFirst(prefix, '=', value + ['='] + rest);
    SplitAtFirst(value, '=', rest);
  }

  /** A link whose value is the form-encoding of `uri` gives `uri` back. */
  lemma OfferUriRoundTrip(prefix: string, uri: string)
    requires '=' !in prefix
    ensures OfferUri(prefix + "=" + UrlDecoding.FormEncode(uri)) == Ok(uri)
  {
    var value := UrlDecoding.FormEncode(uri);
    UrlDecoding.FormEncodeAlphabet(uri);
    assert '=' !in value;
    assert prefix + "=" + value == prefix + ['='] + value;
    SplitAtFirst(prefix, '=', value);
    SplitNoSep(value, '=');
    UrlDecoding.DecodeFormEncode(uri);
  }

  // ---------------------------------------------------------------------
  // Requests

  /** `getCredentialIssuerMetadataUri`: the issuer identifier followed by
      the well-known path. */
  function MetadataUri(offer: CredentialOffer): (uri: string)
    ensures |uri| == |offer.credentialIssuer| + |WELL_KNOWN_CREDENTIAL_ISSUER|
    ensures uri[..|offer.credentialIssuer|] == offer.credentialIssuer
    ensures uri[|offer.credentialIssuer|..] == WELL_KNOWN_CREDENTIAL_ISSUER
  {
    offer.credentialIssuer + WELL_KNOWN_CREDENTIAL_ISSUER
  }

  /** Distinct issuers have distinct metadata URIs, and the issuer can be
      read back from the URI. */
  lemma MetadataUriInjective(a: CredentialOffer, b: CredentialOffer)
    requires MetadataUri(a) == MetadataUri(b)
    ensures a.credentialIssuer == b.credentialIssuer
  {
    var n := |WELL_KNOWN_CREDENTIAL_ISSUER|;
    assert MetadataUri(a)[..|MetadataUri(a)| - n] == a.credentialIssuer;
    assert MetadataUri(b)[..|MetadataUri(b)| - n] == b.credentialIssuer;
  }

  /** The code kept under the pre-authorised-code grant type, if any. */
  function PreAuthorizedCode(offer: CredentialOffer): Option<string>
  {
    if PRE_AUTH_CODE_GRANT_TYPE in offer.grants
    then Some(offer.grants[PRE_AUTH_CODE_GRANT_TYPE].preAuthorizedCode)
    else None
  }

  /** The token request form of section 6.1 of the draft. */
  function TokenForm(offer: CredentialOffer): Body
  {
    Form([(GRANT_TYPE_FIELD, Some(PRE_AUTH_CODE_GRANT_TYPE)), (PRE_AUTHORIZED_CODE_FIELD, PreAuthorizedCode(offer))])
  }

  /** The form has exactly the grant type and the offer's code, under two
      distinct names. */
  lemma TokenFormFields(offer: CredentialOffer)
    ensures var fields := TokenForm(offer).fields;
      && |fields| == 2 && fields[0].0 != fields[1].0
      && fields[0] == (GRANT_TYPE_FIELD, Some(PRE_AUTH_CODE_GRANT_TYPE))
      && fields[1].0 == PRE_AUTHORIZED_CODE_FIELD
      && (fields[1].1.Some? <==> PRE_AUTH_CODE_GRANT_TYPE in offer.grants)
      && (fields[1].1.Some? ==> fields[1].1.value == offer.grants[PRE_AUTH_CODE_GRANT_TYPE].preAuthorizedCode)
  {
    var g, p := GRANT_TYPE_FIELD, PRE_AUTHORIZED_CODE_FIELD;
    assert g[0] == 'g' && p[0] == 'p';
  }

  function OfferFetch(uri: string): Request
  {
    Request(Get, uri, [(CONTENT_TYPE, CONTENT_TYPE_URL_ENCODED_FORM)], NoBody)
  }

  function MetadataFetch(offer: CredentialOffer): Request
  {
    Request(Get, MetadataUri(offer), [(CONTENT_TYPE, CONTENT_TYPE_URL_ENCODED_FORM)], NoBody)
  }

  function TokenRequest(endpoint: string, offer: CredentialOffer): Request
  {
    Request(Post, endpoint, [(CONTENT_TYPE, CONTENT_TYPE_URL_ENCODED_FORM)], TokenForm(offer))
  }

  /** `[c_nonce, access_token]` of a token response; the access token is read
      first, and a missing field is a null node. */
  function NonceAndToken(json: JsonObject): (r: Result<(string, string)>)
    ensures r.Ok? <==> ACCESS_TOKEN_FIELD in json && C_NONCE_FIELD in json
    ensures r.Ok? ==> r.value == (json[C_NONCE_FIELD], json[ACCESS_TOKEN_FIELD])
    ensures r.Err? ==> r.error == NullPointer
  {
    var accessToken :- Field(json, ACCESS_TOKEN_FIELD);
    var cNonce :- Field(json, C_NONCE_FIELD);
    Ok((cNonce, accessToken))
  }

  /** `createJwtHeader`. */
  function ProofHeader(kid: string): JwtHeader
  {
    JwtHeader(PROOF_ALGORITHM, PROOF_TYPE, kid)
  }

  /** `createJwtPayload`: audience and nonce from the record kept for the
      pair; without one, the store's not-found error. */
  function ProofClaims(rows: Store.Table, issuerName: string, userId: string, now: int): (r: Result<JwtClaims>)
    ensures r.Ok? <==> Store.Lookup(rows, issuerName, userId).Ok?
    ensures r.Ok? ==> r.value.audience == issuerName && r.value.issueTime == now
    ensures r.Ok? ==> r.value.nonce == Store.Lookup(rows, issuerName, userId).value.issuerNonce
    ensures r.Err? ==> r.error == CredentialRequestDataNotFound("The " + issuerName + " was not found")
  {
    var requestData :- Store.Lookup(rows, issuerName, userId);
    Ok(JwtClaims(issuerName, now, requestData.issuerNonce))
  }

  /** `createCredentialRequestBody`. */
  function CredentialRequestFor(jwt: string): CredentialRequestBody
  {
    CredentialRequestBody(CREDENTIAL_FORMAT, Proof(PROOF_JWT, jwt))
  }

  /** `getExistentAccessToken`. */
  function ExistentAccessToken(rows: Store.Table, issuerName: string, userId: string): (r: Result<string>)
    ensures r.Ok? <==> Store.Lookup(rows, issuerName, userId).Ok?
    ensures r.Ok? ==> r.value == Store.Lookup(rows, issuerName, userId).value.issuerAccessToken
    ensures r.Err? ==> r.error == CredentialRequestDataNotFound("The " + issuerName + " was not found")
  {
    var requestData :- Store.Lookup(rows, issuerName, userId);
    Ok(requestData.issuerAccessToken)
  }

  function CredentialFetch(endpoint: string, accessToken: string, jwt: string): Request
  {
    Request(Post, endpoint, [(CONTENT_TYPE, CONTENT_TYPE_APPLICATION_JSON), BearerHeader(accessToken)],
            CredentialRequest(CredentialRequestFor(jwt)))
  }

  function CredentialForward(url: string, token: string, credential: string): Request
  {
    Request(Post, url, [(CONTENT_TYPE, CONTENT_TYPE_APPLICATION_JSON), BearerHeader(token)],
            Text("{\"credential\":\"" + credential + "\"}"))
  }

  // ---------------------------------------------------------------------
  // getCredentialIssuerMetadata, step by step

  /** The tokens to keep for a pair. */
  datatype Saved = Saved(issuerName: string, issuerNonce: string, issuerAccessToken: string, userId: string)

  /** What one run of `getCredentialIssuerMetadata` does: the requests it
      sends in order, the metadata it writes for an issuer, the tokens it
      saves, and how it ends. The functions below follow the run; `start` is
      the number of requests the transport had sent before it, so that the
      request sent after `sent` is answered by `respond(start + |sent|, _)`. */
  datatype Handshake = Handshake(
    sent: seq<Request>,
    metadataWrite: Option<(string, string)>,
    saved: Option<Saved>,
    result: Result<()>)

  /** The token exchange, after the metadata has been written: post the
      form to the token endpoint and read `[c_nonce, access_token]`. */
  function Exchange(start: nat, sent: seq<Request>, write: (string, string), endpoint: string,
                    offer: CredentialOffer, userId: string, respond: Responder, codec: VcCodec): (h: Handshake)
    ensures h.sent == sent + [TokenRequest(endpoint, offer)] && h.metadataWrite == Some(write)
    ensures h.result.Ok? <==> h.saved.Some?
    ensures h.saved.Some? ==> h.saved.value.issuerName == offer.credentialIssuer && h.saved.value.userId == userId
  {
    var request := TokenRequest(endpoint, offer);
    var response := respond(start + |sent|, request);
    var json := if response.Ok? then codec.readTree(response.value) else Err(response.error);
    var tokens := if json.Ok? then NonceAndToken(json.value) else Err(json.error);
    if tokens.Err? then Handshake(sent + [request], Some(write), None, Err(tokens.error))
    else
      Handshake(sent + [request], Some(write),
                Some(Saved(offer.credentialIssuer, tokens.value.0, tokens.value.1, userId)), Ok(()))
  }

  /** The fallback path: fetch the metadata again, read it as a tree, write
      the tree, then take the token endpoint from its `credential_token`. */
  function Fallback(start: nat, sent: seq<Request>, offer: CredentialOffer, userId: string,
                    respond: Responder, codec: VcCodec): (h: Handshake)
    ensures |sent| < |h.sent| <= |sent| + 3 && h.sent[..|sent|] == sent
    ensures h.result.Ok? <==> h.saved.Some?
    ensures h.sent[|sent|] == MetadataFetch(offer)
    ensures h.saved.Some? ==> h.saved.value.issuerName == offer.credentialIssuer && h.saved.value.userId == userId
    ensures h.saved.Some? ==> h.metadataWrite.Some? && h.metadataWrite.value.0 == offer.credentialIssuer
  {
    var fetch := MetadataFetch(offer);
    var response := respond(start + |sent|, fetch);
    var tree := if response.Ok? then codec.readTree(response.value) else Err(response.error);
    if tree.Err? then Handshake(sent + [fetch], None, None, Err(tree.error))
    else
      var write := (offer.credentialIssuer, codec.renderTree(tree.value));
      var endpoint := Field(tree.value, CREDENTIAL_TOKEN_FIELD);
      if endpoint.Err? then Handshake(sent + [fetch], Some(write), None, Err(endpoint.error))
      else Exchange(start, sent + [fetch], write, endpoint.value, offer, userId, respond, codec)
  }

  /** After the offer is read: fetch the metadata and decode it strictly;
      only an unrecognised property sends the run down the fallback path. */
  function AfterOffer(start: nat, sent: seq<Request>, offer: CredentialOffer, userId: string,
                      respond: Responder, codec: VcCodec): (h: Handshake)
    ensures |sent| < |h.sent| <= |sent| + 3 && h.sent[..|sent|] == sent
    ensures h.result.Ok? <==> h.saved.Some?
    ensures h.sent[|sent|] == MetadataFetch(offer)
    ensures h.saved.Some? ==> h.saved.value.issuerName == offer.credentialIssuer && h.saved.value.userId == userId
    ensures h.saved.Some? ==> h.metadataWrite.Some? && h.metadataWrite.value.0 == offer.credentialIssuer
  {
    var fetch := MetadataFetch(offer);
    var response := respond(start + |sent|, fetch);
    if response.Err? then Handshake(sent + [fetch], None, None, Err(response.error))
    else
      var metadata := codec.decodeMetadata(response.value);
      if metadata.Ok? then
        Exchange(start, sent + [fetch], (offer.credentialIssuer, codec.renderMetadata(metadata.value)),
                 metadata.value.credentialToken, offer, userId, respond, codec)
      else if metadata.error == UnrecognizedProperty then Fallback(start, sent + [fetch], offer, userId, respond, codec)
      else Handshake(sent + [fetch], None, None, Err(metadata.error))
  }

  /** `getCredentialIssuerMetadata` from the bearer token and the wallet
      link. */
  function StartIssuance(start: nat, link: string, token: string, respond: Responder, codec: VcCodec): (h: Handshake)
    ensures h.result.Ok? <==> h.saved.Some?
    ensures |h.sent| <= 4
    ensures codec.subjectOf(token).Err? ==> h == Handshake([], None, None, Err(codec.subjectOf(token).error))
    ensures h.sent != [] ==> OfferUri(link).Ok? && h.sent[0] == OfferFetch(OfferUri(link).value)
  {
    var userId := codec.subjectOf(token);
    var uri := if userId.Ok? then OfferUri(link) else Err(userId.error);
    if uri.Err? then Handshake([], None, None, Err(uri.error))
    else
      var fetch := OfferFetch(uri.value);
      var response := respond(start, fetch);
      var offer := if response.Ok? then codec.decodeOffer(response.value) else Err(response.error);
      if offer.Err? then Handshake([fetch], None, None, Err(offer.error))
      else AfterOffer(start, [fetch], offer.value, userId.value, respond, codec)
  }

  /** A run that succeeds saves, for the bearer's subject, the `c_nonce` and
      access token of the answer to its last request, which is the token
      form posted to the token endpoint. */
  lemma StartIssuanceSaves(start: nat, link: string, token: string, respond: Responder, codec: VcCodec)
    ensures var h := StartIssuance(start, link, token, respond, codec);
      h.result.Ok? ==>
        && h.saved.Some? && |h.sent| >= 3 && codec.subjectOf(token) == Ok(h.saved.value.userId)
        && var last := h.sent[|h.sent| - 1];
        && var answer := respond(start + |h.sent| - 1, last);
        && last.verb == Post && last.body.Form? && |last.body.fields| == 2
        && last.body.fields[0] == (GRANT_TYPE_FIELD, Some(PRE_AUTH_CODE_GRANT_TYPE))
        && answer.Ok? && codec.readTree(answer.value).Ok?
        && NonceAndToken(codec.readTree(answer.value).value)
             == Ok((h.saved.value.issuerNonce, h.saved.value.issuerAccessToken))
  {
  }

  /** The metadata of the issuer is written before the token request is
      sent, and tokens are saved only for the issuer whose metadata was
      written. */
  lemma MetadataWrittenBeforeExchange(start: nat, link: string, token: string, respond: Responder, codec: VcCodec)
    ensures var h := StartIssuance(start, link, token, respond, codec);
      && (h.saved.Some? ==> h.metadataWrite.Some? && h.metadataWrite.value.0 == h.saved.value.issuerName)
      && (h.sent != [] && h.sent[|h.sent| - 1].verb == Post ==> h.metadataWrite.Some?)
  {
  }

  /** The strict path: when the metadata decodes, its text is written, its
      `credentialToken` is the token endpoint, and the metadata is fetched
      once. */
  lemma StrictPath(start: nat, link: string, token: string, respond: Responder, codec: VcCodec,
                   userId: string, uri: string, offer: CredentialOffer, metadata: CredentialIssuerMetadata)
    requires codec.subjectOf(token) == Ok(userId) && OfferUri(link) == Ok(uri)
    requires respond(start, OfferFetch(uri)).Ok? && codec.decodeOffer(respond(start, OfferFetch(uri)).value) == Ok(offer)
    requires respond(start + 1, MetadataFetch(offer)).Ok?
    requires codec.decodeMetadata(respond(start + 1, MetadataFetch(offer)).value) == Ok(metadata)
    ensures var h := StartIssuance(start, link, token, respond, codec);
      && h.sent == [OfferFetch(uri), MetadataFetch(offer), TokenRequest(metadata.credentialToken, offer)]
      && h.metadataWrite == Some((offer.credentialIssuer, codec.renderMetadata(metadata)))
  {
  }

  /** The fallback path runs on an unrecognised property only: the metadata
      is fetched a second time, the second answer is read as a tree and
      written, and the token endpoint is its `credential_token`, a missing
      one ending the run after the write and before any token request. */
  lemma FallbackPath(start: nat, link: string, token: string, respond: Responder, codec: VcCodec,
                     userId: string, uri: string, offer: CredentialOffer, tree: JsonObject)
    requires codec.subjectOf(token) == Ok(userId) && OfferUri(link) == Ok(uri)
    requires respond(start, OfferFetch(uri)).Ok? && codec.decodeOffer(respond(start, OfferFetch(uri)).value) == Ok(offer)
    requires respond(start + 1, MetadataFetch(offer)).Ok?
    requires codec.decodeMetadata(respond(start + 1, MetadataFetch(offer)).value) == Err(UnrecognizedProperty)
    requires respond(start + 2, MetadataFetch(offer)).Ok?
    requires codec.readTree(respond(start + 2, MetadataFetch(offer)).value) == Ok(tree)
    ensures var h := StartIssuance(start, link, token, respond, codec);
      && |h.sent| >= 3 && h.sent[..3] == [OfferFetch(uri), MetadataFetch(offer), MetadataFetch(offer)]
      && h.metadataWrite == Some((offer.credentialIssuer, codec.renderTree(tree)))
      && (CREDENTIAL_TOKEN_FIELD in tree ==> h.sent[3..] == [TokenRequest(tree[CREDENTIAL_TOKEN_FIELD], offer)])
      && (CREDENTIAL_TOKEN_FIELD !in tree ==> |h.sent| == 3 && h.saved.None? && h.result == Err(NullPointer))
  {
  }

  /** Any other decoding failure ends the run: no second fetch, no write,
      nothing saved. */
  lemma OtherMetadataFailure(start: nat, link: string, token: string, respond: Responder, codec: VcCodec,
                             userId: string, uri: string, offer: CredentialOffer, e: Error)
    requires codec.subjectOf(token) == Ok(userId) && OfferUri(link) == Ok(uri)
    requires respond(start, OfferFetch(uri)).Ok? && codec.decodeOffer(respond(start, OfferFetch(uri)).value) == Ok(offer)
    requires respond(start + 1, MetadataFetch(offer)).Ok?
    requires codec.decodeMetadata(respond(start + 1, MetadataFetch(offer)).value) == Err(e) && e != UnrecognizedProperty
    ensures StartIssuance(start, link, token, respond, codec)
         == Handshake([OfferFetch(uri), MetadataFetch(offer)], None, None, Err(e))
  {
  }

  // ---------------------------------------------------------------------
  // getVerifiableCredential, step by step

  /** What one run of `getVerifiableCredential` does: the requests it sends,
      the nonce it rotates for a pair (issuer name, new nonce, user), and how
      it ends. */
  datatype Issuance = Issuance(
    sent: seq<Request>,
    rotation: Option<(string, string, string)>,
    result: Result<()>)

  /** The run from the credential request on: decode the answer, rotate the
      nonce, then forward the credential with the caller's own bearer token. */
  function AfterCredential(start: nat, fetch: Request, request: CredentialRequestDto, userId: string,
                           forwardUrl: string, token: string, respond: Responder, codec: VcCodec): (i: Issuance)
    ensures 1 <= |i.sent| <= 2 && i.sent[0] == fetch
    ensures i.rotation.Some? <==> |i.sent| == 2
    ensures i.result.Ok? ==> i.rotation.Some?
    ensures i.rotation.Some? ==> i.rotation.value.0 == request.issuerName && i.rotation.value.2 == userId
  {
    var response := respond(start, fetch);
    var answer := if response.Ok? then codec.decodeCredentialResponse(response.value) else Err(response.error);
    if answer.Err? then Issuance([fetch], None, Err(answer.error))
    else
      var forward := CredentialForward(forwardUrl, token, answer.value.credential);
      var forwarded := respond(start + 1, forward);
      Issuance([fetch, forward], Some((request.issuerName, answer.value.cNonce, userId)),
               if forwarded.Ok? then Ok(()) else Err(forwarded.error))
  }

  /** `getVerifiableCredential` over the kept rows and issuer metadata, at
      time `now`. `key` is the key `createJwt` sets up (service matrix, key
      generation, DID creation, JWK export and parsing), or the failure of
      that set-up, which happens before the nonce is looked up; signing
      follows the lookup. */
  function RequestCredential(start: nat, request: CredentialRequestDto, token: string, now: int, key: Result<nat>,
                             rows: Store.Table, metadata: map<string, string>, forwardUrl: string,
                             respond: Responder, codec: VcCodec): (i: Issuance)
    ensures |i.sent| <= 2
    ensures i.result.Ok? ==> i.rotation.Some? && |i.sent| == 2
    ensures i.rotation.Some? ==> i.rotation.value.0 == request.issuerName && codec.subjectOf(token) == Ok(i.rotation.value.2)
    ensures codec.subjectOf(token).Err? ==> i == Issuance([], None, Err(codec.subjectOf(token).error))
    ensures i.sent != [] ==> key.Ok? && codec.subjectOf(token).Ok?
                             && Store.Lookup(rows, request.issuerName, codec.subjectOf(token).value).Ok?
  {
    var userId := codec.subjectOf(token);
    var signingKey := if userId.Ok? then key else Err(userId.error);
    var claims := if signingKey.Ok? then ProofClaims(rows, request.issuerName, userId.value, now) else Err(signingKey.error);
    var jwt := if claims.Ok? then codec.sign(signingKey.value, ProofHeader(request.did), claims.value) else Err(claims.error);
    var accessToken := if jwt.Ok? then ExistentAccessToken(rows, request.issuerName, userId.value) else Err(jwt.error);
    var stored := if accessToken.Err? then Err(accessToken.error)
                  else if request.issuerName in metadata then Ok(metadata[request.issuerName])
                  else Err(IssuerNotFound(request.issuerName));
    var tree := if stored.Ok? then codec.readTree(stored.value) else Err(stored.error);
    var endpoint := if tree.Ok? then Field(tree.value, CREDENTIAL_ENDPOINT_FIELD) else Err(tree.error);
    if endpoint.Err? then Issuance([], None, Err(endpoint.error))
    else
      AfterCredential(start, CredentialFetch(endpoint.value, accessToken.value, jwt.value), request, userId.value,
                      forwardUrl, token, respond, codec)
  }

  /** Both lookups happen before any request is sent: without a record for
      the pair nothing is sent, nothing rotated, and the store's not-found
      error is the result, unless the key set-up failed before the lookup. */
  lemma LookupsBeforeRequests(start: nat, request: CredentialRequestDto, token: string, now: int, key: Result<nat>,
                              rows: Store.Table, metadata: map<string, string>, forwardUrl: string,
                              respond: Responder, codec: VcCodec, userId: string)
    requires codec.subjectOf(token) == Ok(userId)
    requires Store.Lookup(rows, request.issuerName, userId).Err?
    ensures RequestCredential(start, request, token, now, key, rows, metadata, forwardUrl, respond, codec)
         == Issuance([], None, if key.Err? then Err(key.error)
                               else Err(CredentialRequestDataNotFound("The " + request.issuerName + " was not found")))
  {
  }

  /** A failed key set-up, or a failed signature over the kept nonce, ends
      the run with that failure before any request is sent or any nonce is
      rotated. */
  lemma SigningBeforeRequests(start: nat, request: CredentialRequestDto, token: string, now: int, key: Result<nat>,
                              rows: Store.Table, metadata: map<string, string>, forwardUrl: string,
                              respond: Responder, codec: VcCodec, userId: string)
    requires codec.subjectOf(token) == Ok(userId)
    ensures key.Err? ==>
      RequestCredential(start, request, token, now, key, rows, metadata, forwardUrl, respond, codec)
        == Issuance([], None, Err(key.error))
    ensures key.Ok? && Store.Lookup(rows, request.issuerName, userId).Ok? ==>
      var signed := codec.sign(key.value, JwtHeader(PROOF_ALGORITHM, PROOF_TYPE, request.did),
                               JwtClaims(request.issuerName, now,
                                         Store.Lookup(rows, request.issuerName, userId).value.issuerNonce));
      signed.Err? ==>
        RequestCredential(start, request, token, now, key, rows, metadata, forwardUrl, respond, codec)
          == Issuance([], None, Err(signed.error))
  {
  }

  /** The credential request goes to the `credential_endpoint` of the kept
      metadata, with the kept access token as bearer and a proof signed over
      the ES256 header whose `kid` is the caller's DID and over claims whose
      audience is the issuer and whose nonce is the kept `c_nonce`. */
  lemma CredentialRequestShape(start: nat, request: CredentialRequestDto, token: string, now: int, key: Result<nat>,
                               rows: Store.Table, metadata: map<string, string>, forwardUrl: string,
                               respond: Responder, codec: VcCodec)
    ensures var i := RequestCredential(start, request, token, now, key, rows, metadata, forwardUrl, respond, codec);
      i.sent != [] ==>
        && codec.subjectOf(token).Ok?
        && var userId := codec.subjectOf(token).value;
        && var kept := Store.Lookup(rows, request.issuerName, userId);
        && kept.Ok? && request.issuerName in metadata
        && codec.readTree(metadata[request.issuerName]).Ok?
        && var tree := codec.readTree(metadata[request.issuerName]).value;
        && CREDENTIAL_ENDPOINT_FIELD in tree
        && key.Ok?
        && var signed := codec.sign(key.value, JwtHeader(PROOF_ALGORITHM, PROOF_TYPE, request.did),
                                    JwtClaims(request.issuerName, now, kept.value.issuerNonce));
        && signed.Ok?
        && i.sent[0] == CredentialFetch(tree[CREDENTIAL_ENDPOINT_FIELD], kept.value.issuerAccessToken, signed.value)
  {
  }

  /** The nonce is rotated exactly when the credential answer decodes, to
      its `c_nonce`, for the requested issuer and the bearer's subject; the
      credential is forwarded only then, as the second and last request. */
  lemma RotationBeforeForward(start: nat, request: CredentialRequestDto, token: string, now: int, key: Result<nat>,
                              rows: Store.Table, metadata: map<string, string>, forwardUrl: string,
                              respond: Responder, codec: VcCodec)
    ensures var i := RequestCredential(start, request, token, now, key, rows, metadata, forwardUrl, respond, codec);
      && |i.sent| <= 2
      && (i.rotation.Some? <==> |i.sent| == 2)
      && (i.rotation.Some? ==>
            var response := respond(start, i.sent[0]);
            && response.Ok? && codec.decodeCredentialResponse(response.value).Ok?
            && var answer := codec.decodeCredentialResponse(response.value).value;
            && i.rotation.value == (request.issuerName, answer.cNonce, codec.subjectOf(token).value)
            && i.sent[1] == CredentialForward(forwardUrl, token, answer.credential))
      && (i.result.Ok? ==> i.rotation.Some?)
  {
  }

  // ---------------------------------------------------------------------
  // The stores and the service

  /** `IssuerService`: the metadata text kept per issuer name. */
  class IssuerStore {
    var metadata: map<string, string>

    constructor ()
      ensures metadata == map[]
    {
      metadata := map[];
    }

    method UpsertIssuerData(issuerName: string, data: string)
      modifies this
      ensures metadata == old(metadata)[issuerName := data]
    {
      metadata := metadata[issuerName := data];
    }

    method GetMetadata(issuerName: string) returns (r: Result<string>)
      ensures r.Ok? <==> issuerName in metadata
      ensures r.Ok? ==> r.value == metadata[issuerName]
      ensures r.Err? ==> r.error == IssuerNotFound(issuerName)
    {
      if issuerName in metadata {
        r := Ok(metadata[issuerName]);
      } else {
        r := Err(IssuerNotFound(issuerName));
      }
    }
  }

  class VerifiableCredentialService {
    const walletDataBaseUrl: string
    /** The path of the wallet-data service that stores a credential. */
    const saveCredentialPath: string
    const codec: VcCodec
    const net: Transport
    const issuers: IssuerStore
    const requests: Store.CredentialRequestDataService

    constructor (walletDataBaseUrl: string, saveCredentialPath: string, codec: VcCodec, net: Transport,
                 issuers: IssuerStore, requests: Store.CredentialRequestDataService)
      ensures this.walletDataBaseUrl == walletDataBaseUrl && this.saveCredentialPath == saveCredentialPath
      ensures this.codec == codec && this.net == net && this.issuers == issuers && this.requests == requests
    {
      this.walletDataBaseUrl := walletDataBaseUrl;
      this.saveCredentialPath := saveCredentialPath;
      this.codec := codec;
      this.net := net;
      this.issuers := issuers;
      this.requests := requests;
    }

    /** `getAccessTokenAndNonce` and `getAccessTokenAndNonce1`, which differ
        only in where the endpoint comes from. */
    method AccessTokenAndNonce(endpoint: string, offer: CredentialOffer) returns (r: Result<(string, string)>)
      modifies net
      ensures net.sent == old(net.sent) + [TokenRequest(endpoint, offer)]
      ensures var response := net.respond(|old(net.sent)|, TokenRequest(endpoint, offer));
        var json := if response.Ok? then codec.readTree(response.value) else Err(response.error);
        r == if json.Ok? then NonceAndToken(json.value) else Err(json.error)
    {
      var response :- net.Send(TokenRequest(endpoint, offer));
      var json :- codec.readTree(response);
      r := NonceAndToken(json);
    }

    /** The token exchange and the save that follows it. */
    method ExchangeAndSave(ghost start: nat, ghost sent: seq<Request>, write: (string, string), endpoint: string,
                           offer: CredentialOffer, userId: string, freshId: Store.Uuid) returns (r: Result<()>)
      requires requests.Valid() && !Store.IdInUse(requests.rows, freshId)
      requires |net.sent| == start + |sent|
      modifies net, requests
      ensures requests.Valid()
      ensures var h := Exchange(start, sent, write, endpoint, offer, userId, net.respond, codec);
        && net.sent == old(net.sent) + [TokenRequest(endpoint, offer)]
        && requests.rows == (if h.saved.Some?
                             then Store.Upsert(old(requests.rows), offer.credentialIssuer, h.saved.value.issuerNonce,
                                               h.saved.value.issuerAccessToken, userId, freshId)
                             else old(requests.rows))
        && r == h.result
    {
      var tokens :- AccessTokenAndNonce(endpoint, offer);
      requests.SaveCredentialRequestData(offer.credentialIssuer, tokens.0, tokens.1, userId, freshId);
      r := Ok(());
    }

    /** The fallback path: re-fetch, read the tree, write it, exchange. */
    method FallbackAndSave(ghost start: nat, ghost sent: seq<Request>, offer: CredentialOffer, userId: string,
                           freshId: Store.Uuid) returns (r: Result<()>)
      requires requests.Valid() && !Store.IdInUse(requests.rows, freshId)
      requires |net.sent| == start + |sent|
      modifies net, issuers, requests
      ensures requests.Valid()
      ensures var h := Fallback(start, sent, offer, userId, net.respond, codec);
        && net.sent == old(net.sent) + h.sent[|sent|..]
        && issuers.metadata == (if h.metadataWrite.Some?
                                then old(issuers.metadata)[h.metadataWrite.value.0 := h.metadataWrite.value.1]
                                else old(issuers.metadata))
        && requests.rows == (if h.saved.Some?
                             then Store.Upsert(old(requests.rows), h.saved.value.issuerName, h.saved.value.issuerNonce,
                                               h.saved.value.issuerAccessToken, h.saved.value.userId, freshId)
                             else old(requests.rows))
        && r == h.result
    {
      var again :- net.Send(MetadataFetch(offer));
      var tree :- codec.readTree(again);
      var write := (offer.credentialIssuer, codec.renderTree(tree));
      issuers.UpsertIssuerData(write.0, write.1);
      var endpoint :- Field(tree, CREDENTIAL_TOKEN_FIELD);
      r := ExchangeAndSave(start, sent + [MetadataFetch(offer)], write, endpoint, offer, userId, freshId);
    }

    /** The run after the offer is read: fetch the metadata, decode it
        strictly, and take the fallback path on an unrecognised property. */
    method AfterOfferAndSave(ghost start: nat, ghost sent: seq<Request>, offer: CredentialOffer, userId: string,
                             freshId: Store.Uuid) returns (r: Result<()>)
      requires requests.Valid() && !Store.IdInUse(requests.rows, freshId)
      requires |net.sent| == start + |sent|
      modifies net, issuers, requests
      ensures requests.Valid()
      ensures var h := AfterOffer(start, sent, offer, userId, net.respond, codec);
        && net.sent == old(net.sent) + h.sent[|sent|..]
        && issuers.metadata == (if h.metadataWrite.Some?
                                then old(issuers.metadata)[h.metadataWrite.value.0 := h.metadataWrite.value.1]
                                else old(issuers.metadata))
        && requests.rows == (if h.saved.Some?
                             then Store.Upsert(old(requests.rows), h.saved.value.issuerName, h.saved.value.issuerNonce,
                                               h.saved.value.issuerAccessToken, h.saved.value.userId, freshId)
                             else old(requests.rows))
        && r == h.result
    {
      var response :- net.Send(MetadataFetch(offer));
      var metadata := codec.decodeMetadata(response);
      if metadata.Ok? {
        var write := (offer.credentialIssuer, codec.renderMetadata(metadata.value));
        issuers.UpsertIssuerData(write.0, write.1);
        r := ExchangeAndSave(start, sent + [MetadataFetch(offer)], write, metadata.value.credentialToken, offer,
                             userId, freshId);
      } else if metadata.error == UnrecognizedProperty {
        r := FallbackAndSave(start, sent + [MetadataFetch(offer)], offer, userId, freshId);
      } else {
        r := Err(metadata.error);
      }
    }

    /** `getCredentialIssuerMetadata`; `freshId` stands for the
        `UUID.randomUUID()` of a record the run may create. */
    method GetCredentialIssuerMetadata(link: string, token: string, freshId: Store.Uuid) returns (r: Result<()>)
      requires requests.Valid() && !Store.IdInUse(requests.rows, freshId)
      modifies net, issuers, requests
      ensures requests.Valid()
      ensures var h := StartIssuance(|old(net.sent)|, link, token, net.respond, codec);
        && net.sent == old(net.sent) + h.sent
        && issuers.metadata == (if h.metadataWrite.Some?
                                then old(issuers.metadata)[h.metadataWrite.value.0 := h.metadataWrite.value.1]
                                else old(issuers.metadata))
        && requests.rows == (if h.saved.Some?
                             then Store.Upsert(old(requests.rows), h.saved.value.issuerName, h.saved.value.issuerNonce,
                                               h.saved.value.issuerAccessToken, h.saved.value.userId, freshId)
                             else old(requests.rows))
        && r == h.result
    {
      ghost var start := |net.sent|;
      ghost var h := StartIssuance(start, link, token, net.respond, codec);
      var userId := codec.subjectOf(token);
      var uri := if userId.Ok? then OfferUri(link) else Err(userId.error);
      if uri.Err? {
        assert h == Handshake([], None, None, Err(uri.error));
        return Err(uri.error);
      }
      var offerJson := net.Send(OfferFetch(uri.value));
      var offer := if offerJson.Ok? then codec.decodeOffer(offerJson.value) else Err(offerJson.error);
      if offer.Err? {
        assert h == Handshake([OfferFetch(uri.value)], None, None, Err(offer.error));
        return Err(offer.error);
      }
      assert h == AfterOffer(start, [OfferFetch(uri.value)], offer.value, userId.value, net.respond, codec);
      r := AfterOfferAndSave(start, [OfferFetch(uri.value)], offer.value, userId.value, freshId);
    }

    /** `getVerifiableCredential`; `now` is `Instant.now()` and `key` the key
        `createJwt` generates, or the failure of generating it. */
    method GetVerifiableCredential(request: CredentialRequestDto, token: string, now: int, key: Result<nat>)
      returns (r: Result<()>)
      requires requests.Valid()
      modifies net, requests
      ensures requests.Valid()
      ensures var i := RequestCredential(|old(net.sent)|, request, token, now, key, old(requests.rows), issuers.metadata,
                                         walletDataBaseUrl + saveCredentialPath, net.respond, codec);
        && net.sent == old(net.sent) + i.sent
        && requests.rows == (if i.rotation.Some?
                             then Store.RotateNonce(old(requests.rows), i.rotation.value.0, i.rotation.value.2,
                                                    i.rotation.value.1)
                             else old(requests.rows))
        && r == i.result
    {
      ghost var start := |net.sent|;
      ghost var rows := requests.rows;
      var userId :- codec.subjectOf(token);
      var signingKey :- key;
      var claims :- ProofClaims(requests.rows, request.issuerName, userId, now);
      var jwt :- codec.sign(signingKey, ProofHeader(request.did), claims);
      // The second lookup reads the record the first one found.
      var accessToken := ExistentAccessToken(requests.rows, request.issuerName, userId);
      assert accessToken.Ok?;
      var storedMetadata :- issuers.GetMetadata(request.issuerName);
      var tree :- codec.readTree(storedMetadata);
      var endpoint :- Field(tree, CREDENTIAL_ENDPOINT_FIELD);
      assert RequestCredential(start, request, token, now, key, rows, issuers.metadata,
                               walletDataBaseUrl + saveCredentialPath, net.respond, codec)
          == AfterCredential(start, CredentialFetch(endpoint, accessToken.value, jwt), request, userId,
                             walletDataBaseUrl + saveCredentialPath, token, net.respond, codec);
      var response :- net.Send(CredentialFetch(endpoint, accessToken.value, jwt));
      var answer :- codec.decodeCredentialResponse(response);
      requests.SaveNewIssuerNonceByIssuerName(request.issuerName, answer.cNonce, userId);
      var forwarded :- net.Send(CredentialForward(walletDataBaseUrl + saveCredentialPath, token, answer.credential));
      r := Ok(());
    }
  }
}
