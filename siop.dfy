/** The presentation side of the wallet (es/in2/wallet/wca/service/impl/
    SiopServiceImpl.kt): reading the scope out of a SIOP authentication
    request, building the presentation submission of section 6 of DIF
    Presentation Exchange 2.0.0 from a verifiable presentation, and posting
    the authentication response. */
module Siop {
  import opened Common
  import opened Text
  import opened Http

  /** A credential inside a presentation; only its id is read. */
  datatype Credential = Credential(id: Option<string>)

  /** What `VerifiablePresentation.fromString` yields, as far as it is read:
      the presentation id and its (nullable) list of credentials. */
  datatype Presentation = Presentation(id: Option<string>, verifiableCredential: Option<seq<Credential>>)

  /** `DescriptorMapping(format, id, path, path_nested)`. */
  datatype DescriptorMapping = DescriptorMapping(
    format: string,
    id: Option<string>,
    path: string,
    pathNested: Option<DescriptorMapping>)

  datatype PresentationSubmission = PresentationSubmission(
    descriptorMap: seq<DescriptorMapping>,
    definitionId: string,
    id: string)

  const DEFINITION_ID: string := "CustomerPresentationDefinition"
  const SUBMISSION_ID: string := "CustomerPresentationSubmission"

  // ---------------------------------------------------------------------
  // Descriptor chain

  /** JSON path of the credential at `index` in the presentation. */
  function CredentialPath(index: nat): string
  {
    "$.verifiableCredential[" + NatToString(index) + "]"
  }

  /** The descriptor built for one credential, with nothing nested. */
  function CredentialDescriptor(c: Credential, index: nat): DescriptorMapping
  {
    DescriptorMapping(JWT_VC, c.id, CredentialPath(index), None)
  }

  /** The nodes of a chain, outermost first. */
  function Nodes(m: Option<DescriptorMapping>): seq<DescriptorMapping>
  {
    match m
    case None => []
    case Some(d) => [d] + Nodes(d.pathNested)
  }

  /** The node at the end of a chain: the one with nothing nested. */
  function LastNode(m: DescriptorMapping): (last: DescriptorMapping)
    ensures last.pathNested == None
    ensures last in Nodes(Some(m))
  {
    match m.pathNested
    case None => m
    case Some(next) => LastNode(next)
  }

  /** `addCredentialDescriptorMap`: walks to the end of the chain and returns
      the LAST node with `descriptor` nested in it. The nodes above it are
      not re-wrapped, so they are dropped. */
  function AddCredentialDescriptorMap(chain: DescriptorMapping, descriptor: DescriptorMapping): (r: DescriptorMapping)
    ensures r == LastNode(chain).(pathNested := Some(descriptor))
  {
    if chain.pathNested.None? then chain.(pathNested := Some(descriptor))
    else AddCredentialDescriptorMap(chain.pathNested.value, descriptor)
  }

  /** The chain left in `credentialDescriptorMap` after the loop over the
      credentials `vcs`: none, the only descriptor, or the last two. There is
      a chain exactly when there is a credential, every node is a `jwt_vc`
      descriptor, and the chain always ends with the last credential. */
  function KeptChain(vcs: seq<Credential>): (chain: Option<DescriptorMapping>)
    ensures chain.None? <==> |vcs| == 0
    ensures forall d :: d in Nodes(chain) ==> d.format == JWT_VC
    ensures chain.Some? ==> LastNode(chain.value) == CredentialDescriptor(vcs[|vcs| - 1], |vcs| - 1)
  {
    var n := |vcs|;
    if n == 0 then None
    else
      var last := CredentialDescriptor(vcs[n - 1], n - 1);
      assert Nodes(Some(last)) == [last];
      if n == 1 then Some(last)
      else
        var first := CredentialDescriptor(vcs[n - 2], n - 2).(pathNested := Some(last));
        assert Nodes(Some(first)) == [first, last];
        Some(first)
  }

  /** `generateDescriptorMap` on an already parsed presentation: the root
      descriptor for the presentation with the credential chain nested in it.
      A presentation whose credential list is null fails (`!!`). */
  method GenerateDescriptorMap(vp: Presentation) returns (r: Result<DescriptorMapping>)
    ensures r.Err? <==> vp.verifiableCredential.None?
    ensures r.Err? ==> r.error == NullPointer
    ensures r.Ok? ==> r.value.format == JWT_VP && r.value.id == vp.id && r.value.path == "$"
    ensures r.Ok? ==> r.value.pathNested == KeptChain(vp.verifiableCredential.value)
  {
    if vp.verifiableCredential.None? {
      return Err(NullPointer);
    }
    var vcs := vp.verifiableCredential.value;
    var chain: Option<DescriptorMapping> := None;
    var index := 0;
    while index < |vcs|
      invariant 0 <= index <= |vcs|
      invariant chain == KeptChain(vcs[..index])
    {
      var descriptor := CredentialDescriptor(vcs[index], index);
      if chain.None? {
        chain := Some(descriptor);
      } else {
        chain := Some(AddCredentialDescriptorMap(chain.value, descriptor));
      }
      index := index + 1;
    }
    assert vcs[..index] == vcs;
    r := Ok(DescriptorMapping(JWT_VP, vp.id, "$", chain));
  }

  /** For two or more credentials the chain holds exactly two nodes, the
      descriptors of the last two credentials in order; the comment on
      `addCredentialDescriptorMap` promises one node per credential. */
  lemma ChainHoldsLastTwo(vcs: seq<Credential>)
    requires |vcs| >= 2
    ensures |Nodes(KeptChain(vcs))| == 2
    ensures Nodes(KeptChain(vcs))[0].format == JWT_VC
    ensures Nodes(KeptChain(vcs))[0].path == CredentialPath(|vcs| - 2)
    ensures Nodes(KeptChain(vcs))[0].id == vcs[|vcs| - 2].id
    ensures Nodes(KeptChain(vcs))[1] == CredentialDescriptor(vcs[|vcs| - 1], |vcs| - 1)
  {
    var n := |vcs|;
    var last := CredentialDescriptor(vcs[n - 1], n - 1);
    assert Nodes(Some(last)) == [last];
  }

  /** The chain has min(N, 2) nodes: one per credential only for N <= 2;
      no credential leaves no chain, one leaves its own descriptor. */
  lemma ChainLength(vcs: seq<Credential>)
    ensures |Nodes(KeptChain(vcs))| == if |vcs| < 2 then |vcs| else 2
    ensures |vcs| == 0 ==> KeptChain(vcs) == None
    ensures |vcs| == 1 ==> Nodes(KeptChain(vcs)) == [CredentialDescriptor(vcs[0], 0)]
  {
    if |vcs| == 1 {
      assert Nodes(Some(CredentialDescriptor(vcs[0], 0))) == [CredentialDescriptor(vcs[0], 0)];
    } else if |vcs| >= 2 {
      ChainHoldsLastTwo(vcs);
    }
  }

  /** With three or more credentials, no descriptor in the submission points
      at the first credential: a verifier locating credentials by path cannot
      find it. */
  lemma FirstCredentialUnreachable(vcs: seq<Credential>)
    requires |vcs| >= 3
    ensures forall d :: d in Nodes(KeptChain(vcs)) ==> d.path != CredentialPath(0)
  {
    var n := |vcs|;
    ChainHoldsLastTwo(vcs);
    var nodes := Nodes(KeptChain(vcs));
    forall d | d in nodes
      ensures d.path != CredentialPath(0)
    {
      var k: nat := if d == nodes[0] then n - 2 else n - 1;
      assert d.path == CredentialPath(k);
      if d.path == CredentialPath(0) {
        CredentialPathInjective(k, 0);
      }
    }
  }

  /** Distinct positions have distinct paths. */
  lemma CredentialPathInjective(i: nat, j: nat)
    requires CredentialPath(i) == CredentialPath(j)
    ensures i == j
  {
    var prefix := "$.verifiableCredential[";
    var a, b := NatToString(i), NatToString(j);
    var p, q := CredentialPath(i), CredentialPath(j);
    assert p == prefix + a + "]";
    assert q == prefix + b + "]";
    assert p[|prefix|..|p| - 1] == a;
    assert q[|prefix|..|q| - 1] == b;
    NatToStringInjective(i, j);
  }

  /** The submission always holds exactly the root descriptor. */
  function Submission(root: DescriptorMapping): (s: PresentationSubmission)
    ensures s.descriptorMap == [root]
    ensures s.definitionId == DEFINITION_ID && s.id == SUBMISSION_ID
  {
    PresentationSubmission([root], DEFINITION_ID, SUBMISSION_ID)
  }

  // ---------------------------------------------------------------------
  // Form body of the authentication response

  /** The body posted to the relying party, built by concatenation with no
      encoding of the values. */
  function FormBody(state: string, vp: string, submissionJson: string): string
  {
    "state=" + state + "&vp_token=" + vp + "&presentation_submission=" + submissionJson
  }

  /** When no value holds a `&`, the body reads back as exactly the three
      fields, in order. */
  lemma FormBodyFields(state: string, vp: string, submissionJson: string)
    requires '&' !in state && '&' !in vp && '&' !in submissionJson
    ensures Split(FormBody(state, vp, submissionJson), '&')
         == ["state=" + state, "vp_token=" + vp, "presentation_submission=" + submissionJson]
  {
    var parts := ["state=" + state, "vp_token=" + vp, "presentation_submission=" + submissionJson];
    assert Join(parts[2..], '&') == parts[2];
    assert Join(parts[1..], '&') == parts[1] + "&" + parts[2];
    assert Join(parts, '&') == FormBody(state, vp, submissionJson);
    SplitJoin(parts, '&');
  }

  /** Every `&` inside a value adds a field: nothing is escaped. */
  lemma FormBodyFieldCount(state: string, vp: string, submissionJson: string)
    ensures |Split(FormBody(state, vp, submissionJson), '&')|
         == Count(state, '&') + Count(vp, '&') + Count(submissionJson, '&') + 3
  {
    var k1, k2, k3 := "state=", "vp_token=", "presentation_submission=";
    FormBodyKeys(state, vp, submissionJson, k1, k2, k3);
    SplitPieces(FormBody(state, vp, submissionJson), '&');
    CountConcat(k1, state, ['&'] + k2, vp, ['&'] + k3, submissionJson, '&');
    FieldNamesFree(k1, k2, k3);
    CountPositive(k1, '&');
    CountPositive(k2, '&');
    CountPositive(k3, '&');
    LeadingSeparator(k2, '&');
    LeadingSeparator(k3, '&');
  }

  /** The body with its field names bound to variables. */
  lemma FormBodyKeys(state: string, vp: string, submissionJson: string, k1: string, k2: string, k3: string)
    requires k1 == "state=" && k2 == "vp_token=" && k3 == "presentation_submission="
    ensures FormBody(state, vp, submissionJson) == k1 + state + (['&'] + k2) + vp + (['&'] + k3) + submissionJson
  {
  }

  /** No field name holds a `&`. */
  lemma FieldNamesFree(k1: string, k2: string, k3: string)
    requires k1 == "state=" && k2 == "vp_token=" && k3 == "presentation_submission="
    ensures '&' !in k1 && '&' !in k2 && '&' !in k3
  {
  }

  lemma LeadingSeparator(k: string, x: char)
    ensures Count([x] + k, x) == Count(k, x) + 1
  {
    assert ([x] + k)[1..] == k;
  }

  lemma CountConcat(a: string, b: string, c: string, d: string, e: string, f: string, x: char)
    ensures Count(a + b + c + d + e + f, x)
         == Count(a, x) + Count(b, x) + Count(c, x) + Count(d, x) + Count(e, x) + Count(f, x)
  {
    CountAppend(a, b, x);
    CountAppend(a + b, c, x);
    CountAppend(a + b + c, d, x);
    CountAppend(a + b + c + d, e, x);
    CountAppend(a + b + c + d + e, f, x);
  }

  // ---------------------------------------------------------------------
  // Scope claim

  const SCOPE_PREFIX: string := "scope=["
  const DEFAULT_SCOPE: seq<string> := ["VerifiableId"]

  /** `scope=[` followed by at least one character starts at `p`. */
  predicate ScopeOpensAt(s: string, p: nat)
  {
    p + 8 <= |s| && s[p..p + 7] == SCOPE_PREFIX
  }

  /** The regular expression `scope=\[([^]]+)]` matches at `p`: the prefix,
      at least one character other than `]`, then a `]`. */
  predicate ScopeMatchAt(s: string, p: nat)
  {
    p + 8 <= |s| && s[p..p + 7] == SCOPE_PREFIX && s[p + 7] != ']' && ']' in s[p + 8..]
  }

  function IndexOf(s: string, c: char): (i: nat)
    requires c in s
    ensures i < |s| && s[i] == c && c !in s[..i]
  {
    if s[0] == c then 0 else 1 + IndexOf(s[1..], c)
  }

  /** The bracket contents of the match at `p` (capture group 1): the
      greedy run of non-`]` characters. */
  function ScopeGroup(s: string, p: nat): (g: string)
    requires ScopeMatchAt(s, p)
    ensures |g| >= 1 && ']' !in g
    ensures p + 7 + |g| < |s| && g == s[p + 7..p + 7 + |g|] && s[p + 7 + |g|] == ']'
  {
    var t := s[p + 7..];
    assert ']' in t by {
      var j :| j in s[p + 8..] && j == ']';
      assert s[p + 8..] == t[1..];
    }
    var k := IndexOf(t, ']');
    t[..k]
  }

  /** `Regex.find` starting at `from`: the leftmost match. */
  function FirstScopeMatch(s: string, from: nat): (r: Option<nat>)
    ensures r.Some? ==> from <= r.value && ScopeMatchAt(s, r.value)
    ensures r.Some? ==> forall q: nat :: from <= q < r.value ==> !ScopeMatchAt(s, q)
    ensures r.None? ==> forall q: nat :: from <= q ==> !ScopeMatchAt(s, q)
    decreases |s| - from
  {
    if from + 8 > |s| then None
    else if ScopeMatchAt(s, from) then Some(from)
    else FirstScopeMatch(s, from + 1)
  }

  /** `extractScopeClaimOfTheSiopAuthRequest`. */
  function ExtractScope(request: string): (scopes: seq<string>)
    ensures |scopes| >= 1
    ensures forall i :: 0 <= i < |scopes| ==> ',' !in scopes[i] && ']' !in scopes[i]
  {
    match FirstScopeMatch(request, 0)
    case Some(p) =>
      var group := ScopeGroup(request, p);
      SplitPieces(group, ',');
      SplitKeepsAbsent(group, ',', ']');
      Split(group, ',')
    case None => DEFAULT_SCOPE
  }

  /** With a match, the scopes are the comma-separated pieces of the first
      match's bracket contents, untrimmed, empty pieces kept: joining them
      gives the contents back. */
  lemma ScopeOfFirstMatch(request: string, p: nat)
    requires ScopeMatchAt(request, p)
    requires forall q: nat :: q < p ==> !ScopeMatchAt(request, q)
    ensures ExtractScope(request) == Split(ScopeGroup(request, p), ',')
    ensures Join(ExtractScope(request), ',') == ScopeGroup(request, p)
    ensures forall i :: 0 <= i < |ExtractScope(request)| ==> ',' !in ExtractScope(request)[i]
  {
    var r := FirstScopeMatch(request, 0);
    assert r == Some(p);
    JoinSplit(ScopeGroup(request, p), ',');
    SplitPieces(ScopeGroup(request, p), ',');
  }

  /** Without a match the scope list is `["VerifiableId"]`. */
  lemma ScopeDefault(request: string)
    requires forall q: nat :: !ScopeMatchAt(request, q)
    ensures ExtractScope(request) == DEFAULT_SCOPE
  {
  }

  /** `scope=[` immediately followed by `]` does not match there, since the
      class needs one non-`]` character: a request in which every `scope=[`
      is closed at once, such as `scope=[]`, gets the default scope. */
  lemma EmptyBracketsMatchNothing(s: string)
    requires forall p: nat :: ScopeOpensAt(s, p) ==> s[p + 7] == ']'
    ensures ExtractScope(s) == DEFAULT_SCOPE
  {
    forall q: nat ensures !ScopeMatchAt(s, q) {
      if ScopeMatchAt(s, q) {
        assert ScopeOpensAt(s, q);
      }
    }
    ScopeDefault(s);
  }

  /** A request that opens with `scope=[` and closes the bracket after a
      non-empty run of non-`]` characters yields exactly that run's pieces. */
  lemma ScopeAtStartMatches(request: string, group: string, rest: string)
    requires |group| >= 1 && ']' !in group
    requires request == SCOPE_PREFIX + group + "]" + rest
    ensures ScopeMatchAt(request, 0)
  {
    var k := 7 + |group|;
    assert request[..7] == SCOPE_PREFIX;
    assert request[7] == group[0];
    assert request[k] == ']';
    assert request[8..][k - 8] == ']';
  }

  /** The first `c` of `a + [c] + b` is the one after `a` when `a` has none. */
  lemma {:induction false} IndexOfAfter(a: string, c: char, b: string)
    requires c !in a
    ensures IndexOf(a + [c] + b, c) == |a|
  {
    if |a| > 0 {
      assert (a + [c] + b)[1..] == a[1..] + [c] + b;
      IndexOfAfter(a[1..], c, b);
    }
  }

  lemma ScopeAtStartGroup(request: string, group: string, rest: string)
    requires |group| >= 1 && ']' !in group
    requires request == SCOPE_PREFIX + group + "]" + rest
    requires ScopeMatchAt(request, 0)
    ensures ScopeGroup(request, 0) == group
  {
    var t := request[7..];
    assert t == group + [']'] + rest;
    IndexOfAfter(group, ']', rest);
    assert t[..|group|] == group;
  }

  lemma ScopeAtStart(request: string, group: string, rest: string)
    requires |group| >= 1 && ']' !in group
    requires request == SCOPE_PREFIX + group + "]" + rest
    ensures ExtractScope(request) == Split(group, ',')
  {
    ScopeAtStartMatches(request, group, rest);
    ScopeAtStartGroup(request, group, rest);
    ScopeOfFirstMatch(request, 0);
  }

  lemma TwoScopesShape(request: string, group: string)
    requires request == "scope=[VerifiableId,Email]" && group == "VerifiableId,Email"
    ensures |group| >= 1 && ']' !in group
    ensures request == SCOPE_PREFIX + group + "]" + ""
  {
  }

  lemma TwoScopesPieces(group: string, first: string, second: string)
    requires group == "VerifiableId,Email" && first == "VerifiableId" && second == "Email"
    ensures Split(group, ',') == [first, second]
  {
    assert group == first + [','] + second;
    assert ',' !in first && ',' !in second;
    SplitAtFirst(first, ',', second);
    SplitNoSep(second, ',');
  }

  /** A request with two scopes keeps them in request order. */
  lemma TwoScopes(request: string)
    requires request == "scope=[VerifiableId,Email]"
    ensures ExtractScope(request) == ["VerifiableId", "Email"]
  {
    var group := "VerifiableId,Email";
    TwoScopesShape(request, group);
    ScopeAtStart(request, group, "");
    TwoScopesPieces(group, "VerifiableId", "Email");
  }

  // ---------------------------------------------------------------------
  // The service

  /** The part of a parsed SIOP authentication request that is read. */
  datatype AuthRequest = AuthRequest(redirectUri: string, state: string)

  /** A selectable credential summary, passed on verbatim. */
  datatype VcBasicData = VcBasicData(summary: string)

  /** `VcSelectorRequestDTO`: the prompt returned to the wallet front end. */
  datatype VcSelectorRequest = VcSelectorRequest(redirectUri: string, state: string, selectableVcList: seq<VcBasicData>)

  /** `VcSelectorResponseDTO`, as far as it is read. */
  datatype VcSelectorResponse = VcSelectorResponse(redirectUri: string, state: string)

  /** Library code the service calls: JWS parsing, the upstream signature
      check, `parseOpenIdConfig`, Jackson and the presentation parser. */
  datatype SiopCodec = SiopCodec(
    authRequestClaim: string -> Result<string>,
    verifyAuthRequest: string -> Result<()>,
    parseOpenIdConfig: string -> Result<AuthRequest>,
    decodeSelectableVcs: string -> Result<seq<VcBasicData>>,
    parsePresentation: string -> Result<Presentation>,
    writeSubmission: PresentationSubmission -> string)

  function AuthRequestFetch(uri: string): Request
  {
    Request(Get, uri, [], NoBody)
  }

  function SelectableVcsLookup(url: string, token: string, scopes: seq<string>): Request
  {
    Request(Post, url, [(CONTENT_TYPE, CONTENT_TYPE_APPLICATION_JSON), BearerHeader(token)], SelectableVcsQuery(scopes))
  }

  function AuthenticationResponse(redirectUri: string, body: string): Request
  {
    Request(Post, redirectUri, [(CONTENT_TYPE, CONTENT_TYPE_URL_ENCODED_FORM)], Text(body))
  }

  /** What `processSiopAuthenticationRequest` does, when the transport had
      sent `start` requests before it: the requests it sends and its result. */
  function ProcessRun(start: nat, request: string, token: string, lookupUrl: string, respond: Responder,
                      codec: SiopCodec): (run: (seq<Request>, Result<VcSelectorRequest>))
    ensures |run.0| <= 1
    ensures run.0 == [] <==> codec.parseOpenIdConfig(request).Err?
    ensures run.0 == [] ==> run.1 == Err(codec.parseOpenIdConfig(request).error)
    ensures run.0 != [] ==> run.0[0].verb == Post && run.0[0].url == lookupUrl
                            && BearerHeader(token) in run.0[0].headers
    ensures run.1.Ok? ==> run.0 != [] && respond(start, run.0[0]).Ok?
  {
    var parsed := codec.parseOpenIdConfig(request);
    if parsed.Err? then ([], Err(parsed.error))
    else
      var lookup := SelectableVcsLookup(lookupUrl, token, ExtractScope(request));
      var response := respond(start, lookup);
      var vcs := if response.Ok? then codec.decodeSelectableVcs(response.value) else Err(response.error);
      ([lookup], if vcs.Ok? then Ok(VcSelectorRequest(parsed.value.redirectUri, parsed.value.state, vcs.value))
                 else Err(vcs.error))
  }

  /** What `getSiopAuthenticationRequest` does: fetch, verify, take the claim,
      then process it. */
  function GetRun(start: nat, uri: string, token: string, lookupUrl: string, respond: Responder,
                  codec: SiopCodec): (run: (seq<Request>, Result<VcSelectorRequest>))
    ensures 1 <= |run.0| <= 2 && run.0[0] == AuthRequestFetch(uri)
    ensures run.1.Ok? ==> |run.0| == 2 && respond(start, run.0[0]).Ok?
                          && codec.verifyAuthRequest(respond(start, run.0[0]).value).Ok?
    ensures |run.0| == 2 ==> run.0[1].verb == Post && run.0[1].url == lookupUrl
  {
    var fetch := AuthRequestFetch(uri);
    var jws := respond(start, fetch);
    var verified := if jws.Err? then Err(jws.error) else codec.verifyAuthRequest(jws.value);
    var claim := if verified.Err? then Err(verified.error) else codec.authRequestClaim(jws.value);
    if claim.Err? then ([fetch], Err(claim.error))
    else
      var processed := ProcessRun(start + 1, claim.value, token, lookupUrl, respond, codec);
      ([fetch] + processed.0, processed.1)
  }

  /** The selectable credentials are looked up once, with the caller's bearer
      token and the scopes of the request, and only for a request that
      parses; the prompt carries the request's redirect URI and state and the
      credentials returned, in order. */
  lemma ProcessLookup(start: nat, request: string, token: string, lookupUrl: string, respond: Responder,
                      codec: SiopCodec)
    ensures var run := ProcessRun(start, request, token, lookupUrl, respond, codec);
      && (run.0 != [] <==> codec.parseOpenIdConfig(request).Ok?)
      && (run.0 != [] ==> run.0 == [Request(Post, lookupUrl, [(CONTENT_TYPE, CONTENT_TYPE_APPLICATION_JSON),
                                                              (HEADER_AUTHORIZATION, "Bearer " + token)],
                                            SelectableVcsQuery(ExtractScope(request)))])
      && (run.1.Ok? ==>
            && codec.parseOpenIdConfig(request).Ok?
            && run.1.value.redirectUri == codec.parseOpenIdConfig(request).value.redirectUri
            && run.1.value.state == codec.parseOpenIdConfig(request).value.state
            && respond(start, run.0[0]).Ok?
            && codec.decodeSelectableVcs(respond(start, run.0[0]).value) == Ok(run.1.value.selectableVcList))
  {
  }

  /** A request that fails verification, or whose claim cannot be read, is
      not processed: only the fetch is sent. Otherwise the claim is
      processed, as the next request. */
  lemma VerificationGuardsProcessing(start: nat, uri: string, token: string, lookupUrl: string, respond: Responder,
                                     codec: SiopCodec)
    ensures var run := GetRun(start, uri, token, lookupUrl, respond, codec);
      var jws := respond(start, AuthRequestFetch(uri));
      && run.0[0] == AuthRequestFetch(uri)
      && ((jws.Err? || codec.verifyAuthRequest(jws.value).Err? || codec.authRequestClaim(jws.value).Err?)
            ==> run.0 == [AuthRequestFetch(uri)] && run.1.Err?)
      && ((jws.Ok? && codec.verifyAuthRequest(jws.value).Ok? && codec.authRequestClaim(jws.value).Ok?)
            ==> run == ([AuthRequestFetch(uri)] + ProcessRun(start + 1, codec.authRequestClaim(jws.value).value,
                                                             token, lookupUrl, respond, codec).0,
                        ProcessRun(start + 1, codec.authRequestClaim(jws.value).value,
                                   token, lookupUrl, respond, codec).1))
  {
  }

  class SiopService {
    const walletDataBaseUrl: string
    /** The path of the wallet-data service that lists selectable
        credentials. */
    const selectableVcsPath: string
    const codec: SiopCodec
    const net: Transport

    constructor (walletDataBaseUrl: string, selectableVcsPath: string, codec: SiopCodec, net: Transport)
      ensures this.walletDataBaseUrl == walletDataBaseUrl && this.selectableVcsPath == selectableVcsPath
      ensures this.codec == codec && this.net == net
    {
      this.walletDataBaseUrl := walletDataBaseUrl;
      this.selectableVcsPath := selectableVcsPath;
      this.codec := codec;
      this.net := net;
    }

    /** `processSiopAuthenticationRequest`: parse the request, look up the
        credentials matching its scopes, return the selection prompt. */
    method ProcessSiopAuthenticationRequest(request: string, token: string) returns (r: Result<VcSelectorRequest>)
      modifies net
      ensures var run := ProcessRun(|old(net.sent)|, request, token, walletDataBaseUrl + selectableVcsPath,
                                    net.respond, codec);
        net.sent == old(net.sent) + run.0 && r == run.1
    {
      var parsed :- codec.parseOpenIdConfig(request);
      var scopes := ExtractScope(request);
      var response :- net.Send(SelectableVcsLookup(walletDataBaseUrl + selectableVcsPath, token, scopes));
      var vcs :- codec.decodeSelectableVcs(response);
      r := Ok(VcSelectorRequest(parsed.redirectUri, parsed.state, vcs));
    }

    /** `getSiopAuthenticationRequest`: fetch the request as a JWS, verify
        it, take its `auth_request` claim and process that. */
    method GetSiopAuthenticationRequest(uri: string, token: string) returns (r: Result<VcSelectorRequest>)
      modifies net
      ensures var run := GetRun(|old(net.sent)|, uri, token, walletDataBaseUrl + selectableVcsPath,
                                net.respond, codec);
        net.sent == old(net.sent) + run.0 && r == run.1
    {
      var jws :- net.Send(AuthRequestFetch(uri));
      var verified :- codec.verifyAuthRequest(jws);
      var claim :- codec.authRequestClaim(jws);
      r := ProcessSiopAuthenticationRequest(claim, token);
    }

    /** `sendAuthenticationResponse`: build the submission for `vp` and post
        `state`, `vp_token` and `presentation_submission` to the redirect URI
        of the selection, returning the raw response. */
    method SendAuthenticationResponse(selection: VcSelectorResponse, vp: string) returns (r: Result<string>)
      modifies net
      ensures var parsed := codec.parsePresentation(vp);
        && ((parsed.Err? || parsed.value.verifiableCredential.None?) ==> r.Err? && net.sent == old(net.sent))
        && (parsed.Ok? && parsed.value.verifiableCredential.Some? ==>
              var root := DescriptorMapping(JWT_VP, parsed.value.id, "$", KeptChain(parsed.value.verifiableCredential.value));
              var post := AuthenticationResponse(selection.redirectUri,
                                                 FormBody(selection.state, vp, codec.writeSubmission(Submission(root))));
              net.sent == old(net.sent) + [post] && r == net.respond(|old(net.sent)|, post))
    {
      var presentation :- codec.parsePresentation(vp);
      var descriptorMap :- GenerateDescriptorMap(presentation);
      var submissionJson := codec.writeSubmission(Submission(descriptorMap));
      var formData := FormBody(selection.state, vp, submissionJson);
      r := net.Send(AuthenticationResponse(selection.redirectUri, formData));
    }
  }
}
