/** The HTTP facade the services call (`ApplicationUtils.getRequest` and
    `postRequest`, whose code is not part of this model) and the wire
    payloads they send. A transport records every request it is handed, in
    order, and answers each with a response that depends on the request and
    on how many requests were sent before it: the body on a 2xx answer,
    TransportFailure otherwise. */
module Http {
  import opened Common

  datatype Method = Get | Post

  type Header = (string, string)

  /** `ProofDTO(proof_type, jwt)`. */
  datatype Proof = Proof(proofType: string, jwt: string)

  /** `CredentialRequestBodyDTO(format, proof)`. */
  datatype CredentialRequestBody = CredentialRequestBody(format: string, proof: Proof)

  /** What a request carries. Bodies that the services build by string
      concatenation are `Text`; bodies that a library serialises are kept as
      the value that is serialised. */
  datatype Body =
    | NoBody
    | Text(text: string)
    | Form(fields: seq<(string, Option<string>)>)
    | SelectableVcsQuery(vcTypes: seq<string>)
    | CredentialRequest(request: CredentialRequestBody)

  datatype Request = Request(verb: Method, url: string, headers: seq<Header>, body: Body)

  function BearerHeader(token: string): Header
  {
    (HEADER_AUTHORIZATION, "Bearer " + token)
  }

  /** The remote side: the answer to the request sent as the n-th one
      (counting from 0). */
  type Responder = (nat, Request) -> Result<string>

  class Transport {
    /** Every request sent so far, oldest first. */
    var sent: seq<Request>
    const respond: Responder

    constructor (respond: Responder)
      ensures sent == [] && this.respond == respond
    {
      this.respond := respond;
      sent := [];
    }

    method Send(request: Request) returns (r: Result<string>)
      modifies this
      ensures sent == old(sent) + [request]
      ensures r == respond(|old(sent)|, request)
    {
      r := respond(|sent|, request);
      sent := sent + [request];
    }
  }
}
