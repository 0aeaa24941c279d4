/** Shared vocabulary of the wallet backend model: optional values, results
    carrying the exceptions the services throw, and the protocol constants of
    es/in2/wallet/api/util/WalletUtils.kt. */
module Common {

  datatype Option<+T> = None | Some(value: T)

  /** The exceptions of the services, one constructor per exception class the
      core throws or lets escape. */
  datatype Error =
    | UsernameAlreadyExists(message: string)
    | EmailAlreadyExists(message: string)
    | NoSuchElement(message: string)
    | CredentialRequestDataNotFound(message: string)
    | IndexOutOfBounds(index: int)
    | IllegalArgument(message: string)
    | NullPointer
    | UnrecognizedProperty
    | TransportFailure
    | IssuerNotFound(issuerName: string)

  datatype Result<+T> = Ok(value: T) | Err(error: Error) {
    predicate IsFailure() { Err? }

    function PropagateFailure<U>(): Result<U>
      requires Err?
    {
      Err(error)
    }

    function Extract(): T
      requires Ok?
    {
      value
    }
  }

  /** An octet, as Java's `byte` seen unsigned. */
  type Byte = x: int | 0 <= x < 256

  /** Format tag of a credential inside a presentation. */
  const JWT_VC: string := "jwt_vc"
  /** Format tag of the presentation itself. */
  const JWT_VP: string := "jwt_vp"
  /** Grant type of the pre-authorised code flow. */
  const PRE_AUTH_CODE_GRANT_TYPE: string := "urn:ietf:params:oauth:grant-type:pre-authorized_code"

  const CONTENT_TYPE: string := "Content-Type"
  const CONTENT_TYPE_APPLICATION_JSON: string := "application/json"
  const CONTENT_TYPE_URL_ENCODED_FORM: string := "application/x-www-form-urlencoded"
  const HEADER_AUTHORIZATION: string := "Authorization"
}
