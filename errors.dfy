/** Values and failures shared by every module of the model: Python's
    `None`-or-value, the HTTP methods of the requests it sends, and the
    exceptions the modelled code raises. */
module Errors {

  /** The HTTP methods of the requests the modelled code sends. */
  datatype Verb = Get | Post | Put | Delete

  /** A Python value that may be `None`. */
  datatype Option<+T> = None | Some(value: T)

  /** The outcome of a call that either returns `value` or raises `error`. */
  datatype Result<+T> = Ok(value: T) | Err(error: Error)

  /** Why a `ValueError` was raised. */
  datatype ValueReason =
    | NoVersionIdentifier                 // setup.py: no `__version__ =` line
    | SlugUnpack                          // `slug.rsplit("/", 1)` gave one piece, not two
    | NoTokenNorInstallation              // static-token session without a token
    | MissingCredentials                  // GitHub App id or private key missing
    | AccessTokenNotFetched(status: int)  // token exchange answered other than 201

  /** The exceptions raised by the modelled code. */
  datatype Error =
    | ValueError(reason: ValueReason)
    | IndexError            // indexing past the end of a list (`[1]`, `pop()`)
    | NotImplementedError   // a service type other than GitHub or GitLab
    | MalformedResponse     // a reply body that is not JSON of the expected shape
    | HttpError(status: int)  // `raise_for_status` on a 4xx or 5xx reply

  /** Python truthiness of an optional string: `None` and `""` are false. */
  predicate Truthy(s: Option<string>) {
    s.Some? && s.value != ""
  }
}
