/** Option and Result, the failure-carrying values the model returns instead
    of raising Python exceptions. */
module Wrappers {

  datatype Option<+T> = None | Some(value: T)

  datatype Result<+R, +E> = Success(value: R) | Failure(error: E)
}

/** The exceptions `call_model` can end with, one constructor per cause. */
module Errors {

  datatype CallError =
    | MissingPromptKey   // KeyError: the prompt lacks "system" or "user"
    | MissingParamKey    // KeyError: dict.pop of a key that is not there
    | MissingEnvKey      // KeyError: an AWS variable is not set in os.environ
    | TransportError     // the endpoint or completion call raised before streaming
    | StreamError        // the endpoint's byte iterator raised before its end
    | Utf8Error          // UnicodeDecodeError on a complete frame line
    | JsonError          // json.loads failed, or the record has no choices[0].delta
    | JoinTypeError      // "".join met a None token (an explicit null content)
    | ResponseError      // the chunk builder produced no usable response
}
