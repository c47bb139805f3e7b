/** The exceptions the resume parser raises, and the text `str(e)` gives for
    each, which is what the wrapping stages put after their prefixes. */
module Errors {
  import opened Wrappers
  import PyRepr

  datatype Error =
    | ValueError(msg: string)
    | KeyError(key: string)
    | FileNotFoundError(msg: string)
    | AttributeError(msg: string)
    /** A plain `Exception`, as the wrapping stages raise it. */
    | Failure(msg: string)

  /** `str(e)`. A `KeyError` shows its argument as a string literal, which
      evaluates back to the key; the other exceptions show their message
      as it is. */
  function Message(e: Error): (r: string)
    ensures !e.KeyError? ==> r == e.msg
    ensures e.KeyError? ==> PyRepr.EvalStrLiteral(r) == Some(e.key)
  {
    match e
    case KeyError(key) => PyRepr.StrReprRoundTrip(key); PyRepr.StrRepr(key)
    case ValueError(msg) => msg
    case FileNotFoundError(msg) => msg
    case AttributeError(msg) => msg
    case Failure(msg) => msg
  }

  /** `raise Exception(prefix + str(e))`, as every wrapping stage does. */
  function Wrap(prefix: string, e: Error): (r: Error)
    ensures r.Failure? && r.msg == prefix + Message(e)
  {
    Failure(prefix + Message(e))
  }
}
