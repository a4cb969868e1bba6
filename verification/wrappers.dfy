/** Failure-compatible result types shared by every module of the model. */
module Wrappers {

  /** A value that may be absent: Python's `None` or a missing dictionary key. */
  datatype Option<+T> = None | Some(value: T) {
    function GetOr(default: T): T {
      match this
      case Some(v) => v
      case None => default
    }
  }

  /** The outcome of an operation that can raise in the source. */
  datatype Result<+R> = Ok(value: R) | Err(error: string) {
    predicate IsFailure() {
      Err?
    }

    function PropagateFailure<U>(): Result<U>
      requires Err?
    {
      Err(error)
    }

    function Extract(): R
      requires Ok?
    {
      value
    }
  }

  /** One reply of the external text-synthesis service: a parsed JSON value or a raised call. */
  datatype Reply<+J> = Answer(body: J) | CallFailed(reason: string)

  /** The reply to the `k`-th call of an oracle; calls past the supplied replies fail. */
  function ReplyAt<J>(oracle: seq<Reply<J>>, k: nat): Reply<J>
  {
    if k < |oracle| then oracle[k] else CallFailed("oracle exhausted")
  }
}
