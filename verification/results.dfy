/** Python exceptions raised by the modelled code, and a failure-compatible
    result type so that `:-` propagates them the way an uncaught exception
    propagates out of a call. */
module Results {

  /** The exception classes the modelled code can raise. */
  datatype Error =
    | KeyError        // unknown space token, missing wavenumber label
    | IndexError      // reading past the end of a list or tuple
    | ValueError      // explicit argument checks in the physics layer
    | BroadcastError  // numpy refuses an assignment between unequal shapes
    | AttributeError  // a transform strategy that was never installed

  datatype Result<+T> = Ok(value: T) | Err(error: Error) {

    predicate IsFailure() {
      Err?
    }

    function PropagateFailure<U>(): Result<U>
      requires Err?
    {
      Err(error)
    }

    function Extract(): T
      requires Ok?
    {
      value
    }
  }

  /** Python's `seq[i]`: negative indices count from the end, anything
      outside `[-|s|, |s|)` raises. */
  function PyAt<T>(s: seq<T>, i: int): (r: Result<T>)
    ensures 0 <= i < |s| ==> r == Ok(s[i])
    ensures -|s| <= i < 0 ==> r == Ok(s[|s| + i])
    ensures (i >= |s| || i < -|s|) <==> r == Err(IndexError)
  {
    if 0 <= i < |s| then Ok(s[i])
    else if -|s| <= i < 0 then Ok(s[|s| + i])
    else Err(IndexError)
  }
}
