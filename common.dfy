/** Small value types shared by every module of the model. */
module Common {

  datatype Option<+T> = None | Some(value: T)

  /** An exception the Python code would raise; the string says what it was raised on. */
  datatype Fault =
    | KeyError(key: string)
    | TypeError(operand: string)
    | AttributeError(operand: string)

  /** The value of an expression, or the exception evaluating it raises.
      Usable with `:-`, so that a raise propagates the way Python's does. */
  datatype Result<+T> = Ok(value: T) | Err(fault: Fault) {
    predicate IsFailure() { Err? }

    function PropagateFailure<U>(): Result<U>
      requires Err?
    {
      Err(fault)
    }

    function Extract(): T
      requires Ok?
    {
      value
    }
  }

  /** Python's `min` on two integers. */
  function Min(a: int, b: int): int
  {
    if a <= b then a else b
  }

  /** Python's slice `s[:n]` for n >= 0: the whole sequence when it is shorter. */
  function Take<T>(s: seq<T>, n: nat): (r: seq<T>)
    ensures |r| == Min(n, |s|)
    ensures r == s[..|r|]
  {
    if |s| <= n then s else s[..n]
  }
}
