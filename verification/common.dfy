/** Shared vocabulary of the export-table engine: optional values, the
    Python exceptions the engine can raise, and a failure-compatible
    result type that carries them. */
module Common {

  datatype Option<T> = None | Some(value: T)

  /** The exceptions the table builders let escape to their callers. */
  datatype Error =
    | ValueError   // a malformed year label (`split` unpacking, `int()`)
    | IndexError   // too few year columns, or a year missing from the totals table
    | KeyError(column: string)  // a column the data frame does not have

  datatype Result<T> = Ok(value: T) | Err(error: Error) {
    predicate IsFailure() { Err? }

    function PropagateFailure<U>(): Result<U>
      requires Err?
    {
      Err(error)
    }

    function Extract(): T
      requires Ok?
    {
      value
    }
  }

  /** No element occurs twice. */
  ghost predicate Distinct<T>(s: seq<T>) {
    forall i, j | 0 <= i < j < |s| :: s[i] != s[j]
  }

  /** Python's `s[:n]`: the first `n` elements, or all of them. */
  function Take<T>(s: seq<T>, n: nat): (r: seq<T>)
    ensures |r| == if n <= |s| then n else |s|
    ensures r == s[..|r|]
  {
    if n <= |s| then s[..n] else s
  }

  function Min(a: int, b: int): int {
    if a <= b then a else b
  }
}
