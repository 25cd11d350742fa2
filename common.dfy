/** Small shared vocabulary: optional values, results and integer bounds. */
module Common {

  /** A value that may be missing; `None` also stands for a JavaScript `NaN`. */
  datatype Option<+T> = None | Some(value: T)

  /** The outcome of an operation that can be rejected. */
  datatype Result<+T, +E> = Ok(value: T) | Err(error: E)

  function Min(a: int, b: int): int { if a <= b then a else b }

  function Max(a: int, b: int): int { if a >= b then a else b }

  /** A nonempty sequence is its head in front of its tail, also inside a concatenation. */
  lemma HeadTail<T>(a: seq<T>, b: seq<T>)
    requires a != []
    ensures a == [a[0]] + a[1..]
    ensures a + b == [a[0]] + (a[1..] + b)
  {
  }
}
