/** Optional values and the failure-carrying result every parsing and evaluation step returns. */
module Wrappers {
  import opened Errors

  datatype Option<+T> = None | Some(value: T)

  /** Either a value or the error that the Java code raises as an IllegalArgumentException. */
  datatype Result<+T> = Ok(value: T) | Err(error: Error)

  /** Concatenation regrouped, for the proofs that rearrange stacks and texts. */
  lemma AppendAssoc<T>(a: seq<T>, b: seq<T>, c: seq<T>)
    ensures a + (b + c) == a + b + c
  {
  }
}
