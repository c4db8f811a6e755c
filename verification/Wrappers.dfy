/** Result types shared by every module. */
module Wrappers {
  datatype Option<+T> = None | Some(value: T)

  /** How a call of the program ends: a value, a JSON-RPC error with its code, or a panic. */
  datatype Outcome<+T> = Ok(value: T) | Err(code: int) | Panic

  /** Two calls fail alike. */
  predicate FailAlike<A, B>(r: Outcome<A>, other: Outcome<B>) {
    (r.Panic? && other.Panic?) || (r.Err? && other.Err? && r.code == other.code)
  }
}
