/** Failure-carrying result types and facts about sequences shared by all modules. */
module Wrappers {

  datatype Option<+T> = None | Some(value: T)

  datatype Result<+T, +E> = Ok(value: T) | Err(error: E)

  lemma Assoc<T>(a: seq<T>, b: seq<T>, c: seq<T>)
    ensures a + b + c == a + (b + c)
  {
  }

  lemma Unit<T>(a: seq<T>)
    ensures a + [] == a && [] + a == a
  {
  }
}
