module Wrappers {

  /** A pointer or iterator that may be missing. */
  datatype Option<+T> = None | Some(value: T)

  /** A returned value or the exception thrown instead. */
  datatype Result<+T, +E> = Ok(value: T) | Err(error: E)

  lemma NonEmptyHasMember<T>(s: seq<T>)
    ensures s != [] <==> exists x :: x in s
  {
    if s != [] {
      assert s[0] in s;
    }
  }
}
