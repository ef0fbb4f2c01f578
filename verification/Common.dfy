/** Small shared vocabulary. */
module Common {

  const U64_MAX: nat := 0xFFFF_FFFF_FFFF_FFFF

  datatype Option<+T> = None | Some(value: T)

  datatype Result<+T, +E> = Ok(value: T) | Err(error: E)

  /** No two arguments collide. */
  ghost predicate Injective<T(!new), U(!new)>(f: T -> U) {
    forall x, y {:trigger f(x), f(y)} :: f(x) == f(y) ==> x == y
  }
}
