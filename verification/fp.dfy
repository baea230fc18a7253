/** The two value-or-absent and success-or-failure containers the routing code
    takes from fp-ts, reduced to plain tagged variants. */
module Fp {

  /** fp-ts `Option`: `None` for absent, `Some` for a present value. */
  datatype Option<+T> = None | Some(value: T)

  /** fp-ts `Either`: `Left` carries a failure, `Right` a success. */
  datatype Either<+L, +R> = Left(left: L) | Right(right: R)
}
