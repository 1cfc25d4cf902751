/**
 * The algebraic parameters of the kernels: a semiring for mxv and the
 * optional accumulate operator of the masked-accumulate-write protocol.
 */
module Algebra {
  import opened Sparse

  /**
   * A semiring: a multiply, an add and the additive identity (zero). The model
   * uses one scalar type for both operands and the result.
   */
  datatype Semiring<!T> = Semiring(mult: (T, T) -> T, add: (T, T) -> T, zero: T)

  /** An accumulate operator, or None for NoAccumulate. */
  type Accumulator<!T> = Option<(T, T) -> T>

  /** add folded from acc over s, left to right: add(...add(acc, s[0])..., s[|s|-1]). */
  function FoldAdd<T>(add: (T, T) -> T, acc: T, s: seq<T>): T
    decreases |s|
  {
    if s == [] then acc else add(FoldAdd(add, acc, s[..|s| - 1]), s[|s| - 1])
  }

  /** The arithmetic semiring over int: (times, plus, 0). */
  function ArithmeticSemiring(): Semiring<int> {
    Semiring((x: int, y: int) => x * y, (x: int, y: int) => x + y, 0)
  }

  /** The Plus accumulator over int. */
  function Plus(): (int, int) -> int {
    (x: int, y: int) => x + y
  }
}
