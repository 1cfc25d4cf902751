/**
 * mxv on a small instance over the arithmetic semiring: A = {{1, 2, 0},
 * {0, 3, 0}, {0, 0, 0}} and u = {0, 10, 0}. Row 0 and row 1 overlap u at
 * index 1; row 2 is empty and contributes nothing.
 */
module MxvExamples {
  import opened Sparse
  import opened Algebra
  import opened Helpers
  import opened Mxv

  /** t holds 2 * 10 = 20 at row 0 and 3 * 10 = 30 at row 1; the empty row 2 contributes nothing. */
  lemma ArithmeticIntermediate()
    ensures Intermediate([[(0, 1), (1, 2)], [(1, 3)], []], [(1, 10)], ArithmeticSemiring(), 3) == [(0, 20), (1, 30)]
  {
    assert Products([(0, 1), (1, 2)], [(1, 10)], ArithmeticSemiring().mult) == [20];
    assert Products([(1, 3)], [(1, 10)], ArithmeticSemiring().mult) == [30];
  }

  /** With Plus accumulation into w = {1, 0, 5} and no mask, w becomes {21, 30, 5}. */
  lemma ArithmeticAccumulate()
    ensures AccumulateAndWrite([(0, 1), (2, 5)],
                               Intermediate([[(0, 1), (1, 2)], [(1, 3)], []], [(1, 10)], ArithmeticSemiring(), 3),
                               None, Some(Plus()), false)
            == [(0, 21), (1, 30), (2, 5)]
  {
    ArithmeticIntermediate();
    assert AccumulateAndWrite([(0, 1), (2, 5)], [(0, 20), (1, 30)], None, Some(Plus()), false)
           == [(0, 21), (1, 30), (2, 5)];
  }
}
