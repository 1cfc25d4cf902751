/**
 * The extract unit tests as lemmas about the modelled operations: each
 * states the outcome the test expects for its data, in the form the
 * postconditions of ExtractVector, ExtractMatrix and ExtractColumn give it.
 * Dense test data is converted with the implied zero the test passes to its
 * constructors (0 for values, false for masks); a freshly constructed empty
 * result is the sparse form of a zero matrix or vector.
 */
module ExtractExamples {
  import opened Sparse
  import opened Algebra
  import opened Helpers
  import opened Containers
  import opened Extract

  /** The test matrix {{8, 1, 6}, {3, 5, 7}, {4, 9, 2}}. */
  function MagicSquare(): seq<seq<int>> {
    [[8, 1, 6], [3, 5, 7], [4, 9, 2]]
  }

  /** sparse_extract_4_3_6_1_base: u = {1, ..., 6} and indices {0, 2, 4} give {1, 3, 5}. */
  lemma VectorBase()
    ensures AccumulateAndWrite(FromDense([0, 0, 0], 0),
                               Gather(FromDense([1, 2, 3, 4, 5, 6], 0), Resolve(Indices([0, 2, 4]), 6)),
                               None, None, false)
            == FromDense([1, 3, 5], 0)
  {
    ExtractDense([0, 0, 0], [1, 2, 3, 4, 5, 6], 0, [0, 2, 4], None, None, false, [1, 3, 5]);
  }

  /** sparse_extract_base: rows {0, 2} and columns {1, 2} give {{1, 6}, {9, 2}}. */
  lemma MatrixBase()
    ensures AccumulateAndWriteRows(DenseRows([[0, 0], [0, 0]], 0),
                                   GatherRows(DenseRows(MagicSquare(), 0), Resolve(Indices([0, 2]), 3),
                                              Resolve(Indices([1, 2]), 3)),
                                   None, None, false)
            == DenseRows([[1, 6], [9, 2]], 0)
  {
    ExtractMatrixDense([[0, 0], [0, 0]], MagicSquare(), 0, [0, 2], [1, 2], None, None, false, [[1, 6], [9, 2]]);
  }

  /** sparse_extract_duplicate: rows {0, 2, 2} and columns {1, 1, 2} give {{1, 1, 6}, {9, 9, 2}, {9, 9, 2}}. */
  lemma MatrixDuplicate()
    ensures AccumulateAndWriteRows(DenseRows([[0, 0, 0], [0, 0, 0], [0, 0, 0]], 0),
                                   GatherRows(DenseRows(MagicSquare(), 0), Resolve(Indices([0, 2, 2]), 3),
                                              Resolve(Indices([1, 1, 2]), 3)),
                                   None, None, false)
            == DenseRows([[1, 1, 6], [9, 9, 2], [9, 9, 2]], 0)
  {
    ExtractMatrixDense([[0, 0, 0], [0, 0, 0], [0, 0, 0]], MagicSquare(), 0, [0, 2, 2], [1, 1, 2], None, None, false,
                       [[1, 1, 6], [9, 9, 2], [9, 9, 2]]);
  }

  /** sparse_extract_permute: rows {2, 0, 1} and columns {1, 2, 0} give {{9, 2, 4}, {1, 6, 8}, {5, 7, 3}}. */
  lemma MatrixPermute()
    ensures AccumulateAndWriteRows(DenseRows([[0, 0, 0], [0, 0, 0], [0, 0, 0]], 0),
                                   GatherRows(DenseRows(MagicSquare(), 0), Resolve(Indices([2, 0, 1]), 3),
                                              Resolve(Indices([1, 2, 0]), 3)),
                                   None, None, false)
            == DenseRows([[9, 2, 4], [1, 6, 8], [5, 7, 3]], 0)
  {
    ExtractMatrixDense([[0, 0, 0], [0, 0, 0], [0, 0, 0]], MagicSquare(), 0, [2, 0, 1], [1, 2, 0], None, None, false,
                       [[9, 2, 4], [1, 6, 8], [5, 7, 3]]);
  }

  /**
   * sparse_extract_mask: merge mode into an empty result under the mask
   * {{true, false}, {true, true}}; the masked-out position stays empty.
   */
  lemma MatrixMask()
    ensures AccumulateAndWriteRows(DenseRows([[0, 0], [0, 0]], 0),
                                   GatherRows(DenseRows(MagicSquare(), 0), Resolve(Indices([0, 2]), 3),
                                              Resolve(Indices([1, 2]), 3)),
                                   DenseMaskRows(Some([[true, false], [true, true]])), None, false)
            == DenseRows([[1, 0], [9, 2]], 0)
  {
    ExtractMatrixDense([[0, 0], [0, 0]], MagicSquare(), 0, [0, 2], [1, 2], Some([[true, false], [true, true]]),
                       None, false, [[1, 0], [9, 2]]);
  }

  /**
   * sparse_extract_mask_replace: with A[2][2] = 0, the same mask and
   * replace, every prior value 20 is cleared and only unmasked, stored
   * positions survive: {{1, 0}, {9, 0}}.
   */
  lemma MatrixMaskReplace()
    ensures AccumulateAndWriteRows(DenseRows([[20, 20], [20, 20]], 0),
                                   GatherRows(DenseRows([[8, 1, 6], [3, 5, 7], [4, 9, 0]], 0), Resolve(Indices([0, 2]), 3),
                                              Resolve(Indices([1, 2]), 3)),
                                   DenseMaskRows(Some([[true, false], [true, true]])), None, true)
            == DenseRows([[1, 0], [9, 0]], 0)
  {
    ExtractMatrixDense([[20, 20], [20, 20]], [[8, 1, 6], [3, 5, 7], [4, 9, 0]], 0, [0, 2], [1, 2],
                       Some([[true, false], [true, true]]), None, true, [[1, 0], [9, 0]]);
  }

  /** sparse_extract_accum: Plus accumulation into {{20, 20}, {20, 20}} gives {{21, 26}, {29, 22}}. */
  lemma MatrixAccum()
    ensures AccumulateAndWriteRows(DenseRows([[20, 20], [20, 20]], 0),
                                   GatherRows(DenseRows(MagicSquare(), 0), Resolve(Indices([0, 2]), 3),
                                              Resolve(Indices([1, 2]), 3)),
                                   None, Some(Plus()), false)
            == DenseRows([[21, 26], [29, 22]], 0)
  {
    ExtractMatrixDense([[20, 20], [20, 20]], MagicSquare(), 0, [0, 2], [1, 2], None, Some(Plus()), false,
                       [[21, 26], [29, 22]]);
  }

  /** sparse_extract_column: rows {0, 2} of column 1 give {1, 9}. */
  lemma ColumnRows()
    ensures AccumulateAndWrite(FromDense([0, 0], 0),
                               Gather(Column(DenseRows(MagicSquare(), 0), 1), Resolve(Indices([0, 2]), 3)),
                               None, None, false)
            == FromDense([1, 9], 0)
  {
    ColumnDense(DenseRows(MagicSquare(), 0), MagicSquare(), 0, 1, [1, 5, 9]);
    ExtractDense([0, 0], [1, 5, 9], 0, [0, 2], None, None, false, [1, 9]);
  }

  /** sparse_extract_column_all: AllIndices of column 1 gives {1, 5, 9}. */
  lemma ColumnAll()
    ensures AccumulateAndWrite(FromDense([0, 0, 0], 0),
                               Gather(Column(DenseRows(MagicSquare(), 0), 1), Resolve(AllIndices, 3)),
                               None, None, false)
            == FromDense([1, 5, 9], 0)
  {
    ColumnDense(DenseRows(MagicSquare(), 0), MagicSquare(), 0, 1, [1, 5, 9]);
    ExtractDense([0, 0, 0], [1, 5, 9], 0, Resolve(AllIndices, 3), None, None, false, [1, 5, 9]);
  }

  /**
   * sparse_extract_4_3_6_1_bounds_check1: a result of size 2 under a mask
   * of size 3, and two indices for a result of size 3, both report a
   * dimension mismatch and leave the result as it was.
   */
  method VectorBoundsCheck() returns (s1: Status, s2: Status, r1: seq<(nat, int)>, r2: seq<(nat, int)>)
    ensures s1 == DimensionMismatch && s2 == DimensionMismatch
    ensures r1 == [] && r2 == []
  {
    var u := new Vector.FromContents(6, FromDense([1, 2, 3, 4, 5, 6], 0));
    var mask := new Vector.FromContents(3, FromDense([true, true, true], false));
    var badResult := new Vector<int>(2);
    s1 := ExtractVector(badResult, Some(mask), None, u, Indices([0, 2, 4]), false);
    r1 := badResult.contents;
    var result := new Vector<int>(3);
    s2 := ExtractVector(result, None, None, u, Indices([2, 4]), false);
    r2 := result.contents;
  }
}
