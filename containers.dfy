/**
 * The GraphBLAS vector and matrix objects. Kernels read their inputs and
 * overwrite their single output in place, so both are classes; the stored
 * entries are kept as sparse sequences (a vector's contents, a matrix's rows).
 */
module Containers {
  import opened Sparse
  import opened Helpers

  /** How a kernel call ends: normally, or with a DimensionException. */
  datatype Status = Ok | DimensionMismatch

  /** A sparse vector of fixed dimension size. */
  class Vector<T> {
    const size: nat
    var contents: seq<(nat, T)>

    /** Stored indices are ascending and lie in [0, size). */
    ghost predicate Valid()
      reads this
    {
      WellFormed(contents, size)
    }

    /** An empty vector of dimension n. */
    constructor (n: nat)
      ensures Valid() && size == n && contents == []
    {
      size := n;
      contents := [];
    }

    /** A vector of dimension n holding the given entries. */
    constructor FromContents(n: nat, s: seq<(nat, T)>)
      requires WellFormed(s, n)
      ensures Valid() && size == n && contents == s
    {
      size := n;
      contents := s;
    }
  }

  /** A sparse nrows x ncols matrix stored row by row. */
  class Matrix<T> {
    const nrows: nat
    const ncols: nat
    var rows: seq<seq<(nat, T)>>

    /** One well-formed row of dimension ncols per row index. */
    ghost predicate Valid()
      reads this
    {
      WellFormedRows(rows, nrows, ncols)
    }

    /** An empty m x n matrix. */
    constructor (m: nat, n: nat)
      ensures Valid() && nrows == m && ncols == n
      ensures forall i :: 0 <= i < m ==> rows[i] == []
    {
      nrows, ncols := m, n;
      rows := seq(m, _ => []);
    }

    /** An m x n matrix holding the given rows. */
    constructor FromRows(m: nat, n: nat, rs: seq<seq<(nat, T)>>)
      requires WellFormedRows(rs, m, n)
      ensures Valid() && nrows == m && ncols == n && rows == rs
    {
      nrows, ncols := m, n;
      rows := rs;
    }
  }

  /** The stored entries of an optional vector mask. */
  function MaskContents(mask: Option<Vector<bool>>): Option<seq<(nat, bool)>>
    reads if mask.Some? then {mask.value} else {}
  {
    match mask
    case None => None
    case Some(m) => Some(m.contents)
  }

  /** The stored rows of an optional matrix mask. */
  function MaskRows(mask: Option<Matrix<bool>>): Option<seq<seq<(nat, bool)>>>
    reads if mask.Some? then {mask.value} else {}
  {
    match mask
    case None => None
    case Some(m) => Some(m.rows)
  }

  /**
   * write_with_opt_mask_1D: commit z into w through the optional mask. w is
   * only assigned once, after z is complete.
   */
  method WriteWithOptMask1D<T>(w: Vector<T>, z: seq<(nat, T)>, mask: Option<seq<(nat, bool)>>, replace: bool)
    requires w.Valid() && WellFormed(z, w.size)
    modifies w
    ensures w.Valid()
    ensures w.contents == MaskedWrite(old(w.contents), z, mask, replace)
  {
    MaskedWriteBounded(w.contents, z, mask, replace, w.size);
    w.contents := MaskedWrite(w.contents, z, mask, replace);
  }

  /** write_with_opt_mask_2D: commit every row of z into c through the optional mask. */
  method WriteWithOptMask2D<T>(c: Matrix<T>, z: seq<seq<(nat, T)>>, mask: Option<seq<seq<(nat, bool)>>>,
                               replace: bool)
    requires c.Valid() && WellFormedRows(z, c.nrows, c.ncols)
    requires mask.Some? ==> |mask.value| == c.nrows
    modifies c
    ensures c.Valid()
    ensures c.rows == MaskedWriteRows(old(c.rows), z, mask, replace)
  {
    var r := MaskedWriteRows(c.rows, z, mask, replace);
    forall i | 0 <= i < c.nrows ensures WellFormed(r[i], c.ncols) {
      MaskedWriteBounded(c.rows[i], z[i], MaskRow(mask, i), replace, c.ncols);
    }
    c.rows := r;
  }
}
