/**
 * extract: gather the entries of a source vector or matrix selected by index
 * lists (duplicates and permutations allowed, or the AllIndices sentinel),
 * then commit the gathered result through the same masked-accumulate-write
 * protocol as mxv.
 */
module Extract {
  import opened Sparse
  import opened Algebra
  import opened Helpers
  import opened Containers

  /** An index list, or the AllIndices sentinel selecting [0, n) in order. */
  datatype IndexSeq = AllIndices | Indices(ix: seq<nat>)

  /** The explicit index list an IndexSeq stands for along an axis of dimension n. */
  function Resolve(sel: IndexSeq, n: nat): (r: seq<nat>)
    ensures sel.AllIndices? ==> |r| == n && forall k :: 0 <= k < n ==> r[k] == k
    ensures sel.Indices? ==> r == sel.ix
  {
    match sel
    case AllIndices => seq(n, k => k)
    case Indices(ix) => ix
  }

  /** Every index of the list addresses a position of an axis of dimension n. */
  predicate InRange(ix: seq<nat>, n: nat) {
    forall k :: 0 <= k < |ix| ==> ix[k] < n
  }

  /**
   * The gathered vector: output position i takes the entry of u at index
   * ix[i], and is absent when u stores nothing there.
   */
  function Gather<T>(u: seq<(nat, T)>, ix: seq<nat>): (t: seq<(nat, T)>)
    ensures WellFormed(t, |ix|)
    decreases |ix|
  {
    if ix == [] then []
    else
      var prev := Gather(u, ix[..|ix| - 1]);
      match Lookup(u, ix[|ix| - 1])
      case None => prev
      case Some(v) =>
        AppendAscending(prev, (|ix| - 1, v));
        prev + [(|ix| - 1, v)]
  }

  /** Position i of the gathered vector holds u's entry at ix[i]. */
  lemma {:induction false} GatherAt<T>(u: seq<(nat, T)>, ix: seq<nat>, i: nat)
    ensures Lookup(Gather(u, ix), i) == if i < |ix| then Lookup(u, ix[i]) else None
  {
    if ix != [] {
      var init := ix[..|ix| - 1];
      GatherAt(u, init, i);
      match Lookup(u, ix[|ix| - 1])
      case None =>
      case Some(v) => LookupAppend(Gather(u, init), (|ix| - 1, v), i);
    }
  }

  /**
   * Positions referencing the same source index receive the same value: a
   * duplicated index replicates the source entry.
   */
  lemma GatherDuplicates<T>(u: seq<(nat, T)>, ix: seq<nat>, i: nat, j: nat)
    requires i < |ix| && j < |ix| && ix[i] == ix[j]
    ensures Lookup(Gather(u, ix), i) == Lookup(Gather(u, ix), j)
  {
    GatherAt(u, ix, i);
    GatherAt(u, ix, j);
  }

  /**
   * On the implied-zero representation, gathering agrees with the dense
   * gather: when xs[i] == ys[ix[i]] for every output position, gathering
   * the sparse form of ys yields the sparse form of xs.
   */
  lemma GatherDense<T>(ys: seq<T>, zero: T, ix: seq<nat>, xs: seq<T>)
    requires InRange(ix, |ys|) && |xs| == |ix|
    requires forall i :: 0 <= i < |ix| ==> xs[i] == ys[ix[i]]
    ensures Gather(FromDense(ys, zero), ix) == FromDense(xs, zero)
  {
    FromDenseSpec(ys, zero);
    FromDenseSpec(xs, zero);
    forall i: nat ensures Lookup(Gather(FromDense(ys, zero), ix), i) == Lookup(FromDense(xs, zero), i) {
      GatherAt(FromDense(ys, zero), ix, i);
    }
    Extensional(Gather(FromDense(ys, zero), ix), FromDense(xs, zero));
  }

  /** The gathered matrix: output row i is row ix[i] of the source gathered by cols. */
  function GatherRows<T>(rows: seq<seq<(nat, T)>>, ri: seq<nat>, ci: seq<nat>): (t: seq<seq<(nat, T)>>)
    requires InRange(ri, |rows|)
    ensures WellFormedRows(t, |ri|, |ci|)
    ensures forall i :: 0 <= i < |ri| ==> t[i] == Gather(rows[ri[i]], ci)
  {
    seq(|ri|, i requires 0 <= i < |ri| => Gather(rows[ri[i]], ci))
  }

  /** Output [i][j] of the gathered matrix holds the source entry [ri[i]][ci[j]]. */
  lemma GatherRowsAt<T>(rows: seq<seq<(nat, T)>>, ri: seq<nat>, ci: seq<nat>, i: nat, j: nat)
    requires InRange(ri, |rows|) && i < |ri|
    ensures Lookup(GatherRows(rows, ri, ci)[i], j) == if j < |ci| then Lookup(rows[ri[i]], ci[j]) else None
  {
    GatherAt(rows[ri[i]], ci, j);
  }

  /** Column c of a matrix as a sparse vector over the row indices. */
  function Column<T>(rows: seq<seq<(nat, T)>>, c: nat): (col: seq<(nat, T)>)
    ensures WellFormed(col, |rows|)
    decreases |rows|
  {
    if rows == [] then []
    else
      var prev := Column(rows[..|rows| - 1], c);
      match Lookup(rows[|rows| - 1], c)
      case None => prev
      case Some(v) =>
        AppendAscending(prev, (|rows| - 1, v));
        prev + [(|rows| - 1, v)]
  }

  /** Index r of column c holds the entry [r][c] of the matrix. */
  lemma {:induction false} ColumnAt<T>(rows: seq<seq<(nat, T)>>, c: nat, r: nat)
    ensures Lookup(Column(rows, c), r) == if r < |rows| then Lookup(rows[r], c) else None
  {
    if rows != [] {
      var init := rows[..|rows| - 1];
      ColumnAt(init, c, r);
      match Lookup(rows[|rows| - 1], c)
      case None =>
      case Some(v) => LookupAppend(Column(init, c), (|rows| - 1, v), r);
    }
  }

  /**
   * On the implied-zero representation, a column agrees with the dense
   * column: when every row r is the sparse form of ms[r] and xs[r] ==
   * ms[r][c], column c is the sparse form of xs.
   */
  lemma ColumnDense<T>(rows: seq<seq<(nat, T)>>, ms: seq<seq<T>>, zero: T, c: nat, xs: seq<T>)
    requires |ms| == |rows| == |xs|
    requires forall r :: 0 <= r < |rows| ==> rows[r] == FromDense(ms[r], zero) && c < |ms[r]| && xs[r] == ms[r][c]
    ensures Column(rows, c) == FromDense(xs, zero)
  {
    FromDenseSpec(xs, zero);
    forall i: nat ensures Lookup(Column(rows, c), i) == Lookup(FromDense(xs, zero), i) {
      ColumnAt(rows, c, i);
      if i < |rows| {
        FromDenseSpec(ms[i], zero);
      }
    }
    Extensional(Column(rows, c), FromDense(xs, zero));
  }

  /** An optional dense boolean mask in sparse form, false being its implied zero. */
  function DenseMask(mask: Option<seq<bool>>): (m: Option<seq<(nat, bool)>>)
    ensures m.None? <==> mask.None?
  {
    match mask
    case None => None
    case Some(bs) => Some(FromDense(bs, false))
  }

  /** Output position j of the dense gather of u by ix, as seen through the implied zero. */
  function GatherDenseAt<T(==)>(u: seq<T>, zero: T, ix: seq<nat>, j: nat): Option<T> {
    if j < |ix| then DenseAt(u, zero, ix[j]) else None
  }

  /** The dense reading of one output position of extract: accumulate, then the mask rule. */
  function ExtractDenseAt<T(==)>(w: seq<T>, u: seq<T>, zero: T, ix: seq<nat>, mask: Option<seq<bool>>,
                                 accum: Accumulator<T>, replace: bool, j: nat): Option<T>
  {
    var old_w := DenseAt(w, zero, j);
    WriteAt(old_w, AccumAt(old_w, GatherDenseAt(u, zero, ix, j), accum),
            mask.None? || DenseAt(mask.value, false, j) == Some(true), replace)
  }

  /**
   * On the implied-zero representation, extract of one vector agrees with
   * its dense reading: when every output position j of the dense reading
   * is xs[j] (zero meaning absent), committing the gather of u into w gives
   * the sparse form of xs.
   */
  lemma ExtractDense<T>(w: seq<T>, u: seq<T>, zero: T, ix: seq<nat>, mask: Option<seq<bool>>,
                        accum: Accumulator<T>, replace: bool, xs: seq<T>)
    requires |w| == |ix| == |xs| && (mask.Some? ==> |mask.value| == |xs|)
    requires forall j :: 0 <= j < |xs| ==> ExtractDenseAt(w, u, zero, ix, mask, accum, replace, j) == DenseAt(xs, zero, j)
    ensures AccumulateAndWrite(FromDense(w, zero), Gather(FromDense(u, zero), ix), DenseMask(mask), accum, replace)
            == FromDense(xs, zero)
  {
    FromDenseSpec(w, zero);
    FromDenseSpec(u, zero);
    FromDenseSpec(xs, zero);
    var t := Gather(FromDense(u, zero), ix);
    var r := AccumulateAndWrite(FromDense(w, zero), t, DenseMask(mask), accum, replace);
    forall j: nat ensures Lookup(r, j) == Lookup(FromDense(xs, zero), j) {
      AccumulateAndWriteAt(FromDense(w, zero), t, DenseMask(mask), accum, replace, j);
      GatherAt(FromDense(u, zero), ix, j);
      if mask.Some? {
        FromDenseSpec(mask.value, false);
      }
      if j < |xs| {
        assert ExtractDenseAt(w, u, zero, ix, mask, accum, replace, j) == DenseAt(xs, zero, j);
      }
    }
    Extensional(r, FromDense(xs, zero));
  }

  /** A dense matrix in sparse form, row by row, with the given implied zero. */
  function DenseRows<T(==)>(m: seq<seq<T>>, zero: T): (rows: seq<seq<(nat, T)>>)
    ensures |rows| == |m|
    ensures forall i :: 0 <= i < |m| ==> rows[i] == FromDense(m[i], zero)
  {
    seq(|m|, i requires 0 <= i < |m| => FromDense(m[i], zero))
  }

  /** An optional dense boolean matrix mask in sparse form, row by row. */
  function DenseMaskRows(mask: Option<seq<seq<bool>>>): (m: Option<seq<seq<(nat, bool)>>>)
    ensures m.None? <==> mask.None?
    ensures mask.Some? ==> m.value == DenseRows(mask.value, false)
  {
    match mask
    case None => None
    case Some(bs) => Some(DenseRows(bs, false))
  }

  /** Row i of an optional dense matrix mask. */
  function DenseMaskRow(mask: Option<seq<seq<bool>>>, i: nat): Option<seq<bool>>
    requires mask.Some? ==> i < |mask.value|
  {
    match mask
    case None => None
    case Some(m) => Some(m[i])
  }

  /**
   * On the implied-zero representation, extract of a sub-matrix agrees with
   * its dense reading: when every position [i][j] of the dense reading is
   * x[i][j] (zero meaning absent), committing the gather of a into c gives
   * the sparse form of x.
   */
  lemma ExtractMatrixDense<T>(c: seq<seq<T>>, a: seq<seq<T>>, zero: T, ri: seq<nat>, ci: seq<nat>,
                              mask: Option<seq<seq<bool>>>, accum: Accumulator<T>, replace: bool,
                              x: seq<seq<T>>)
    requires |c| == |ri| == |x| && InRange(ri, |a|) && (mask.Some? ==> |mask.value| == |x|)
    requires forall i :: 0 <= i < |x| ==>
               |c[i]| == |ci| && |x[i]| == |ci| && (mask.Some? ==> |mask.value[i]| == |ci|)
    requires forall i, j :: 0 <= i < |x| && 0 <= j < |ci| ==>
               ExtractDenseAt(c[i], a[ri[i]], zero, ci, DenseMaskRow(mask, i), accum, replace, j) == DenseAt(x[i], zero, j)
    ensures AccumulateAndWriteRows(DenseRows(c, zero), GatherRows(DenseRows(a, zero), ri, ci), DenseMaskRows(mask),
                                   accum, replace)
            == DenseRows(x, zero)
  {
    var r := AccumulateAndWriteRows(DenseRows(c, zero), GatherRows(DenseRows(a, zero), ri, ci), DenseMaskRows(mask),
                                    accum, replace);
    forall i | 0 <= i < |x| ensures r[i] == DenseRows(x, zero)[i] {
      ExtractDense(c[i], a[ri[i]], zero, ci, DenseMaskRow(mask, i), accum, replace, x[i]);
    }
  }

  /**
   * extract (vector from vector): checks size(w) == size(mask) and
   * size(w) == |indices|, then w receives the gathered u through the
   * masked-accumulate-write protocol.
   */
  method ExtractVector<T>(w: Vector<T>, mask: Option<Vector<bool>>, accum: Accumulator<T>, u: Vector<T>,
                          indices: IndexSeq, replace: bool) returns (s: Status)
    requires w.Valid() && u.Valid()
    requires mask.Some? ==> mask.value.Valid()
    requires InRange(Resolve(indices, u.size), u.size)
    modifies w
    ensures w.Valid()
    ensures s.Ok? <==> (mask.None? || mask.value.size == w.size) && |Resolve(indices, u.size)| == w.size
    ensures s.DimensionMismatch? ==> w.contents == old(w.contents)
    ensures s.Ok? ==>
              w.contents == AccumulateAndWrite(old(w.contents), Gather(old(u.contents), Resolve(indices, u.size)),
                                               old(MaskContents(mask)), accum, replace)
  {
    if mask.Some? && mask.value.size != w.size { return DimensionMismatch; }
    var ix := Resolve(indices, u.size);
    if |ix| != w.size { return DimensionMismatch; }

    var t := Gather(u.contents, ix);
    var old_w := w.contents;
    var z := EWiseOrOptAccum(old_w, t, accum);
    EWiseOrOptAccumBounded(old_w, t, accum, w.size);
    WriteWithOptMask1D(w, z, MaskContents(mask), replace);
    return Ok;
  }

  /**
   * extract (vector from one column of a matrix): checks size(w) ==
   * size(mask) and size(w) == |row indices|; w[i] takes A[rows[i]][col].
   */
  method ExtractColumn<T>(w: Vector<T>, mask: Option<Vector<bool>>, accum: Accumulator<T>, a: Matrix<T>,
                          rowSel: IndexSeq, col: nat, replace: bool) returns (s: Status)
    requires w.Valid() && a.Valid()
    requires mask.Some? ==> mask.value.Valid()
    requires InRange(Resolve(rowSel, a.nrows), a.nrows) && col < a.ncols
    modifies w
    ensures w.Valid()
    ensures s.Ok? <==> (mask.None? || mask.value.size == w.size) && |Resolve(rowSel, a.nrows)| == w.size
    ensures s.DimensionMismatch? ==> w.contents == old(w.contents)
    ensures s.Ok? ==>
              w.contents == AccumulateAndWrite(old(w.contents), Gather(Column(old(a.rows), col), Resolve(rowSel, a.nrows)),
                                               old(MaskContents(mask)), accum, replace)
  {
    if mask.Some? && mask.value.size != w.size { return DimensionMismatch; }
    var ri := Resolve(rowSel, a.nrows);
    if |ri| != w.size { return DimensionMismatch; }

    var t := Gather(Column(a.rows, col), ri);
    var old_w := w.contents;
    var z := EWiseOrOptAccum(old_w, t, accum);
    EWiseOrOptAccumBounded(old_w, t, accum, w.size);
    WriteWithOptMask1D(w, z, MaskContents(mask), replace);
    return Ok;
  }

  /**
   * extract (sub-matrix): checks that the mask has the shape of c and that
   * c is |row indices| x |col indices|; c[i][j] then receives
   * A[rows[i]][cols[j]] through the protocol, row by row.
   */
  method ExtractMatrix<T>(c: Matrix<T>, mask: Option<Matrix<bool>>, accum: Accumulator<T>, a: Matrix<T>,
                          rowSel: IndexSeq, colSel: IndexSeq, replace: bool) returns (s: Status)
    requires c.Valid() && a.Valid()
    requires mask.Some? ==> mask.value.Valid()
    requires InRange(Resolve(rowSel, a.nrows), a.nrows) && InRange(Resolve(colSel, a.ncols), a.ncols)
    modifies c
    ensures c.Valid()
    ensures s.Ok? <==> (mask.None? || (mask.value.nrows == c.nrows && mask.value.ncols == c.ncols))
                       && |Resolve(rowSel, a.nrows)| == c.nrows && |Resolve(colSel, a.ncols)| == c.ncols
    ensures s.DimensionMismatch? ==> c.rows == old(c.rows)
    ensures s.Ok? ==>
              c.rows == AccumulateAndWriteRows(old(c.rows),
                                               GatherRows(old(a.rows), Resolve(rowSel, a.nrows), Resolve(colSel, a.ncols)),
                                               old(MaskRows(mask)), accum, replace)
  {
    if mask.Some? && (mask.value.nrows != c.nrows || mask.value.ncols != c.ncols) { return DimensionMismatch; }
    var ri := Resolve(rowSel, a.nrows);
    var ci := Resolve(colSel, a.ncols);
    if |ri| != c.nrows || |ci| != c.ncols { return DimensionMismatch; }

    var t := GatherRows(a.rows, ri, ci);
    var old_c := c.rows;
    var mr := MaskRows(mask);
    var z := EWiseOrOptAccumRows(old_c, t, accum);
    forall i | 0 <= i < c.nrows ensures WellFormed(z[i], c.ncols) {
      EWiseOrOptAccumBounded(old_c[i], t[i], accum, c.ncols);
    }
    WriteWithOptMask2D(c, z, mr, replace);
    return Ok;
  }
}
