/**
 * Sparse matrix times sparse vector over a semiring (backend mxv): three
 * shape checks, a row loop that builds the sparse intermediate t from one
 * dot product per row, then the masked-accumulate-write of t into w.
 */
module Mxv {
  import opened Sparse
  import opened Algebra
  import opened Helpers
  import opened Containers

  /**
   * The intermediate t after scanning rows [0, n): row r contributes
   * (r, v) when it is non-empty and its dot product with u yields v.
   */
  function Intermediate<T>(rows: seq<seq<(nat, T)>>, u: seq<(nat, T)>, sr: Semiring<T>, n: nat)
    : (t: seq<(nat, T)>)
    requires n <= |rows|
    ensures WellFormed(t, n)
    decreases n
  {
    if n == 0 then []
    else
      var prev := Intermediate(rows, u, sr, n - 1);
      var row := rows[n - 1];
      if row == [] || DotProduct(row, u, sr).None? then prev
      else
        var x := (n - 1, DotProduct(row, u, sr).value);
        AppendAscending(prev, x);
        prev + [x]
  }

  /**
   * At every index r, t holds exactly the dot product of row r with u
   * (absent when that reports no value, and outside [0, n)).
   */
  lemma {:induction false} IntermediateAt<T>(rows: seq<seq<(nat, T)>>, u: seq<(nat, T)>, sr: Semiring<T>, n: nat, r: nat)
    requires n <= |rows|
    ensures Lookup(Intermediate(rows, u, sr, n), r) == if r < n then DotProduct(rows[r], u, sr) else None
  {
    if n > 0 {
      IntermediateAt(rows, u, sr, n - 1, r);
      var prev := Intermediate(rows, u, sr, n - 1);
      var row := rows[n - 1];
      if row != [] && DotProduct(row, u, sr).Some? {
        LookupAppend(prev, (n - 1, DotProduct(row, u, sr).value), r);
      }
    }
  }

  /** t holds (r, v) exactly when r is a row of the scan and its dot product with u is v. */
  lemma IntermediateContents<T>(rows: seq<seq<(nat, T)>>, u: seq<(nat, T)>, sr: Semiring<T>, n: nat,
                                r: nat, v: T)
    requires n <= |rows|
    ensures (r, v) in Intermediate(rows, u, sr, n) <==> r < n && DotProduct(rows[r], u, sr) == Some(v)
  {
    var t := Intermediate(rows, u, sr, n);
    IntermediateAt(rows, u, sr, n, r);
    if (r, v) in t {
      var k :| 0 <= k < |t| && t[k] == (r, v);
      LookupAt(t, k);
    }
  }

  /** A row that shares no index with u contributes nothing to t. */
  lemma NoOverlapNoEntry<T>(rows: seq<seq<(nat, T)>>, u: seq<(nat, T)>, sr: Semiring<T>, n: nat, r: nat)
    requires n <= |rows| && r < n && !Overlap(rows[r], u)
    ensures Lookup(Intermediate(rows, u, sr, n), r) == None
  {
    IntermediateAt(rows, u, sr, n, r);
    DotProductSomeIff(rows[r], u, sr);
  }

  /** With no stored entries in A, or none in u, t is empty. */
  lemma {:induction false} IntermediateEmpty<T>(rows: seq<seq<(nat, T)>>, u: seq<(nat, T)>, sr: Semiring<T>, n: nat)
    requires n <= |rows|
    requires NVals(rows) == 0 || u == []
    ensures Intermediate(rows, u, sr, n) == []
  {
    if n > 0 {
      IntermediateEmpty(rows, u, sr, n - 1);
      ProductsExhausted(rows[n - 1], u, sr.mult);
    }
  }

  /** mxv's three shape checks: size(w) == size(mask), size(w) == nrows(A), ncols(A) == size(u). */
  predicate ShapesAgree(wSize: nat, maskSize: Option<nat>, aRows: nat, aCols: nat, uSize: nat) {
    (maskSize.None? || maskSize.value == wSize) && wSize == aRows && aCols == uSize
  }

  /** The size of an optional vector mask; NoMask passes every size check. */
  function MaskSize(mask: Option<Vector<bool>>): Option<nat> {
    match mask
    case None => None
    case Some(m) => Some(m.size)
  }

  /**
   * The row loop of mxv: when A and u both store something, scan rows
   * [0, n) and append (r, v) for every non-empty row r whose dot product
   * with u yields v.
   */
  method MultiplyRows<T>(rows: seq<seq<(nat, T)>>, u: seq<(nat, T)>, sr: Semiring<T>, n: nat)
    returns (t: seq<(nat, T)>)
    requires n <= |rows|
    requires forall r :: 0 <= r < |rows| ==> Ascending(rows[r])
    requires Ascending(u)
    ensures t == Intermediate(rows, u, sr, n)
  {
    t := [];
    if NVals(rows) > 0 && |u| > 0 {
      for r := 0 to n
        invariant t == Intermediate(rows, u, sr, r)
      {
        var row := rows[r];
        if row != [] {
          var v := Dot(row, u, sr);
          if v.Some? {
            t := t + [(r, v.value)];
          }
        }
      }
    } else {
      IntermediateEmpty(rows, u, sr, n);
    }
  }

  /**
   * backend::mxv. On a failed shape check it reports DimensionMismatch and
   * leaves w untouched; otherwise w becomes the masked-accumulate-write of
   * the intermediate t into the old w.
   */
  method Mxv<T>(w: Vector<T>, mask: Option<Vector<bool>>, accum: Accumulator<T>, sr: Semiring<T>,
                a: Matrix<T>, u: Vector<T>, replace: bool) returns (s: Status)
    requires w.Valid() && a.Valid() && u.Valid()
    requires mask.Some? ==> mask.value.Valid()
    modifies w
    ensures w.Valid()
    ensures s.Ok? <==> ShapesAgree(w.size, MaskSize(mask), a.nrows, a.ncols, u.size)
    ensures s.DimensionMismatch? ==> w.contents == old(w.contents)
    ensures s.Ok? ==>
              w.contents == AccumulateAndWrite(old(w.contents), Intermediate(old(a.rows), old(u.contents), sr, w.size),
                                               old(MaskContents(mask)), accum, replace)
    ensures s.Ok? && mask.None? && accum.None? ==>
              w.contents == Intermediate(old(a.rows), old(u.contents), sr, w.size)
  {
    if mask.Some? && mask.value.size != w.size { return DimensionMismatch; }
    if w.size != a.nrows { return DimensionMismatch; }
    if a.ncols != u.size { return DimensionMismatch; }

    var rows := a.rows;
    var uc := u.contents;
    var mc := MaskContents(mask);
    var old_w := w.contents;

    var t := MultiplyRows(rows, uc, sr, w.size);

    var z := EWiseOrOptAccum(old_w, t, accum);
    EWiseOrOptAccumBounded(old_w, t, accum, w.size);
    WriteWithOptMask1D(w, z, mc, replace);
    NoMaskNoAccumReplaces(old_w, t, replace);
    return Ok;
  }
}
