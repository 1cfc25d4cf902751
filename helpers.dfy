/**
 * The sparse helpers the kernels call: the semiring dot product of two
 * sparse sequences, the optional-accumulate union merge that produces z,
 * and the masked commit of z into the output.
 */
module Helpers {
  import opened Sparse
  import opened Algebra

  // ---------------------------------------------------------------------------
  // Dot product

  /**
   * Reference definition of the terms of a dot product: mult(a_k, u_k) for
   * every index k stored in both a and u, in the order of a.
   */
  function Products<T>(a: seq<(nat, T)>, u: seq<(nat, T)>, mult: (T, T) -> T): seq<T>
  {
    if a == [] then []
    else
      match Lookup(u, a[0].0)
      case Some(y) => [mult(a[0].1, y)] + Products(a[1..], u, mult)
      case None => Products(a[1..], u, mult)
  }

  /**
   * Reference definition of the dot product: None when a and u share no
   * index, otherwise add folded from zero over the products of the matching
   * entries in ascending index order.
   */
  function DotProduct<T>(a: seq<(nat, T)>, u: seq<(nat, T)>, sr: Semiring<T>): Option<T>
  {
    var p := Products(a, u, sr.mult);
    if p == [] then None else Some(FoldAdd(sr.add, sr.zero, p))
  }

  /** Two sparse sequences overlap when some index is stored in both. */
  predicate Overlap<T>(a: seq<(nat, T)>, u: seq<(nat, T)>) {
    exists i, j :: 0 <= i < |a| && 0 <= j < |u| && a[i].0 == u[j].0
  }

  /** There are products exactly when the operands overlap. */
  lemma {:induction false} ProductsEmptyIff<T>(a: seq<(nat, T)>, u: seq<(nat, T)>, mult: (T, T) -> T)
    ensures Products(a, u, mult) == [] <==> !Overlap(a, u)
  {
    if a != [] {
      ProductsEmptyIff(a[1..], u, mult);
      if Overlap(a[1..], u) {
        var i, j :| 0 <= i < |a[1..]| && 0 <= j < |u| && a[1..][i].0 == u[j].0;
        assert a[i + 1].0 == u[j].0;
      }
      if Overlap(a, u) && Lookup(u, a[0].0).None? {
        var i, j :| 0 <= i < |a| && 0 <= j < |u| && a[i].0 == u[j].0;
        assert i != 0;
        assert a[1..][i - 1].0 == u[j].0;
      }
      if Lookup(u, a[0].0).Some? {
        var j :| 0 <= j < |u| && u[j] == (a[0].0, Lookup(u, a[0].0).value);
        assert a[0].0 == u[j].0;
      }
    }
  }

  /** The dot product reports a value exactly when the operands overlap. */
  lemma DotProductSomeIff<T>(a: seq<(nat, T)>, u: seq<(nat, T)>, sr: Semiring<T>)
    ensures DotProduct(a, u, sr).Some? <==> Overlap(a, u)
  {
    ProductsEmptyIff(a, u, sr.mult);
  }

  /** An entry of u whose index no entry of a has contributes no product. */
  lemma {:induction false} ProductsSkipHead<T>(a: seq<(nat, T)>, u: seq<(nat, T)>, mult: (T, T) -> T)
    requires u != []
    requires forall k :: 0 <= k < |a| ==> a[k].0 != u[0].0
    ensures Products(a, u, mult) == Products(a, u[1..], mult)
  {
    if a != [] {
      assert Lookup(u, a[0].0) == Lookup(u[1..], a[0].0);
      ProductsSkipHead(a[1..], u, mult);
    }
  }

  /** Nothing is produced once either operand is exhausted. */
  lemma ProductsExhausted<T>(a: seq<(nat, T)>, u: seq<(nat, T)>, mult: (T, T) -> T)
    requires a == [] || u == []
    ensures Products(a, u, mult) == []
  {
    ProductsEmptyIff(a, u, mult);
  }

  /** One step of the two-pointer intersection, stated on the reference definition. */
  lemma ProductsStep<T>(a: seq<(nat, T)>, u: seq<(nat, T)>, mult: (T, T) -> T)
    requires Ascending(a) && Ascending(u) && a != [] && u != []
    ensures Products(a, u, mult) ==
              if a[0].0 == u[0].0 then [mult(a[0].1, u[0].1)] + Products(a[1..], u[1..], mult)
              else if a[0].0 < u[0].0 then Products(a[1..], u, mult)
              else Products(a, u[1..], mult)
  {
    if a[0].0 == u[0].0 {
      ProductsSkipHead(a[1..], u, mult);
    } else if a[0].0 < u[0].0 {
      LookupBelowHead(u, a[0].0);
    } else {
      ProductsSkipHead(a, u, mult);
    }
  }

  /**
   * The two-pointer loop's invariant survives one step: on a match the
   * product joins the terms already folded, otherwise the smaller side
   * advances and nothing is lost.
   */
  lemma DotStep<T>(a: seq<(nat, T)>, u: seq<(nat, T)>, mult: (T, T) -> T, i: nat, j: nat, done: seq<T>)
    requires Ascending(a) && Ascending(u) && i < |a| && j < |u|
    requires Products(a, u, mult) == done + Products(a[i..], u[j..], mult)
    ensures a[i].0 == u[j].0 ==>
              Products(a, u, mult) == (done + [mult(a[i].1, u[j].1)]) + Products(a[i + 1..], u[j + 1..], mult)
    ensures a[i].0 < u[j].0 ==> Products(a, u, mult) == done + Products(a[i + 1..], u[j..], mult)
    ensures a[i].0 > u[j].0 ==> Products(a, u, mult) == done + Products(a[i..], u[j + 1..], mult)
  {
    AscendingSuffix(a, i);
    AscendingSuffix(u, j);
    ProductsStep(a[i..], u[j..], mult);
    assert a[i..][1..] == a[i + 1..] && u[j..][1..] == u[j + 1..];
    if a[i].0 == u[j].0 {
      var tail := Products(a[i + 1..], u[j + 1..], mult);
      assert done + ([mult(a[i].1, u[j].1)] + tail) == (done + [mult(a[i].1, u[j].1)]) + tail;
    }
  }

  /**
   * The dot product of two ascending sparse sequences by two-pointer
   * intersection: advance the side with the smaller index; on a match fold
   * mult of the two values into the running sum with add.
   */
  method Dot<T>(a: seq<(nat, T)>, u: seq<(nat, T)>, sr: Semiring<T>) returns (r: Option<T>)
    requires Ascending(a) && Ascending(u)
    ensures r == DotProduct(a, u, sr)
  {
    var i, j := 0, 0;
    var ans := sr.zero;
    var found := false;
    ghost var done: seq<T> := [];
    assert a[i..] == a && u[j..] == u;
    while i < |a| && j < |u|
      invariant 0 <= i <= |a| && 0 <= j <= |u|
      invariant Products(a, u, sr.mult) == done + Products(a[i..], u[j..], sr.mult)
      invariant ans == FoldAdd(sr.add, sr.zero, done)
      invariant found <==> done != []
      decreases |a| - i + |u| - j
    {
      DotStep(a, u, sr.mult, i, j, done);
      if a[i].0 == u[j].0 {
        var term := sr.mult(a[i].1, u[j].1);
        ans := sr.add(ans, term);
        assert (done + [term])[..|done|] == done;
        done := done + [term];
        found := true;
        i, j := i + 1, j + 1;
      } else if a[i].0 < u[j].0 {
        i := i + 1;
      } else {
        j := j + 1;
      }
    }
    ProductsExhausted(a[i..], u[j..], sr.mult);
    assert done == Products(a, u, sr.mult);
    r := if found then Some(ans) else None;
  }

  // ---------------------------------------------------------------------------
  // Accumulate: z from w and t

  /**
   * The union rule at one index: an index present on both sides combines
   * the two values with f, an index present on one side keeps that value.
   */
  function Combine<T>(x: Option<T>, y: Option<T>, f: (T, T) -> T): Option<T> {
    match (x, y)
    case (Some(a), Some(b)) => Some(f(a, b))
    case (Some(a), None) => Some(a)
    case (None, _) => y
  }

  /** Union merge of two ascending sparse sequences by ascending index. */
  function UnionWith<T>(a: seq<(nat, T)>, b: seq<(nat, T)>, f: (T, T) -> T): (r: seq<(nat, T)>)
    requires Ascending(a) && Ascending(b)
    ensures Ascending(r)
    ensures forall i: nat :: Lookup(r, i) == Combine(Lookup(a, i), Lookup(b, i), f)
    decreases |a| + |b|
  {
    if a == [] then b
    else if b == [] then a
    else if a[0].0 < b[0].0 then
      var rest := UnionWith(a[1..], b, f);
      UnionHeadBelow(rest, a[1..], b, f, a[0].0);
      PrependAscending(a[0], rest);
      forall i: nat ensures Lookup([a[0]] + rest, i) == Combine(Lookup(a, i), Lookup(b, i), f) {
        if i == a[0].0 { LookupBelowHead(b, i); }
      }
      [a[0]] + rest
    else if b[0].0 < a[0].0 then
      var rest := UnionWith(a, b[1..], f);
      UnionHeadBelow(rest, a, b[1..], f, b[0].0);
      PrependAscending(b[0], rest);
      forall i: nat ensures Lookup([b[0]] + rest, i) == Combine(Lookup(a, i), Lookup(b, i), f) {
        if i == b[0].0 { LookupBelowHead(a, i); }
      }
      [b[0]] + rest
    else
      var rest := UnionWith(a[1..], b[1..], f);
      var x := (a[0].0, f(a[0].1, b[0].1));
      UnionHeadBelow(rest, a[1..], b[1..], f, x.0);
      PrependAscending(x, rest);
      [x] + rest
  }

  /**
   * If every index of a and of b is above lo, so is the first index of a
   * sequence holding their pointwise union.
   */
  lemma UnionHeadBelow<T>(r: seq<(nat, T)>, a: seq<(nat, T)>, b: seq<(nat, T)>, f: (T, T) -> T, lo: nat)
    requires Ascending(r) && Ascending(a) && Ascending(b)
    requires forall i: nat :: Lookup(r, i) == Combine(Lookup(a, i), Lookup(b, i), f)
    requires a != [] ==> lo < a[0].0
    requires b != [] ==> lo < b[0].0
    ensures r != [] ==> lo < r[0].0
  {
    if r != [] {
      LookupAt(r, 0);
      var k := r[0].0;
      if Lookup(a, k).Some? { LookupSomeAboveHead(a, k); }
      if Lookup(b, k).Some? { LookupSomeAboveHead(b, k); }
    }
  }

  /**
   * ewise_or_opt_accum_1D: z from the current output w and the new values t.
   * With NoAccumulate z is exactly t; with an accumulator z is the union of
   * w and t, combining with accum(w_i, t_i) where both are present.
   */
  function EWiseOrOptAccum<T>(w: seq<(nat, T)>, t: seq<(nat, T)>, accum: Accumulator<T>): (z: seq<(nat, T)>)
    requires Ascending(w) && Ascending(t)
    ensures Ascending(z)
    ensures accum.None? ==> z == t
    ensures accum.Some? ==> forall i: nat ::
              Lookup(z, i) == match (Lookup(w, i), Lookup(t, i))
                              case (Some(x), Some(y)) => Some(accum.value(x, y))
                              case (Some(x), None) => Some(x)
                              case (None, y) => y
  {
    match accum
    case None => t
    case Some(f) => UnionWith(w, t, f)
  }

  // ---------------------------------------------------------------------------
  // Masked commit

  /** A mask position is structurally true when it is stored with value true. */
  predicate MaskTrue(m: seq<(nat, bool)>, i: nat) {
    Lookup(m, i) == Some(true)
  }

  /** The entries of s whose mask truth equals keep. */
  function Select<T>(s: seq<(nat, T)>, m: seq<(nat, bool)>, keep: bool): (r: seq<(nat, T)>)
    requires Ascending(s)
    ensures Ascending(r)
    ensures forall i: nat :: Lookup(r, i) == if MaskTrue(m, i) == keep then Lookup(s, i) else None
  {
    if s == [] then []
    else
      var rest := Select(s[1..], m, keep);
      SubsetHeadAbove(rest, s[1..], s[0].0);
      if MaskTrue(m, s[0].0) == keep then
        PrependAscending(s[0], rest);
        [s[0]] + rest
      else
        rest
  }

  /**
   * If r stores only indices that s stores, and every index of s is above
   * lo, then so is the first index of r.
   */
  lemma SubsetHeadAbove<T>(r: seq<(nat, T)>, s: seq<(nat, T)>, lo: nat)
    requires Ascending(r) && Ascending(s)
    requires forall i: nat :: Lookup(r, i).Some? ==> Lookup(s, i).Some?
    requires s != [] ==> lo < s[0].0
    ensures r != [] ==> lo < r[0].0
  {
    if r != [] {
      LookupAt(r, 0);
      LookupSomeAboveHead(s, r[0].0);
    }
  }

  /** The value written at one index by the masked commit. */
  function WriteAt<T>(old_w: Option<T>, z: Option<T>, mask_true: bool, replace: bool): Option<T> {
    if mask_true then z else if replace then None else old_w
  }

  /**
   * write_with_opt_mask_1D: the new contents of w from its old contents and
   * z. Without a mask w becomes z. With a mask, a mask-true index takes z's
   * entry (absent if z has none); a mask-false index keeps the old entry of w
   * in merge mode and is cleared in replace mode.
   */
  function MaskedWrite<T>(w: seq<(nat, T)>, z: seq<(nat, T)>, mask: Option<seq<(nat, bool)>>, replace: bool)
    : (r: seq<(nat, T)>)
    requires Ascending(w) && Ascending(z)
    ensures Ascending(r)
    ensures mask.None? ==> r == z
    ensures mask.Some? ==> forall i: nat ::
              Lookup(r, i) == WriteAt(Lookup(w, i), Lookup(z, i), MaskTrue(mask.value, i), replace)
  {
    match mask
    case None => z
    case Some(m) =>
      if replace then Select(z, m, true)
      else UnionWith(Select(w, m, false), Select(z, m, true), (x: T, y: T) => y)
  }

  /**
   * The whole masked-accumulate-write protocol for one sparse sequence:
   * accumulate t into the old output w, then commit through the mask.
   */
  function AccumulateAndWrite<T>(w: seq<(nat, T)>, t: seq<(nat, T)>, mask: Option<seq<(nat, bool)>>,
                                 accum: Accumulator<T>, replace: bool): (r: seq<(nat, T)>)
    requires Ascending(w) && Ascending(t)
    ensures Ascending(r)
  {
    MaskedWrite(w, EWiseOrOptAccum(w, t, accum), mask, replace)
  }

  /** With NoMask and NoAccumulate the output becomes exactly t. */
  lemma NoMaskNoAccumReplaces<T>(w: seq<(nat, T)>, t: seq<(nat, T)>, replace: bool)
    requires Ascending(w) && Ascending(t)
    ensures AccumulateAndWrite(w, t, None, None, replace) == t
  {
  }

  /**
   * The pointwise meaning of the protocol: at each index i, the result is
   * what the mask rule gives for the old w_i and the accumulated z_i.
   */
  lemma AccumulateAndWriteAt<T>(w: seq<(nat, T)>, t: seq<(nat, T)>, mask: Option<seq<(nat, bool)>>,
                                accum: Accumulator<T>, replace: bool, i: nat)
    requires Ascending(w) && Ascending(t)
    ensures Lookup(AccumulateAndWrite(w, t, mask, accum, replace), i)
         == WriteAt(Lookup(w, i), AccumAt(Lookup(w, i), Lookup(t, i), accum),
                    mask.None? || MaskTrue(mask.value, i), replace)
  {
  }

  /** The accumulate rule at one index. */
  function AccumAt<T>(w: Option<T>, t: Option<T>, accum: Accumulator<T>): Option<T> {
    match accum
    case None => t
    case Some(f) => Combine(w, t, f)
  }

  /** The accumulated z stores only indices of w or t, so it stays in range. */
  lemma EWiseOrOptAccumBounded<T>(w: seq<(nat, T)>, t: seq<(nat, T)>, accum: Accumulator<T>, n: nat)
    requires WellFormed(w, n) && WellFormed(t, n)
    ensures WellFormed(EWiseOrOptAccum(w, t, accum), n)
  {
    var z := EWiseOrOptAccum(w, t, accum);
    forall k | 0 <= k < |z| ensures z[k].0 < n {
      LookupAt(z, k);
      if Lookup(w, z[k].0).Some? { LookupBounded(w, n, z[k].0); }
      if Lookup(t, z[k].0).Some? { LookupBounded(t, n, z[k].0); }
    }
  }

  /** The committed output stores only indices of the old w or of z. */
  lemma MaskedWriteBounded<T>(w: seq<(nat, T)>, z: seq<(nat, T)>, mask: Option<seq<(nat, bool)>>,
                              replace: bool, n: nat)
    requires WellFormed(w, n) && WellFormed(z, n)
    ensures WellFormed(MaskedWrite(w, z, mask, replace), n)
  {
    var r := MaskedWrite(w, z, mask, replace);
    forall k | 0 <= k < |r| ensures r[k].0 < n {
      LookupAt(r, k);
      if Lookup(w, r[k].0).Some? { LookupBounded(w, n, r[k].0); }
      if Lookup(z, r[k].0).Some? { LookupBounded(z, n, r[k].0); }
    }
  }

  /** The protocol keeps an output of dimension n well formed. */
  lemma AccumulateAndWriteBounded<T>(w: seq<(nat, T)>, t: seq<(nat, T)>, mask: Option<seq<(nat, bool)>>,
                                     accum: Accumulator<T>, replace: bool, n: nat)
    requires WellFormed(w, n) && WellFormed(t, n)
    ensures WellFormed(AccumulateAndWrite(w, t, mask, accum, replace), n)
  {
    EWiseOrOptAccumBounded(w, t, accum, n);
    MaskedWriteBounded(w, EWiseOrOptAccum(w, t, accum), mask, replace, n);
  }

  // ---------------------------------------------------------------------------
  // The same protocol on matrices, row by row

  /** Row i of an optional matrix mask. */
  function MaskRow(mask: Option<seq<seq<(nat, bool)>>>, i: nat): Option<seq<(nat, bool)>>
    requires mask.Some? ==> i < |mask.value|
  {
    match mask
    case None => None
    case Some(m) => Some(m[i])
  }

  /** ewise_or_opt_accum_2D: each row of Z is the 1-D accumulate of the matching rows of C and T. */
  function EWiseOrOptAccumRows<T>(c: seq<seq<(nat, T)>>, t: seq<seq<(nat, T)>>, accum: Accumulator<T>)
    : (z: seq<seq<(nat, T)>>)
    requires |c| == |t|
    requires forall i :: 0 <= i < |c| ==> Ascending(c[i]) && Ascending(t[i])
    ensures |z| == |c|
    ensures forall i :: 0 <= i < |c| ==> z[i] == EWiseOrOptAccum(c[i], t[i], accum)
  {
    seq(|c|, i requires 0 <= i < |c| => EWiseOrOptAccum(c[i], t[i], accum))
  }

  /** write_with_opt_mask_2D: each row of C is committed from Z through the matching mask row. */
  function MaskedWriteRows<T>(c: seq<seq<(nat, T)>>, z: seq<seq<(nat, T)>>,
                              mask: Option<seq<seq<(nat, bool)>>>, replace: bool): (r: seq<seq<(nat, T)>>)
    requires |c| == |z| && (mask.Some? ==> |mask.value| == |c|)
    requires forall i :: 0 <= i < |c| ==> Ascending(c[i]) && Ascending(z[i])
    ensures |r| == |c|
    ensures forall i :: 0 <= i < |c| ==> r[i] == MaskedWrite(c[i], z[i], MaskRow(mask, i), replace)
  {
    seq(|c|, i requires 0 <= i < |c| => MaskedWrite(c[i], z[i], MaskRow(mask, i), replace))
  }

  /** The masked-accumulate-write protocol on a whole matrix. */
  function AccumulateAndWriteRows<T>(c: seq<seq<(nat, T)>>, t: seq<seq<(nat, T)>>,
                                     mask: Option<seq<seq<(nat, bool)>>>, accum: Accumulator<T>,
                                     replace: bool): (r: seq<seq<(nat, T)>>)
    requires |c| == |t| && (mask.Some? ==> |mask.value| == |c|)
    requires forall i :: 0 <= i < |c| ==> Ascending(c[i]) && Ascending(t[i])
    ensures |r| == |c|
    ensures forall i :: 0 <= i < |c| ==> r[i] == AccumulateAndWrite(c[i], t[i], MaskRow(mask, i), accum, replace)
  {
    MaskedWriteRows(c, EWiseOrOptAccumRows(c, t, accum), mask, replace)
  }

  /**
   * The pointwise meaning of the matrix protocol: entry [i][j] of the result
   * is the mask rule applied to the old [i][j] and the accumulated [i][j],
   * with mask row i.
   */
  lemma AccumulateAndWriteRowsAt<T>(c: seq<seq<(nat, T)>>, t: seq<seq<(nat, T)>>,
                                    mask: Option<seq<seq<(nat, bool)>>>, accum: Accumulator<T>,
                                    replace: bool, i: nat, j: nat)
    requires |c| == |t| && (mask.Some? ==> |mask.value| == |c|)
    requires forall k :: 0 <= k < |c| ==> Ascending(c[k]) && Ascending(t[k])
    requires i < |c|
    ensures Lookup(AccumulateAndWriteRows(c, t, mask, accum, replace)[i], j)
         == WriteAt(Lookup(c[i], j), AccumAt(Lookup(c[i], j), Lookup(t[i], j), accum),
                    mask.None? || MaskTrue(mask.value[i], j), replace)
  {
    AccumulateAndWriteAt(c[i], t[i], MaskRow(mask, i), accum, replace, j);
  }

  /** The matrix protocol keeps an nrows x ncols output well formed. */
  lemma AccumulateAndWriteRowsBounded<T>(c: seq<seq<(nat, T)>>, t: seq<seq<(nat, T)>>,
                                         mask: Option<seq<seq<(nat, bool)>>>, accum: Accumulator<T>,
                                         replace: bool, nrows: nat, ncols: nat)
    requires WellFormedRows(c, nrows, ncols) && WellFormedRows(t, nrows, ncols)
    requires mask.Some? ==> |mask.value| == nrows
    ensures WellFormedRows(AccumulateAndWriteRows(c, t, mask, accum, replace), nrows, ncols)
  {
    var r := AccumulateAndWriteRows(c, t, mask, accum, replace);
    forall i | 0 <= i < nrows ensures WellFormed(r[i], ncols) {
      AccumulateAndWriteBounded(c[i], t[i], MaskRow(mask, i), accum, replace, ncols);
    }
  }
}
