/**
 * Sparse sequences: ordered lists of (index, value) pairs, the storage view
 * every GraphBLAS kernel reads (one row of a matrix, or the stored entries of
 * a vector). Indices are strictly ascending, hence unique.
 */
module Sparse {

  datatype Option<T> = None | Some(value: T)

  /** Indices strictly ascending (and therefore unique). */
  predicate Ascending<T>(s: seq<(nat, T)>) {
    forall i, j :: 0 <= i < j < |s| ==> s[i].0 < s[j].0
  }

  /** Every stored index lies in [0, n). */
  predicate Bounded<T>(s: seq<(nat, T)>, n: nat) {
    forall k :: 0 <= k < |s| ==> s[k].0 < n
  }

  /** A well-formed sparse vector of dimension n. */
  predicate WellFormed<T>(s: seq<(nat, T)>, n: nat) {
    Ascending(s) && Bounded(s, n)
  }

  /** Well-formed rows of an nrows x ncols matrix. */
  predicate WellFormedRows<T>(rows: seq<seq<(nat, T)>>, nrows: nat, ncols: nat) {
    |rows| == nrows && forall r :: 0 <= r < |rows| ==> WellFormed(rows[r], ncols)
  }

  /** The value stored at index i, or None when i is absent. */
  function Lookup<T>(s: seq<(nat, T)>, i: nat): (r: Option<T>)
    ensures r.Some? ==> exists k :: 0 <= k < |s| && s[k] == (i, r.value)
    ensures r.None? ==> forall k :: 0 <= k < |s| ==> s[k].0 != i
  {
    if s == [] then None
    else if s[0].0 == i then Some(s[0].1)
    else Lookup(s[1..], i)
  }

  /** In an ascending sequence the pair at position k is what Lookup finds. */
  lemma {:induction false} LookupAt<T>(s: seq<(nat, T)>, k: nat)
    requires Ascending(s) && k < |s|
    ensures Lookup(s, s[k].0) == Some(s[k].1)
  {
    if k > 0 {
      LookupAt(s[1..], k - 1);
    }
  }

  /** Nothing below the first index of an ascending sequence is stored. */
  lemma LookupBelowHead<T>(s: seq<(nat, T)>, i: nat)
    requires Ascending(s) && s != [] && i < s[0].0
    ensures Lookup(s, i) == None
  {
  }

  /** Every index found in an ascending sequence is at least its first index. */
  lemma LookupSomeAboveHead<T>(s: seq<(nat, T)>, i: nat)
    requires Ascending(s) && Lookup(s, i).Some?
    ensures s != [] && s[0].0 <= i
  {
  }

  /** Indices found by Lookup in a bounded sequence are in range. */
  lemma LookupBounded<T>(s: seq<(nat, T)>, n: nat, i: nat)
    requires Bounded(s, n) && Lookup(s, i).Some?
    ensures i < n
  {
  }

  /** Every suffix of an ascending sequence is ascending. */
  lemma AscendingSuffix<T>(s: seq<(nat, T)>, k: nat)
    requires Ascending(s) && k <= |s|
    ensures Ascending(s[k..])
  {
  }

  /** Prepending an entry below the current head keeps a sequence ascending. */
  lemma PrependAscending<T>(x: (nat, T), s: seq<(nat, T)>)
    requires Ascending(s) && (s != [] ==> x.0 < s[0].0)
    ensures Ascending([x] + s)
  {
  }

  /** Appending an entry past every stored index keeps a sequence ascending. */
  lemma AppendAscending<T>(s: seq<(nat, T)>, x: (nat, T))
    requires Ascending(s) && Bounded(s, x.0)
    ensures Ascending(s + [x])
  {
  }

  /** Lookup in s + [(k, v)] finds s's entry first, then the appended one. */
  lemma {:induction false} LookupAppend<T>(s: seq<(nat, T)>, x: (nat, T), i: nat)
    ensures Lookup(s + [x], i) == if Lookup(s, i).Some? then Lookup(s, i)
                                  else if i == x.0 then Some(x.1) else None
  {
    if s != [] {
      assert (s + [x])[1..] == s[1..] + [x];
      LookupAppend(s[1..], x, i);
    }
  }

  /**
   * Two ascending sequences that store the same value at every index are the
   * same sequence: the pointwise view determines the representation.
   */
  lemma {:induction false} Extensional<T>(a: seq<(nat, T)>, b: seq<(nat, T)>)
    requires Ascending(a) && Ascending(b)
    requires forall i: nat :: Lookup(a, i) == Lookup(b, i)
    ensures a == b
  {
    if a != [] && b != [] {
      LookupAt(a, 0);
      LookupAt(b, 0);
      LookupSomeAboveHead(b, a[0].0);
      LookupSomeAboveHead(a, b[0].0);
      assert a[0] == b[0];
      forall i: nat ensures Lookup(a[1..], i) == Lookup(b[1..], i) {
        if i == a[0].0 {
          if a[1..] != [] { LookupBelowHead(a[1..], i); }
          if b[1..] != [] { LookupBelowHead(b[1..], i); }
        } else {
          assert Lookup(a, i) == Lookup(a[1..], i);
          assert Lookup(b, i) == Lookup(b[1..], i);
        }
      }
      Extensional(a[1..], b[1..]);
    } else if a != [] {
      LookupAt(a, 0);
    } else if b != [] {
      LookupAt(b, 0);
    }
  }

  /** Total number of stored entries over all rows (nvals of a matrix). */
  function NVals<T>(rows: seq<seq<(nat, T)>>): (n: nat)
    ensures n == 0 <==> forall r :: 0 <= r < |rows| ==> rows[r] == []
  {
    if rows == [] then 0 else |rows[0]| + NVals(rows[1..])
  }

  /**
   * The sparse form of a dense vector with the given implied zero: every
   * element other than zero is stored, every zero is absent.
   */
  function FromDense<T(==)>(xs: seq<T>, zero: T): (s: seq<(nat, T)>)
    ensures WellFormed(s, |xs|)
  {
    FromDenseFromSpec(xs, zero, 0);
    FromDenseFrom(xs, zero, 0)
  }

  /** The sparse entries of xs at positions k and above. */
  function FromDenseFrom<T(==)>(xs: seq<T>, zero: T, k: nat): seq<(nat, T)>
    decreases |xs| - k
  {
    if k >= |xs| then []
    else if xs[k] != zero then [(k, xs[k])] + FromDenseFrom(xs, zero, k + 1)
    else FromDenseFrom(xs, zero, k + 1)
  }

  /** Position i of a dense vector as seen through the implied zero: absent when it holds zero. */
  function DenseAt<T(==)>(xs: seq<T>, zero: T, i: nat): Option<T> {
    if i < |xs| && xs[i] != zero then Some(xs[i]) else None
  }

  /** FromDenseFrom(xs, zero, k) stores exactly the non-zero elements at positions k and above, in order. */
  lemma {:induction false} FromDenseFromSpec<T>(xs: seq<T>, zero: T, k: nat)
    ensures WellFormed(FromDenseFrom(xs, zero, k), |xs|)
    ensures forall j :: 0 <= j < |FromDenseFrom(xs, zero, k)| ==> k <= FromDenseFrom(xs, zero, k)[j].0
    ensures forall i: nat :: Lookup(FromDenseFrom(xs, zero, k), i) == if k <= i then DenseAt(xs, zero, i) else None
    decreases |xs| - k
  {
    if k < |xs| {
      FromDenseFromSpec(xs, zero, k + 1);
      var rest := FromDenseFrom(xs, zero, k + 1);
      if xs[k] != zero {
        PrependAscending((k, xs[k]), rest);
        assert ([(k, xs[k])] + rest)[1..] == rest;
      }
    }
  }

  /** FromDense stores exactly the elements other than zero, at their positions, in order. */
  lemma FromDenseSpec<T>(xs: seq<T>, zero: T)
    ensures forall i: nat :: Lookup(FromDense(xs, zero), i) == DenseAt(xs, zero, i)
  {
    FromDenseFromSpec(xs, zero, 0);
  }
}
