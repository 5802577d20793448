/** Compressed-sparse-row storage of a sequential AIJ matrix (the fields of
    Mat_SeqAIJ that the ML glue in src/ksp/pc/impls/ml/ml.c reads and
    writes).  Entry values are never computed with, only copied, so their
    type is a parameter. */
module SeqAIJ {

  /** p holds m + 1 row pointers: row r occupies positions p[r] .. p[r+1]-1
      of arrays holding at least len entries, rows one after another from 0. */
  ghost predicate RowPointers(p: seq<int>, m: nat, len: nat)
  {
    |p| == m + 1 && p[0] == 0 && p[m] <= len &&
    (forall r :: 0 <= r <= m ==> 0 <= p[r] <= p[m]) &&
    forall r, s :: 0 <= r <= s <= m ==> p[r] <= p[s]
  }

  /** Adding row pointers row by row gives the row pointers of the rows
      laid end to end. */
  lemma SumOfRowPointers(p: seq<int>, q: seq<int>, c: seq<int>, m: nat, lp: nat, lq: nat, len: nat)
    requires RowPointers(p, m, lp) && RowPointers(q, m, lq)
    requires |c| == m + 1 && forall r :: 0 <= r <= m ==> c[r] == p[r] + q[r]
    requires p[m] + q[m] <= len
    ensures RowPointers(c, m, len)
  {
    forall r, s | 0 <= r <= s <= m
      ensures c[r] <= c[s]
    {
      assert p[r] <= p[s] && q[r] <= q[s];
    }
  }

  /** Column numbers moved up by d. */
  function Shift(s: seq<int>, d: int): (r: seq<int>)
    ensures |r| == |s|
    ensures forall k :: 0 <= k < |r| ==> r[k] == s[k] + d
  {
    seq(|s|, k requires 0 <= k < |s| => s[k] + d)
  }

  /** Shifting a sequence shifts its last element and the rest alike. */
  lemma ShiftSnoc(s: seq<int>, d: int)
    requires |s| > 0
    ensures Shift(s, d) == Shift(s[..|s| - 1], d) + [s[|s| - 1] + d]
  {
    assert Shift(s, d)[..|s| - 1] == Shift(s[..|s| - 1], d);
  }

  /** Moving by nothing changes nothing. */
  lemma ShiftZero(s: seq<int>)
    ensures Shift(s, 0) == s
  {
  }

  /** Moving a slice is slicing the moved sequence. */
  lemma ShiftSlice(s: seq<int>, lo: int, hi: int, d: int)
    requires 0 <= lo <= hi <= |s|
    ensures Shift(s[lo..hi], d) == Shift(s, d)[lo..hi]
  {
  }

  /** Copy the stored entries from .. to-1 (column numbers moved up by
      shift, values as they are) to cj/ca from position k on. */
  method CopyRowEntries<T>(srcj: array<int>, srca: array<T>, from: int, to: int, shift: int,
                           cj: array<int>, ca: array<T>, k: nat) returns (k': nat)
    requires 0 <= from <= to <= srcj.Length && to <= srca.Length
    requires k + (to - from) <= cj.Length && k + (to - from) <= ca.Length
    requires cj != srcj && ca != srca && ca as object != srcj && cj as object != srca && cj as object != ca
    modifies cj, ca
    ensures k' == k + (to - from)
    ensures cj[..k'] == old(cj[..k]) + Shift(srcj[from..to], shift)
    ensures ca[..k'] == old(ca[..k]) + srca[from..to]
    ensures forall u :: k' <= u < cj.Length ==> cj[u] == old(cj[u])
    ensures forall u :: k' <= u < ca.Length ==> ca[u] == old(ca[u])
  {
    k' := k;
    for t := from to to
      invariant k' == k + (t - from)
      invariant cj[..k'] == old(cj[..k]) + Shift(srcj[from..t], shift)
      invariant ca[..k'] == old(ca[..k]) + srca[from..t]
      invariant forall u :: k' <= u < cj.Length ==> cj[u] == old(cj[u])
      invariant forall u :: k' <= u < ca.Length ==> ca[u] == old(ca[u])
    {
      ghost var donej, donea := cj[..k'], ca[..k'];
      ShiftSnoc(srcj[from..t + 1], shift);
      assert srcj[from..t + 1][..t - from] == srcj[from..t];
      cj[k'] := srcj[t] + shift;
      ca[k'] := srca[t];
      assert cj[..k' + 1] == donej + [srcj[t] + shift];
      assert ca[..k' + 1] == donea + [srca[t]];
      assert srca[from..t + 1] == srca[from..t] + [srca[t]];
      k' := k' + 1;
    }
  }

  /** Copy the stored values from .. to-1 to ca from position k on. */
  method CopyValues<T>(srca: array<T>, from: int, to: int, ca: array<T>, k: nat) returns (k': nat)
    requires 0 <= from <= to <= srca.Length && k + (to - from) <= ca.Length && ca != srca
    modifies ca
    ensures k' == k + (to - from)
    ensures ca[..k'] == old(ca[..k]) + srca[from..to]
    ensures forall u :: k' <= u < ca.Length ==> ca[u] == old(ca[u])
  {
    k' := k;
    for t := from to to
      invariant k' == k + (t - from)
      invariant ca[..k'] == old(ca[..k]) + srca[from..t]
      invariant forall u :: k' <= u < ca.Length ==> ca[u] == old(ca[u])
    {
      ghost var done := ca[..k'];
      ca[k'] := srca[t];
      assert ca[..k' + 1] == done + [srca[t]];
      assert srca[from..t + 1] == srca[from..t] + [srca[t]];
      k' := k' + 1;
    }
  }

  class Mat<T> {
    var m: nat           // local rows
    var ncols: nat       // local columns
    var i: array<int>    // row pointers, m + 1 of them
    var j: array<int>    // column index of each stored entry
    var a: array<T>      // value of each stored entry
    var ilen: array<int> // entries in use in each row

    /** The CSR arrays are consistent: row pointers are monotone and fit the
        entry arrays, every row uses at most its slot, and every stored
        column index lies in 0 .. ncols-1. */
    ghost predicate Valid()
      reads this, i, j, ilen
    {
      i != j && i != ilen && j != ilen &&
      RowPointers(i[..], m, j.Length) && RowPointers(i[..], m, a.Length) &&
      ilen.Length == m &&
      (forall r :: 0 <= r < m ==> 0 <= ilen[r] <= i[r + 1] - i[r]) &&
      (forall t :: 0 <= t < i[m] ==> 0 <= j[t] < ncols)
    }

    /** Row r's entries in use lie inside its slot, inside both entry arrays. */
    lemma RowBounds(r: int)
      requires Valid() && 0 <= r < m
      ensures 0 <= i[r] <= i[r] + ilen[r] <= i[r + 1] <= i[m]
      ensures i[m] <= j.Length && i[m] <= a.Length
    {
      assert i[..][r] <= i[..][r + 1] <= i[..][m];
    }

    /** The arrays this matrix stores its entries in. */
    function Arrays(): (arrays: set<object>)
      reads this
    {
      {i, j, ilen, a}
    }

    /** Wrap existing arrays (MatCreateSeqAIJWithArrays); every row is full. */
    constructor (m: nat, ncols: nat, i: array<int>, j: array<int>, a: array<T>, ilen: array<int>)
      requires i != j && i != ilen && j != ilen
      requires RowPointers(i[..], m, j.Length) && RowPointers(i[..], m, a.Length)
      requires ilen.Length == m && forall r :: 0 <= r < m ==> ilen[r] == i[r + 1] - i[r]
      requires forall t :: 0 <= t < i[m] ==> 0 <= j[t] < ncols
      ensures Valid()
      ensures this.m == m && this.ncols == ncols
      ensures this.i == i && this.j == j && this.a == a && this.ilen == ilen
    {
      this.m := m;
      this.ncols := ncols;
      this.i := i;
      this.j := j;
      this.a := a;
      this.ilen := ilen;
      assert forall r :: 0 <= r < m ==> 0 <= ilen[r] <= i[r + 1] - i[r] by {
        forall r | 0 <= r < m
          ensures 0 <= ilen[r] <= i[r + 1] - i[r]
        {
          assert i[..][r] <= i[..][r + 1];
        }
      }
    }
  }
}
