/** PetscML_getrow (src/ksp/pc/impls/ml/ml.c:69-91): the callback through
    which ML reads rows of the local matrix.  The requested rows are copied
    one after another into ML's column and value buffers, whose capacity is
    allocated_space entries; the copy stops with 0 as soon as the next row
    would not fit, and 1 means every requested row was delivered.

    The specification functions work on the CSR arrays as sequences: ai the
    row pointers, ilen the row lengths in use, x the column numbers or the
    values; `count` says how many of the requested rows are meant. */
module MLGetRow {
  import opened SeqAIJ

  /** Every requested row has a length in use that is not negative. */
  ghost predicate LengthsIn(ilen: seq<int>, rows: seq<int>)
  {
    forall n :: 0 <= n < |rows| ==> 0 <= rows[n] < |ilen| && 0 <= ilen[rows[n]]
  }

  /** Every requested row has its entries in use inside x. */
  ghost predicate RowsIn<U>(ai: seq<int>, ilen: seq<int>, x: seq<U>, rows: seq<int>)
  {
    LengthsIn(ilen, rows) &&
    forall n :: 0 <= n < |rows| ==>
      rows[n] < |ai| && 0 <= ai[rows[n]] && ai[rows[n]] + ilen[rows[n]] <= |x|
  }

  /** The test guarding the copy of a row, as written: with `||` it holds
      for every row once the matrix size is not negative, so it never skips
      a row. */
  function RowGuard(row: int, m: nat): (r: bool)
    ensures r
  {
    (row >= 0) || (row <= m - 1)
  }

  /** Entries the first `count` requested rows use, in total. */
  function Used(ilen: seq<int>, rows: seq<int>, count: nat): (total: int)
    requires LengthsIn(ilen, rows) && count <= |rows|
    ensures total >= 0
  {
    if count == 0 then 0
    else Used(ilen, rows, count - 1) + ilen[rows[count - 1]]
  }

  /** The entries (columns or values) of the first `count` requested rows,
      one row after another. */
  function Gathered<U>(ai: seq<int>, ilen: seq<int>, x: seq<U>, rows: seq<int>, count: nat): (r: seq<U>)
    requires RowsIn(ai, ilen, x, rows) && count <= |rows|
    ensures |r| == Used(ilen, rows, count)
  {
    if count == 0 then []
    else
      var row := rows[count - 1];
      Gathered(ai, ilen, x, rows, count - 1) + x[ai[row]..ai[row] + ilen[row]]
  }

  /** How many requested rows, from the n-th on, are delivered before one
      does not fit into `space` entries. */
  function Delivered(ilen: seq<int>, rows: seq<int>, space: int, n: nat): (d: nat)
    requires LengthsIn(ilen, rows) && n <= |rows|
    ensures n <= d <= |rows|
    ensures d > n ==> Used(ilen, rows, d) <= space
    ensures d < |rows| ==> space < Used(ilen, rows, d + 1)
    decreases |rows| - n
  {
    if n == |rows| then n
    else if space < Used(ilen, rows, n + 1) then n
    else Delivered(ilen, rows, space, n + 1)
  }

  /** Fewer requested rows use no more entries. */
  lemma {:induction false} UsedMonotone(ilen: seq<int>, rows: seq<int>, count: nat, more: nat)
    requires LengthsIn(ilen, rows) && count <= more <= |rows|
    ensures Used(ilen, rows, count) <= Used(ilen, rows, more)
    decreases more
  {
    if count < more {
      UsedMonotone(ilen, rows, count, more - 1);
    }
  }

  /** From the n-th row on, every row is delivered exactly when all the
      requested rows together fit. */
  lemma {:induction false} DeliveredFrom(ilen: seq<int>, rows: seq<int>, space: int, n: nat)
    requires LengthsIn(ilen, rows) && n < |rows|
    ensures Delivered(ilen, rows, space, n) == |rows| <==> Used(ilen, rows, |rows|) <= space
    decreases |rows| - n
  {
    UsedMonotone(ilen, rows, n + 1, |rows|);
    if space >= Used(ilen, rows, n + 1) && n + 1 < |rows| {
      DeliveredFrom(ilen, rows, space, n + 1);
    }
  }

  /** The first n requested rows all fit, each together with those before it. */
  ghost predicate FitSoFar(ilen: seq<int>, rows: seq<int>, space: int, n: nat)
    requires LengthsIn(ilen, rows) && n <= |rows|
  {
    forall p :: 1 <= p <= n ==> Used(ilen, rows, p) <= space
  }

  /** One more row that fits keeps all the rows so far fitting. */
  lemma FitOneMore(ilen: seq<int>, rows: seq<int>, space: int, n: nat)
    requires LengthsIn(ilen, rows) && n < |rows| && FitSoFar(ilen, rows, space, n)
    requires Used(ilen, rows, n + 1) <= space
    ensures FitSoFar(ilen, rows, space, n + 1)
  {
    forall p | 1 <= p <= n + 1
      ensures Used(ilen, rows, p) <= space
    {
      if p <= n {
        assert Used(ilen, rows, p) <= space;
      }
    }
  }

  /** When the first n rows fit and the next does not (or there is none),
      exactly n rows are delivered. */
  lemma {:induction false} DeliveredExactly(ilen: seq<int>, rows: seq<int>, space: int, n: nat, from: nat)
    requires LengthsIn(ilen, rows) && from <= n <= |rows| && FitSoFar(ilen, rows, space, n)
    requires n == |rows| || space < Used(ilen, rows, n + 1)
    ensures Delivered(ilen, rows, space, from) == n
    decreases n - from
  {
    if from < n {
      assert Used(ilen, rows, from + 1) <= space;
      DeliveredExactly(ilen, rows, space, n, from + 1);
    }
  }

  /** PetscML_getrow answers 1 exactly when no row was requested or all the
      requested rows fit into the buffers. */
  lemma AllDeliveredIff(ilen: seq<int>, rows: seq<int>, space: int)
    requires LengthsIn(ilen, rows)
    ensures Delivered(ilen, rows, space, 0) == |rows| <==> |rows| == 0 || Used(ilen, rows, |rows|) <= space
  {
    if |rows| > 0 {
      DeliveredFrom(ilen, rows, space, 0);
    }
  }

  /** Local rows of a valid matrix have their entries in use inside both
      entry arrays. */
  lemma LocalRowsIn<T>(A: Mat<T>, rows: seq<int>)
    requires A.Valid() && forall n :: 0 <= n < |rows| ==> 0 <= rows[n] < A.m
    ensures RowsIn(A.i[..], A.ilen[..], A.j[..], rows) && RowsIn(A.i[..], A.ilen[..], A.a[..], rows)
  {
    forall n | 0 <= n < |rows|
      ensures 0 <= A.i[rows[n]] && 0 <= A.ilen[rows[n]]
      ensures A.i[rows[n]] + A.ilen[rows[n]] <= A.j.Length && A.i[rows[n]] + A.ilen[rows[n]] <= A.a.Length
    {
      A.RowBounds(rows[n]);
    }
  }

  /** The copy of one requested row that fits (ml.c:82-87): its entries are
      appended after those of the rows before it. */
  method CopyRequestedRow<T>(A: Mat<T>, ghost ai: seq<int>, ghost il: seq<int>, ghost aj: seq<int>, ghost aa: seq<T>,
                             rows: seq<int>, n: nat, columns: array<int>, values: array<T>, k: nat) returns (k': nat)
    requires A.i[..] == ai && A.ilen[..] == il && A.j[..] == aj && A.a[..] == aa
    requires n < |rows| && RowsIn(ai, il, aj, rows) && RowsIn(ai, il, aa, rows)
    requires columns !in A.Arrays() && values !in A.Arrays() && columns as object != values
    requires k == Used(il, rows, n)
    requires k + il[rows[n]] <= columns.Length && k + il[rows[n]] <= values.Length
    requires columns[..k] == Gathered(ai, il, aj, rows, n)
    requires values[..k] == Gathered(ai, il, aa, rows, n)
    modifies columns, values
    ensures k' == Used(il, rows, n + 1)
    ensures columns[..k'] == Gathered(ai, il, aj, rows, n + 1)
    ensures values[..k'] == Gathered(ai, il, aa, rows, n + 1)
    ensures forall u :: k' <= u < columns.Length ==> columns[u] == old(columns[u])
    ensures forall u :: k' <= u < values.Length ==> values[u] == old(values[u])
  {
    var row := rows[n];
    var from, to := A.i[row], A.i[row] + A.ilen[row];
    ghost var prevc, prevv := columns[..k], values[..k];
    k' := CopyRowEntries(A.j, A.a, from, to, 0, columns, values, k);
    ShiftZero(aj[from..to]);
    assert columns[..k'] == prevc + aj[from..to];
    assert values[..k'] == prevv + aa[from..to];
  }

  /** One pass of the loop of PetscML_getrow (ml.c:78-88): record the
      length of the n-th requested row, then either find that it would
      overrun `space` entries (fits is false, the buffers untouched) or
      append its entries to the buffers.  ai, il, aj and aa are A's arrays
      as sequences. */
  method TakeRow<T>(A: Mat<T>, ghost ai: seq<int>, ghost il: seq<int>, ghost aj: seq<int>, ghost aa: seq<T>,
                    rows: seq<int>, space: int, n: nat,
                    columns: array<int>, values: array<T>, rowLengths: array<int>, k: nat)
    returns (fits: bool, k': nat)
    requires A.i[..] == ai && A.ilen[..] == il && A.j[..] == aj && A.a[..] == aa
    requires n < |rows| && n < rowLengths.Length
    requires RowsIn(ai, il, aj, rows) && RowsIn(ai, il, aa, rows)
    requires space <= columns.Length && space <= values.Length
    requires columns !in A.Arrays() && values !in A.Arrays() && rowLengths !in A.Arrays()
    requires columns != rowLengths && columns as object != values && rowLengths as object != values
    requires k == Used(il, rows, n) && k <= columns.Length && k <= values.Length
    requires columns[..k] == Gathered(ai, il, aj, rows, n)
    requires values[..k] == Gathered(ai, il, aa, rows, n)
    modifies columns, values, rowLengths
    ensures rowLengths[n] == il[rows[n]]
    ensures forall p :: 0 <= p < rowLengths.Length && p != n ==> rowLengths[p] == old(rowLengths[p])
    ensures fits <==> Used(il, rows, n + 1) <= space
    ensures !fits ==> k' == k && columns[..] == old(columns[..]) && values[..] == old(values[..])
    ensures fits ==> k' == Used(il, rows, n + 1)
    ensures fits ==> columns[..k'] == Gathered(ai, il, aj, rows, n + 1)
    ensures fits ==> values[..k'] == Gathered(ai, il, aa, rows, n + 1)
    ensures forall u :: k' <= u < columns.Length ==> columns[u] == old(columns[u])
    ensures forall u :: k' <= u < values.Length ==> values[u] == old(values[u])
  {
    var row := rows[n];
    rowLengths[n] := A.ilen[row];
    if space < k + rowLengths[n] {
      return false, k;
    }
    if RowGuard(row, A.m) {
      k' := CopyRequestedRow(A, ai, il, aj, aa, rows, n, columns, values, k);
    }
    fits := true;
  }

  /** PetscML_getrow: copy the requested rows of A into columns/values from
      position 0 on and each row's length into rowLengths; give up with 0
      when the next row would overrun `space` entries (its length is already
      recorded then), else answer 1.  Nothing past what was delivered is
      touched.  The requested rows must have their entries inside A's
      arrays, as local rows of a valid matrix do (LocalRowsIn). */
  method GetRow<T>(A: Mat<T>, rows: seq<int>, space: int,
                   columns: array<int>, values: array<T>, rowLengths: array<int>)
    returns (ret: int, ghost d: nat)
    requires RowsIn(A.i[..], A.ilen[..], A.j[..], rows) && RowsIn(A.i[..], A.ilen[..], A.a[..], rows)
    requires space <= columns.Length && space <= values.Length && |rows| <= rowLengths.Length
    requires columns !in A.Arrays() && values !in A.Arrays() && rowLengths !in A.Arrays()
    requires columns != rowLengths && columns as object != values && rowLengths as object != values
    modifies columns, values, rowLengths
    ensures d == Delivered(A.ilen[..], rows, space, 0)
    ensures ret == (if d == |rows| then 1 else 0)
    ensures columns[..Used(A.ilen[..], rows, d)] == Gathered(A.i[..], A.ilen[..], A.j[..], rows, d)
    ensures values[..Used(A.ilen[..], rows, d)] == Gathered(A.i[..], A.ilen[..], A.a[..], rows, d)
    ensures forall u :: Used(A.ilen[..], rows, d) <= u < columns.Length ==> columns[u] == old(columns[u])
    ensures forall u :: Used(A.ilen[..], rows, d) <= u < values.Length ==> values[u] == old(values[u])
    ensures forall n :: 0 <= n < |rows| && n <= d ==> rowLengths[n] == A.ilen[rows[n]]
    ensures forall n :: d < n < rowLengths.Length ==> rowLengths[n] == old(rowLengths[n])
  {
    ghost var ai, il, aj, aa := A.i[..], A.ilen[..], A.j[..], A.a[..];
    var k := 0;
    var n := 0;
    ret := 1;
    while n < |rows|
      invariant ret == 1
      invariant 0 <= n <= |rows| && FitSoFar(il, rows, space, n)
      invariant k == Used(il, rows, n) && k <= columns.Length && k <= values.Length
      invariant columns[..k] == Gathered(ai, il, aj, rows, n)
      invariant values[..k] == Gathered(ai, il, aa, rows, n)
      invariant forall u :: k <= u < columns.Length ==> columns[u] == old(columns[u])
      invariant forall u :: k <= u < values.Length ==> values[u] == old(values[u])
      invariant forall p :: 0 <= p < n ==> rowLengths[p] == il[rows[p]]
      invariant forall p :: n <= p < rowLengths.Length ==> rowLengths[p] == old(rowLengths[p])
    {
      var fits;
      fits, k := TakeRow(A, ai, il, aj, aa, rows, space, n, columns, values, rowLengths, k);
      if !fits {
        ret := 0;
        break;
      }
      FitOneMore(il, rows, space, n);
      n := n + 1;
    }
    DeliveredExactly(il, rows, space, n, 0);
    d := n;
  }
}
