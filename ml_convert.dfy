/** MatConvert_MPIAIJ_ML (src/ksp/pc/impls/ml/ml.c): the local rows of a
    parallel AIJ matrix are stored as a diagonal block A (columns owned by this
    process) and an off-diagonal block B (columns owned elsewhere, numbered
    compactly).  ML wants one sequential matrix whose row r is A's row r
    followed by B's row r, with B's column numbers moved past A's columns. */
module MLConvert {
  import opened PetscErrors
  import opened SeqAIJ

  /** How the caller wants the output matrix produced. */
  datatype MatReuse = InitialMatrix | ReuseMatrix | InplaceMatrix | IgnoreMatrix

  /** Row r of the merged matrix: x's row r (rows delimited by p) followed
      by y's row r (rows delimited by q). */
  function MergedRowOf<U>(p: seq<int>, x: seq<U>, q: seq<int>, y: seq<U>, m: nat, r: nat): (row: seq<U>)
    requires RowPointers(p, m, |x|) && RowPointers(q, m, |y|) && r < m
    ensures |row| == (p[r + 1] - p[r]) + (q[r + 1] - q[r])
  {
    assert p[r] <= p[r + 1] && q[r] <= q[r + 1];
    x[p[r]..p[r + 1]] + y[q[r]..q[r + 1]]
  }

  /** The first `rows` rows of the merged matrix, one after another, as one
      array of entries. */
  function Interleave<U>(p: seq<int>, x: seq<U>, q: seq<int>, y: seq<U>, m: nat, rows: nat): (r: seq<U>)
    requires RowPointers(p, m, |x|) && RowPointers(q, m, |y|) && rows <= m
    ensures |r| == p[rows] + q[rows]
    decreases rows
  {
    if rows == 0 then []
    else Interleave(p, x, q, y, m, rows - 1) + MergedRowOf(p, x, q, y, m, rows - 1)
  }

  /** Building more rows never changes the rows already built. */
  lemma {:induction false} InterleavePrefix<U>(p: seq<int>, x: seq<U>, q: seq<int>, y: seq<U>, m: nat, rows: nat, more: nat)
    requires RowPointers(p, m, |x|) && RowPointers(q, m, |y|) && rows <= more <= m
    ensures Interleave(p, x, q, y, m, more)[..p[rows] + q[rows]] == Interleave(p, x, q, y, m, rows)
    decreases more
  {
    if more > rows {
      InterleavePrefix(p, x, q, y, m, rows, more - 1);
      var prev := Interleave(p, x, q, y, m, more - 1);
      var whole := Interleave(p, x, q, y, m, more);
      var n := p[rows] + q[rows];
      assert whole == prev + MergedRowOf(p, x, q, y, m, more - 1);
      assert n <= |prev| by {
        assert p[rows] <= p[more - 1] && q[rows] <= q[more - 1];
      }
      assert whole[..n] == prev[..n];
    }
  }

  /** Appending row r's pieces to the first r merged rows gives the first
      r + 1. */
  lemma RowAppended<U>(p: seq<int>, x: seq<U>, q: seq<int>, y: seq<U>, m: nat, r: nat, prev: seq<U>, xs: seq<U>, ys: seq<U>)
    requires RowPointers(p, m, |x|) && RowPointers(q, m, |y|) && r < m
    requires prev == Interleave(p, x, q, y, m, r)
    requires xs == x[p[r]..p[r + 1]] && ys == y[q[r]..q[r + 1]]
    ensures prev + xs + ys == Interleave(p, x, q, y, m, r + 1)
  {
    assert MergedRowOf(p, x, q, y, m, r) == xs + ys;
  }

  /** Row r of the merged matrix sits at positions p[r]+q[r] .. p[r+1]+q[r+1]-1
      and is x's row r followed by y's row r. */
  lemma MergedRow<U>(p: seq<int>, x: seq<U>, q: seq<int>, y: seq<U>, m: nat, r: nat)
    requires RowPointers(p, m, |x|) && RowPointers(q, m, |y|) && r < m
    ensures Interleave(p, x, q, y, m, m)[p[r] + q[r]..p[r + 1] + q[r + 1]]
         == x[p[r]..p[r + 1]] + y[q[r]..q[r + 1]]
  {
    InterleavePrefix(p, x, q, y, m, r + 1, m);
    var upto := Interleave(p, x, q, y, m, r + 1);
    var prev := Interleave(p, x, q, y, m, r);
    var row := MergedRowOf(p, x, q, y, m, r);
    assert upto == prev + row;
    assert upto[|prev|..] == row;
  }

  /** A merged row holds entries of x's and y's rows only, so bounds that
      hold for the stored entries of both hold for it. */
  lemma MergedRowBounded(p: seq<int>, x: seq<int>, q: seq<int>, y: seq<int>, m: nat, r: nat, lo: int, hi: int)
    requires RowPointers(p, m, |x|) && RowPointers(q, m, |y|) && r < m
    requires forall t :: 0 <= t < p[m] ==> lo <= x[t] < hi
    requires forall t :: 0 <= t < q[m] ==> lo <= y[t] < hi
    ensures forall t :: 0 <= t < |MergedRowOf(p, x, q, y, m, r)| ==> lo <= MergedRowOf(p, x, q, y, m, r)[t] < hi
  {
    var row := MergedRowOf(p, x, q, y, m, r);
    var xs, ys := x[p[r]..p[r + 1]], y[q[r]..q[r + 1]];
    assert row == xs + ys;
    assert p[r + 1] <= p[m] && q[r + 1] <= q[m];
    forall t | 0 <= t < |row|
      ensures lo <= row[t] < hi
    {
      if t < |xs| {
        assert row[t] == x[p[r] + t];
      } else {
        assert row[t] == y[q[r] + t - |xs|];
      }
    }
  }

  /** Every merged entry is an entry of x or of y, so bounds that hold for
      the stored entries of both hold for the merged ones. */
  lemma {:induction false} InterleaveBounded(p: seq<int>, x: seq<int>, q: seq<int>, y: seq<int>, m: nat, rows: nat, lo: int, hi: int)
    requires RowPointers(p, m, |x|) && RowPointers(q, m, |y|) && rows <= m
    requires forall t :: 0 <= t < p[m] ==> lo <= x[t] < hi
    requires forall t :: 0 <= t < q[m] ==> lo <= y[t] < hi
    ensures forall t :: 0 <= t < p[rows] + q[rows] ==> lo <= Interleave(p, x, q, y, m, rows)[t] < hi
    decreases rows
  {
    if rows > 0 {
      InterleaveBounded(p, x, q, y, m, rows - 1, lo, hi);
      MergedRowBounded(p, x, q, y, m, rows - 1, lo, hi);
      var prev := Interleave(p, x, q, y, m, rows - 1);
      var row := MergedRowOf(p, x, q, y, m, rows - 1);
      var whole := Interleave(p, x, q, y, m, rows);
      assert whole == prev + row;
      forall t | 0 <= t < |whole|
        ensures lo <= whole[t] < hi
      {
        if t < |prev| {
          assert whole[t] == prev[t];
        } else {
          assert whole[t] == row[t - |prev|];
        }
      }
    }
  }

  /** The merged column numbers all lie in 0 .. an+bn-1 when A's lie in
      0 .. an-1 and B's in 0 .. bn-1: the result is a matrix with an + bn
      columns. */
  lemma MergedColumnsInRange(ai: seq<int>, aj: seq<int>, bi: seq<int>, bj: seq<int>, m: nat, an: nat, bn: nat, cj: seq<int>)
    requires RowPointers(ai, m, |aj|) && RowPointers(bi, m, |bj|)
    requires forall t :: 0 <= t < ai[m] ==> 0 <= aj[t] < an
    requires forall t :: 0 <= t < bi[m] ==> 0 <= bj[t] < bn
    requires cj == Interleave(ai, aj, bi, Shift(bj, an), m, m)
    ensures forall t :: 0 <= t < |cj| ==> 0 <= cj[t] < an + bn
  {
    InterleaveBounded(ai, aj, bi, Shift(bj, an), m, m, 0, an + bn);
  }

  /** Row pointers of the merged matrix (ml.c:183-185): each merged row is as
      long as A's row plus B's row, so pointer r is A's plus B's. */
  method MergedRowPointers(ai: array<int>, bi: array<int>, am: nat) returns (ci: array<int>)
    requires ai.Length == am + 1 && bi.Length == am + 1 && ai[0] == 0 && bi[0] == 0
    ensures fresh(ci) && ci.Length == am + 1 && ci[0] == 0
    ensures forall r :: 0 <= r < am ==> ci[r + 1] - ci[r] == (ai[r + 1] - ai[r]) + (bi[r + 1] - bi[r])
    ensures forall r :: 0 <= r <= am ==> ci[r] == ai[r] + bi[r]
  {
    ci := new int[am + 1];
    ci[0] := 0;
    for r := 0 to am
      invariant forall s :: 0 <= s <= r ==> ci[s] == ai[s] + bi[s]
    {
      ci[r + 1] := ci[r] + (ai[r + 1] - ai[r]) + (bi[r + 1] - bi[r]);
    }
  }

  /** The arrays of A and B, which the merge reads. */
  function Inputs<T>(A: Mat<T>, B: Mat<T>): (arrays: set<object>)
    reads A, B
  {
    A.Arrays() + B.Arrays()
  }

  /** One pass of the merge loop (ml.c:190-204): row r of A and then row r
      of B, B's columns moved up by an, appended after rows 0 .. r-1.  The
      ghost sequences are A's and B's arrays. */
  method MergeRow<T>(A: Mat<T>, B: Mat<T>,
                     ghost ai: seq<int>, ghost aj: seq<int>, ghost aa: seq<T>,
                     ghost bi: seq<int>, ghost bj: seq<int>, ghost ba: seq<T>,
                     am: nat, an: nat, r: nat, cj: array<int>, ca: array<T>, k: nat) returns (k': nat)
    requires A.i[..] == ai && A.j[..] == aj && A.a[..] == aa
    requires B.i[..] == bi && B.j[..] == bj && B.a[..] == ba
    requires RowPointers(ai, am, |aj|) && RowPointers(ai, am, |aa|)
    requires RowPointers(bi, am, |bj|) && RowPointers(bi, am, |ba|) && r < am
    requires ai[am] + bi[am] <= cj.Length && ai[am] + bi[am] <= ca.Length
    requires cj !in Inputs(A, B) && ca !in Inputs(A, B) && cj as object != ca
    requires k == ai[r] + bi[r]
    requires cj[..k] == Interleave(ai, aj, bi, Shift(bj, an), am, r)
    requires ca[..k] == Interleave(ai, aa, bi, ba, am, r)
    modifies cj, ca
    ensures k' == ai[r + 1] + bi[r + 1]
    ensures cj[..k'] == Interleave(ai, aj, bi, Shift(bj, an), am, r + 1)
    ensures ca[..k'] == Interleave(ai, aa, bi, ba, am, r + 1)
  {
    ghost var prevj, preva := cj[..k], ca[..k];
    assert ai[r] <= ai[r + 1] && bi[r] <= bi[r + 1];
    // diagonal block
    k' := CopyRowEntries(A.j, A.a, A.i[r], A.i[r + 1], 0, cj, ca, k);
    // off-diagonal block
    k' := CopyRowEntries(B.j, B.a, B.i[r], B.i[r + 1], an, cj, ca, k');
    ShiftZero(aj[ai[r]..ai[r + 1]]);
    ShiftSlice(bj, bi[r], bi[r + 1], an);
    RowAppended(ai, aj, bi, Shift(bj, an), am, r, prevj, aj[ai[r]..ai[r + 1]], Shift(bj, an)[bi[r]..bi[r + 1]]);
    RowAppended(ai, aa, bi, ba, am, r, preva, aa[ai[r]..ai[r + 1]], ba[bi[r]..bi[r + 1]]);
  }

  /** The merge loop of the initial conversion (ml.c:186-205): fresh column
      and value arrays holding, row by row, A's entries and then B's entries
      with B's columns moved past A's an columns.  The count check at
      ml.c:205 can never fire: the loop ends exactly at ci[am]. */
  method MergeEntries<T(0)>(A: Mat<T>, B: Mat<T>, am: nat, an: nat, ci: array<int>)
    returns (cj: array<int>, ca: array<T>)
    requires A.Valid() && B.Valid() && A.m == am && B.m == am && A.ncols == an
    requires ci.Length == am + 1 && forall r :: 0 <= r <= am ==> ci[r] == A.i[r] + B.i[r]
    ensures fresh(cj) && fresh(ca) && cj.Length == ci[am] + 1 && ca.Length == ci[am] + 1
    ensures cj[..ci[am]] == Interleave(A.i[..], A.j[..], B.i[..], Shift(B.j[..], an), am, am)
    ensures ca[..ci[am]] == Interleave(A.i[..], A.a[..], B.i[..], B.a[..], am, am)
  {
    ghost var ai, aj, aa := A.i[..], A.j[..], A.a[..];
    ghost var bi, bj, ba := B.i[..], B.j[..], B.a[..];
    assert ci[am] == ai[am] + bi[am];
    cj := new int[ci[am] + 1];
    ca := new T[ci[am] + 1];
    var k: nat := 0;
    for r := 0 to am
      invariant k == ai[r] + bi[r]
      invariant cj[..k] == Interleave(ai, aj, bi, Shift(bj, an), am, r)
      invariant ca[..k] == Interleave(ai, aa, bi, ba, am, r)
    {
      k := MergeRow(A, B, ai, aj, aa, bi, bj, ba, am, an, r, cj, ca, k);
    }
  }

  /** One pass of the reuse loop (ml.c:223-229): the values of row r of A
      and then of row r of B, appended after rows 0 .. r-1; nothing after
      them changes.  The ghost sequences are A's and B's arrays. */
  method MergeRowValues<T>(A: Mat<T>, B: Mat<T>, ghost ai: seq<int>, ghost aa: seq<T>,
                           ghost bi: seq<int>, ghost ba: seq<T>,
                           am: nat, r: nat, ca: array<T>, k: nat) returns (k': nat)
    requires A.i[..] == ai && A.a[..] == aa && B.i[..] == bi && B.a[..] == ba
    requires RowPointers(ai, am, |aa|) && RowPointers(bi, am, |ba|) && r < am
    requires ai[am] + bi[am] <= ca.Length && ca !in Inputs(A, B)
    requires k == ai[r] + bi[r]
    requires ca[..k] == Interleave(ai, aa, bi, ba, am, r)
    modifies ca
    ensures k' == ai[r + 1] + bi[r + 1]
    ensures ca[..k'] == Interleave(ai, aa, bi, ba, am, r + 1)
    ensures forall u :: k' <= u < ca.Length ==> ca[u] == old(ca[u])
  {
    ghost var prev := ca[..k];
    assert ai[r] <= ai[r + 1] && bi[r] <= bi[r + 1];
    k' := CopyValues(A.a, A.i[r], A.i[r + 1], ca, k);
    k' := CopyValues(B.a, B.i[r], B.i[r + 1], ca, k');
    RowAppended(ai, aa, bi, ba, am, r, prev, aa[ai[r]..ai[r + 1]], ba[bi[r]..bi[r + 1]]);
  }

  /** The value pass of a reuse (ml.c:218-230): only the values are
      overwritten, in the same merged order; columns and row pointers of the
      earlier result stay. */
  method MergeValues<T>(A: Mat<T>, B: Mat<T>, am: nat, ca: array<T>)
    requires A.Valid() && B.Valid() && A.m == am && B.m == am
    requires A.i[am] + B.i[am] <= ca.Length && ca !in Inputs(A, B)
    modifies ca
    ensures ca[..A.i[am] + B.i[am]] == Interleave(A.i[..], A.a[..], B.i[..], B.a[..], am, am)
    ensures forall u :: A.i[am] + B.i[am] <= u < ca.Length ==> ca[u] == old(ca[u])
  {
    ghost var ai, aa := A.i[..], A.a[..];
    ghost var bi, ba := B.i[..], B.a[..];
    var k := 0;
    for r := 0 to am
      invariant k == ai[r] + bi[r]
      invariant ca[..k] == Interleave(ai, aa, bi, ba, am, r)
      invariant forall u :: k <= u < ca.Length ==> ca[u] == old(ca[u])
    {
      k := MergeRowValues(A, B, ai, aa, bi, ba, am, r, ca, k);
    }
  }

  /** The arrays of the MAT_INITIAL_MATRIX path (ml.c:183-205), with the
      shape facts that make them a matrix of an + bn columns. */
  method MergedArrays<T(0)>(A: Mat<T>, B: Mat<T>, am: nat, an: nat)
    returns (ci: array<int>, cj: array<int>, ca: array<T>, ilen: array<int>)
    requires A.Valid() && B.Valid() && A.m == am && B.m == am && A.ncols == an
    ensures fresh(ci) && fresh(cj) && fresh(ca) && fresh(ilen)
    ensures ci != cj && ci != ilen && cj != ilen
    ensures ci.Length == am + 1 && forall r :: 0 <= r <= am ==> ci[r] == A.i[r] + B.i[r]
    ensures RowPointers(ci[..], am, cj.Length) && RowPointers(ci[..], am, ca.Length)
    ensures ilen.Length == am && forall r :: 0 <= r < am ==> ilen[r] == ci[r + 1] - ci[r]
    ensures cj[..ci[am]] == Interleave(A.i[..], A.j[..], B.i[..], Shift(B.j[..], an), am, am)
    ensures ca[..ci[am]] == Interleave(A.i[..], A.a[..], B.i[..], B.a[..], am, am)
    ensures forall t :: 0 <= t < ci[am] ==> 0 <= cj[t] < an + B.ncols
  {
    ci := MergedRowPointers(A.i, B.i, am);
    cj, ca := MergeEntries(A, B, am, an, ci);
    ilen := RowLengths(ci, am);
    SumOfRowPointers(A.i[..], B.i[..], ci[..], am, A.j.Length, B.j.Length, cj.Length);
    SumOfRowPointers(A.i[..], B.i[..], ci[..], am, A.j.Length, B.j.Length, ca.Length);
    MergedColumnsInRange(A.i[..], A.j[..], B.i[..], B.j[..], am, an, B.ncols, cj[..ci[am]]);
    assert forall t :: 0 <= t < ci[am] ==> cj[t] == cj[..ci[am]][t];
  }

  /** The MAT_INITIAL_MATRIX path (ml.c:182-217): a new matrix with A's
      plus B's columns whose row r is A's row r followed by B's row r. */
  method ConvertInitial<T(0)>(A: Mat<T>, B: Mat<T>, am: nat, an: nat) returns (C: Mat<T>)
    requires A.Valid() && B.Valid() && A.m == am && B.m == am && A.ncols == an
    ensures fresh(C) && fresh(C.i) && fresh(C.j) && fresh(C.a) && fresh(C.ilen)
    ensures C.Valid() && C.m == am && C.ncols == an + B.ncols
    ensures forall r :: 0 <= r <= am ==> C.i[r] == A.i[r] + B.i[r]
    ensures C.j[..C.i[am]] == Interleave(A.i[..], A.j[..], B.i[..], Shift(B.j[..], an), am, am)
    ensures C.a[..C.i[am]] == Interleave(A.i[..], A.a[..], B.i[..], B.a[..], am, am)
  {
    var ci, cj, ca, ilen := MergedArrays(A, B, am, an);
    C := new Mat(am, an + B.ncols, ci, cj, ca, ilen);
  }

  /** MatConvert_MPIAIJ_ML: A and B are the diagonal and off-diagonal blocks
      of the local rows, prior the matrix *Aloc held on entry.  A diagonal
      block that is not square is refused; InitialMatrix builds a new merged
      matrix with A's plus B's columns; ReuseMatrix refills prior's values;
      any other request is refused. */
  method ConvertMPIAIJToML<T(0)>(A: Mat<T>, B: Mat<T>, am: nat, an: nat, scall: MatReuse, prior: Mat?<T>)
    returns (err: ErrorCode, C: Mat?<T>)
    requires A.Valid() && B.Valid() && A.m == am && B.m == am && A.ncols == an
    requires scall == ReuseMatrix && am == an ==>
      prior != null && prior.a.Length >= A.i[am] + B.i[am] && prior.a !in Inputs(A, B)
    modifies if scall == ReuseMatrix && am == an && prior != null then {prior.a} else {}
    ensures am != an ==> err == ErrArgWrong && C == prior
    ensures am == an && scall == InitialMatrix ==>
      err == Success && C != null && fresh(C) && fresh(C.i) && fresh(C.j) && fresh(C.a) && fresh(C.ilen) &&
      C.Valid() && C.m == am && C.ncols == an + B.ncols &&
      (forall r :: 0 <= r <= am ==> C.i[r] == A.i[r] + B.i[r]) &&
      C.j[..C.i[am]] == Interleave(A.i[..], A.j[..], B.i[..], Shift(B.j[..], an), am, am) &&
      C.a[..C.i[am]] == Interleave(A.i[..], A.a[..], B.i[..], B.a[..], am, am)
    ensures am == an && scall == ReuseMatrix ==>
      err == Success && C == prior &&
      prior.a[..A.i[am] + B.i[am]] == Interleave(A.i[..], A.a[..], B.i[..], B.a[..], am, am) &&
      forall u :: A.i[am] + B.i[am] <= u < prior.a.Length ==> prior.a[u] == old(prior.a[u])
    ensures am == an && (scall == InplaceMatrix || scall == IgnoreMatrix) ==> err == ErrArgWrong && C == prior
  {
    if am != an {
      return ErrArgWrong, prior;
    }
    match scall {
      case InitialMatrix =>
        C := ConvertInitial(A, B, am, an);
        err := Success;
      case ReuseMatrix =>
        MergeValues(A, B, am, prior.a);
        err, C := Success, prior;
      case _ =>
        err, C := ErrArgWrong, prior;
    }
  }

  /** Every row of a matrix built from row pointers alone is full. */
  method RowLengths(ci: array<int>, am: nat) returns (ilen: array<int>)
    requires ci.Length == am + 1
    ensures fresh(ilen) && ilen.Length == am
    ensures forall r :: 0 <= r < am ==> ilen[r] == ci[r + 1] - ci[r]
  {
    ilen := new int[am];
    for r := 0 to am
      invariant forall s :: 0 <= s < r ==> ilen[s] == ci[s + 1] - ci[s]
    {
      ilen[r] := ci[r + 1] - ci[r];
    }
  }
}
