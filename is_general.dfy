/** General index sets: an index set (IS) that owns an explicit list of
    integers (src/vec/is/impls/general/general.c).

    The C object is split in two records: the generic `_IS` header (min, max,
    isperm) and the `IS_General` payload (n, sorted, idx).  Both are fields of
    the one class `IndexSet` here. */
module ISGeneral {

  // ---------------------------------------------------------------------------
  // Specification of index lists
  // ---------------------------------------------------------------------------

  /** The test ISCreateGeneral makes: every adjacent pair is in order. */
  predicate NonDecreasing(s: seq<int>)
  {
    forall i :: 0 < i < |s| ==> s[i - 1] <= s[i]
  }

  /** Sorted in the usual pairwise sense. */
  ghost predicate Sorted(s: seq<int>)
  {
    forall i, j :: 0 <= i <= j < |s| ==> s[i] <= s[j]
  }

  /** min and max of the list, or both 0 for the empty list. */
  ghost predicate IsMinMax(s: seq<int>, min: int, max: int)
  {
    if |s| == 0 then min == 0 && max == 0
    else min in s && max in s && forall x :: x in s ==> min <= x <= max
  }

  /** `s` is a permutation of 0 .. |s|-1: every entry in range, no entry twice. */
  ghost predicate IsPermutation(s: seq<int>)
  {
    (forall i :: 0 <= i < |s| ==> 0 <= s[i] < |s|) &&
    (forall i, j :: 0 <= i < j < |s| ==> s[i] != s[j])
  }

  /** The adjacent test and the pairwise order agree. */
  lemma {:induction false} NonDecreasingIffSorted(s: seq<int>)
    ensures NonDecreasing(s) <==> Sorted(s)
  {
    if |s| > 1 && NonDecreasing(s) {
      var p := s[..|s| - 1];
      assert NonDecreasing(p) by {
        forall i | 0 < i < |p| ensures p[i - 1] <= p[i] {
          assert p[i - 1] == s[i - 1] && p[i] == s[i];
        }
      }
      NonDecreasingIffSorted(p);
      forall i, j | 0 <= i <= j < |s| ensures s[i] <= s[j] {
        if j < |s| - 1 {
          assert p[i] <= p[j];
        } else if i < j {
          assert p[i] <= p[j - 1];
        }
      }
    }
  }

  /** Reordering the list keeps its min and max. */
  lemma PermutedMinMax(s: seq<int>, t: seq<int>, min: int, max: int)
    requires multiset(s) == multiset(t)
    requires IsMinMax(s, min, max)
    ensures IsMinMax(t, min, max)
  {
    assert |s| == |multiset(s)| == |multiset(t)| == |t|;
    forall x ensures x in s <==> x in t {
      assert x in s <==> x in multiset(s);
      assert x in t <==> x in multiset(t);
    }
  }

  /** The first entry of a sorted non-empty list is below every element. */
  lemma SortedHeadIsLeast(s: seq<int>, x: int)
    requires Sorted(s) && x in s
    ensures s[0] <= x
  {
    var i :| 0 <= i < |s| && s[i] == x;
  }

  lemma SortedTail(s: seq<int>)
    requires Sorted(s) && |s| > 0
    ensures Sorted(s[1..])
  {
    forall i, j | 0 <= i <= j < |s| - 1 ensures s[1..][i] <= s[1..][j] {
      assert s[1..][i] == s[i + 1] && s[1..][j] == s[j + 1];
    }
  }

  /** Dropping equal heads from two lists with the same elements leaves
      tails with the same elements. */
  lemma SameTails(s: seq<int>, t: seq<int>)
    requires |s| > 0 && |t| > 0 && s[0] == t[0]
    requires multiset(s) == multiset(t)
    ensures multiset(s[1..]) == multiset(t[1..])
  {
    assert s == [s[0]] + s[1..];
    assert t == [t[0]] + t[1..];
    assert multiset(s) == multiset{s[0]} + multiset(s[1..]);
    assert multiset(t) == multiset{t[0]} + multiset(t[1..]);
    assert multiset(s[1..]) == multiset(s) - multiset{s[0]};
    assert multiset(t[1..]) == multiset(t) - multiset{t[0]};
  }

  /** Two sorted lists with the same elements are equal: sorting has exactly
      one possible outcome, so sorting twice gives what sorting once gave. */
  lemma {:induction false} SortedPermutationUnique(s: seq<int>, t: seq<int>)
    requires Sorted(s) && Sorted(t)
    requires multiset(s) == multiset(t)
    ensures s == t
  {
    assert |s| == |multiset(s)| == |multiset(t)| == |t|;
    if |s| > 0 {
      // the head of each is the least element of the common multiset
      assert s[0] in multiset(t) && t[0] in multiset(s);
      SortedHeadIsLeast(t, s[0]);
      SortedHeadIsLeast(s, t[0]);
      SameTails(s, t);
      SortedTail(s);
      SortedTail(t);
      SortedPermutationUnique(s[1..], t[1..]);
      assert s == [s[0]] + s[1..] && t == [t[0]] + t[1..];
    }
  }

  /** The values of an injective list on 0 .. n-1 form a set of n elements. */
  lemma {:induction false} InjectiveImageSize(s: seq<int>, k: nat)
    requires k <= |s|
    requires forall i, j :: 0 <= i < j < |s| ==> s[i] != s[j]
    ensures |set i | 0 <= i < k :: s[i]| == k
  {
    if k > 0 {
      InjectiveImageSize(s, k - 1);
      var before := set i | 0 <= i < k - 1 :: s[i];
      assert s[k - 1] !in before;
      assert (set i | 0 <= i < k :: s[i]) == before + {s[k - 1]};
    }
  }

  /** The interval 0 .. n-1 as a set. */
  ghost function Interval(n: nat): (r: set<int>)
    ensures forall v :: v in r <==> 0 <= v < n
    ensures |r| == n
  {
    if n == 0 then {} else Interval(n - 1) + {n - 1}
  }

  /** A subset is no larger than its superset. */
  lemma SubsetSize(a: set<int>, b: set<int>)
    requires a <= b
    ensures |a| <= |b|
  {
    assert b == a + (b - a);
    assert a * (b - a) == {};
  }

  /** Pigeonhole: a permutation hits every value of 0 .. n-1. */
  lemma PermutationIsOnto(s: seq<int>, v: int)
    requires IsPermutation(s)
    requires 0 <= v < |s|
    ensures exists i :: 0 <= i < |s| && s[i] == v
  {
    var image := set i | 0 <= i < |s| :: s[i];
    InjectiveImageSize(s, |s|);
    if v !in image {
      SubsetSize(image, Interval(|s|) - {v});
      assert false;
    }
  }

  /** t undoes s and s undoes t: both compose to the identity. */
  ghost predicate Inverse(s: seq<int>, t: seq<int>)
  {
    |s| == |t| &&
    (forall i :: 0 <= i < |s| ==> 0 <= s[i] < |t| && t[s[i]] == i) &&
    (forall j :: 0 <= j < |t| ==> 0 <= t[j] < |s| && s[t[j]] == j)
  }

  /** If t[s[i]] == i for all i, then t is itself a permutation and the two
      compose to the identity in both orders. */
  lemma InverseIsTwoSided(s: seq<int>, t: seq<int>)
    requires IsPermutation(s) && |t| == |s|
    requires forall i :: 0 <= i < |s| ==> t[s[i]] == i
    ensures Inverse(s, t)
    ensures IsPermutation(t)
  {
    forall j | 0 <= j < |t| ensures 0 <= t[j] < |s| && s[t[j]] == j {
      PermutationIsOnto(s, j);
    }
  }

  // ---------------------------------------------------------------------------
  // The scans of ISCreateGeneral
  // ---------------------------------------------------------------------------

  /** The sortedness scan: stops at the first descent. */
  method ScanSorted(idx: array<int>, n: nat) returns (sorted: bool)
    requires n <= idx.Length
    ensures sorted <==> NonDecreasing(idx[..n])
  {
    sorted := true;
    var i := 1;
    while i < n
      invariant 1 <= i
      invariant forall k :: 0 < k < i && k < n ==> idx[k - 1] <= idx[k]
    {
      if idx[i] < idx[i - 1] {
        assert idx[..n][i] < idx[..n][i - 1];
        sorted := false;
        break;
      }
      i := i + 1;
    }
  }

  /** The min/max scan; an empty list gives 0 and 0. */
  method ScanMinMax(idx: array<int>, n: nat) returns (min: int, max: int)
    requires n <= idx.Length
    ensures IsMinMax(idx[..n], min, max)
  {
    if n == 0 {
      return 0, 0;
    }
    min, max := idx[0], idx[0];
    var i := 1;
    while i < n
      invariant 1 <= i <= n
      invariant min in idx[..i] && max in idx[..i]
      invariant forall x :: x in idx[..i] ==> min <= x <= max
    {
      if idx[i] < min { min := idx[i]; }
      if idx[i] > max { max := idx[i]; }
      assert idx[..i + 1] == idx[..i] + [idx[i]];
      i := i + 1;
    }
    assert idx[..i] == idx[..n];
  }

  /** The loop of ISInvertPermutation_General: ii[idx[i]] = i for every i,
      which makes ii the two-sided inverse of idx. */
  method InverseTable(idx: array<int>, n: nat) returns (ii: array<int>)
    requires n <= idx.Length && IsPermutation(idx[..n])
    ensures fresh(ii) && ii.Length == n
    ensures Inverse(idx[..n], ii[..]) && IsPermutation(ii[..])
  {
    ii := new int[n];
    for i := 0 to n
      invariant forall k :: 0 <= k < i ==> ii[idx[k]] == k
    {
      assert idx[i] == idx[..n][i];
      assert forall k :: 0 <= k < i ==> idx[k] == idx[..n][k] && idx[k] != idx[i];
      ii[idx[i]] := i;
    }
    ghost var s, t := idx[..n], ii[..];
    assert forall i :: 0 <= i < |s| ==> t[s[i]] == i by {
      forall i | 0 <= i < |s| ensures t[s[i]] == i {
        assert s[i] == idx[i];
      }
    }
    InverseIsTwoSided(s, t);
  }

  // ---------------------------------------------------------------------------
  // Integer sort (PetscSortInt): in place on the first n entries
  // ---------------------------------------------------------------------------

  /** Exchange two neighbours inside the first n entries. */
  method SwapAdjacent(a: array<int>, j: nat, n: nat)
    requires 0 < j < n <= a.Length
    modifies a
    ensures a[j - 1] == old(a[j]) && a[j] == old(a[j - 1])
    ensures forall k :: 0 <= k < a.Length && k != j && k != j - 1 ==> a[k] == old(a[k])
    ensures multiset(a[..n]) == old(multiset(a[..n]))
  {
    a[j - 1], a[j] := a[j], a[j - 1];
  }

  /** The first hi entries of the array are in order. */
  ghost predicate SortedUpTo(a: array<int>, hi: nat)
    reads a
    requires hi <= a.Length
  {
    forall p, q :: 0 <= p < q < hi ==> a[p] <= a[q]
  }

  /** One insertion step: a[i] sinks into the sorted prefix a[..i]. */
  method InsertStep(a: array<int>, i: nat, n: nat)
    requires i < n <= a.Length
    requires SortedUpTo(a, i)
    modifies a
    ensures SortedUpTo(a, i + 1)
    ensures multiset(a[..n]) == old(multiset(a[..n]))
    ensures a[n..] == old(a[n..])
  {
    var j := i;
    while j > 0 && a[j - 1] > a[j]
      invariant 0 <= j <= i
      invariant forall p, q :: 0 <= p < q <= i && p != j && q != j ==> a[p] <= a[q]
      invariant forall q :: j < q <= i ==> a[j] <= a[q]
      invariant multiset(a[..n]) == old(multiset(a[..n]))
      invariant a[n..] == old(a[n..])
    {
      SwapAdjacent(a, j, n);
      j := j - 1;
    }
  }

  /** Insertion sort of a[..n]; entries from n on are left alone. */
  method SortInt(a: array<int>, n: nat)
    requires n <= a.Length
    modifies a
    ensures Sorted(a[..n])
    ensures multiset(a[..n]) == old(multiset(a[..n]))
    ensures a[n..] == old(a[n..])
  {
    for i := 0 to n
      invariant SortedUpTo(a, i)
      invariant multiset(a[..n]) == old(multiset(a[..n]))
      invariant a[n..] == old(a[n..])
    {
      InsertStep(a, i, n);
    }
    assert forall p :: 0 <= p < n ==> a[..n][p] == a[p];
  }

  // ---------------------------------------------------------------------------
  // The index-set object
  // ---------------------------------------------------------------------------

  class IndexSet {
    var n: nat          // number of indices
    var sorted: bool    // cached: the indices are in non-decreasing order
    var idx: array<int> // owned buffer of n + 1 entries; the first n are the set
    var min: int        // least index (0 for an empty set)
    var max: int        // greatest index (0 for an empty set)
    var isperm: bool    // the set is marked as a permutation

    /** The cached properties agree with the stored indices. */
    ghost predicate Valid()
      reads this, idx
    {
      idx.Length == n + 1 &&
      (sorted <==> NonDecreasing(idx[..n])) &&
      IsMinMax(idx[..n], min, max)
    }

    /** The indices the set holds. */
    function Indices(): (s: seq<int>)
      reads this, idx
      requires n <= idx.Length
    {
      idx[..n]
    }

    /** The body of ISCreateGeneral once n >= 0 is known: scan, copy, fill. */
    constructor (n: nat, idx: array<int>)
      requires n <= idx.Length
      ensures Valid() && fresh(this.idx)
      ensures this.n == n && Indices() == idx[..n]
      ensures sorted <==> NonDecreasing(idx[..n])
      ensures IsMinMax(idx[..n], min, max)
      ensures !isperm
    {
      var s := ScanSorted(idx, n);
      var lo, hi := ScanMinMax(idx, n);
      var buffer := new int[n + 1];
      for k := 0 to n
        invariant buffer[..k] == idx[..k]
      {
        buffer[k] := idx[k];
      }
      this.idx := buffer;
      this.n := n;
      this.sorted := s;
      this.min := lo;
      this.max := hi;
      this.isperm := false;
    }

    /** ISGetSize_General (both size slots of the operations table). */
    method GetSize() returns (size: nat)
      requires Valid()
      ensures size == |Indices()|
    {
      size := n;
    }

    /** ISGetIndices_General: hands out the set's own buffer, not a copy. */
    method GetIndices() returns (p: array<int>)
      requires Valid()
      ensures p == idx && p[..|Indices()|] == Indices()
    {
      p := idx;
    }

    /** ISSorted_General: reports the cached flag, which is exact. */
    method IsSorted() returns (flg: bool)
      requires Valid()
      ensures flg <==> Sorted(Indices())
    {
      flg := sorted;
      NonDecreasingIffSorted(Indices());
    }

    /** ISSort_General: nothing to do when already sorted; otherwise sort in
        place and latch the flag. */
    method Sort()
      requires Valid()
      modifies this, idx
      ensures Valid() && idx == old(idx) && sorted
      ensures Sorted(Indices())
      ensures multiset(Indices()) == multiset(old(Indices()))
      ensures old(sorted) ==> Indices() == old(Indices())
      ensures n == old(n) && min == old(min) && max == old(max) && isperm == old(isperm)
    {
      if sorted {
        NonDecreasingIffSorted(Indices());
        return;
      }
      SortInt(idx, n);
      sorted := true;
      NonDecreasingIffSorted(Indices());
      PermutedMinMax(old(Indices()), Indices(), min, max);
    }

    /** ISSetPermutation, as ISInvertPermutation_General uses it: the set is
        marked as a permutation and nothing else changes. */
    method MarkPermutation()
      requires Valid()
      modifies this
      ensures Valid() && isperm
      ensures n == old(n) && idx == old(idx) && sorted == old(sorted)
      ensures min == old(min) && max == old(max)
    {
      isperm := true;
    }

    /** ISInvertPermutation_General: ii[idx[i]] = i, then a new general set
        built from ii and marked as a permutation. */
    method InvertPermutation() returns (out: IndexSet)
      requires Valid() && IsPermutation(Indices())
      ensures fresh(out) && fresh(out.idx) && out.Valid()
      ensures out.n == n && out.isperm
      ensures Inverse(Indices(), out.Indices()) && IsPermutation(out.Indices())
    {
      var ii := InverseTable(idx, n);
      assert ii[..n] == ii[..];
      out := new IndexSet(n, ii);
      ghost var t := out.Indices();
      assert Inverse(Indices(), t);
      out.MarkPermutation();
      assert out.Indices() == t;
    }
  }

  /** ISCreateGeneral: a negative length is an error (code 1, no set made);
      otherwise a fresh set holding a copy of the first n indices. */
  method CreateGeneral(n: int, idx: array<int>) returns (ierr: int, created: IndexSet?)
    requires n <= idx.Length
    ensures n < 0 ==> ierr == 1 && created == null
    ensures n >= 0 ==> ierr == 0 && created != null && fresh(created) && fresh(created.idx) && created.Valid()
    ensures n >= 0 ==> created.n == n && created.Indices() == idx[..n] && !created.isperm
    ensures n >= 0 ==> (created.sorted <==> NonDecreasing(idx[..n]))
    ensures n >= 0 ==> IsMinMax(idx[..n], created.min, created.max)
  {
    if n < 0 {
      return 1, null;
    }
    created := new IndexSet(n, idx);
    ierr := 0;
  }
}
