/** PCSetCoordinates_ML (src/ksp/pc/impls/ml/ml.c:403-443): the coordinates
    of the local nodes arrive node by node (x, y, z of node 0, then of node
    1, ...) and are stored for ML dimension by dimension (all x, then all y,
    ...).  When the caller passes one coordinate tuple per matrix row of a
    blocked matrix, only the first row of each block is a node. */
module MLCoords {
  import opened PetscErrors
  import opened Arithmetic

  /** Where node k's coordinate ii sits in the caller's array, when the
      nodes are `stride` tuples of ndm coordinates apart. */
  function SourceIndex(stride: nat, ndm: nat, k: nat, ii: nat): (q: nat)
  {
    stride * k * ndm + ii
  }

  /** Node k's coordinate ii lies inside an array holding stride * nloc
      tuples of ndm coordinates. */
  lemma SourceIndexInside(stride: nat, ndm: nat, nloc: nat, k: nat, ii: nat)
    requires 1 <= stride && k < nloc && ii < ndm
    ensures SourceIndex(stride, ndm, k, ii) < stride * nloc * ndm
  {
    var nodeStart := stride * k * ndm;
    assert stride * (k + 1) * ndm == nodeStart + stride * ndm;
    assert stride * ndm >= ndm;
    assert stride * (k + 1) * ndm <= stride * nloc * ndm by {
      MulMonotone(stride * ndm, k + 1, nloc);
      assert stride * (k + 1) * ndm == (stride * ndm) * (k + 1);
      assert stride * nloc * ndm == (stride * ndm) * nloc;
    }
  }

  /** Slot ii * nloc + k of the column-major layout of ndm x nloc numbers
      holds coordinate ii of node k, and lies below ndm * nloc. */
  lemma SlotOf(ndm: nat, nloc: nat, ii: nat, k: nat)
    requires ii < ndm && k < nloc
    ensures (ii * nloc + k) / nloc == ii && (ii * nloc + k) % nloc == k
    ensures ii * nloc + k < ndm * nloc
  {
    DivModUnique(nloc, ii, k, ii * nloc + k);
    MulMonotone(nloc, ii + 1, ndm);
    assert (ii + 1) * nloc == ii * nloc + nloc;
  }

  /** A slot below ndm * nloc names a coordinate below ndm. */
  lemma SlotInside(ndm: nat, nloc: nat, p: nat)
    requires p < ndm * nloc
    ensures nloc > 0 && p / nloc < ndm
  {
    assert nloc > 0;
    var q := p / nloc;
    assert nloc * q + p % nloc == p;
    if q >= ndm {
      MulMonotone(nloc, ndm, q);
      assert false;
    }
  }

  /** A slot is rebuilt from its quotient and remainder. */
  lemma SlotIs(nloc: nat, p: nat, ii: int, k: int)
    requires nloc > 0 && p / nloc == ii && p % nloc == k
    ensures p == ii * nloc + k
  {
    assert p == nloc * (p / nloc) + p % nloc;
  }

  /** Where the number stored in slot p of the layout comes from. */
  function SourceOfSlot(stride: nat, ndm: nat, nloc: nat, p: nat): (q: nat)
    requires 1 <= stride && p < ndm * nloc
    ensures q < stride * nloc * ndm
  {
    SlotInside(ndm, nloc, p);
    SourceIndexInside(stride, ndm, nloc, p % nloc, p / nloc);
    SourceIndex(stride, ndm, p % nloc, p / nloc)
  }

  /** The coordinates of nloc nodes with ndm coordinates each, taken from
      `input` every `stride` tuples, laid out dimension by dimension. */
  function Transposed(input: seq<real>, ndm: nat, nloc: nat, stride: nat): (r: seq<real>)
    requires 1 <= stride && stride * nloc * ndm <= |input|
    ensures |r| == ndm * nloc
  {
    seq(ndm * nloc, p requires 0 <= p < ndm * nloc => input[SourceOfSlot(stride, ndm, nloc, p)])
  }

  /** Coordinate ii of node k is stored at slot ii * nloc + k. */
  lemma TransposedSlot(input: seq<real>, ndm: nat, nloc: nat, stride: nat, ii: nat, k: nat)
    requires 1 <= stride && stride * nloc * ndm <= |input| && ii < ndm && k < nloc
    ensures ii * nloc + k < ndm * nloc && SourceIndex(stride, ndm, k, ii) < |input|
    ensures Transposed(input, ndm, nloc, stride)[ii * nloc + k] == input[SourceIndex(stride, ndm, k, ii)]
  {
    SlotOf(ndm, nloc, ii, k);
    SourceIndexInside(stride, ndm, nloc, k, ii);
  }

  /** Every stored coordinate comes from the caller's array: the -999
      placeholders written first never survive. */
  lemma TransposedCopiesOnly(input: seq<real>, ndm: nat, nloc: nat, stride: nat, p: nat)
    requires 1 <= stride && stride * nloc * ndm <= |input| && p < ndm * nloc
    ensures exists q :: 0 <= q < |input| && Transposed(input, ndm, nloc, stride)[p] == input[q]
  {
    var q := SourceOfSlot(stride, ndm, nloc, p);
    assert Transposed(input, ndm, nloc, stride)[p] == input[q];
  }

  /** The inner copy loop (ml.c:435 and 439): the ndm coordinates of node
      k go to slots k, nloc + k, 2 * nloc + k, ...; no other slot changes. */
  method CopyNode(c: array<real>, input: array<real>, ndm: nat, nloc: nat, stride: nat, k: nat)
    requires 1 <= stride && stride * nloc * ndm <= input.Length && k < nloc
    requires ndm * nloc <= c.Length && c != input
    modifies c
    ensures forall p :: 0 <= p < ndm * nloc && p % nloc == k ==>
      c[p] == Transposed(input[..], ndm, nloc, stride)[p]
    ensures forall p :: 0 <= p < c.Length && (p >= ndm * nloc || p % nloc != k) ==> c[p] == old(c[p])
  {
    ghost var want := Transposed(input[..], ndm, nloc, stride);
    for ii := 0 to ndm
      invariant forall p :: 0 <= p < ndm * nloc && p % nloc == k && p / nloc < ii ==> c[p] == want[p]
      invariant forall p :: 0 <= p < c.Length && (p >= ndm * nloc || p % nloc != k) ==> c[p] == old(c[p])
    {
      var q := ii * nloc + k;
      TransposedSlot(input[..], ndm, nloc, stride, ii, k);
      SlotOf(ndm, nloc, ii, k);
      c[q] := input[SourceIndex(stride, ndm, k, ii)];
      forall p | 0 <= p < ndm * nloc && p % nloc == k && p / nloc == ii
        ensures p == q
      {
        SlotIs(nloc, p, ii, k);
      }
    }
    forall p | 0 <= p < ndm * nloc
      ensures p / nloc < ndm
    {
      SlotInside(ndm, nloc, p);
    }
  }

  /** The nested copy loops (ml.c:433-441), stride 1 for one tuple per node
      and stride bs when the tuples come per matrix row. */
  method CopyColumnMajor(c: array<real>, input: array<real>, ndm: nat, nloc: nat, stride: nat)
    requires 1 <= stride && stride * nloc * ndm <= input.Length
    requires ndm * nloc <= c.Length && c != input
    modifies c
    ensures c[..ndm * nloc] == Transposed(input[..], ndm, nloc, stride)
    ensures forall p :: ndm * nloc <= p < c.Length ==> c[p] == old(c[p])
  {
    ghost var want := Transposed(input[..], ndm, nloc, stride);
    for k := 0 to nloc
      invariant forall p :: 0 <= p < ndm * nloc && p % nloc < k ==> c[p] == want[p]
      invariant forall p :: ndm * nloc <= p < c.Length ==> c[p] == old(c[p])
    {
      CopyNode(c, input, ndm, nloc, stride, k);
    }
    forall p | 0 <= p < ndm * nloc
      ensures p % nloc < nloc
    {
      SlotInside(ndm, nloc, p);
    }
  }

  /** The first nodes of aloc / bs blocks of bs rows each lie among the
      aloc tuples the caller passed. */
  lemma BlocksFit(aloc: nat, bs: nat, ndm: nat)
    requires 1 <= bs
    ensures bs * (aloc / bs) * ndm <= aloc * ndm
  {
    var nl := aloc / bs;
    assert aloc == bs * nl + aloc % bs;
    MulMonotone(ndm, bs * nl, aloc);
    assert bs * nl * ndm == ndm * (bs * nl);
  }

  /** The placeholder fill (ml.c:431): the first n slots become -999. */
  method FillPlaceholder(c: array<real>, n: nat)
    requires n <= c.Length
    modifies c
    ensures forall p :: 0 <= p < n ==> c[p] == -999.0
    ensures forall p :: n <= p < c.Length ==> c[p] == old(c[p])
  {
    for kk := 0 to n
      invariant forall p :: 0 <= p < kk ==> c[p] == -999.0
      invariant forall p :: n <= p < c.Length ==> c[p] == old(c[p])
    {
      c[kk] := -999.0;
    }
  }

  /** The coordinate fields of the PC_ML context. */
  class CoordinateData {
    var dim: int               // coordinates per node
    var nloc: int              // local nodes
    var coords: array?<real>   // dim * nloc numbers (or more, once ghosted)

    /** The stored array is large enough for the dimensions recorded. */
    ghost predicate Valid()
      reads this
    {
      dim >= 0 && nloc >= 0 && (coords != null ==> coords.Length >= dim * nloc)
    }

    /** PCCreate_ML: no coordinates yet. */
    constructor ()
      ensures Valid() && dim == 0 && nloc == 0 && coords == null
    {
      dim, nloc, coords := 0, 0, null;
    }

    /** PCSetCoordinates_ML.  The matrix owns rows my0 .. iend-1 in blocks
        of bs; the caller passes aNloc tuples of ndm coordinates, which must
        be one per node (nloc blocks) or one per row (aloc rows).  The array
        is reallocated when there is none or its size changes, filled with
        -999, then every slot is overwritten with the transposed input. */
    method SetCoordinates(ndm: int, aNloc: int, input: array<real>, bs: int, my0: int, iend: int)
      returns (err: ErrorCode)
      requires Valid()
      requires 1 <= bs && my0 <= iend && 0 <= ndm
      requires ((iend - my0) / bs == aNloc || iend - my0 == aNloc) ==> aNloc * ndm <= input.Length
      requires input != coords
      modifies this, coords
      ensures Valid()
      ensures var nl := (iend - my0) / bs;
        !(nl == aNloc || iend - my0 == aNloc) ==>
          err == ErrArgWrong && dim == old(dim) && nloc == old(nloc) && coords == old(coords) &&
          (coords != null ==> coords[..] == old(coords[..]))
      ensures var nl := (iend - my0) / bs;
        (nl == aNloc || iend - my0 == aNloc) ==>
          err == Success && dim == ndm && nloc == nl && coords != null &&
          (old(coords) == null || old(dim * nloc) != ndm * nl ==> fresh(coords) && coords.Length == ndm * nl) &&
          (old(coords) != null && old(dim * nloc) == ndm * nl ==> coords == old(coords)) &&
          coords[..ndm * nl] == Transposed(input[..], ndm, nl, if nl == aNloc then 1 else bs) &&
          (coords == old(coords) ==> forall p :: ndm * nl <= p < coords.Length ==> coords[p] == old(coords[p]))
    {
      var aloc := iend - my0;
      var nl := aloc / bs;
      if !(nl == aNloc || aloc == aNloc) {
        return ErrArgWrong;
      }
      var oldarrsz := dim * nloc;
      dim := ndm;
      nloc := nl;
      var arrsz := ndm * nl;
      var c: array<real>;
      if coords == null || oldarrsz != arrsz {
        c := new real[arrsz];
      } else {
        c := coords;
      }
      coords := c;
      FillPlaceholder(c, arrsz);
      var stride := if nl == aNloc then 1 else bs;
      if nl != aNloc {
        BlocksFit(aloc, bs, ndm);
      }
      CopyColumnMajor(c, input, ndm, nl, stride);
      err := Success;
    }
  }
}
