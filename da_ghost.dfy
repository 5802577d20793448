/** DAGetGhostCorners (src/dm/da/src/daghost.c:33-44): the corner and widths
    of the local region including ghost points.  The DA stores its x
    extent multiplied by w, the degrees of freedom per node, so w is
    divided out of the x values only; y and z are returned as stored.
    Every output is an optional C pointer. */
module DAGhost {
  import opened PetscErrors
  import opened Arithmetic

  /** The fields of the distributed array that are read. */
  datatype DA = DA(w: int, xs: int, xe: int, ys: int, ye: int, zs: int, ze: int)

  /** Which of the out-pointers x, y, z, m, n, p were given (not NULL). */
  datatype Wanted = Wanted(x: bool, y: bool, z: bool, m: bool, n: bool, p: bool)

  /** What the given pointers hold afterwards. */
  datatype Corners = Corners(x: Option<int>, y: Option<int>, z: Option<int>,
                             m: Option<int>, n: Option<int>, p: Option<int>)

  /** C's integer division, which truncates toward zero (Dafny's `/` is
      Euclidean and differs when a is negative). */
  function CDiv(a: int, b: int): (q: int)
    requires b > 0
    ensures a >= 0 ==> 0 <= a - b * q < b
    ensures a < 0 ==> -b < a - b * q <= 0
  {
    if a >= 0 then a / b else -((-a) / b)
  }

  /** An exact division truncates to the same quotient as Euclidean division,
      and multiplying back gives the dividend. */
  lemma {:induction false} CDivExact(a: int, b: int)
    requires b > 0 && a % b == 0
    ensures CDiv(a, b) == a / b && CDiv(a, b) * b == a
  {
    var q := a / b;
    assert a == q * b;
    if a < 0 {
      assert -a == (-q) * b;
      DivModUnique(b, -q, 0, -a);
    }
  }

  /** C's quotient is the number of whole b's in a, counted toward zero,
      so negating the dividend negates it. */
  lemma CDivOdd(a: int, b: int)
    requires b > 0
    ensures CDiv(-a, b) == -CDiv(a, b)
  {
  }

  /** The body of DAGetGhostCorners; it always returns 0 and changes
      nothing in the DA. */
  function GetGhostCorners(da: DA, want: Wanted): (r: (int, Corners))
    requires da.w > 0
    ensures r.0 == 0
    ensures r.1.x.Some? == want.x && r.1.y.Some? == want.y && r.1.z.Some? == want.z
    ensures r.1.m.Some? == want.m && r.1.n.Some? == want.n && r.1.p.Some? == want.p
    ensures want.x ==> r.1.x.value == CDiv(da.xs, da.w)
    ensures want.m ==> r.1.m.value == CDiv(da.xe - da.xs, da.w)
    ensures want.y ==> r.1.y.value == da.ys
    ensures want.n ==> r.1.n.value == da.ye - da.ys
    ensures want.z ==> r.1.z.value == da.zs
    ensures want.p ==> r.1.p.value == da.ze - da.zs
  {
    var w := da.w;
    (0, Corners(
      if want.x then Some(CDiv(da.xs, w)) else None,
      if want.y then Some(da.ys) else None,
      if want.z then Some(da.zs) else None,
      if want.m then Some(CDiv(da.xe - da.xs, w)) else None,
      if want.n then Some(da.ye - da.ys) else None,
      if want.p then Some(da.ze - da.zs) else None))
  }

  /** The x extent of a DA is kept in multiples of w.  Then the corner and
      width in nodes, multiplied back by w, are the stored values, and the
      ghost region ends at node xe / w. */
  lemma GhostCornersInNodes(da: DA)
    requires da.w > 0 && da.xs % da.w == 0 && da.xe % da.w == 0
    ensures var c := GetGhostCorners(da, Wanted(true, true, true, true, true, true)).1;
      c.x.value * da.w == da.xs &&
      c.m.value * da.w == da.xe - da.xs &&
      c.x.value + c.m.value == CDiv(da.xe, da.w)
  {
    var w := da.w;
    var qs, qe := da.xs / w, da.xe / w;
    CDivExact(da.xs, w);
    CDivExact(da.xe, w);
    assert da.xe - da.xs == (qe - qs) * w by {
      assert da.xs == qs * w && da.xe == qe * w;
      assert (qe - qs) * w == qe * w - qs * w;
    }
    DivModUnique(w, qe - qs, 0, da.xe - da.xs);
    CDivExact(da.xe - da.xs, w);
  }
}
