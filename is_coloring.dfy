/** ISColoringValueCast (include/petscis.h:274-282): narrowing a count to a
    colour value, whose type may be as small as one byte.  PETSC_IS_COLORING_MAX
    is fixed when PETSc is configured, so it is a parameter here.  The C
    out-pointer b may be NULL; `wantValue` says whether it was given and
    the returned option is what it points to afterwards. */
module ISColoring {
  import opened PetscErrors

  /** The outcome of the cast: the error code and, when asked for, the
      colour value written. */
  datatype CastResult = CastResult(err: ErrorCode, value: Option<int>)

  /** A successful cast loses nothing (the value is the count itself, below
      the maximum), every value below the maximum is reached by casting
      itself, and the error does not depend on whether b was given. */
  function ColoringValueCast(a: int, wantValue: bool, coloringMax: int): (r: CastResult)
    ensures r.value.Some? <==> wantValue
    ensures r.err == Success <==> 0 <= a < coloringMax
    ensures r.err != Success ==> r.err == ErrArgOutOfRange
    ensures wantValue && r.err != Success ==> r.value == Some(0)
    ensures wantValue && r.err == Success ==> r.value == Some(a)
  {
    var zeroed := if wantValue then Some(0) else None;
    if a < 0 then CastResult(ErrArgOutOfRange, zeroed)
    else if a >= coloringMax then CastResult(ErrArgOutOfRange, zeroed)
    else CastResult(Success, if wantValue then Some(a) else None)
  }
}
