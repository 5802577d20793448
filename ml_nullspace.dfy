/** The near-null-space choice of PCSetUp_ML (src/ksp/pc/impls/ml/ml.c:663-702).
    AUTO is resolved once a matrix is known: the user's near null space if
    the matrix carries one, else the rigid block modes when rows come in
    blocks, else the constants.  The resolved kind then selects what ML is
    handed; only the user kind can fail, when no near null space exists. */
module MLNullSpace {
  import opened PetscErrors

  /** PCMLNullSpaceType (ml.c:21-26). */
  datatype NullSpaceType = Auto | User | Block | Scalar

  /** The AUTO rule (ml.c:667-671); hasNear says whether MatGetNearNullSpace
      returned a null space, bs is the block size. */
  function Resolve(nulltype: NullSpaceType, hasNear: bool, bs: int): (r: NullSpaceType)
    ensures r != Auto
    ensures nulltype != Auto ==> r == nulltype
    ensures nulltype == Auto ==>
      (r == User <==> hasNear) &&
      (r == Block <==> !hasNear && bs > 1) &&
      (r == Scalar <==> !hasNear && bs <= 1)
  {
    if nulltype == Auto then
      if hasNear then User
      else if bs > 1 then Block
      else Scalar
    else nulltype
  }

  /** The checks of the switch that follows (ml.c:672-702): the user kind
      needs a near null space; a kind left unresolved is not supported. */
  function Status(nulltype: NullSpaceType, hasNear: bool): (e: ErrorCode)
    ensures e == Success <==> (nulltype == User && hasNear) || nulltype == Block || nulltype == Scalar
    ensures nulltype == User && !hasNear ==> e == ErrUser
    ensures nulltype == Auto ==> e == ErrSup
  {
    match nulltype
    case User => if hasNear then Success else ErrUser
    case Block => Success
    case Scalar => Success
    case Auto => ErrSup
  }

  /** The setup runs again on every PCSetUp: a type once resolved stays as
      it is. */
  lemma ResolveIdempotent(nulltype: NullSpaceType, hasNear: bool, bs: int, hasNear': bool, bs': int)
    ensures Resolve(Resolve(nulltype, hasNear, bs), hasNear', bs') == Resolve(nulltype, hasNear, bs)
  {
  }

  /** What AUTO resolves to never fails the checks after it: the "unknown
      type" branch is unreachable and USER is only chosen with a near null
      space present. */
  lemma AutoNeverFails(hasNear: bool, bs: int)
    ensures Status(Resolve(Auto, hasNear, bs), hasNear) == Success
  {
  }

  /** Resolution followed by the checks fails exactly when the user asked
      for USER without providing a near null space. */
  lemma SetupFailsIff(nulltype: NullSpaceType, hasNear: bool, bs: int)
    ensures Status(Resolve(nulltype, hasNear, bs), hasNear) != Success <==> nulltype == User && !hasNear
  {
  }
}
