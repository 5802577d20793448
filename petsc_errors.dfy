/** Error codes shared by the modelled PETSc routines. Only the codes that the
    modelled routines raise are listed; `Success` is PETSC_SUCCESS. */
module PetscErrors {

  datatype ErrorCode =
    | Success            // PETSC_SUCCESS
    | ErrArgWrong        // PETSC_ERR_ARG_WRONG: wrong argument (shape, mode)
    | ErrArgOutOfRange   // PETSC_ERR_ARG_OUTOFRANGE: argument outside its range
    | ErrUser            // PETSC_ERR_USER: the user left out something required
    | ErrSup             // PETSC_ERR_SUP: no support for the requested kind
    | ErrArgWrongState   // PETSC_ERR_ARG_WRONGSTATE: object not in the state the call needs

  /** Option for values a caller may or may not ask for (a C out-pointer that may be NULL). */
  datatype Option<T> = None | Some(value: T)
}
