/** The error numbers of hdr/error.h that the models return. */
module ErrorCodes {
  const SUCCESS: nat := 0
  const DE_FILENOTFND: int := -2
  const DE_PATHNOTFND: int := -3
  const DE_TOOMANY: int := -4
  const DE_ACCESS: int := -5
  const DE_INVLDHNDL: int := -6
  const DE_MCBDESTRY: int := -7
  const DE_NOMEM: int := -8
  const DE_INVLDMCB: int := -9
  const DE_SEEK: int := -25
  const DE_HNDLDSKFULL: int := -28

  /** The numbers, for proofs in which definitions are hidden. */
  lemma Codes()
    ensures SUCCESS == 0 && DE_FILENOTFND == -2 && DE_PATHNOTFND == -3 && DE_TOOMANY == -4 && DE_ACCESS == -5
    ensures DE_INVLDHNDL == -6 && DE_MCBDESTRY == -7 && DE_NOMEM == -8 && DE_INVLDMCB == -9
    ensures DE_SEEK == -25 && DE_HNDLDSKFULL == -28
  {
  }
}
