/** Validity words of the PFM store (uint32_t in pfmMisp.cpp) and the bits the
    surface pipeline reads or writes.

    A word is modelled as the set of positions of its set bits, so that
    `v & f` is `v * f`, `v | f` is `v + f` and `v & ~f` is `v - f`. pfm.h,
    where the real bit positions are defined, is not part of this model: the
    positions below are stand-ins, chosen distinct, which is all the pipeline
    relies on. */
module Flags {

  type BitIndex = b: int | 0 <= b < 32

  type Validity = set<BitIndex>

  /** Sounding is invalid (manually or by filter): two bits, as in PFM. */
  const INVAL: Validity := {0, 1}
  const DELETED: Validity := {8}
  const REFERENCE: Validity := {9}
  /** Tenth user flag; named "Land masked point" when the store carries a land mask. */
  const USER_10: Validity := {15}
  /** The bin holds a real measured value. */
  const DATA: Validity := {16}
  /** The bin's value was filled by interpolation. */
  const INTERPOLATED: Validity := {17}

  /** A sounding with any of these bits set is not fed to the interpolator. */
  const UNUSABLE: Validity := INVAL + DELETED + REFERENCE

  /** `v & flag` is non-zero. */
  predicate Has(v: Validity, flag: Validity) {
    v * flag != {}
  }

  /** The store's masked validity write: only the bits in `mask` are taken
      from `written`, every other bit keeps its stored value. */
  function MaskedWrite(stored: Validity, written: Validity, mask: Validity): (v: Validity)
    ensures v - mask == stored - mask
    ensures v * mask == written * mask
  {
    (stored - mask) + (written * mask)
  }
}
