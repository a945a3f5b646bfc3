/** Small shared vocabulary: an optional value, and the silent wrap-around that
    ctypes applies when a Python integer is stored in a fixed-width C field. */
module Basics {

  /** A value that may be absent. */
  datatype Option<+T> = None | Some(value: T)

  const TWO_32: int := 0x1_0000_0000
  const LONG_MIN: int := -0x8000_0000
  const LONG_MAX: int := 0x7fff_ffff

  /** True when v is representable in a signed 32-bit C field. */
  predicate IsLong(v: int) {
    LONG_MIN <= v <= LONG_MAX
  }

  /** The value a signed 32-bit ctypes field (INT, LONG) holds after a Python
      integer v is stored into it: ctypes performs no overflow check and keeps
      the low 32 bits, read back as two's complement. */
  function Long(v: int): (r: int)
    ensures IsLong(r)
    ensures (r - v) % TWO_32 == 0
  {
    (v - LONG_MIN) % TWO_32 + LONG_MIN
  }

  /** The value an unsigned 32-bit ctypes field (UINT, DWORD) holds after a
      Python integer v is stored into it. */
  function ULong(v: int): (r: nat)
    ensures r < TWO_32
    ensures (r - v) % TWO_32 == 0
  {
    v % TWO_32
  }

  /** Storing a value that already fits leaves it unchanged; a value that does
      not fit is changed. */
  lemma LongIsIdentityExactlyInRange(v: int)
    ensures Long(v) == v <==> IsLong(v)
  {
    if IsLong(v) {
      assert 0 <= v - LONG_MIN < TWO_32;
    }
  }

  lemma ULongIsIdentityExactlyInRange(v: int)
    ensures ULong(v) == v <==> 0 <= v < TWO_32
  {
  }
}
