/**
  Fixed-width integer types of the Win32 platform layer and the small
  wrappers shared by its modules.
 */
module WinTypes {

  const TWO_TO_32: int := 0x1_0000_0000
  const TWO_TO_64: int := 0x1_0000_0000_0000_0000

  /** `uint32_t` / `DWORD` used as a number (sleep durations, error codes). */
  type uint32 = x: int | 0 <= x < 0x1_0000_0000

  /** `uint64_t` (clock readings in nanoseconds, the counter frequency as returned). */
  type uint64 = x: int | 0 <= x < 0x1_0000_0000_0000_0000

  /** `LONGLONG`, the `QuadPart` of a `LARGE_INTEGER`. */
  type int64 = x: int | -0x8000_0000_0000_0000 <= x < 0x8000_0000_0000_0000

  datatype Option<+T> = None | Some(value: T)

  /** The C cast `(uint32_t)x` of a non-negative wider value: keeps the low 32 bits. */
  function TruncateToUint32(x: nat): (r: uint32)
    ensures r <= x
    ensures (x - r) % TWO_TO_32 == 0
    ensures x < TWO_TO_32 ==> r == x
  {
    x % TWO_TO_32
  }

  /** A `LONGLONG` returned through a `uint64_t`: the same 64 bits read unsigned. */
  function Int64AsUint64(x: int64): (r: uint64)
    ensures (r - x) % TWO_TO_64 == 0
    ensures x >= 0 ==> r == x
  {
    if x >= 0 then x else x + TWO_TO_64
  }
}
