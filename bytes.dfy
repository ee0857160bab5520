/**
 * Machine-level value types of the firmware and the C-string view of a byte buffer.
 */
module Bytes {

  /** An unsigned 8-bit value (`uint8_t`). */
  type byte = x: int | 0 <= x < 0x100

  /** A one-bit GPIO level, as produced by `(GPIO_ReadValue(port) >> pin) & 0x01`. */
  type bit = x: int | 0 <= x <= 1

  /** An unsigned 32-bit value (`uint32_t`, `unsigned int`). */
  type uint32 = x: int | 0 <= x < 0x1_0000_0000

  /** A signed 32-bit value (`int`). */
  type int32 = x: int | -0x8000_0000 <= x < 0x8000_0000

  const NUL: byte := 0
  const LF: byte := 10
  const CR: byte := 13
  const ZERO: byte := 48  // '0'

  /** An ASCII decimal digit '0'..'9'. */
  predicate IsDigit(b: byte) {
    ZERO <= b <= ZERO + 9
  }

  /** The value an `int` takes when C converts it to `unsigned int` (modulo 2^32). */
  function ToUnsigned(x: int32): (u: uint32)
  {
    if x < 0 then x + 0x1_0000_0000 else x
  }

  /** The value an `unsigned int` takes when stored into an `int` (two's complement, as GCC on ARM does). */
  function ToSigned(u: uint32): (x: int32)
    ensures ToUnsigned(x) == u
  {
    if u < 0x8000_0000 then u else u - 0x1_0000_0000
  }

  /** The two conversions are inverse bijections between `int` and `unsigned int`. */
  lemma SignedUnsignedRoundTrip(x: int32)
    ensures ToSigned(ToUnsigned(x)) == x
    ensures 0 <= x ==> ToUnsigned(x) == x
  {
  }

  /**
   * The C string stored at the start of `a`: the bytes before the first NUL,
   * or all of `a` when it holds no NUL.
   */
  function CString(a: seq<byte>): (r: seq<byte>)
    ensures |r| <= |a| && r == a[..|r|]
    ensures forall k :: 0 <= k < |r| ==> r[k] != NUL
    ensures |r| < |a| ==> a[|r|] == NUL
  {
    if a == [] || a[0] == NUL then [] else [a[0]] + CString(a[1..])
  }

  /** A buffer whose first NUL is at index `n` holds the C string `a[..n]`. */
  lemma CStringOfTerminated(a: seq<byte>, n: nat)
    requires n < |a| && a[n] == NUL
    requires forall k :: 0 <= k < n ==> a[k] != NUL
    ensures CString(a) == a[..n]
  {
  }

  /** The bytes of an ASCII string literal. */
  function Ascii(s: string): (r: seq<byte>)
    requires forall k :: 0 <= k < |s| ==> s[k] as int < 0x80
  {
    seq(|s|, k requires 0 <= k < |s| => s[k] as int)
  }
}
