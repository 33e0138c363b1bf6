/** Integer widths of Go's integer kinds and the overflow checks of
    `reflect.Value.OverflowInt` / `OverflowUint`, which the map decoder uses
    to narrow a parsed 64-bit key to the key type's width. */
module Widths {

  /** The bit width of a Go integer type. */
  datatype Width = W8 | W16 | W32 | W64 {

    /** 2^8, 2^16, 2^32 or 2^64: the number of distinct values of the width. */
    function Modulus(): nat {
      match this
      case W8 => 0x100
      case W16 => 0x1_0000
      case W32 => 0x1_0000_0000
      case W64 => 0x1_0000_0000_0000_0000
    }

    /** Half the modulus: the magnitude bound of the signed type. */
    function Half(): nat {
      match this
      case W8 => 0x80
      case W16 => 0x8000
      case W32 => 0x8000_0000
      case W64 => 0x8000_0000_0000_0000
    }
  }

  /** The values of `int64` and `uint64`, the types `strconv` parses into. */
  predicate IsInt64(x: int) {
    -0x8000_0000_0000_0000 <= x < 0x8000_0000_0000_0000
  }

  predicate IsUint64(x: int) {
    0 <= x < 0x1_0000_0000_0000_0000
  }

  /** The values a signed integer type of width `w` can hold. */
  predicate InSignedRange(x: int, w: Width) {
    -(w.Half() as int) <= x < w.Half()
  }

  /** The values an unsigned integer type of width `w` can hold. */
  predicate InUnsignedRange(x: int, w: Width) {
    0 <= x < w.Modulus()
  }

  /** `(x << (64 - b)) >> (64 - b)` on an `int64`: keeps the low `b` bits and
      sign-extends them. */
  function SignExtendLow(x: int, w: Width): int {
    var low := x % w.Modulus();
    if low >= w.Half() then low - w.Modulus() else low
  }

  /** `(x << (64 - b)) >> (64 - b)` on a `uint64`: keeps the low `b` bits. */
  function ZeroExtendLow(x: int, w: Width): int {
    x % w.Modulus()
  }

  /** `reflect.Value.OverflowInt`: the value changes when truncated to the
      key width, which happens exactly when it lies outside the width's range. */
  function OverflowInt(x: int, w: Width): (r: bool)
    requires IsInt64(x)
    ensures r <==> !InSignedRange(x, w)
  {
    x != SignExtendLow(x, w)
  }

  /** `reflect.Value.OverflowUint`, likewise for unsigned widths. */
  function OverflowUint(x: int, w: Width): (r: bool)
    requires IsUint64(x)
    ensures r <==> !InUnsignedRange(x, w)
  {
    x != ZeroExtendLow(x, w)
  }
}
