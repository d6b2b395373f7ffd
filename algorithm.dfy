/** Clamping helpers of acier/algorithm.hpp. */
module Algorithm {

  /** An 8-bit unsigned channel value (uint8_t). */
  type Byte = b: int | 0 <= b < 256

  /** std::numeric_limits<uint8_t>::min() and max(). */
  const ByteMin: Byte := 0
  const ByteMax: Byte := 255

  /** std::max(a, b): the second argument only when the first is less than it. */
  function StdMax(a: real, b: real): (r: real)
    ensures r == a || r == b
    ensures a <= r && b <= r
  {
    if a < b then b else a
  }

  /** std::min(a, b): the second argument only when it is less than the first. */
  function StdMin(a: real, b: real): (r: real)
    ensures r == a || r == b
    ensures r <= a && r <= b
  {
    if b < a then b else a
  }

  /** saturate(val, min, max) == std::min(std::max(val, min), max). */
  function Saturate(val: real, lo: real, hi: real): (r: real)
    ensures r == if hi < lo then hi else if val < lo then lo else if hi < val then hi else val
    ensures lo <= hi ==> lo <= r <= hi
    ensures lo <= val <= hi ==> r == val
  {
    StdMin(StdMax(val, lo), hi)
  }

  /** Clamping twice is clamping once, whatever the bounds. */
  lemma SaturateIdempotent(val: real, lo: real, hi: real)
    ensures Saturate(Saturate(val, lo, hi), lo, hi) == Saturate(val, lo, hi)
  {
  }

  /**
   * saturate<uint8_t>(val) for a floating-point val: clamp to [0, 255] in the
   * floating-point type, then convert to uint8_t, which truncates toward zero
   * (the floor, since the clamped value is not negative).
   */
  function SaturateToByte(val: real): (r: Byte)
    ensures val <= ByteMin as real ==> r == ByteMin
    ensures ByteMax as real <= val ==> r == ByteMax
    ensures r as real <= Saturate(val, ByteMin as real, ByteMax as real) < r as real + 1.0
  {
    Saturate(val, ByteMin as real, ByteMax as real).Floor
  }

  /** An integral value already in [0, 255] passes through unchanged. */
  lemma SaturateToByteKeepsBytes(b: Byte)
    ensures SaturateToByte(b as real) == b
  {
  }
}
