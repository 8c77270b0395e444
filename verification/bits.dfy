/** Fixed-width helpers shared by the decoder and the executor. */
module Bits {

  /** Number of distinct 32-bit values; `uint32_t` arithmetic on the program counter wraps here. */
  const WORD_MODULUS: int := 0x1_0000_0000

  /** A `uint32_t` value kept as a mathematical integer (used for the pc and for memory addresses). */
  type Address = x: int | 0 <= x < WORD_MODULUS

  /** The field `x[hi:lo]` of a word, moved down to bit 0. */
  function Field(x: bv32, hi: bv32, lo: bv32): (f: bv32)
    requires lo <= hi < 32
  {
    (x >> lo) & ((1 << (hi - lo + 1)) - 1)
  }

  /** Two's-complement reading of a 32-bit pattern, as an `int32_t`. */
  function ToSigned(x: bv32): int
  {
    if x < 0x8000_0000 then x as int else x as int - WORD_MODULUS
  }

  /**
   * A register or field index below 32, as a sequence index. Summing the five low bits keeps
   * the conversion in linear arithmetic.
   */
  function Index(i: bv32): (k: nat)
    requires i < 32
    ensures k == i as int
  {
    (if i & 1 != 0 then 1 else 0) + (if i & 2 != 0 then 2 else 0) + (if i & 4 != 0 then 4 else 0)
    + (if i & 8 != 0 then 8 else 0) + (if i & 16 != 0 then 16 else 0)
  }

  /** A `uint32_t` used as a memory offset. */
  function ToAddress(x: bv32): Address
  {
    x as int
  }

  /**
   * `sign_extend(val, 12)`: flip bit 11, then subtract it back, so that a set bit 11
   * borrows through all the upper bits. Only width 12 is ever used by the interpreter.
   * For a 12-bit input bit 11 is copied into bits 12..31 and the low 12 bits are kept;
   * read as a number, the result is `val` below 2048 and `val - 4096` (mod 2^32) from 2048 on.
   * Above 12 bits only bit 11 decides: if it is clear the input comes back unchanged.
   */
  function SignExtend12(val: bv32): (r: bv32)
    ensures val & 0x800 == 0 ==> r == val
    ensures val < 0x1000 && val & 0x800 != 0 ==> r == val | 0xFFFF_F000
    ensures 0x800 <= val < 0x1000 ==> r == val - 0x1000
  {
    XorSubtractKeepsClearBit11(val);
    XorSubtractFillsSetBit11(val);
    XorSubtractWraps(val);
    (val ^ 0x800) - 0x800
  }

  // One bit-vector identity per lemma keeps each solver query small.

  lemma XorSubtractKeepsClearBit11(val: bv32)
    ensures val & 0x800 == 0 ==> (val ^ 0x800) - 0x800 == val
  {
  }

  lemma XorSubtractFillsSetBit11(val: bv32)
    ensures val < 0x1000 && val & 0x800 != 0 ==> (val ^ 0x800) - 0x800 == val | 0xFFFF_F000
  {
  }

  lemma XorSubtractWraps(val: bv32)
    ensures 0x800 <= val < 0x1000 ==> (val ^ 0x800) - 0x800 == val - 0x1000
  {
  }

  /**
   * The `int32_t` value `sign_extend(val, 12)` returns for a 12-bit `val`: `val` itself below
   * 2048, and `val - 4096` from 2048 on.
   */
  lemma SignExtendValue(val: bv32)
    requires val < 0x1000
    ensures ToSigned(SignExtend12(val)) == if val < 0x800 then val as int else val as int - 4096
  {
  }

  /** `sign_extend(0xFFF, 12)` is -1 and `sign_extend(0x7FF, 12)` is 2047. */
  lemma SignExtendExamples()
    ensures SignExtend12(0xFFF) == 0xFFFF_FFFF && ToSigned(SignExtend12(0xFFF)) == -1
    ensures SignExtend12(0x800) == 0xFFFF_F800 && ToSigned(SignExtend12(0x800)) == -2048
    ensures ToSigned(SignExtend12(0x7FF)) == 2047
  {
  }
}
