/** 32-bit machine words as integers, with the conversions the C code relies on. */
module Words {
  const TWO_31: int := 0x8000_0000
  const TWO_32: int := 0x1_0000_0000

  /** A `uint32`: pointers, sizes and `unsigned long` are all 32 bits wide here. */
  type word = x: int | 0 <= x < 0x1_0000_0000

  /** Conversion to unsigned: reduction modulo 2^32. */
  function U32(x: int): (w: word)
    ensures 0 <= x < TWO_32 ==> w == x
    ensures -TWO_32 <= x < 0 ==> w == x + TWO_32
    ensures TWO_32 <= x < 2 * TWO_32 ==> w == x - TWO_32
  {
    x % TWO_32
  }

  /** Reinterpretation of a word as a signed `long`. */
  function S32(w: word): int {
    if w < TWO_31 then w else w - TWO_32
  }

  /** A signed `long` that holds an unsigned difference of two words. */
  function LongDiff(a: word, b: word): (d: int)
    ensures -TWO_31 <= a - b < TWO_31 ==> d == a - b
  {
    S32(U32(a - b))
  }
}
