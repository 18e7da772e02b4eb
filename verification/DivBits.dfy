/** Shifts, masks and leading zeros of 32- and 64-bit words, in arithmetic terms. */
module DivBits {
  import opened Words
  import opened Bits

  const TWO_63: int := 0x8000_0000_0000_0000
  const TWO_64: int := 0x1_0000_0000_0000_0000

  type dword = x: int | 0 <= x < 0x1_0000_0000_0000_0000

  /** __builtin_clz for a non-zero argument */
  function Clz(x: word): (n: nat)
    ensures n <= 32
  {
    Pow2Of32();
    LeadingZeros(x, 32)
  }

  /** Leading zeros of x seen as a number of k bits. */
  function LeadingZeros(x: nat, k: nat): (n: nat)
    ensures n <= k
  {
    if x == 0 then k else if k == 0 then 0 else LeadingZeros(x / 2, k - 1)
  }

  /** __builtin_ctz for a non-zero argument */
  function Ctz(x: nat): nat {
    if x == 0 || x % 2 == 1 then 0 else 1 + Ctz(x / 2)
  }

  /** The highest set bit of x is bit k - 1 - LeadingZeros(x, k). */
  lemma {:induction false} LeadingZerosBound(x: nat, k: nat)
    requires 0 < x < Pow2(k)
    ensures LeadingZeros(x, k) < k
    ensures Pow2(k - 1 - LeadingZeros(x, k)) <= x < Pow2(k - LeadingZeros(x, k))
  {
    if k > 1 && x / 2 > 0 {
      LeadingZerosBound(x / 2, k - 1);
    } else if k > 1 {
      ZeroLeads(k - 1);
    }
  }

  lemma {:induction false} ZeroLeads(k: nat)
    ensures LeadingZeros(0, k) == k
  {
  }

  lemma {:induction false} Pow2Add(a: nat, b: nat)
    ensures Pow2(a + b) == Pow2(a) * Pow2(b)
  {
    if a > 0 {
      Pow2Add(a - 1, b);
      assert 2 * (Pow2(a - 1) * Pow2(b)) == (2 * Pow2(a - 1)) * Pow2(b);
    }
  }

  lemma {:induction false} Pow2Of64()
    ensures Pow2(64) == TWO_64 && Pow2(63) == TWO_63
  {
    Pow2Of32();
    Pow2Add(32, 32);
  }

  /** x & (x - 1) is zero for powers of two only. */
  lemma {:induction false} PowerTest(x: nat)
    requires x > 0 && And(x, x - 1) == 0
    ensures x == Pow2(Ctz(x))
  {
    if x % 2 == 1 {
      AndSelf(x / 2);
    } else {
      assert (x - 1) / 2 == x / 2 - 1;
      PowerTest(x / 2);
    }
  }

  lemma {:induction false} AndSelf(x: nat)
    ensures And(x, x) == x
  {
    if x > 0 { AndSelf(x / 2); }
  }

  /** Masking with 2^k - 1 keeps the low k bits. */
  lemma {:induction false} AndLow(x: nat, k: nat)
    ensures And(x, Pow2(k) - 1) == x % Pow2(k)
  {
    if k > 0 {
      assert (Pow2(k) - 1) / 2 == Pow2(k - 1) - 1;
      ModDouble(x, Pow2(k - 1));
      AndLow(x / 2, k - 1);
      if x > 0 && Pow2(k) - 1 > 0 {
        assert (Pow2(k) - 1) % 2 == 1;
      }
    }
  }

  /** An all-ones mask keeps a word. */
  lemma {:induction false} AndOnes32(x: word)
    ensures And(x, 0xFFFF_FFFF) == x
  {
    Pow2Of32();
    AndLow(x, 32);
  }

  lemma {:induction false} AndOnes64(x: dword)
    ensures And(x, 0xFFFF_FFFF_FFFF_FFFF) == x
  {
    Pow2Of64();
    AndLow(x, 64);
  }

  /** Or of numbers with no common bits is their sum. */
  lemma {:induction false} OrDisjoint(hi: nat, lo: nat, k: nat)
    requires lo < Pow2(k)
    ensures Or(hi * Pow2(k), lo) == hi * Pow2(k) + lo
  {
    if k > 0 && hi * Pow2(k) != 0 && lo != 0 {
      assert hi * Pow2(k) == 2 * (hi * Pow2(k - 1));
      OrDisjoint(hi, lo / 2, k - 1);
    }
  }

  /** The arithmetic shift (int)x >> 31 of a word: all ones for a negative number. */
  function SignMask(x: word): word {
    if x >= TWO_31 then 0xFFFF_FFFF else 0
  }

  /** (int64)x >> 63 */
  function SignMask64(x: dword): dword {
    if x >= TWO_63 then 0xFFFF_FFFF_FFFF_FFFF else 0
  }
}
