/** The 32-bit division routines, as the register steps of their assembly code. */
module DivModSI4 {
  import opened Words
  import opened Bits
  import opened DivBits
  import opened XorBits

  /** `lsl i` of a 32-bit register */
  function Lsl(x: word, i: nat): word {
    (x * Pow2(i)) % TWO_32
  }

  /** The main loop at shift i: q has no bits at i or below, and what is left to divide fits below b << (i + 1). */
  ghost predicate AtShift(n: word, b: word, q: word, a: word, i: int) {
    && i >= 0
    && n == q * b + a
    && a < b * Pow2(i + 1)
    && q % Pow2(i + 1) == 0
    && b * Pow2(i) < TWO_32
  }

  /** After the loop: at most one more subtraction is due, and only into a clear bit 0. */
  ghost predicate AtExit(n: word, b: word, q: word, a: word) {
    n == q * b + a && (a < b || (a < 2 * b && q % 2 == 0))
  }

  /** Normalising by leading zeros: n < b << (i + 1), and b << i does not overflow. */
  lemma {:induction false} AlignTops(n: word, b: word)
    requires b != 0
    ensures var i := Clz(b) - Clz(n);
            if i < 0 then n < b else b * Pow2(i) < TWO_32 && n < b * Pow2(i + 1)
  {
    ClzAbove(b);
    ClzBelow(b);
    ClzBelow(n);
    TopsCompared(n, b, Clz(n), Clz(b));
  }

  lemma {:induction false} ClzAbove(x: word)
    requires x != 0
    ensures Clz(x) < 32 && x >= Pow2(31 - Clz(x))
  {
    Pow2Of32();
    LeadingZerosBound(x, 32);
  }

  lemma {:induction false} ClzBelow(x: word)
    ensures x < Pow2(32 - Clz(x))
  {
    Pow2Of32();
    if x == 0 { ZeroLeads(32); } else { LeadingZerosBound(x, 32); }
  }

  lemma {:induction false} TopsCompared(n: nat, b: nat, cn: nat, cb: nat)
    requires cn <= 32 && cb < 32 && Pow2(31 - cb) <= b < Pow2(32 - cb) && n < Pow2(32 - cn)
    ensures var i := cb - cn;
            if i < 0 then n < b else b * Pow2(i) < TWO_32 && n < b * Pow2(i + 1)
  {
    if cb < cn {
      Pow2Monotone(32 - cn, 31 - cb);
    } else {
      TopsAligned(n, b, cn, cb);
    }
  }

  lemma {:induction false} TopsAligned(n: nat, b: nat, cn: nat, cb: nat)
    requires cn <= cb < 32 && Pow2(31 - cb) <= b < Pow2(32 - cb) && n < Pow2(32 - cn)
    ensures b * Pow2(cb - cn) < TWO_32 && n < b * Pow2(cb - cn + 1)
  {
    var i := cb - cn;
    Pow2Of32();
    Pow2Add(32 - cb, i);
    Pow2Add(31 - cb, i + 1);
    Times(b, Pow2(32 - cb), Pow2(i));
    Times2(Pow2(31 - cb), b, Pow2(i + 1));
    Pow2Monotone(32 - cn, 32);
  }

  lemma {:induction false} Times(x: int, y: int, z: int)
    requires x < y && z > 0
    ensures x * z < y * z
  {
  }

  lemma {:induction false} Times2(x: int, y: int, z: int)
    requires x <= y && z > 0
    ensures x * z <= y * z
  {
  }

  lemma {:induction false} EvenMultiple(q: int, p: int)
    requires p > 0 && q % (2 * p) == 0
    ensures q == (q / (2 * p)) * (2 * p) && q % p == 0 && (q + p) % p == 0
  {
    var h := q / (2 * p);
    assert q == h * (2 * p);
    assert h * (2 * p) == (2 * h) * p;
    DivModUnique(q, p, 2 * h, 0);
    assert (2 * h + 1) * p == (2 * h) * p + p;
    DivModUnique(q + p, p, 2 * h + 1, 0);
  }

  /** Setting bit i of a number whose low i + 1 bits are clear adds 2^i. */
  lemma {:induction false} SetBit(q: word, i: nat)
    requires q % Pow2(i + 1) == 0
    ensures Or(q, Pow2(i)) == q + Pow2(i)
    ensures (q + Pow2(i)) % Pow2(i) == 0 && q % Pow2(i) == 0
  {
    var p := Pow2(i);
    EvenMultiple(q, p);
    Pow2Positive(i);
    OrDisjoint(q / (2 * p), p, i + 1);
  }

  lemma {:induction false} Pow2Positive(i: nat)
    ensures Pow2(i) < Pow2(i + 1) == 2 * Pow2(i)
  {
  }

  lemma {:induction false} TakeArith(n: int, b: int, q: int, a: int, p: int)
    requires n == q * b + a && a < b * (2 * p)
    ensures n == (q + p) * b + (a - b * p) && a - b * p < b * p
  {
    assert (q + p) * b == q * b + b * p;
    assert b * (2 * p) == b * p + b * p;
  }

  /** One pass of the loop, subtraction taken. */
  lemma {:induction false} TakeBit(n: word, b: word, q: word, a: word, i: int)
    requires AtShift(n, b, q, a, i) && b > 0 && a >= b * Pow2(i)
    ensures Or(q, Pow2(i)) == q + Pow2(i) < TWO_32
    ensures var q', a' := q + Pow2(i), a - b * Pow2(i);
            && (i > 0 ==> AtShift(n, b, q', a', i - 1))
            && n == q' * b + a' && a' < b * Pow2(i)
  {
    SetBit(q, i);
    TakeArith(n, b, q, a, Pow2(i));
    Fits(q + Pow2(i), b, n);
    if i > 0 { Lower(b, i); }
  }

  lemma {:induction false} Fits(q: int, b: int, n: int)
    requires b > 0 && q >= 0 && q * b <= n
    ensures q <= n
  {
    assert q * b >= q * 1;
  }

  lemma {:induction false} Lower(b: int, i: int)
    requires i > 0 && b > 0
    ensures b * Pow2(i - 1) <= b * Pow2(i) && Pow2(i) == 2 * Pow2(i - 1)
  {
    Times2(Pow2(i - 1), Pow2(i), b);
  }

  /** One pass of the loop, subtraction not taken. */
  lemma {:induction false} SkipBit(n: word, b: word, q: word, a: word, i: int)
    requires AtShift(n, b, q, a, i) && a < b * Pow2(i)
    ensures i > 0 ==> AtShift(n, b, q, a, i - 1)
  {
    SetBit(q, i);
    if i > 0 { Lower(b, i); }
  }

  /** What the next pass, or the code after the loop, may rely on. */
  ghost predicate Underway(n: word, b: word, q: word, a: word, i: int, again: bool) {
    if again then AtShift(n, b, q, a, i) else AtExit(n, b, q, a)
  }

  /** Where a pass at shift i leads when something is left to divide. */
  lemma {:induction false} Onward(n: word, b: word, q: word, a: word, i: int)
    requires i >= 0 && b > 0 && n == q * b + a
    requires if i > 0 then AtShift(n, b, q, a, i - 1) else a < b * Pow2(0)
    ensures Underway(n, b, q, a, i - 1, i > 1)
  {
    assert Pow2(1) == 2 && Pow2(0) == 1;
  }

  lemma {:induction false} ShiftFits(n: word, b: word, q: word, a: word, i: int)
    requires AtShift(n, b, q, a, i)
    ensures b > 0 && Lsl(b, i) == b * Pow2(i)
  {
    NotNegative(b, Pow2(i));
    NotNegative(b, Pow2(i + 1));
  }

  lemma {:induction false} NotNegative(x: nat, p: nat)
    ensures x * p >= 0 && (x == 0 ==> x * p == 0)
  {
  }

  /** The instructions from `mainLoop` to its conditional branch, with the C and Z flags written out. */
  method Pass(n: word, b: word, q0: word, a0: word, i0: int) returns (q: word, a: word, i: int, again: bool)
    requires AtShift(n, b, q0, a0, i0)
    ensures Underway(n, b, q, a, i, again) && (again ==> i < i0)
  {
    q, a, i := q0, a0, i0;
    ShiftFits(n, b, q, a, i);
    var shifted := Lsl(b, i);
    var r := U32(a - shifted);
    var carry, zero := a >= shifted, a == shifted;
    if carry {
      TakeBit(n, b, q, a, i);
      q := Or(q, Pow2(i));
      a := r;
    } else {
      SkipBit(n, b, q, a, i);
    }
    if !zero {
      Onward(n, b, q, a, i);
      carry, zero := i >= 1, i == 1;
      i := i - 1;
    }
    again := carry && !zero;
  }

  lemma {:induction false} LastBit(n: word, b: word, q: word, a: word)
    requires AtExit(n, b, q, a) && a >= b && b > 0
    ensures Or(q, 1) == q + 1 < TWO_32 && n == (q + 1) * b + (a - b)
  {
    assert Pow2(0) == 1 && Pow2(1) == 2;
    SetBit(q, 0);
    assert (q + 1) * b == q * b + b;
    Fits(q + 1, b, n);
  }

  /** The shared body of both unsigned routines, from `mainLoop` to `return`. */
  method MainLoop(n: word, b: word, start: nat) returns (q: word, a: word)
    requires b != 0 && b * Pow2(start) < TWO_32 && n < b * Pow2(start + 1)
    ensures n == q * b + a && a < b
  {
    q, a := 0, n;
    var i: int := start;
    var again := true;
    assert Underway(n, b, q, a, i, again);
    while again
      invariant Underway(n, b, q, a, i, again)
      decreases again, i
    {
      q, a, i, again := Pass(n, b, q, a, i);
    }
    if a >= b {
      LastBit(n, b, q, a);
      q, a := Or(q, 1), U32(a - b);
    }
  }

  /** __udivmodsi4: quotient and remainder; a zero divisor gives quotient zero and leaves the dividend. */
  method UDivModSI4(n: word, b: word) returns (q: word, rem: word)
    ensures b != 0 ==> n == q * b + rem && rem < b
    ensures b == 0 ==> q == 0 && rem == n
  {
    var na: int, nb: int := Clz(n), Clz(b);
    if b == 0 { return 0, n; }
    AlignTops(n, b);
    var i := nb - na;
    if i < 0 { return 0, n; }
    q, rem := MainLoop(n, b, i);
  }

  /** __udivsi3: the same loop; r is what the routine leaves behind in a register and drops. */
  method UDivSI3(n: word, b: word) returns (q: word, ghost r: word)
    ensures b != 0 ==> n == q * b + r && r < b
    ensures b == 0 ==> q == 0
  {
    var na: int, nb: int := Clz(n), Clz(b);
    if b == 0 { return 0, 0; }
    AlignTops(n, b);
    var i := nb - na;
    if i < 0 { return 0, n; }
    var a: word;
    q, a := MainLoop(n, b, i);
    r := a;
  }

  function Abs(x: int): nat {
    if x < 0 then -x else x
  }

  /** Truncating division: the quotient rounds toward zero, the remainder has the sign of the dividend. */
  ghost predicate Truncates(n: int, b: int, q: int, r: int) {
    && n == q * b + r
    && Abs(r) < Abs(b)
    && (r == 0 || (r < 0 <==> n < 0))
  }

  /** eor x, s, asr #31; sub x, x, s, asr #31: negates x where s is negative. */
  function SignApply(x: word, s: word): (r: word)
    ensures r == if s >= TWO_31 then U32(0 - (x as int)) else x
  {
    Pow2Of32();
    XorOnes(x, 32);
    U32(Xor(x, SignMask(s)) - SignMask(s))
  }

  /** The sign of a ^ b */
  function SignXor(a: word, b: word): (r: word)
    ensures r >= TWO_31 <==> (a >= TWO_31) != (b >= TWO_31)
  {
    Pow2Of32();
    assert Pow2(32) == 2 * Pow2(31);
    XorTop(a, b, 31);
    XorBound(a, b, 32);
    Xor(a, b)
  }

  lemma {:induction false} MagnitudeIsAbs(x: word)
    ensures SignApply(x, x) == Abs(S32(x))
  {
  }

  /** Truncating division is unsigned division of the magnitudes with the signs put back. */
  lemma {:induction false} SignsBack(n: int, b: int, q: int, r: int)
    requires b != 0 && Abs(n) == q * Abs(b) + r && 0 <= r < Abs(b)
    ensures Truncates(n, b, if (n < 0) != (b < 0) then -q else q, if n < 0 then -r else r)
  {
    assert (-q) * b == -(q * b) == q * (-b);
  }

  /** The quotient fits the signed range, except for the most negative number divided by -1. */
  lemma {:induction false} QuotientRange(n: int, b: int, q: int, r: int)
    requires b > 0 && n == q * b + r && 0 <= q && 0 <= r < b && 0 <= n <= TWO_31
    ensures q <= TWO_31
    ensures q == TWO_31 ==> n == TWO_31 && b == 1
  {
    Fits(q, b, n);
    if b >= 2 { Half(q, b, n); }
  }

  lemma {:induction false} Half(q: int, b: int, n: int)
    requires b >= 2 && q >= 0 && q * b <= n
    ensures 2 * q <= n
  {
    assert q * b >= q * 2;
  }

  /** The one signed division that overflows. */
  predicate Overflows(n: word, b: word) {
    n == TWO_31 && b == 0xFFFF_FFFF
  }

  /** The register steps around the unsigned division, on a magnitude quotient and remainder. */
  lemma {:induction false} SignedResult(n: word, b: word, signs: word, q: word, r: word)
    requires b != 0 && Abs(S32(n)) == q * Abs(S32(b)) + r && r < Abs(S32(b))
    requires signs >= TWO_31 <==> (n >= TWO_31) != (b >= TWO_31)
    ensures !Overflows(n, b) ==> Truncates(S32(n), S32(b), S32(SignApply(q, signs)), S32(SignApply(r, n)))
    ensures Overflows(n, b) ==> SignApply(q, signs) == n && SignApply(r, n) == 0
  {
    QuotientRange(Abs(S32(n)), Abs(S32(b)), q, r);
    SignsBack(S32(n), S32(b), q, r);
    Negated(q);
    Negated(r);
  }

  /** Negating a word of magnitude at most 2^31 negates the signed number. */
  lemma {:induction false} Negated(x: word)
    requires x <= TWO_31
    ensures S32(U32(0 - (x as int))) == 0 - (x as int)
  {
  }

  lemma {:induction false} SignTwice(n: word)
    ensures SignApply(SignApply(n, n), n) == n
  {
  }

  /** What __divmodsi4 leaves for every dividend and divisor. */
  ghost predicate DividedSigned(n: word, b: word, q: word, rem: word) {
    && (b != 0 && !Overflows(n, b) ==> Truncates(S32(n), S32(b), S32(q), S32(rem)))
    && (Overflows(n, b) ==> q == n && rem == 0)
    && (b == 0 ==> q == 0 && rem == n)
  }

  /** The unsigned division of the magnitudes. */
  ghost predicate DividedMagnitudes(n: word, b: word, q: word, r: word) {
    var x, y := SignApply(n, n), SignApply(b, b);
    if y != 0 then x == q * y + r && r < y else q == 0 && r == x
  }

  lemma {:induction false} NonZeroOutcome(n: word, b: word, signs: word, q: word, r: word)
    requires signs >= TWO_31 <==> (n >= TWO_31) != (b >= TWO_31)
    requires b != 0 && DividedMagnitudes(n, b, q, r)
    ensures DividedSigned(n, b, SignApply(q, signs), SignApply(r, n))
  {
    MagnitudeIsAbs(n);
    MagnitudeIsAbs(b);
    SignedResult(n, b, signs, q, r);
  }

  lemma {:induction false} ZeroSigned(n: word, b: word)
    requires b == 0
    ensures DividedSigned(n, b, 0, n)
  {
  }

  lemma {:induction false} ZeroMagnitude(b: word)
    ensures SignApply(b, b) == 0 <==> b == 0
  {
    MagnitudeIsAbs(b);
  }

  lemma {:induction false} ZeroOutcome(n: word, signs: word, q: word, r: word)
    requires q == 0 && r == SignApply(n, n)
    ensures SignApply(q, signs) == 0 && SignApply(r, n) == n
  {
    SignTwice(n);
  }

  /** __divmodsi4: truncating division; the one overflow wraps to the dividend; a zero divisor leaves (0, n). */
  method DivModSI4(n: word, b: word) returns (q: word, rem: word)
    ensures DividedSigned(n, b, q, rem)
  {
    var signs := SignXor(n, b);
    var x, y := SignApply(n, n), SignApply(b, b);
    q, rem := UDivModSI4(x, y);
    ZeroMagnitude(b);
    if b != 0 {
      NonZeroOutcome(n, b, signs, q, rem);
    } else {
      ZeroOutcome(n, signs, q, rem);
      ZeroSigned(n, b);
    }
    q, rem := SignApply(q, signs), SignApply(rem, n);
  }

  lemma {:induction false} Remains(n: int, b: int, q: int, r: int)
    requires Truncates(n, b, q, r)
    ensures Truncates(n, b, q, n - q * b)
  {
  }

  /** __divsi3: the quotient of the same division. */
  method DivSI3(n: word, b: word) returns (q: word)
    ensures b != 0 && !Overflows(n, b) ==> Truncates(S32(n), S32(b), S32(q), S32(n) - S32(q) * S32(b))
    ensures Overflows(n, b) ==> q == n
    ensures b == 0 ==> q == 0
  {
    var signs := SignXor(n, b);
    MagnitudeIsAbs(n);
    MagnitudeIsAbs(b);
    var x, y := SignApply(n, n), SignApply(b, b);
    var q0: word;
    ghost var r0: word;
    q0, r0 := UDivSI3(x, y);
    q := SignApply(q0, signs);
    if b != 0 {
      SignedResult(n, b, signs, q0, r0);
      if !Overflows(n, b) { Remains(S32(n), S32(b), S32(q), S32(SignApply(r0, n))); }
    }
  }

  lemma {:induction false} AtLeastFactor(d: int, b: int)
    requires d != 0
    ensures Abs(d * b) >= Abs(b)
  {
    if d > 0 {
      assert Abs(d * b) == d * Abs(b) by { assert d * (-b) == -(d * b); }
      Times2(1, d, Abs(b) + 1);
    } else {
      assert Abs(d * b) == (-d) * Abs(b) by { assert (-d) * b == -(d * b) && (-d) * (-b) == d * b; }
      Times2(1, -d, Abs(b) + 1);
    }
  }

  /** Truncation determines the result: no other pair qualifies. */
  lemma {:induction false} TruncatesOnlyOnce(n: int, b: int, q: int, r: int, p: int, s: int)
    requires Truncates(n, b, q, r) && Truncates(n, b, p, s)
    ensures q == p && r == s
  {
    Difference(q, p, b);
    if q != p { AtLeastFactor(q - p, b); }
  }

  lemma {:induction false} Difference(q: int, p: int, b: int)
    ensures (q - p) * b == q * b - p * b
  {
  }
}
