/** Exclusive or on unsigned integers, bit by bit. */
module XorBits {
  import opened Bits

  function Xor(a: nat, b: nat): nat
    decreases a + b
  {
    if a == 0 then b else if b == 0 then a
    else 2 * Xor(a / 2, b / 2) + (a + b) % 2
  }

  /** Xor works digit by digit, also where an operand has run out. */
  lemma {:induction false} XorDigits(a: nat, b: nat)
    ensures Xor(a, b) / 2 == Xor(a / 2, b / 2) && Xor(a, b) % 2 == (a + b) % 2
  {
  }

  lemma {:induction false} XorBound(a: nat, b: nat, n: nat)
    requires a < Pow2(n) && b < Pow2(n)
    ensures Xor(a, b) < Pow2(n)
  {
    if n > 0 && a != 0 && b != 0 { XorBound(a / 2, b / 2, n - 1); }
  }

  lemma {:induction false} XorCommutes(a: nat, b: nat)
    ensures Xor(a, b) == Xor(b, a)
    decreases a + b
  {
    if a != 0 && b != 0 { XorCommutes(a / 2, b / 2); }
  }

  lemma {:induction false} SameDigits(x: nat, y: nat)
    requires x / 2 == y / 2 && x % 2 == y % 2
    ensures x == y
  {
  }

  /** A number with the digits of the exclusive or is the exclusive or. */
  lemma {:induction false} XorFrom(v: nat, a: nat, b: nat)
    requires v / 2 == Xor(a / 2, b / 2) && v % 2 == (a + b) % 2
    ensures v == Xor(a, b)
  {
    XorDigits(a, b);
    SameDigits(v, Xor(a, b));
  }

  lemma {:induction false} Parity(x: nat, y: nat, a: nat, b: nat, c: nat)
    requires x % 2 == (a + b) % 2 && y % 2 == (b + c) % 2
    ensures (x + c) % 2 == (a + y) % 2
  {
  }

  lemma {:induction false} XorAssociates(a: nat, b: nat, c: nat)
    ensures Xor(Xor(a, b), c) == Xor(a, Xor(b, c))
    decreases a + b + c
  {
    if a != 0 && b != 0 && c != 0 {
      XorAssociates(a / 2, b / 2, c / 2);
      var x, y := Xor(a, b), Xor(b, c);
      XorDigits(a, b);
      XorDigits(b, c);
      XorDigits(x, c);
      XorDigits(a, y);
      Parity(x, y, a, b, c);
      SameDigits(Xor(x, c), Xor(a, y));
    }
  }

  lemma {:induction false} XorSelf(a: nat)
    ensures Xor(a, a) == 0
  {
    if a != 0 { XorSelf(a / 2); }
  }

  /** Equal when the difference is zero. */
  lemma {:induction false} XorZero(a: nat, b: nat)
    requires Xor(a, b) == 0
    ensures a == b
    decreases a + b
  {
    if a != 0 && b != 0 { XorZero(a / 2, b / 2); }
  }

  /** Complement: flipping the low n bits of x counts down from 2^n - 1. */
  lemma {:induction false} XorOnes(x: nat, n: nat)
    requires x < Pow2(n)
    ensures Xor(x, Pow2(n) - 1) == Pow2(n) - 1 - x
  {
    if n > 0 {
      OnesHalved(Pow2(n - 1));
      XorOnes(x / 2, n - 1);
      XorDigits(x, Pow2(n) - 1);
      OnesJoined(x, Xor(x, Pow2(n) - 1), Pow2(n - 1));
    }
  }

  lemma {:induction false} OnesHalved(p: nat)
    requires p > 0
    ensures (2 * p - 1) / 2 == p - 1 && (2 * p - 1) % 2 == 1
  {
  }

  lemma {:induction false} OnesJoined(x: nat, z: nat, p: nat)
    requires x < 2 * p && z / 2 == p - 1 - x / 2 && z % 2 == (x + 2 * p - 1) % 2
    ensures z == 2 * p - 1 - x
  {
    LastFlipped(x, p);
    assert x == 2 * (x / 2) + x % 2 && z == 2 * (z / 2) + z % 2;
  }

  lemma {:induction false} LastFlipped(x: nat, p: nat)
    ensures (x + 2 * p - 1) % 2 == 1 - x % 2
  {
  }

  /** The top bit of a xor is set when exactly one operand has it. */
  lemma {:induction false} XorTop(a: nat, b: nat, n: nat)
    requires a < 2 * Pow2(n) && b < 2 * Pow2(n)
    ensures Xor(a, b) >= Pow2(n) <==> (a >= Pow2(n)) != (b >= Pow2(n))
  {
    if n > 0 {
      XorTop(a / 2, b / 2, n - 1);
      XorDigits(a, b);
    }
  }
}
