/** The reflected CRC-32 shift register, fed bit by bit, and the errors it always detects. */
module CrcRegister {
  import opened Words
  import opened Bits
  import opened XorBits

  const POLYNOMIAL: word := 0xEDB8_8320

  /** One shift of the reflected register (section 8 of RFC 1952). */
  function Step(c: nat): nat {
    if c % 2 == 1 then Xor(c / 2, POLYNOMIAL) else c / 2
  }

  function BitOf(d: bool): nat {
    if d then 1 else 0
  }

  /** One data bit enters at the low end. */
  function FeedBit(c: nat, d: bool): nat {
    Step(Xor(c, BitOf(d)))
  }

  /** The bit-serial reference: data bits in order, one shift each. */
  function Feed(c: nat, bits: seq<bool>): nat
    decreases |bits|
  {
    if bits == [] then c else Feed(FeedBit(c, bits[0]), bits[1..])
  }

  lemma {:induction false} FeedAppend(c: nat, a: seq<bool>, b: seq<bool>)
    ensures Feed(c, a + b) == Feed(Feed(c, a), b)
    decreases |a|
  {
    if a == [] {
      assert a + b == b;
    } else {
      FeedAppend(FeedBit(c, a[0]), a[1..], b);
      assert (a + b)[1..] == a[1..] + b;
    }
  }

  lemma {:induction false} TopOfPolynomial()
    ensures Pow2(31) <= POLYNOMIAL < Pow2(32) == 2 * Pow2(31)
  {
    Pow2Of32();
  }

  lemma {:induction false} StepBound(c: nat)
    requires c < Pow2(32)
    ensures Step(c) < Pow2(32)
    ensures Step(c) >= Pow2(31) <==> c % 2 == 1
  {
    TopOfPolynomial();
    XorBound(c / 2, POLYNOMIAL, 32);
    XorTop(c / 2, POLYNOMIAL, 31);
  }

  lemma {:induction false} XorCancel(a: nat, b: nat, c: nat)
    requires Xor(a, c) == Xor(b, c)
    ensures a == b
  {
    XorAssociates(a, c, c);
    XorAssociates(b, c, c);
    XorSelf(c);
  }

  /** No two register values shift to the same one. */
  lemma {:induction false} StepInjective(x: nat, y: nat)
    requires x < Pow2(32) && y < Pow2(32) && Step(x) == Step(y)
    ensures x == y
  {
    StepBound(x);
    StepBound(y);
    if x % 2 == 1 { XorCancel(x / 2, y / 2, POLYNOMIAL); }
    SameDigits(x, y);
  }

  lemma {:induction false} BitBound32(c: nat, d: bool)
    requires c < Pow2(32)
    ensures Xor(c, BitOf(d)) < Pow2(32) && FeedBit(c, d) < Pow2(32)
  {
    Pow2Of32();
    XorBound(c, BitOf(d), 32);
    StepBound(Xor(c, BitOf(d)));
  }

  lemma {:induction false} BitInjective(x: nat, y: nat, d: bool)
    requires x < Pow2(32) && y < Pow2(32) && FeedBit(x, d) == FeedBit(y, d)
    ensures x == y
  {
    BitBound32(x, d);
    BitBound32(y, d);
    StepInjective(Xor(x, BitOf(d)), Xor(y, BitOf(d)));
    XorCancel(x, y, BitOf(d));
  }

  /** Registers that differ still differ after any common data. */
  lemma {:induction false} FeedInjective(x: nat, y: nat, bits: seq<bool>)
    requires x < Pow2(32) && y < Pow2(32) && Feed(x, bits) == Feed(y, bits)
    ensures x == y
    decreases |bits|
  {
    if bits != [] {
      BitBound32(x, bits[0]);
      BitBound32(y, bits[0]);
      FeedInjective(FeedBit(x, bits[0]), FeedBit(y, bits[0]), bits[1..]);
      BitInjective(x, y, bits[0]);
    }
  }

  lemma {:induction false} FeedBound(c: nat, bits: seq<bool>)
    requires c < Pow2(32)
    ensures Feed(c, bits) < Pow2(32)
    decreases |bits|
  {
    if bits != [] {
      BitBound32(c, bits[0]);
      FeedBound(FeedBit(c, bits[0]), bits[1..]);
    }
  }

  /** n shifts without data */
  function Shift(c: nat, n: nat): nat
    decreases n
  {
    if n == 0 then c else Shift(Step(c), n - 1)
  }

  lemma {:induction false} ShiftSum(c: nat, a: nat, b: nat)
    ensures Shift(c, a + b) == Shift(Shift(c, a), b)
    decreases a
  {
    if a > 0 { ShiftSum(Step(c), a - 1, b); }
  }

  lemma {:induction false} ShiftInjective(x: nat, y: nat, n: nat)
    requires x < Pow2(32) && y < Pow2(32) && Shift(x, n) == Shift(y, n)
    ensures x == y
    decreases n
  {
    if n > 0 {
      StepBound(x);
      StepBound(y);
      ShiftInjective(Step(x), Step(y), n - 1);
      StepInjective(x, y);
    }
  }

  lemma {:induction false} XorSwap(a: nat, y: nat, p: nat)
    ensures Xor(Xor(a, y), p) == Xor(Xor(a, p), y)
  {
    XorAssociates(a, y, p);
    XorCommutes(y, p);
    XorAssociates(a, p, y);
  }

  lemma {:induction false} XorDouble(x: nat, y: nat)
    ensures Xor(x, 2 * y) / 2 == Xor(x / 2, y) && Xor(x, 2 * y) % 2 == x % 2
  {
    XorDigits(x, 2 * y);
  }

  /** Bits above the lowest only move down in one shift. */
  lemma {:induction false} StepShifted(x: nat, y: nat)
    ensures Step(Xor(x, 2 * y)) == Xor(Step(x), y)
  {
    XorDouble(x, y);
    XorSwap(x / 2, y, POLYNOMIAL);
  }

  /** The data bits as a number, the first bit lowest. */
  function Word(bits: seq<bool>): nat
    decreases |bits|
  {
    if bits == [] then 0 else BitOf(bits[0]) + 2 * Word(bits[1..])
  }

  lemma {:induction false} WordBound(bits: seq<bool>)
    ensures Word(bits) < Pow2(|bits|)
    decreases |bits|
  {
    if bits != [] { WordBound(bits[1..]); }
  }

  lemma {:induction false} WordInjective(u: seq<bool>, v: seq<bool>)
    requires |u| == |v| && Word(u) == Word(v)
    ensures u == v
    decreases |u|
  {
    if u != [] {
      WordInjective(u[1..], v[1..]);
      assert u == [u[0]] + u[1..] && v == [v[0]] + v[1..];
    }
  }

  lemma {:induction false} XorBit(c: nat, d: bool, y: nat)
    ensures Xor(c, BitOf(d) + 2 * y) == Xor(Xor(c, BitOf(d)), 2 * y)
  {
    XorDigits(BitOf(d), 2 * y);
    XorFrom(BitOf(d) + 2 * y, BitOf(d), 2 * y);
    XorAssociates(c, BitOf(d), 2 * y);
  }

  /** Feeding data is shifting with the data already xored in. */
  lemma {:induction false} FeedIsShift(c: nat, bits: seq<bool>)
    ensures Feed(c, bits) == Shift(Xor(c, Word(bits)), |bits|)
    decreases |bits|
  {
    if bits != [] {
      var y := Word(bits[1..]);
      FeedIsShift(FeedBit(c, bits[0]), bits[1..]);
      XorBit(c, bits[0], y);
      StepShifted(Xor(c, BitOf(bits[0])), y);
    }
  }

  /** Every error confined to 32 consecutive bits changes the register for good. */
  lemma {:induction false} BurstDetected(c: nat, p: seq<bool>, u: seq<bool>, v: seq<bool>, s: seq<bool>)
    requires c < Pow2(32) && |u| == |v| <= 32 && u != v
    ensures Feed(c, p + u + s) != Feed(c, p + v + s)
  {
    var r := Feed(c, p);
    FeedBound(c, p);
    FeedBound(r, u);
    FeedBound(r, v);
    FeedAppend(c, p + u, s);
    FeedAppend(c, p + v, s);
    FeedAppend(c, p, u);
    FeedAppend(c, p, v);
    WindowDiffers(r, u, v);
    if Feed(Feed(r, u), s) == Feed(Feed(r, v), s) { FeedInjective(Feed(r, u), Feed(r, v), s); }
  }

  lemma {:induction false} WindowDiffers(r: nat, u: seq<bool>, v: seq<bool>)
    requires r < Pow2(32) && |u| == |v| <= 32 && u != v
    ensures Feed(r, u) != Feed(r, v)
  {
    FeedIsShift(r, u);
    FeedIsShift(r, v);
    if Feed(r, u) == Feed(r, v) {
      WordBound(u);
      WordBound(v);
      Pow2Monotone(|u|, 32);
      XorBound(r, Word(u), 32);
      XorBound(r, Word(v), 32);
      ShiftInjective(Xor(r, Word(u)), Xor(r, Word(v)), |u|);
      XorCommutes(r, Word(u));
      XorCommutes(r, Word(v));
      XorCancel(Word(u), Word(v), r);
      WordInjective(u, v);
    }
  }

  lemma {:induction false} ShiftHigh(lo: nat, y: nat, n: nat)
    ensures Shift(Xor(lo, y * Pow2(n)), n) == Xor(Shift(lo, n), y)
    decreases n
  {
    if n > 0 {
      assert y * Pow2(n) == 2 * (y * Pow2(n - 1));
      StepShifted(lo, y * Pow2(n - 1));
      ShiftHigh(Step(lo), y, n - 1);
    }
  }
}
