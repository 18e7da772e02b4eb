/** Bitwise operators on unsigned integers, bit by bit. */
module Bits {
  function Pow2(k: nat): (p: nat)
    ensures p >= 1
  {
    if k == 0 then 1 else 2 * Pow2(k - 1)
  }

  predicate Bit(w: nat, k: nat) {
    if k == 0 then w % 2 == 1 else Bit(w / 2, k - 1)
  }

  function And(a: nat, b: nat): nat {
    if a == 0 || b == 0 then 0 else 2 * And(a / 2, b / 2) + (if a % 2 == 1 && b % 2 == 1 then 1 else 0)
  }

  function Or(a: nat, b: nat): nat {
    if a == 0 then b else if b == 0 then a else 2 * Or(a / 2, b / 2) + (if a % 2 == 1 || b % 2 == 1 then 1 else 0)
  }

  /** a & ~b */
  function AndNot(a: nat, b: nat): nat {
    if a == 0 || b == 0 then a else 2 * AndNot(a / 2, b / 2) + (if a % 2 == 1 && b % 2 == 0 then 1 else 0)
  }

  lemma {:induction false} BitOfZero(k: nat)
    ensures !Bit(0, k)
  {
    if k > 0 { BitOfZero(k - 1); }
  }

  lemma {:induction false} BitOfPow2(k: nat, j: nat)
    ensures Bit(Pow2(k), j) <==> j == k
  {
    if k == 0 {
      if j > 0 { BitOfZero(j - 1); }
    } else if j > 0 {
      BitOfPow2(k - 1, j - 1);
    }
  }

  lemma {:induction false} BitOfAnd(a: nat, b: nat, j: nat)
    ensures Bit(And(a, b), j) <==> Bit(a, j) && Bit(b, j)
  {
    if a == 0 || b == 0 { BitOfZero(j); } else if j > 0 { BitOfAnd(a / 2, b / 2, j - 1); }
  }

  lemma {:induction false} BitOfOr(a: nat, b: nat, j: nat)
    ensures Bit(Or(a, b), j) <==> Bit(a, j) || Bit(b, j)
  {
    if a == 0 || b == 0 { BitOfZero(j); } else if j > 0 { BitOfOr(a / 2, b / 2, j - 1); }
  }

  lemma {:induction false} BitOfAndNot(a: nat, b: nat, j: nat)
    ensures Bit(AndNot(a, b), j) <==> Bit(a, j) && !Bit(b, j)
  {
    if a == 0 || b == 0 { BitOfZero(j); } else if j > 0 { BitOfAndNot(a / 2, b / 2, j - 1); }
  }

  lemma {:induction false} OrBound(a: nat, b: nat, n: nat)
    requires a < Pow2(n) && b < Pow2(n)
    ensures Or(a, b) < Pow2(n)
  {
    if n > 0 && a != 0 && b != 0 { OrBound(a / 2, b / 2, n - 1); }
  }

  lemma {:induction false} AndNotBound(a: nat, b: nat)
    ensures AndNot(a, b) <= a
  {
    if a != 0 && b != 0 { AndNotBound(a / 2, b / 2); }
  }

  /** A positive number has a bit. */
  lemma {:induction false} SomeBit(w: nat) returns (j: nat)
    requires w > 0
    ensures Bit(w, j)
  {
    if w % 2 == 1 {
      j := 0;
    } else {
      var i := SomeBit(w / 2);
      j := i + 1;
    }
  }

  /** Testing a word against a one-bit mask. */
  lemma {:induction false} MaskTest(k: nat, w: nat)
    ensures And(Pow2(k), w) == 0 <==> !Bit(w, k)
  {
    BitOfAnd(Pow2(k), w, k);
    BitOfPow2(k, k);
    if And(Pow2(k), w) == 0 {
      BitOfZero(k);
    } else {
      var j := SomeBit(And(Pow2(k), w));
      BitOfAnd(Pow2(k), w, j);
      BitOfPow2(k, j);
    }
  }

  /** A one-bit mask is at most w exactly when w has that bit or a higher one. */
  lemma {:induction false} MaskAtMost(k: nat, w: nat) returns (j: nat)
    requires Pow2(k) <= w
    ensures j >= k && Bit(w, j)
  {
    if k == 0 {
      j := SomeBit(w);
    } else {
      var i := MaskAtMost(k - 1, w / 2);
      j := i + 1;
    }
  }

  lemma {:induction false} BitBound(w: nat, j: nat)
    requires Bit(w, j)
    ensures Pow2(j) <= w
  {
    if j > 0 { BitBound(w / 2, j - 1); }
  }

  lemma {:induction false} Pow2Monotone(j: nat, k: nat)
    requires j <= k
    ensures Pow2(j) <= Pow2(k)
  {
    if j < k { Pow2Monotone(j, k - 1); }
  }

  lemma {:induction false} Pow2Of32()
    ensures Pow2(32) == 0x1_0000_0000
  {
    assert Pow2(4) == 16;
    assert Pow2(8) == 256;
    assert Pow2(12) == 0x1000;
    assert Pow2(16) == 0x1_0000;
    assert Pow2(20) == 0x10_0000;
    assert Pow2(24) == 0x100_0000;
    assert Pow2(28) == 0x1000_0000;
  }

  lemma {:induction false} DivModUnique(x: int, d: int, q: int, r: int)
    requires d > 0 && x == q * d + r && 0 <= r < d
    ensures x / d == q && x % d == r
  {
    var e := x / d - q;
    assert e * d == r - x % d by {
      assert x == (x / d) * d + x % d;
      assert e * d == (x / d) * d - q * d;
    }
  }

  /** Halving commutes with reduction modulo an even number. */
  lemma {:induction false} ModDouble(x: nat, p: nat)
    requires p > 0
    ensures x % (2 * p) == 2 * ((x / 2) % p) + x % 2
  {
    var h := x / 2;
    assert h == (h / p) * p + h % p;
    assert x == (h / p) * (2 * p) + (2 * (h % p) + x % 2) by {
      assert 2 * ((h / p) * p) == (h / p) * (2 * p);
    }
    DivModUnique(x, 2 * p, h / p, 2 * (h % p) + x % 2);
  }

  /** x & ~(2^k - 1) rounds down to a multiple of 2^k. */
  lemma {:induction false} ClearLow(x: nat, k: nat)
    ensures AndNot(x, Pow2(k) - 1) == x - x % Pow2(k)
  {
    if k > 0 {
      assert (Pow2(k) - 1) / 2 == Pow2(k - 1) - 1;
      ModDouble(x, Pow2(k - 1));
      ClearLow(x / 2, k - 1);
    }
  }
}
