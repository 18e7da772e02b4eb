/** 64-bit unsigned division with remainder by shift and subtract. */
module UDivModDI4 {
  import opened Words
  import opened Bits
  import opened DivBits

  ghost predicate QuotRem(a: int, b: int, q: int, r: int) {
    a == q * b + r && 0 <= r < b
  }

  function Join(hi: word, lo: word): dword {
    hi * TWO_32 + lo
  }

  /** (x << 1) | (y >> 31): the top bit of x falls off, the top bit of y comes in. */
  function ShlOr(x: word, y: word): (r: word)
    ensures r == 2 * x - TWO_32 * (x / TWO_31) + y / TWO_31
  {
    DoubleWord(x);
    OrDisjoint(x % TWO_31, y / TWO_31, 1);
    Or((2 * x) % TWO_32, y / TWO_31)
  }

  /** (x << 1) | c for a carry bit c */
  function ShlBit(x: word, c: word): (r: word)
    requires c <= 1
    ensures r == 2 * x - TWO_32 * (x / TWO_31) + c
  {
    DoubleWord(x);
    OrDisjoint(x % TWO_31, c, 1);
    Or((2 * x) % TWO_32, c)
  }

  lemma {:induction false} DoubleWord(x: word)
    ensures (2 * x) % TWO_32 == (x % TWO_31) * Pow2(1) == 2 * x - TWO_32 * (x / TWO_31)
  {
    assert Pow2(1) == 2;
  }

  lemma {:induction false} TopBit(hi: word, lo: word)
    ensures Join(hi, lo) / TWO_63 == hi / TWO_31
  {
    DivModUnique(Join(hi, lo), TWO_63, hi / TWO_31, (hi % TWO_31) * TWO_32 + lo);
  }

  /** Shifting a 64-bit word left by one, half by half, with a carry coming in. */
  lemma {:induction false} ShiftQuotient(qh: word, ql: word, c: word)
    requires c <= 1
    ensures Join(ShlOr(qh, ql), ShlBit(ql, c)) == 2 * Join(qh, ql) - TWO_64 * (Join(qh, ql) / TWO_63) + c
  {
    TopBit(qh, ql);
  }

  /** Shifting the top bit of the quotient into the remainder. */
  lemma {:induction false} ShiftRemainder(rh: word, rl: word, qh: word, ql: word)
    requires 2 * Join(rh, rl) + Join(qh, ql) / TWO_63 < TWO_64
    ensures Join(ShlOr(rh, rl), ShlOr(rl, qh)) == 2 * Join(rh, rl) + Join(qh, ql) / TWO_63
  {
    TopBit(qh, ql);
    assert rh < TWO_31;
  }

  /** The sign of d - r - 1 tells whether r >= d, as long as neither difference leaves the signed range. */
  lemma {:induction false} CompareBySign(d: dword, r: dword)
    requires r - d < TWO_63 && (d <= TWO_63 || r >= TWO_63)
    ensures SignMask64((d - r - 1) % TWO_64) == (if r >= d then 0xFFFF_FFFF_FFFF_FFFF else 0)
  {
    if r >= d { assert (d - r - 1) % TWO_64 == d - r - 1 + TWO_64; }
  }

  /** One digit: the next bit of a enters the remainder, and the carry says whether d was subtracted. */
  lemma {:induction false} DigitStep(a: int, d: int, t: nat, e: int, r: int)
    requires t > 0 && a >= 0 && d > 0 && QuotRem(a / Pow2(t), d, e, r)
    ensures var bit := (a / Pow2(t - 1)) % 2; var r2 := 2 * r + bit;
            && a / Pow2(t - 1) == 2 * (a / Pow2(t)) + bit
            && (if r2 >= d then QuotRem(a / Pow2(t - 1), d, 2 * e + 1, r2 - d)
               else QuotRem(a / Pow2(t - 1), d, 2 * e, r2))
  {
    HalveQuotient(a, t);
    var bit := (a / Pow2(t - 1)) % 2;
    assert 2 * (e * d) == (2 * e) * d && (2 * e + 1) * d == (2 * e) * d + d;
  }

  lemma {:induction false} HalveQuotient(a: int, t: nat)
    requires t > 0 && a >= 0
    ensures (a / Pow2(t - 1)) / 2 == a / Pow2(t)
  {
    var p := Pow2(t - 1);
    var x := a / p;
    assert a == x * p + a % p;
    assert a == (x / 2) * (2 * p) + ((x % 2) * p + a % p) by {
      assert x == 2 * (x / 2) + x % 2;
      assert (2 * (x / 2) + x % 2) * p == (x / 2) * (2 * p) + (x % 2) * p;
    }
    assert (x % 2) * p <= p by { if x % 2 == 1 { assert 1 * p == p; } else { assert 0 * p == 0; } }
    DivModUnique(a, 2 * p, x / 2, (x % 2) * p + a % p);
  }

  /** The low t bits of a split into bit t-1 and the rest. */
  lemma {:induction false} SplitTopBit(a: int, t: nat)
    requires t > 0 && a >= 0
    ensures a % Pow2(t) == ((a / Pow2(t - 1)) % 2) * Pow2(t - 1) + a % Pow2(t - 1)
  {
    HalveQuotient(a, t);
    SplitRemainder(a, Pow2(t - 1));
  }

  lemma {:induction false} SplitRemainder(a: int, p: int)
    requires a >= 0 && p > 0 && (a / p) / 2 == a / (2 * p)
    ensures a % (2 * p) == ((a / p) % 2) * p + a % p
  {
    var x, y := a / p, a / (2 * p);
    assert a == x * p + a % p && a == y * (2 * p) + a % (2 * p);
    assert x * p - y * (2 * p) == (x - 2 * y) * p;
  }

  /** The quotient register: t bits of a still to come in its top, t' = 64 - t places with the digits D below. */
  ghost predicate Register(a: int, t: nat, q: int, digits: int) {
    t <= 64 && 0 <= digits < Pow2(64 - t) && q == (a % Pow2(t)) * Pow2(64 - t) + digits
  }

  /** Arithmetic of one register step, with p * w = 2^63. */
  lemma {:induction false} RegisterArith(bit: int, l: int, p: int, w: int, g: int, q: int)
    requires p > 0 && w > 0 && p * w == TWO_63 && 0 <= l < p && 0 <= g < w && 0 <= bit <= 1
    requires q == (bit * p + l) * w + g
    ensures q / TWO_63 == bit && 2 * q - TWO_64 * bit == l * (2 * w) + 2 * g
  {
    RegisterProducts(bit, l, p, w);
    RegisterSum(bit, l * w, w, g, q);
  }

  lemma {:induction false} RegisterProducts(bit: int, l: int, p: int, w: int)
    requires w > 0 && 0 <= l < p
    ensures (bit * p + l) * w == bit * (p * w) + l * w
    ensures 0 <= l * w <= p * w - w && 2 * (l * w) == l * (2 * w)
  {
    assert l * w <= (p - 1) * w == p * w - w;
  }

  lemma {:induction false} RegisterSum(bit: int, lw: int, w: int, g: int, q: int)
    requires q == bit * TWO_63 + lw + g && 0 <= lw <= TWO_63 - w && 0 <= g < w
    ensures q / TWO_63 == bit && 2 * q - TWO_64 * bit == 2 * lw + 2 * g
  {
    DivModUnique(q, TWO_63, bit, lw + g);
  }

  lemma {:induction false} RegisterStep(a: int, t: nat, q: int, digits: int, c: int)
    requires a >= 0 && 0 < t <= 63 && Register(a, t, q, digits) && 0 <= c <= 1
    ensures q / TWO_63 == (a / Pow2(t - 1)) % 2
    ensures Register(a, t - 1, 2 * q - TWO_64 * (q / TWO_63) + c, 2 * digits + c)
  {
    var bit, p, w := (a / Pow2(t - 1)) % 2, Pow2(t - 1), Pow2(64 - t);
    var l := a % p;
    SplitTopBit(a, t);
    Pow2Of64();
    Pow2Add(t - 1, 64 - t);
    RegisterArith(bit, l, p, w, digits, q);
    Doubled(64 - t);
    assert 64 - (t - 1) == 64 - t + 1;
  }

  lemma {:induction false} Doubled(k: nat)
    ensures Pow2(k + 1) == 2 * Pow2(k)
  {
  }

  /** The remainder register after its shift: within 64 bits, and where the sign trick is exact. */
  lemma {:induction false} RemainderBounds(a: dword, d: dword, t: nat, t0: nat, e: int, r: int)
    requires t > 0 && QuotRem(a / Pow2(t), d, e, r) && e >= 0
    requires d < TWO_63 || (t0 == 1 && a >= TWO_63)
    requires t <= t0 && (t == t0 ==> e == 0)
    ensures var r2 := 2 * r + (a / Pow2(t - 1)) % 2;
            r2 < TWO_64 && r2 - d < TWO_63 && (d <= TWO_63 || r2 >= TWO_63)
  {
    HalveQuotient(a, t);
    var x := a / Pow2(t - 1);
    assert x == 2 * (a / Pow2(t)) + x % 2;
    assert e * d >= 0;
    assert 2 * r + x % 2 <= x;
    assert x <= a by { DivAtMost(a, Pow2(t - 1)); }
    if d >= TWO_63 {
      assert t == 1 && Pow2(0) == 1 && x == a;
      assert e * d == 0;
    }
  }

  lemma {:induction false} DivAtMost(a: int, p: int)
    requires a >= 0 && p > 0
    ensures a / p <= a
  {
    var x := a / p;
    assert a == x * p + a % p;
    assert x * p == x + x * (p - 1);
    Product(x, p - 1);
  }

  lemma {:induction false} Product(x: int, y: int)
    requires x >= 0 && y >= 0
    ensures x * y >= 0
  {
  }

  /** The two registers after t more digits are due: a's high bits have been divided, with quotient digits in q. */
  ghost predicate Underway(a: dword, d: dword, t: nat, t0: nat, q: dword, r: dword, carry: word, g: int) {
    && t <= t0 <= 63 && g >= 0 && carry <= 1
    && Register(a, t, q, g)
    && QuotRem(a / Pow2(t), d, 2 * g + carry, r)
    && (t == t0 ==> g == 0 && carry == 0)
    && (d < TWO_63 || (t0 == 1 && a >= TWO_63))
  }

  /** One turn of the main loop on whole 64-bit words. */
  lemma {:induction false} Turn(a: dword, d: dword, t: nat, t0: nat, q: dword, r: dword, carry: word, g: int)
    requires t > 0 && Underway(a, d, t, t0, q, r, carry, g)
    ensures var r2 := 2 * r + q / TWO_63;
            var q2 := 2 * q - TWO_64 * (q / TWO_63) + carry;
            && r2 < TWO_64 && 0 <= q2 < TWO_64
            && SignMask64((d - r2 - 1) % TWO_64) == (if r2 >= d then 0xFFFF_FFFF_FFFF_FFFF else 0)
            && (if r2 >= d then Underway(a, d, t - 1, t0, q2, r2 - d, 1, 2 * g + carry)
                else Underway(a, d, t - 1, t0, q2, r2, 0, 2 * g + carry))
  {
    RegisterStep(a, t, q, g, carry);
    RemainderBounds(a, d, t, t0, 2 * g + carry, r);
    DigitStep(a, d, t, 2 * g + carry, r);
    CompareBySign(d, 2 * r + q / TWO_63);
  }

  /** Both registers shifted left by one, word by word from the top. */
  method ShiftRegisters(rh0: word, rl0: word, qh0: word, ql0: word, carry: word)
    returns (rh: word, rl: word, qh: word, ql: word)
    requires carry <= 1 && 2 * Join(rh0, rl0) + Join(qh0, ql0) / TWO_63 < TWO_64
    ensures Join(rh, rl) == 2 * Join(rh0, rl0) + Join(qh0, ql0) / TWO_63
    ensures Join(qh, ql) == 2 * Join(qh0, ql0) - TWO_64 * (Join(qh0, ql0) / TWO_63) + carry
  {
    ShiftRemainder(rh0, rl0, qh0, ql0);
    ShiftQuotient(qh0, ql0, carry);
    rh := ShlOr(rh0, rl0);
    rl := ShlOr(rl0, qh0);
    qh := ShlOr(qh0, ql0);
    ql := ShlBit(ql0, carry);
  }

  /** d is taken off r if it fits, by a mask: the mask of the sign of d - r - 1. */
  method TakeOff(d: dword, r: dword) returns (less: dword, bit: word)
    requires SignMask64((d - r - 1) % TWO_64) == (if r >= d then 0xFFFF_FFFF_FFFF_FFFF else 0)
    ensures if r >= d then less == r - d && bit == 1 else less == r && bit == 0
  {
    var s := SignMask64((d - r - 1) % TWO_64);
    MaskSubtract(d, s);
    bit := And(s, 1);
    less := r - And(d, s);
  }

  /** One turn of the main loop: shift, compare, subtract. */
  method OneTurn(d: dword, rh0: word, rl0: word, qh0: word, ql0: word, carry0: word, ghost a: dword, ghost t: nat,
                 ghost t0: nat, ghost g: int)
    returns (rh: word, rl: word, qh: word, ql: word, carry: word)
    requires t > 0 && Underway(a, d, t, t0, Join(qh0, ql0), Join(rh0, rl0), carry0, g)
    ensures Underway(a, d, t - 1, t0, Join(qh, ql), Join(rh, rl), carry, 2 * g + carry0)
  {
    Turn(a, d, t, t0, Join(qh0, ql0), Join(rh0, rl0), carry0, g);
    rh, rl, qh, ql := ShiftRegisters(rh0, rl0, qh0, ql0, carry0);
    var r: dword;
    r, carry := TakeOff(d, Join(rh, rl));
    SplitWord(r);
    rh, rl := r / TWO_32, r % TWO_32;
  }

  /** The main loop, from registers that hold a with sr0 bits still to be divided. */
  method Loop(d: dword, qh0: word, ql0: word, rh0: word, rl0: word, sr0: nat, ghost a: dword)
    returns (q: dword, rem: dword)
    requires 1 <= sr0 && Underway(a, d, sr0, sr0, Join(qh0, ql0), Join(rh0, rl0), 0, 0)
    ensures QuotRem(a, d, q, rem)
  {
    var qh: word, ql: word, rh: word, rl: word, carry: word := qh0, ql0, rh0, rl0, 0;
    var sr := sr0;
    ghost var g := 0;
    while sr > 0
      invariant 0 <= sr <= sr0
      invariant Underway(a, d, sr, sr0, Join(qh, ql), Join(rh, rl), carry, g)
    {
      ghost var g0 := g;
      g := 2 * g + carry;
      rh, rl, qh, ql, carry := OneTurn(d, rh, rl, qh, ql, carry, a, sr, sr0, g0);
      sr := sr - 1;
    }
    LastDigit(a, d, sr0, Join(qh, ql), Join(rh, rl), carry, g);
    q, rem := (2 * Join(qh, ql) + carry) % TWO_64, Join(rh, rl);
  }

  lemma {:induction false} SplitWord(r: dword)
    ensures Join(r / TWO_32, r % TWO_32) == r
  {
  }

  lemma {:induction false} LastDigit(a: dword, d: dword, t0: nat, q: dword, r: dword, carry: word, g: int)
    requires Underway(a, d, 0, t0, q, r, carry, g)
    ensures QuotRem(a, d, (2 * q + carry) % TWO_64, r)
  {
    var e := 2 * g + carry;
    assert a % Pow2(0) == 0 && a / Pow2(0) == a;
    assert 0 * Pow2(64) == 0;
    assert q == g;
    QuotientFits(a, d, e, r);
  }

  lemma {:induction false} QuotientFits(a: dword, d: dword, e: int, r: int)
    requires QuotRem(a, d, e, r) && e >= 0
    ensures e % TWO_64 == e
  {
    assert e * d == e + e * (d - 1);
    Product(e, d - 1);
  }

  /** What the mask selects: the subtrahend and the carry. */
  lemma {:induction false} MaskSubtract(d: dword, s: dword)
    requires s == 0 || s == 0xFFFF_FFFF_FFFF_FFFF
    ensures And(d, s) == (if s == 0 then 0 else d)
    ensures And(s, 1) == (if s == 0 then 0 else 1)
  {
    AndOnes64(d);
    assert And(s / 2, 0) == 0;
  }

  // ---- Normalisation ----

  /** x << n for n < 32 */
  function ShiftLeft(x: word, n: nat): word {
    (x * Pow2(n)) % TWO_32
  }

  /** x >> n for n < 32 */
  function ShiftRight(x: word, n: nat): word {
    DivLaw(x, Pow2(n));
    x / Pow2(n)
  }

  lemma {:induction false} DivLaw(x: int, p: int)
    requires x >= 0 && p > 0
    ensures x == (x / p) * p + x % p && 0 <= x % p < p && 0 <= x / p <= x
  {
    DivAtMost(x, p);
  }

  /** A C shift of a 32-bit word: any value at all when the count is out of range. */
  method Shl(x: word, n: word) returns (r: word)
    ensures n < 32 ==> r == ShiftLeft(x, n)
  {
    if n < 32 {
      r := ShiftLeft(x, n);
    } else {
      r := *;
    }
  }

  method Shr(x: word, n: word) returns (r: word)
    ensures n < 32 ==> r == ShiftRight(x, n)
  {
    if n < 32 {
      r := ShiftRight(x, n);
    } else {
      r := *;
    }
  }

  /** x * w reduced by p * w: the low part of x, moved up. */
  lemma {:induction false} LeftArith(x: int, p: int, w: int, t: int)
    requires x >= 0 && p > 0 && w > 0 && p * w == t
    ensures (x * w) % t == (x % p) * w && x * w == (x / p) * t + (x % p) * w
    ensures 0 <= (x % p) * w < t
  {
    var q, l := x / p, x % p;
    DivLaw(x, p);
    assert (q * p + l) * w == q * (p * w) + l * w;
    Scaled(l, p, w);
    DivModUnique(x * w, t, q, l * w);
  }

  lemma {:induction false} Scaled(l: int, p: int, w: int)
    requires 0 <= l < p && w > 0
    ensures 0 <= l * w <= p * w - w
  {
    Product(l, w);
    Product(p - 1 - l, w);
    assert (p - 1 - l) * w == p * w - w - l * w;
  }

  /** The bits of x that survive a left shift by 32 - n. */
  lemma {:induction false} ShiftLeftIs(x: word, n: nat)
    requires n <= 32
    ensures ShiftLeft(x, 32 - n) == (x % Pow2(n)) * Pow2(32 - n)
    ensures x * Pow2(32 - n) == (x / Pow2(n)) * TWO_32 + (x % Pow2(n)) * Pow2(32 - n)
  {
    Pow2Of32();
    Pow2Add(n, 32 - n);
    LeftArith(x, Pow2(n), Pow2(32 - n), TWO_32);
  }

  /** (nh << (32 - n)) | (nl >> n): the low half of nh:nl shifted right by n. */
  function Funnel(nh: word, nl: word, n: nat): int
    requires n <= 32
  {
    (nh % Pow2(n)) * Pow2(32 - n) + nl / Pow2(n)
  }

  lemma {:induction false} FunnelArith(nh: int, nl: int, p: int, w: int, t: int)
    requires 0 <= nh < t && 0 <= nl < t && p > 0 && w > 0 && p * w == t
    ensures 0 <= nl / p < w && 0 <= (nh % p) * w + nl / p < t
    ensures (nh * t + nl) / p == (nh / p) * t + ((nh % p) * w + nl / p)
    ensures (nh * t + nl) % p == nl % p
  {
    LeftArith(nh, p, w, t);
    DivLaw(nl, p);
    DivLaw(nh, p);
    QuotientBelow(nl, p, w);
    Scaled(nh % p, p, w);
    FunnelQuotient(nh, nl / p, nl % p, p, w);
    DivModUnique(nh * t + nl, p, nh * w + nl / p, nl % p);
  }

  lemma {:induction false} FunnelQuotient(nh: int, x: int, y: int, p: int, w: int)
    ensures nh * (p * w) + (x * p + y) == (nh * w + x) * p + y
  {
    assert nh * (p * w) == (nh * w) * p;
    assert (nh * w + x) * p == (nh * w) * p + x * p;
  }

  lemma {:induction false} QuotientBelow(x: int, p: int, w: int)
    requires 0 <= x < p * w && p > 0 && w > 0
    ensures 0 <= x / p < w
  {
    var q := x / p;
    DivLaw(x, p);
    if q >= w {
      Product(q - w, p);
    }
  }

  lemma {:induction false} FunnelIs(nh: word, nl: word, n: nat)
    requires n <= 32
    ensures nl / Pow2(n) >= 0 && Or(ShiftLeft(nh, 32 - n), nl / Pow2(n)) == Funnel(nh, nl, n) < TWO_32
    ensures Join(nh, nl) / Pow2(n) == (nh / Pow2(n)) * TWO_32 + Funnel(nh, nl, n)
    ensures Join(nh, nl) % Pow2(n) == nl % Pow2(n)
  {
    Pow2Of32();
    Pow2Add(n, 32 - n);
    FunnelArith(nh, nl, Pow2(n), Pow2(32 - n), TWO_32);
    ShiftLeftIs(nh, n);
    OrDisjoint(nh % Pow2(n), nl / Pow2(n), 32 - n);
  }

  /** The registers hold a with sr bits to be divided, before the first digit. */
  ghost predicate Ready(a: dword, sr: nat, qh: word, ql: word, rh: word, rl: word) {
    Register(a, sr, Join(qh, ql), 0) && Join(rh, rl) == a / Pow2(sr)
  }

  lemma {:induction false} ReadyLow(nh: word, nl: word, sr: nat)
    requires 1 <= sr <= 32
    ensures nh / Pow2(sr) >= 0 && Funnel(nh, nl, sr) >= 0
    ensures Funnel(nh, nl, sr) < TWO_32 && nh / Pow2(sr) < TWO_32
    ensures Ready(Join(nh, nl), sr, ShiftLeft(nl, 32 - sr), 0, nh / Pow2(sr), Funnel(nh, nl, sr))
  {
    FunnelIs(nh, nl, sr);
    ShiftLeftIs(nl, sr);
    DivLaw(nh, Pow2(sr));
    Pow2Of32();
    Pow2Add(32 - sr, 32);
    assert 32 - sr + 32 == 64 - sr;
    Reassociate(nl % Pow2(sr), Pow2(32 - sr), TWO_32);
  }

  lemma {:induction false} Reassociate(x: int, y: int, z: int)
    ensures (x * y) * z == x * (y * z)
  {
  }

  lemma {:induction false} WideQuotient(nh: int, nl: int, p: int, t: int)
    requires 0 <= nh && 0 <= nl < t && p > 0
    ensures (nh * t + nl) / (p * t) == nh / p
    ensures (nh * t + nl) % (p * t) == (nh % p) * t + nl
  {
    var q, m := nh / p, nh % p;
    DivLaw(nh, p);
    assert nh * t == (q * p + m) * t == q * (p * t) + m * t;
    Scaled(m, p, t);
    DivModUnique(nh * t + nl, p * t, q, m * t + nl);
  }

  lemma {:induction false} ReadyHighArith(nh: int, nl: int, p: int, w: int, t: int)
    requires 0 <= nh < t && 0 <= nl < t && p > 0 && w > 0 && p * w == t
    ensures (nh * t + nl) / (p * t) == nh / p
    ensures ((nh * t + nl) % (p * t)) * w == ((nh % p) * w + nl / p) * t + (nl % p) * w
  {
    var m := nh % p;
    WideQuotient(nh, nl, p, t);
    LeftArith(nl, p, w, t);
    assert (m * t + nl) * w == (m * w) * t + nl * w;
    assert ((m * w) + nl / p) * t == (m * w) * t + (nl / p) * t;
  }

  lemma {:induction false} ReadyHigh(nh: word, nl: word, sr: nat)
    requires 33 <= sr <= 63
    ensures Funnel(nh, nl, sr - 32) >= 0 && nh / Pow2(sr - 32) >= 0
    ensures Funnel(nh, nl, sr - 32) < TWO_32 && nh / Pow2(sr - 32) < TWO_32
    ensures Ready(Join(nh, nl), sr, Funnel(nh, nl, sr - 32), ShiftLeft(nl, 64 - sr), 0, nh / Pow2(sr - 32))
  {
    var u := sr - 32;
    FunnelIs(nh, nl, u);
    ShiftLeftIs(nl, u);
    DivLaw(nh, Pow2(u));
    Pow2Of32();
    Pow2Add(u, 32 - u);
    Pow2Add(u, 32);
    assert 32 - u == 64 - sr && u + 32 == sr;
    ReadyHighArith(nh, nl, Pow2(u), Pow2(32 - u), TWO_32);
  }

  lemma {:induction false} MaskSelects(x: word, m: word)
    ensures And(x, SignMask(m)) == (if m >= TWO_31 then x else 0)
  {
    AndOnes32(x);
  }

  /** The results of the eight shifts for a one-word divisor; the ones whose count is out of range are arbitrary. */
  datatype Shifts = Shifts(lowUp64: word, lowUp32: word, highUp64: word, lowDown: word, highDown: word,
    highDown32: word,
                           highUp32: word, lowDown32: word)

  ghost predicate Shifted(nh: word, nl: word, sr: nat, x: Shifts)
    requires 2 <= sr <= 63
  {
    && (sr > 32 ==> x.lowUp64 == ShiftLeft(nl, 64 - sr) && x.highUp64 == ShiftLeft(nh, 64 - sr))
    && (sr > 32 ==> x.lowDown == ShiftRight(nl, sr - 32))
    && (sr >= 32 ==> x.highDown32 == ShiftRight(nh, sr - 32))
    && (sr <= 32 ==> x.lowUp32 == ShiftLeft(nl, 32 - sr))
    && (sr < 32 ==>
          x.highDown == ShiftRight(nh, sr) && x.highUp32 == ShiftLeft(nh, 32 - sr) && x.lowDown32 == ShiftRight(nl, sr))
  }

  function QLow(sr: nat, x: Shifts): word {
    AndBound(x.lowUp64, SignMask(U32(32 - sr)));
    And(x.lowUp64, SignMask(U32(32 - sr)))
  }

  lemma {:induction false} AndBound(a: nat, b: nat)
    ensures And(a, b) <= a
  {
    if a != 0 && b != 0 { AndBound(a / 2, b / 2); }
  }

  function QHigh(sr: nat, x: Shifts): nat {
    Or(And(x.lowUp32, SignMask(U32(sr - 33))), And(Or(x.highUp64, x.lowDown), SignMask(U32(32 - sr))))
  }

  function RHigh(sr: nat, x: Shifts): nat {
    And(x.highDown, SignMask(U32(sr - 32)))
  }

  function RLow(sr: nat, x: Shifts): nat {
    Or(And(x.highDown32, SignMask(U32(31 - sr))), And(Or(x.highUp32, x.lowDown32), SignMask(U32(sr - 32))))
  }

  lemma {:induction false} WideLow(nh: word, nl: word, sr: nat, x: Shifts)
    requires 2 <= sr < 32 && Shifted(nh, nl, sr, x)
    ensures QLow(sr, x) == 0 && QHigh(sr, x) == ShiftLeft(nl, 32 - sr)
    ensures RHigh(sr, x) == ShiftRight(nh, sr) && RLow(sr, x) == Funnel(nh, nl, sr)
  {
    WideBounds(x);
    MaskSelects(x.lowUp64, U32(32 - sr));
    MaskSelects(x.lowUp32, U32(sr - 33));
    MaskSelects(Or(x.highUp64, x.lowDown), U32(32 - sr));
    MaskSelects(x.highDown, U32(sr - 32));
    MaskSelects(x.highDown32, U32(31 - sr));
    MaskSelects(Or(x.highUp32, x.lowDown32), U32(sr - 32));
    FunnelIs(nh, nl, sr);
  }

  lemma {:induction false} WideWord(nh: word, nl: word, x: Shifts)
    requires Shifted(nh, nl, 32, x)
    ensures QLow(32, x) == 0 && QHigh(32, x) == ShiftLeft(nl, 0)
    ensures RHigh(32, x) == 0 && RLow(32, x) == ShiftRight(nh, 0)
  {
    WideBounds(x);
    MaskSelects(x.lowUp64, 0);
    MaskSelects(x.lowUp32, U32(-1));
    MaskSelects(Or(x.highUp64, x.lowDown), 0);
    MaskSelects(x.highDown, 0);
    MaskSelects(x.highDown32, U32(-1));
    MaskSelects(Or(x.highUp32, x.lowDown32), 0);
  }

  lemma {:induction false} WideHigh(nh: word, nl: word, sr: nat, x: Shifts)
    requires 32 < sr <= 63 && Shifted(nh, nl, sr, x)
    ensures QLow(sr, x) == ShiftLeft(nl, 64 - sr) && QHigh(sr, x) == Funnel(nh, nl, sr - 32)
    ensures RHigh(sr, x) == 0 && RLow(sr, x) == ShiftRight(nh, sr - 32)
  {
    WideBounds(x);
    MaskSelects(x.lowUp64, U32(32 - sr));
    MaskSelects(x.lowUp32, U32(sr - 33));
    MaskSelects(Or(x.highUp64, x.lowDown), U32(32 - sr));
    MaskSelects(x.highDown, U32(sr - 32));
    MaskSelects(x.highDown32, U32(31 - sr));
    MaskSelects(Or(x.highUp32, x.lowDown32), U32(sr - 32));
    FunnelIs(nh, nl, sr - 32);
  }

  lemma {:induction false} WideBounds(x: Shifts)
    ensures Or(x.highUp64, x.lowDown) < TWO_32 && Or(x.highUp32, x.lowDown32) < TWO_32
  {
    Pow2Of32();
    OrBound(x.highUp64, x.lowDown, 32);
    OrBound(x.highUp32, x.lowDown32, 32);
  }

  /** The masks cancel every out-of-range shift and pick the halves of the shifted dividend. */
  lemma {:induction false} WideReady(nh: word, nl: word, sr: nat, x: Shifts)
    requires 2 <= sr <= 63 && Shifted(nh, nl, sr, x)
    ensures QHigh(sr, x) < TWO_32 && RHigh(sr, x) < TWO_32 && RLow(sr, x) < TWO_32
    ensures Ready(Join(nh, nl), sr, QHigh(sr, x), QLow(sr, x), RHigh(sr, x), RLow(sr, x))
  {
    if sr < 32 {
      WideLow(nh, nl, sr, x);
      ReadyLow(nh, nl, sr);
    } else if sr == 32 {
      WideWord(nh, nl, x);
      ReadyLow(nh, nl, 32);
      WordShift(nh, nl);
    } else {
      WideHigh(nh, nl, sr, x);
      ReadyHigh(nh, nl, sr);
    }
  }

  lemma {:induction false} WordShift(nh: word, nl: word)
    ensures nh / Pow2(32) == 0 && Funnel(nh, nl, 32) == nh && ShiftRight(nh, 0) == nh
  {
    Pow2Of32();
    assert Pow2(0) == 1;
  }

  /** The registers for a one-word divisor, computed with masks and C shifts. */
  method NormaliseWide(nh: word, nl: word, sr: nat) returns (qh: word, ql: word, rh: word, rl: word)
    requires 2 <= sr <= 63
    ensures Ready(Join(nh, nl), sr, qh, ql, rh, rl)
  {
    var a := Shl(nl, U32(64 - sr));
    var b := Shl(nl, U32(32 - sr));
    var c := Shl(nh, U32(64 - sr));
    var d := Shr(nl, U32(sr - 32));
    var e := Shr(nh, sr);
    var f := Shr(nh, U32(sr - 32));
    var g := Shl(nh, U32(32 - sr));
    var h := Shr(nl, sr);
    var x := Shifts(a, b, c, d, e, f, g, h);
    WideReady(nh, nl, sr, x);
    ql := QLow(sr, x);
    qh := QHigh(sr, x);
    rh := RHigh(sr, x);
    rl := RLow(sr, x);
  }

  /** The registers for a two-word divisor with a non-zero low half. */
  method NormaliseFull(nh: word, nl: word, sr: nat) returns (qh: word, ql: word, rh: word, rl: word)
    requires 1 <= sr <= 32
    ensures Ready(Join(nh, nl), sr, qh, ql, rh, rl)
  {
    ql := 0;
    qh := Shl(nl, U32(32 - sr));
    var few := SignMask(U32(sr - 32));
    var high := Shr(nh, sr);
    var low := Shr(nl, sr);
    var up := Shl(nh, U32(32 - sr));
    MaskSelects(high, U32(sr - 32));
    MaskSelects(low, U32(sr - 32));
    ReadyLow(nh, nl, sr);
    FullWord(nh, nl, sr);
    rh := And(high, few);
    rl := Or(up, And(low, few));
  }

  lemma {:induction false} FullWord(nh: word, nl: word, sr: nat)
    requires 1 <= sr <= 32
    ensures sr < 32 ==> Or(ShiftLeft(nh, 32 - sr), ShiftRight(nl, sr)) == Funnel(nh, nl, sr)
    ensures sr == 32 ==> Or(ShiftLeft(nh, 0), 0) == Funnel(nh, nl, 32) == nh && nh / Pow2(32) == 0
  {
    FunnelIs(nh, nl, sr);
    Pow2Of32();
    assert Pow2(0) == 1;
  }

  /** The registers for a two-word divisor with a zero low half. */
  method NormaliseHigh(nh: word, nl: word, sr: nat) returns (qh: word, ql: word, rh: word, rl: word)
    requires 1 <= sr <= 31
    ensures Ready(Join(nh, nl), sr, qh, ql, rh, rl)
  {
    ReadyLow(nh, nl, sr);
    FunnelIs(nh, nl, sr);
    ql := 0;
    qh := ShiftLeft(nl, 32 - sr);
    rh := ShiftRight(nh, sr);
    rl := Or(ShiftLeft(nh, 32 - sr), ShiftRight(nl, sr));
  }

  // ---- Leading zeros decide the number of digits ----

  lemma {:induction false} WordSize(x: word)
    requires x > 0
    ensures Clz(x) < 32 && Pow2(31 - Clz(x)) <= x < Pow2(32 - Clz(x))
  {
    Pow2Of32();
    LeadingZerosBound(x, 32);
  }

  /** The size of a two-word number from the leading zeros of its high word. */
  lemma {:induction false} HighSize(hi: word, lo: word)
    requires hi > 0
    ensures Pow2(63 - Clz(hi)) <= Join(hi, lo) < Pow2(64 - Clz(hi))
  {
    var c := Clz(hi);
    WordSize(hi);
    Pow2Of32();
    Pow2Add(31 - c, 32);
    Pow2Add(32 - c, 32);
    assert 31 - c + 32 == 63 - c && 32 - c + 32 == 64 - c;
  }

  /** With the digit count clz(d) - clz(a) + 1 the loop starts with a remainder below the divisor. */
  lemma {:induction false} StartBelow(a: dword, d: dword, ca: nat, cd: nat)
    requires ca <= cd <= 63 && Pow2(63 - ca) <= a < Pow2(64 - ca) && Pow2(63 - cd) <= d
    ensures a / Pow2(cd - ca + 1) < d
  {
    var t := cd - ca + 1;
    Pow2Add(63 - cd, t);
    assert 63 - cd + t == 64 - ca;
    Commute(Pow2(63 - cd), Pow2(t));
    QuotientBelow(a, Pow2(t), Pow2(63 - cd));
  }

  lemma {:induction false} Commute(x: int, y: int)
    ensures x * y == y * x
  {
  }

  lemma {:induction false} SmallDivisor(d: dword, cd: nat)
    requires 0 < cd <= 63 && d < Pow2(64 - cd)
    ensures d < TWO_63
  {
    Pow2Of64();
    Pow2Monotone(64 - cd, 63);
  }

  /** A dividend with more leading zeros than the divisor is smaller. */
  lemma {:induction false} FewerDigits(a: dword, d: dword, ca: nat, cd: nat)
    requires cd < ca <= 63 && a < Pow2(64 - ca) && Pow2(63 - cd) <= d
    ensures a < d
  {
    Pow2Monotone(64 - ca, 63 - cd);
  }

  /** Everything the loop needs of a start with cd - ca + 1 digits. */
  lemma {:induction false} StartLoop(a: dword, d: dword, ca: nat, cd: nat, qh: word, ql: word, rh: word, rl: word)
    requires ca <= cd <= 63 && cd - ca + 1 <= 63
    requires Pow2(63 - ca) <= a < Pow2(64 - ca) && Pow2(63 - cd) <= d < Pow2(64 - cd)
    requires Ready(a, cd - ca + 1, qh, ql, rh, rl)
    ensures Underway(a, d, cd - ca + 1, cd - ca + 1, Join(qh, ql), Join(rh, rl), 0, 0)
  {
    StartBelow(a, d, ca, cd);
    if cd > 0 { SmallDivisor(d, cd); }
    Pow2Of64();
  }

  // ---- Special cases ----

  lemma {:induction false} ByWord(n: int, d: int)
    requires n >= 0 && d > 0
    ensures QuotRem(n, d, n / d, n % d) && 0 <= n / d <= n
  {
    DivLaw(n, d);
  }

  /** K 0 / K 0 */
  lemma {:induction false} BothHigh(nh: word, dh: word)
    requires dh > 0
    ensures QuotRem(Join(nh, 0), Join(dh, 0), nh / dh, Join(nh % dh, 0))
  {
    DivLaw(nh, dh);
    TimesJoin(nh / dh, dh);
  }

  lemma {:induction false} TimesJoin(q: int, d: word)
    ensures q * Join(d, 0) == (q * d) * TWO_32
  {
  }

  /** The high words divide, the low word goes to the remainder. */
  lemma {:induction false} HighQuotient(nh: word, nl: word, dh: word)
    requires dh > 0
    ensures 0 <= nh / dh < TWO_32 && 0 <= nh % dh < dh
    ensures QuotRem(Join(nh, nl), Join(dh, 0), nh / dh, Join(nh % dh, nl))
  {
    DivLaw(nh, dh);
    DivAtMost(nh, dh);
    TimesJoin(nh / dh, dh);
  }

  /** K K / K 0 for a power of two: the low words of dividend and remainder are the same. */
  lemma {:induction false} HighPower(nh: word, nl: word, dh: word)
    requires dh > 0 && And(dh, dh - 1) == 0
    ensures And(nh, dh - 1) < TWO_32 && Ctz(dh) < 32
    ensures QuotRem(Join(nh, nl), Join(dh, 0), ShiftRight(nh, Ctz(dh)), Join(And(nh, dh - 1), nl))
  {
    PowerTest(dh);
    AndLow(nh, Ctz(dh));
    CtzSmall(dh);
    HighQuotient(nh, nl, dh);
  }

  lemma {:induction false} CtzSmall(d: word)
    requires d > 0 && d == Pow2(Ctz(d))
    ensures Ctz(d) < 32
  {
    Pow2Of32();
    if Ctz(d) >= 32 { Pow2Monotone(32, Ctz(d)); }
  }

  /** K X / 0 K for a power of two. */
  lemma {:induction false} LowPower(nh: word, nl: word, dl: word)
    requires dl > 1 && And(dl, dl - 1) == 0
    ensures var sr := Ctz(dl);
            && 1 <= sr < 32 && nl % dl == And(nl, dl - 1) && Funnel(nh, nl, sr) >= 0 && Funnel(nh, nl, sr) < TWO_32
            && Or(ShiftLeft(nh, 32 - sr), ShiftRight(nl, sr)) == Funnel(nh, nl, sr)
            && QuotRem(Join(nh, nl), dl, Join(ShiftRight(nh, sr), Funnel(nh, nl, sr)), nl % dl)
  {
    PowerTest(dl);
    CtzSmall(dl);
    assert Pow2(0) == 1;
    AndLow(nl, Ctz(dl));
    FunnelIs(nh, nl, Ctz(dl));
    DivLaw(Join(nh, nl), dl);
  }

  lemma {:induction false} PowerOfTopBit(d: word)
    requires d == 1
    ensures And(d, d - 1) == 0
  {
  }

  // ---- The routine ----

  /** K K / K 0, not a power of two */
  method DivideByHigh(nh: word, nl: word, dh: word) returns (q: dword, rem: dword)
    requires nh > 0 && dh > 0 && And(dh, dh - 1) != 0
    ensures QuotRem(Join(nh, nl), Join(dh, 0), q, rem)
  {
    HighSize(nh, nl);
    HighSize(dh, 0);
    WordSize(dh);
    WordSize(nh);
    var sr: word := U32(Clz(dh) - Clz(nh));
    if sr > 30 {
      if Clz(dh) >= Clz(nh) { TopBitIsPower(dh); }
      FewerDigits(Join(nh, nl), Join(dh, 0), Clz(nh), Clz(dh));
      return 0, Join(nh, nl);
    }
    var qh, ql, rh, rl := NormaliseHigh(nh, nl, sr + 1);
    StartLoop(Join(nh, nl), Join(dh, 0), Clz(nh), Clz(dh), qh, ql, rh, rl);
    q, rem := Loop(Join(dh, 0), qh, ql, rh, rl, sr + 1, Join(nh, nl));
  }

  /** Only 1 has 31 leading zeros, and it is a power of two: the case the test leaves out does not occur. */
  lemma {:induction false} TopBitIsPower(d: word)
    requires d > 0 && And(d, d - 1) != 0
    ensures Clz(d) < 31
  {
    WordSize(d);
    assert Pow2(0) == 1 && Pow2(1) == 2;
    if d == 1 { PowerOfTopBit(d); }
  }

  /** K X / 0 K, not a power of two */
  method DivideByLow(nh: word, nl: word, dl: word) returns (q: dword, rem: dword)
    requires nh > 0 && dl > 0 && And(dl, dl - 1) != 0
    ensures QuotRem(Join(nh, nl), dl, q, rem)
  {
    HighSize(nh, nl);
    WordSize(dl);
    WordSize(nh);
    TopBitIsPower(dl);
    var sr: word := U32(1 + 32 + Clz(dl) - Clz(nh));
    var qh, ql, rh, rl := NormaliseWide(nh, nl, sr);
    StartLoop(Join(nh, nl), dl, Clz(nh), 32 + Clz(dl), qh, ql, rh, rl);
    q, rem := Loop(dl, qh, ql, rh, rl, sr, Join(nh, nl));
  }

  /** K X / K K */
  method DivideByFull(nh: word, nl: word, dh: word, dl: word) returns (q: dword, rem: dword)
    requires nh > 0 && dh > 0
    ensures QuotRem(Join(nh, nl), Join(dh, dl), q, rem)
  {
    HighSize(nh, nl);
    HighSize(dh, dl);
    WordSize(dh);
    WordSize(nh);
    var sr: word := U32(Clz(dh) - Clz(nh));
    if sr > 31 {
      FewerDigits(Join(nh, nl), Join(dh, dl), Clz(nh), Clz(dh));
      return 0, Join(nh, nl);
    }
    var qh, ql, rh, rl := NormaliseFull(nh, nl, sr + 1);
    StartLoop(Join(nh, nl), Join(dh, dl), Clz(nh), Clz(dh), qh, ql, rh, rl);
    q, rem := Loop(Join(dh, dl), qh, ql, rh, rl, sr + 1, Join(nh, nl));
  }

  /** __udivmoddi4 */
  method UDivModDI4(a: dword, b: dword) returns (q: dword, rem: dword)
    requires b != 0
    ensures a == q * b + rem && rem < b
    ensures q == a / b && rem == a % b
  {
    q, rem := DivideHalves(a / TWO_32, a % TWO_32, b / TWO_32, b % TWO_32);
    SplitWord(a);
    SplitWord(b);
    DivModUnique(a, b, q, rem);
  }

  method DivideHalves(nh: word, nl: word, dh: word, dl: word) returns (q: dword, rem: dword)
    requires Join(dh, dl) != 0
    ensures QuotRem(Join(nh, nl), Join(dh, dl), q, rem)
  {
    if nh == 0 {
      if dh == 0 {
        ByWord(nl, dl);
        return nl / dl, nl % dl;
      }
      return 0, nl;
    }
    if dl == 0 {
      // a zero divisor, which the C code would divide by here, is excluded
      if nl == 0 {
        BothHigh(nh, dh);
        ByWord(nh, dh);
        return nh / dh, Join(nh % dh, 0);
      }
      if And(dh, dh - 1) == 0 {
        HighPower(nh, nl, dh);
        return ShiftRight(nh, Ctz(dh)), Join(And(nh, dh - 1), nl);
      }
      q, rem := DivideByHigh(nh, nl, dh);
    } else if dh == 0 {
      if And(dl, dl - 1) == 0 {
        q, rem := DivideByLowPower(nh, nl, dl);
        return;
      }
      q, rem := DivideByLow(nh, nl, dl);
    } else {
      q, rem := DivideByFull(nh, nl, dh, dl);
    }
  }

  method DivideByLowPower(nh: word, nl: word, dl: word) returns (q: dword, rem: dword)
    requires dl > 0 && And(dl, dl - 1) == 0
    ensures QuotRem(Join(nh, nl), dl, q, rem)
  {
    if dl == 1 {
      assert And(nl, 0) == 0;
      return Join(nh, nl), And(nl, dl - 1);
    }
    LowPower(nh, nl, dl);
    rem := And(nl, dl - 1);
    var sr := Ctz(dl);
    q := Join(ShiftRight(nh, sr), Or(ShiftLeft(nh, 32 - sr), ShiftRight(nl, sr)));
  }
}
