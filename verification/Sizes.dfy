/** Scaled sizes: the printer ultohstr, the parser memparse, and how far one undoes the other. */
module Sizes {
  import opened Bits
  import opened DivBits
  import opened MemCpy
  import opened CStrings
  import opened StrToUl
  import opened Numerals
  import opened Printf

  const MAX64: nat := 0xFFFF_FFFF_FFFF_FFFF

  /** How often ultohstr divides by 1024, at most k times. */
  function Steps(n: nat, k: nat): (s: nat)
    ensures s <= k
  {
    if k == 0 || n == 0 || n % 1024 != 0 then 0 else 1 + Steps(n / 1024, k - 1)
  }

  function Scale(k: nat): (p: nat)
    ensures p >= 1
  {
    if k == 0 then 1 else 1024 * Scale(k - 1)
  }

  /** What is left to print, and after how many steps. */
  function Mantissa(n: nat): nat {
    Shrinks(n, Scale(Steps(n, 5)));
    n / Scale(Steps(n, 5))
  }

  lemma {:induction false} StepsExact(n: nat, k: nat)
    ensures n == (n / Scale(Steps(n, k))) * Scale(Steps(n, k))
  {
    if k > 0 && n > 0 && n % 1024 == 0 {
      StepsExact(n / 1024, k - 1);
      Nested(n, 1024, Scale(Steps(n / 1024, k - 1)));
    }
  }

  lemma {:induction false} Nested(n: nat, a: nat, b: nat)
    requires a > 0 && b > 0 && n % a == 0 && n / a == ((n / a) / b) * b
    ensures n == (n / (a * b)) * (a * b)
  {
    var q := (n / a) / b;
    assert n == (n / a) * a;
    assert (q * b) * a == q * (a * b);
    assert a * b > 0;
    DivModUnique(n, a * b, q, 0);
  }

  /** All of the first k steps are taken exactly for multiples of 1024^k. */
  lemma {:induction false} StepsReach(n: nat, k: nat, j: nat)
    requires n > 0 && j <= k
    ensures Steps(n, k) >= j <==> n % Scale(j) == 0
  {
    if j > 0 {
      MultipleOfBoth(n, 1024, Scale(j - 1));
      if n % 1024 == 0 {
        StepsReach(n / 1024, k - 1, j - 1);
      }
    } else {
      assert n % 1 == 0;
    }
  }

  lemma {:induction false} MultipleOfBoth(n: nat, a: nat, b: nat)
    requires a > 0 && b > 0
    ensures a * b > 0
    ensures n % (a * b) == 0 <==> n % a == 0 && (n / a) % b == 0
  {
    assert a * b > 0;
    if n % (a * b) == 0 {
      var q := n / (a * b);
      assert n == q * (a * b) == (q * b) * a;
      DivModUnique(n, a, q * b, 0);
      DivModUnique(n / a, b, q, 0);
    }
    if n % a == 0 && (n / a) % b == 0 {
      var q := (n / a) / b;
      assert n == (n / a) * a && n / a == q * b;
      assert (q * b) * a == q * (a * b);
      DivModUnique(n, a * b, q, 0);
    }
  }

  /** K, M, G, T and once more T */
  function Suffix(ix: nat): (t: seq<byte>)
    requires ix <= 5
  {
    if ix == 0 then [] else if ix == 1 then [75] else if ix == 2 then [77] else if ix == 3 then [71] else [84]
  }

  /** The text ultohstr makes. */
  function HumanText(n: nat): seq<byte> {
    Numeral(Mantissa(n), 10) + Suffix(Steps(n, 5))
  }

  /** How many factors of 1024 a suffix character stands for. */
  function SuffixSteps(c: byte): nat {
    if c == 71 || c == 103 then 3 else if c == 77 || c == 109 then 2 else if c == 75 || c == 107 then 1 else 0
  }

  /** ret <<= 10, k times */
  function ShiftedUp(x: nat, k: nat): nat
    decreases k
  {
    if k == 0 then x else ShiftedUp((x * 1024) % TWO_64, k - 1)
  }

  /** What memparse makes of a text: the value scaled by its suffix, modulo 2^64, and where it ends. */
  function SizeRead(s: seq<byte>, p: nat): (r: Parsed)
    requires p <= |s|
    ensures p <= r.end <= |s|
  {
    var r := Reading(s, p, 0, MAX64);
    var k := SuffixSteps(CharAt(s, r.end));
    if k == 0 then r else Parsed(ShiftedUp(r.value, k), r.end + 1)
  }

  /** The shifts multiply by 1024 each, modulo 2^64. */
  lemma {:induction false} ShiftedIs(x: nat, k: nat)
    requires x < TWO_64
    ensures ShiftedUp(x, k) == (x * Scale(k)) % TWO_64
    decreases k
  {
    if k > 0 {
      ShiftedIs((x * 1024) % TWO_64, k - 1);
      ModTimes(x * 1024, Scale(k - 1));
      assert (x * 1024) * Scale(k - 1) == x * Scale(k);
    }
  }

  lemma {:induction false} ModTimes(x: nat, p: nat)
    ensures ((x % TWO_64) * p) % TWO_64 == (x * p) % TWO_64
  {
    var q := x / TWO_64;
    assert x == q * TWO_64 + x % TWO_64;
    assert x * p == (x % TWO_64) * p + (q * p) * TWO_64;
    ModShift((x % TWO_64) * p, q * p);
  }

  lemma {:induction false} ModShift(y: int, q: int)
    ensures (y + q * TWO_64) % TWO_64 == y % TWO_64
  {
    DivModUnique(y + q * TWO_64, TWO_64, y / TWO_64 + q, y % TWO_64);
  }

  /** ret <<= 10 */
  function Shl10(x: dword): dword {
    (x * 1024) % TWO_64
  }

  lemma {:induction false} ShiftCounts(x: dword)
    ensures Shl10(x) == ShiftedUp(x, 1)
    ensures Shl10(Shl10(x)) == ShiftedUp(x, 2)
    ensures Shl10(Shl10(Shl10(x))) == ShiftedUp(x, 3)
  {
    var y := Shl10(x);
    var z := Shl10(y);
    assert ShiftedUp(y, 1) == Shl10(y) && ShiftedUp(z, 1) == Shl10(z);
    assert ShiftedUp(y, 2) == ShiftedUp(z, 1);
  }

  /** memparse, with its fall-through cases. */
  method MemParse(s: seq<byte>, p: nat) returns (ret: dword, end: nat)
    requires p <= |s|
    ensures Parsed(ret, end) == SizeRead(s, p)
  {
    ret, end := StrToULL(s, p, 0);
    ShiftCounts(ret);
    var c := CharAt(s, end);
    if c == 71 || c == 103 {
      ret := Shl10(ret);
      ret := Shl10(ret);
      ret := Shl10(ret);
      end := end + 1;
    } else if c == 77 || c == 109 {
      ret := Shl10(ret);
      ret := Shl10(ret);
      end := end + 1;
    } else if c == 75 || c == 107 {
      ret := Shl10(ret);
      end := end + 1;
    }
  }

  // ---------------------------------------------------------------- ultohstr

  /** A plain "%llu" is the bare numeral. */
  lemma {:induction false} PlainField(num: nat)
    ensures NumberField(Flags(false, false, false, 0, 0), num, 10, false) == Numeral(num, 10)
  {
    var f := Flags(false, false, false, 0, 0);
    assert BlankCount(f, num, 10, false) <= 0 && Blanks(BlankCount(f, num, 10, false)) == [];
    assert Zeroes(ZeroCount(f, num, 10, false)) == [];
  }

  /** Nineteen digits are enough, with a suffix or without. */
  lemma {:induction false} TextLength(n: nat)
    requires n < TWO_64 && (n < 10_000_000_000_000_000_000 || n % 1024 == 0)
    ensures |Numeral(Mantissa(n), 10)| + |Suffix(Steps(n, 5))| <= 19
  {
    Powers10();
    StepsExact(n, 5);
    if n > 0 && n % 1024 == 0 {
      StepsReach(n, 5, 1);
      ScaledDown(n, Mantissa(n), Scale(Steps(n, 5)), Scale(Steps(n, 5) - 1));
      NumeralLength(Mantissa(n), 10, 18);
    } else {
      NumeralLength(Mantissa(n), 10, 19);
    }
  }

  /** The digits fit kvprintf's buffer of 20 exactly up to 10^19, and for every multiple of 1024. */
  lemma {:induction false} DigitsFitExactly(n: dword)
    ensures |Numeral(Mantissa(n), 10)| < 20 <==> n < 10_000_000_000_000_000_000 || n % 1024 == 0
  {
    if n < 10_000_000_000_000_000_000 || n % 1024 == 0 {
      TextLength(n);
    } else {
      Powers10();
      assert Steps(n, 5) == 0 && Mantissa(n) == n / 1;
      NumeralReaches(n, 10, 19);
    }
  }

  lemma {:induction false} ScaledDown(n: int, m: int, p: int, h: int)
    requires n == m * p && p == 1024 * h && h >= 1 && m >= 0 && n < TWO_64
    ensures m < 1_000_000_000_000_000_000
  {
    assert m * (1024 * h) >= m * 1024;
  }

  lemma {:induction false} Powers10()
    ensures Pow(10, 18) == 1_000_000_000_000_000_000 && Pow(10, 19) == 10_000_000_000_000_000_000
  {
    assert Pow(10, 4) == 10_000;
    assert Pow(10, 8) == 100_000_000;
    assert Pow(10, 12) == 1_000_000_000_000;
    assert Pow(10, 16) == 10_000_000_000_000_000;
  }

  lemma {:induction false} OneStep(n: nat, k: nat)
    requires k > 0 && n > 0 && n % 1024 == 0
    ensures Steps(n, k) == 1 + Steps(n / 1024, k - 1)
    ensures n / Scale(Steps(n, k)) == (n / 1024) / Scale(Steps(n / 1024, k - 1))
  {
    var s := Steps(n / 1024, k - 1);
    StepsExact(n / 1024, k - 1);
    var q := (n / 1024) / Scale(s);
    assert n == (n / 1024) * 1024;
    assert (q * Scale(s)) * 1024 == q * (1024 * Scale(s));
    DivModUnique(n, Scale(s + 1), q, 0);
  }

  lemma {:induction false} LowTen(n: dword)
    ensures And(n, 0x3FF) == n % 1024
  {
    assert Pow2(4) == 16;
    assert Pow2(8) == 256;
    assert Pow2(10) == 1024;
    AndLow(n, 10);
  }

  /** The loop of ultohstr: the shifted size and the index of the format. */
  method ScaleLoop(n: dword) returns (size: dword, ix: nat)
    ensures ix == Steps(n, 5) && size == Mantissa(n)
  {
    size, ix := n, 0;
    LowTen(size);
    while ix < 5 && And(size, 0x3FF) == 0 && size != 0
      invariant ix <= 5 && Steps(n, 5) == ix + Steps(size, 5 - ix)
      invariant Mantissa(n) == size / Scale(Steps(size, 5 - ix))
      decreases 5 - ix
    {
      LowTen(size);
      OneStep(size, 5 - ix);
      size := size / 1024;
      ix := ix + 1;
    }
    LowTen(size);
    assert Steps(size, 5 - ix) == 0 && size / 1 == size;
  }

  /** ultohstr; the two buffers are the static one of the caller's text and the one kvprintf keeps on its stack. inside
      says that no digit went past the latter. */
  method UlToHStr(n: dword, buffer: array<byte>, nbuf: array<byte>) returns (inside: bool)
    requires buffer != nbuf && buffer.Length == 20 && nbuf.Length == 20
    modifies buffer, nbuf
    ensures inside <==> n < 10_000_000_000_000_000_000 || n % 1024 == 0
    ensures inside ==> Holds(buffer[..], HumanText(n))
  {
    var size, ix := ScaleLoop(n);
    DigitsFitExactly(n);
    PlainField(size);
    var sink := new Sink(buffer);
    inside := sink.PutNumber(Flags(false, false, false, 0, 0), size, 10, false, nbuf);
    if !inside { return; }
    TextLength(n);
    sink.PutText(Suffix(ix));
    ghost var t := HumanText(n);
    assert sink.sent == [] + Numeral(size, 10) + Suffix(ix) == t;
    var length := sink.Close();
  }

  // ---------------------------------------------------------------- round trip

  lemma {:induction false} SuffixStops(ix: nat, base: nat)
    requires ix <= 5 && 2 <= base <= 10
    ensures Stops(Suffix(ix), base)
  {
  }

  lemma {:induction false} ZeroReads()
    ensures Reading(Numeral(0, 10), 0, 0, MAX64) == Parsed(0, 1)
  {
    var s := Numeral(0, 10);
    assert s == [ZERO] && Numeral(0, 8) == [ZERO];
    NumeralReads([], 0, 0, [], 8);
    assert [] + (Zeroes(0) + Numeral(0, 8)) + [] == s;
  }

  lemma {:induction false} PlainStart(m: nat, t: seq<byte>)
    requires m > 0
    ensures HeadOf(Numeral(m, 10) + t, 0, 0) == Head(false, 10, 0)
  {
    var d := Numeral(m, 10);
    NumeralDigits(m, 10);
    assert (d + t)[0] == d[0] && Digit(d[0]) < 10;
  }

  /** The number in front of the suffix is read exactly. */
  lemma {:induction false} MantissaReads(m: nat, ix: nat)
    requires ix <= 5 && 0 < m <= MAX64
    ensures Reading(Numeral(m, 10) + Suffix(ix), 0, 0, MAX64) == Parsed(m, |Numeral(m, 10)|)
  {
    var d := Numeral(m, 10);
    PlainStart(m, Suffix(ix));
    SuffixStops(ix, 10);
    NumeralReads([], 0, m, Suffix(ix), 10);
    assert [] + (Zeroes(0) + d) + Suffix(ix) == d + Suffix(ix);
  }

  /** What each suffix does: K or k scales by 2^10, M or m by 2^20, G or g by 2^30, modulo 2^64, and is consumed; any
      other
      character is left alone. */
  lemma {:induction false} SuffixScales(s: seq<byte>, p: nat)
    requires p <= |s|
    ensures var r := Reading(s, p, 0, 0xFFFF_FFFF_FFFF_FFFF); var c := CharAt(s, r.end);
            SizeRead(s, p) ==
            if c == 'K' as int || c == 'k' as int then Parsed((r.value * 0x400) % TWO_64, r.end + 1)
            else if c == 'M' as int || c == 'm' as int then Parsed((r.value * 0x10_0000) % TWO_64, r.end + 1)
            else if c == 'G' as int || c == 'g' as int then Parsed((r.value * 0x4000_0000) % TWO_64, r.end + 1)
            else r
  {
    var r := Reading(s, p, 0, MAX64);
    ShiftedIs(r.value, SuffixSteps(CharAt(s, r.end)));
    Scales();
  }

  lemma {:induction false} Scales()
    ensures Scale(1) == 0x400 && Scale(2) == 0x10_0000 && Scale(3) == 0x4000_0000
  {
  }

  lemma {:induction false} SuffixChar(d: seq<byte>, ix: nat)
    requires ix <= 5
    ensures SuffixSteps(CharAt(d + Suffix(ix), |d|)) == if ix <= 3 then ix else 0
    ensures |Suffix(ix)| == if ix == 0 then 0 else 1
  {
    if ix > 0 { assert (d + Suffix(ix))[|d|] == Suffix(ix)[0]; }
  }

  lemma {:induction false} Factor(m: nat, p: nat)
    requires p >= 1
    ensures 0 <= m <= m * p
  {
  }

  /** m times 1024^k */
  function ScaledUp(m: nat, k: nat): nat {
    Factor(m, Scale(k));
    m * Scale(k)
  }

  lemma {:induction false} ScaledValue(s: seq<byte>, p: nat, m: nat, e: nat, k: nat)
    requires p <= |s| && Reading(s, p, 0, MAX64) == Parsed(m, e) && e <= |s| && SuffixSteps(CharAt(s, e)) == k
    requires ScaledUp(m, k) < TWO_64
    ensures SizeRead(s, p) == Parsed(ScaledUp(m, k), if k == 0 then e else e + 1)
  {
    assert m * Scale(0) == m;
    Factor(m, Scale(k));
    ShiftedIs(m, k);
  }

  /** What memparse makes of a number and each of the suffixes ultohstr prints. */
  lemma {:induction false} SuffixReads(m: nat, ix: nat)
    requires ix <= 5 && 0 < m <= MAX64 && (ix <= 3 ==> ScaledUp(m, ix) < TWO_64)
    ensures var d := Numeral(m, 10);
            SizeRead(d + Suffix(ix), 0) == if ix <= 3 then Parsed(ScaledUp(m, ix), |d + Suffix(ix)|) else Parsed(m, |d|)
  {
    var d := Numeral(m, 10);
    MantissaReads(m, ix);
    SuffixChar(d, ix);
    if ix > 3 { assert m * Scale(0) == m; }
    ScaledValue(d + Suffix(ix), 0, m, |d|, if ix <= 3 then ix else 0);
  }

  lemma {:induction false} MantissaAtMost(n: int, m: int, p: int)
    requires n == m * p && p >= 1 && n > 0
    ensures 0 < m <= n
  {
  }

  /**
   * memparse undoes ultohstr, consuming the whole text, exactly for zero and for numbers that are not multiples
   * of 2^40: the suffix T, printed from there on, is not one memparse knows.
   */
  lemma {:induction false} RoundTrip(n: dword)
    ensures SizeRead(HumanText(n), 0) == Parsed(n, |HumanText(n)|) <==> n == 0 || n % 0x100_0000_0000 != 0
  {
    if n == 0 {
      ZeroReads();
      assert HumanText(0) == Numeral(0, 10);
    } else {
      var ix, m := Steps(n, 5), Mantissa(n);
      StepsExact(n, 5);
      MantissaAtMost(n, m, Scale(ix));
      FortyBits();
      StepsReach(n, 5, 4);
      SuffixReads(m, ix);
    }
  }

  lemma {:induction false} Powers1024(m: nat, k: nat)
    requires k > 0
    ensures m * Pow(1024, k) == (m * Pow(1024, k - 1)) * 1024
    ensures (m * Pow(1024, k)) % 1024 == 0 && (m * Pow(1024, k)) / 1024 == m * Pow(1024, k - 1)
  {
    Thousands(m, Pow(1024, k - 1));
    WholeParts(m * Pow(1024, k - 1));
  }

  lemma {:induction false} Thousands(m: nat, p: nat)
    ensures m * (1024 * p) == (m * p) * 1024
  {
  }

  lemma {:induction false} WholeParts(q: int)
    ensures (q * 1024) % 1024 == 0 && (q * 1024) / 1024 == q
  {
  }

  lemma {:induction false} StepsOf(n: nat, m: nat, k: nat, limit: nat)
    requires n == m * Pow(1024, k) && m > 0 && k <= limit && (k < limit ==> m % 1024 != 0)
    ensures Steps(n, limit) == k && n / Scale(k) == m && n > 0
    decreases k
  {
    if k > 0 {
      Powers1024(m, k);
      StepsOf(n / 1024, m, k - 1, limit - 1);
      OneStep(n, limit);
    }
  }

  /** What ultohstr prints: a number without its factors of 1024, up to five of them, and their letter. */
  lemma {:induction false} HumanForm(n: nat, m: nat, k: nat)
    requires n == m * Pow(1024, k) && m > 0 && k <= 5 && (k < 5 ==> m % 1024 != 0)
    ensures HumanText(n) == Numeral(m, 10) +
            if k == 0 then [] else if k == 1 then ['K' as int] else if k == 2 then ['M' as int]
            else if k == 3 then ['G' as int] else ['T' as int]
  {
    StepsOf(n, m, k, 5);
  }

  lemma {:induction false} FortyBits()
    ensures Scale(4) == 0x100_0000_0000
  {
  }

  // ---------------------------------------------------------------- a size inside a longer text

  lemma {:induction false} StartInside(pre: seq<byte>, m: nat, t: seq<byte>)
    requires m > 0
    ensures HeadOf(pre + (Numeral(m, 10) + t), |pre|, 0) == Head(false, 10, |pre|)
  {
    var d := Numeral(m, 10);
    NumeralDigits(m, 10);
    var s := pre + (d + t);
    assert s[|pre|] == d[0] && Digit(d[0]) < 10;
  }

  lemma {:induction false} ReadInside(pre: seq<byte>, m: nat, u: seq<byte>)
    requires 0 < m <= MAX64 && Stops(u, 10)
    ensures Reading(pre + (Numeral(m, 10) + u), |pre|, 0, MAX64) == Parsed(m, |pre| + |Numeral(m, 10)|)
  {
    StartInside(pre, m, u);
    NumeralReads(pre, 0, m, u, 10);
    assert pre + (Zeroes(0) + Numeral(m, 10)) + u == pre + (Numeral(m, 10) + u);
  }

  lemma {:induction false} Behind(pre: seq<byte>, d: seq<byte>, u: seq<byte>)
    ensures CharAt(pre + (d + u), |pre| + |d|) == CharAt(u, 0)
  {
  }

  lemma {:induction false} SuffixJoins(ix: nat, post: seq<byte>)
    requires ix <= 3 && Stops(post, 10) && (ix == 0 ==> post == [] || SuffixSteps(post[0]) == 0)
    ensures Stops(Suffix(ix) + post, 10) && SuffixSteps(CharAt(Suffix(ix) + post, 0)) == ix
  {
  }

  /** A printed size is read anywhere in a text, before anything that cannot prolong it. */
  lemma {:induction false} SizeInside(pre: seq<byte>, m: nat, ix: nat, post: seq<byte>)
    requires ix <= 3 && 0 < m && ScaledUp(m, ix) < TWO_64
    requires Stops(post, 10) && (ix == 0 ==> post == [] || SuffixSteps(post[0]) == 0)
    ensures var t := Numeral(m, 10) + Suffix(ix);
            SizeRead(pre + (t + post), |pre|) == Parsed(ScaledUp(m, ix), |pre| + |t|)
  {
    var d, u := Numeral(m, 10), Suffix(ix) + post;
    Factor(m, Scale(ix));
    SuffixJoins(ix, post);
    ReadInside(pre, m, u);
    Behind(pre, d, u);
    ScaledValue(pre + (d + u), |pre|, m, |pre| + |d|, ix);
    assert (d + Suffix(ix)) + post == d + u;
  }
}
