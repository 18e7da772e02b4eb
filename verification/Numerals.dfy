/** Numerals: the digits of a number in a base, and reading them back. */
module Numerals {
  import opened MemCpy
  import opened StrToUl

  /** The character of a digit. */
  function Hex2Ascii(d: nat): (c: byte)
    requires d < 36
    ensures Digit(c) == d && c != 0 && !IsSpace(c) && c != MINUS && c != PLUS
    ensures c == ZERO <==> d == 0
  {
    if d < 10 then 48 + d else 87 + d
  }

  /** The digits of n, most significant first. */
  function Numeral(n: nat, base: nat): (t: seq<byte>)
    requires 2 <= base <= 36
    ensures |t| > 0
    decreases n
  {
    if n < base then [Hex2Ascii(n)] else Quotient(n, base); Numeral(n / base, base) + [Hex2Ascii(n % base)]
  }

  lemma {:induction false} Quotient(n: nat, base: nat)
    requires base >= 2 && n > 0
    ensures 0 <= n / base < n && n == (n / base) * base + n % base
  {
  }

  /** Every character of a numeral is a digit of the base, and the first is zero for zero only. */
  lemma {:induction false} NumeralDigits(n: nat, base: nat)
    requires 2 <= base <= 36
    ensures forall i :: 0 <= i < |Numeral(n, base)| ==> Digit(Numeral(n, base)[i]) < base
    ensures Numeral(n, base)[0] == ZERO <==> n == 0
    decreases n
  {
    if n >= base {
      Quotient(n, base);
      NumeralDigits(n / base, base);
    }
  }

  /** The digits past 9 are small letters. */
  lemma {:induction false} NumeralLower(n: nat, base: nat)
    requires 2 <= base <= 36
    ensures forall c :: c in Numeral(n, base) ==> 48 <= c <= 57 || 97 <= c <= 122
    decreases n
  {
    if n >= base {
      Quotient(n, base);
      NumeralLower(n / base, base);
    }
  }

  /** A numeral of more than one digit: the numeral of the quotient, then a digit. */
  lemma {:induction false} NumeralParts(n: nat, base: nat, q: nat, d: nat, t: seq<byte>)
    requires 2 <= base <= 36 && n >= base && q == n / base && d == n % base
    ensures d < 36 && Numeral(n, base) == Numeral(q, base) + [Hex2Ascii(d)]
    ensures Numeral(n, base) + t == Numeral(q, base) + ([Hex2Ascii(d)] + t)
  {
  }

  /** A numeral followed by anything reads back as its number. */
  lemma {:induction false} NumeralValue(n: nat, base: nat, t: seq<byte>)
    requires 2 <= base <= 36
    ensures ValueOf(Numeral(n, base) + t, 0, |Numeral(n, base)|, base) == n
    decreases n
  {
    if n >= base {
      Quotient(n, base);
      var q, d := n / base, n % base;
      NumeralParts(n, base, q, d, t);
      NumeralValue(q, base, [Hex2Ascii(d)] + t);
      LastDigit(Numeral(n, base) + t, |Numeral(q, base)|, base, q, d, n);
    } else {
      OneDigit(n, base, t);
    }
  }

  lemma {:induction false} OneDigit(n: nat, base: nat, t: seq<byte>)
    requires 2 <= base <= 36 && n < base
    ensures |Numeral(n, base)| == 1 && ValueOf(Numeral(n, base) + t, 0, 1, base) == n
  {
    assert (Numeral(n, base) + t)[0] == Hex2Ascii(n);
  }

  lemma {:induction false} LastDigit(s: seq<byte>, k: nat, base: nat, q: nat, d: nat, n: nat)
    requires k < |s| && base > 0 && ValueOf(s, 0, k, base) == q && Digit(s[k]) == d
    requires n == q * base + d
    ensures ValueOf(s, 0, k + 1, base) == n
  {
  }

  /** The length of a numeral, against the powers of the base. */
  function Pow(base: nat, k: nat): nat {
    if k == 0 then 1 else base * Pow(base, k - 1)
  }

  lemma {:induction false} NumeralLength(n: nat, base: nat, k: nat)
    requires 2 <= base <= 36 && k > 0 && n < Pow(base, k)
    ensures |Numeral(n, base)| <= k
    decreases k
  {
    if n >= base {
      Quotient(n, base);
      Smaller(n, base, Pow(base, k - 1));
      NumeralLength(n / base, base, k - 1);
    }
  }

  lemma {:induction false} NumeralReaches(n: nat, base: nat, k: nat)
    requires 2 <= base <= 36 && n >= Pow(base, k)
    ensures |Numeral(n, base)| > k
    decreases k
  {
    if k > 0 {
      PowAtLeast(base, k - 1);
      Quotient(n, base);
      NotSmaller(n, base, Pow(base, k - 1));
      NumeralReaches(n / base, base, k - 1);
    }
  }

  /** A number has at most k digits exactly if it is below the k-th power of the base. */
  lemma {:induction false} NumeralLengthExact(n: nat, base: nat, k: nat)
    requires 2 <= base <= 36 && k > 0
    ensures |Numeral(n, base)| <= k <==> n < Pow(base, k)
  {
    if n < Pow(base, k) { NumeralLength(n, base, k); } else { NumeralReaches(n, base, k); }
  }

  lemma {:induction false} PowAtLeast(base: nat, k: nat)
    requires base >= 2
    ensures Pow(base, k) >= 1 && base * Pow(base, k) >= base
  {
    if k > 0 { PowAtLeast(base, k - 1); }
    Bigger(Pow(base, k), 1, base);
  }

  lemma {:induction false} NotSmaller(n: nat, b: nat, p: nat)
    requires b > 0 && n >= b * p && p >= 1
    ensures n / b >= p && n >= b
  {
    assert n == (n / b) * b + n % b;
    if n / b < p { Bigger(p, n / b + 1, b); }
    Bigger(p, 1, b);
  }

  lemma {:induction false} Smaller(n: nat, b: nat, p: nat)
    requires b > 0 && n < b * p
    ensures n / b < p
  {
    assert n == (n / b) * b + n % b;
    if n / b >= p { Bigger(n / b, p, b); }
  }

  /** What comes before the digits does not change their value. */
  lemma {:induction false} ValueShift(pre: seq<byte>, t: seq<byte>, k: nat, base: nat)
    requires k <= |t|
    ensures ValueOf(pre + t, |pre|, |pre| + k, base) == ValueOf(t, 0, k, base)
    decreases k
  {
    if k > 0 {
      ValueShift(pre, t, k - 1, base);
      assert (pre + t)[|pre| + k - 1] == t[k - 1];
    }
  }

  /** All characters are digits of the base. */
  predicate Written(b: seq<byte>, base: nat) {
    forall i :: 0 <= i < |b| ==> Digit(b[i]) < base
  }

  /** Nothing that starts here would lengthen a run of digits. */
  predicate Stops(t: seq<byte>, base: nat) {
    t == [] || Digit(t[0]) >= base
  }

  lemma {:induction false} Middle(pre: seq<byte>, b: seq<byte>, post: seq<byte>)
    ensures var s := pre + b + post;
            && (forall i :: |pre| <= i < |pre| + |b| ==> s[i] == b[i - |pre|])
            && (post != [] ==> s[|pre| + |b|] == post[0])
  {
  }

  lemma {:induction false} RunStops(s: seq<byte>, q: nat, base: nat)
    requires q <= |s| && base <= 36 && (q < |s| ==> Digit(s[q]) >= base)
    ensures DigitRun(s, q, base) == q
  {
  }

  /** A run of digits ends where its characters end. */
  lemma {:induction false} RunIs(pre: seq<byte>, b: seq<byte>, post: seq<byte>, base: nat)
    requires 2 <= base <= 36 && Written(b, base) && Stops(post, base)
    ensures DigitRun(pre + b + post, |pre|, base) == |pre| + |b|
  {
    var s := pre + b + post;
    Middle(pre, b, post);
    RunStops(s, |pre| + |b|, base);
    RunExtends(s, |pre|, |pre| + |b|, base);
  }

  function Zeroes(k: nat): (z: seq<byte>)
    ensures |z| == k && forall i :: 0 <= i < k ==> z[i] == ZERO
  {
    seq(k, i => ZERO)
  }

  lemma {:induction false} ZeroesValue(k: nat, t: seq<byte>, base: nat)
    ensures ValueOf(Zeroes(k) + t, 0, k, base) == 0
    decreases k
  {
    if k > 0 {
      assert Zeroes(k) + t == Zeroes(k - 1) + ([ZERO] + t);
      ZeroesValue(k - 1, [ZERO] + t, base);
    }
  }

  /** Leading zeros add nothing. */
  lemma {:induction false} LeadingZeroes(k: nat, t: seq<byte>, m: nat, base: nat)
    requires m <= |t|
    ensures ValueOf(Zeroes(k) + t, 0, k + m, base) == ValueOf(t, 0, m, base)
    decreases m
  {
    if m == 0 {
      ZeroesValue(k, t, base);
    } else {
      LeadingZeroes(k, t, m - 1, base);
      assert (Zeroes(k) + t)[k + m - 1] == t[m - 1];
    }
  }

  lemma {:induction false} ZeroesWritten(k: nat, n: nat, base: nat)
    requires 2 <= base <= 36
    ensures Written(Zeroes(k) + Numeral(n, base), base)
  {
    NumeralDigits(n, base);
  }

  lemma {:induction false} PaddedValue(pre: seq<byte>, k: nat, n: nat, post: seq<byte>, base: nat)
    requires 2 <= base <= 36
    ensures ValueOf(pre + (Zeroes(k) + (Numeral(n, base) + post)), |pre|, |pre| + (k + |Numeral(n, base)|), base) == n
  {
    var d := Numeral(n, base);
    NumeralValue(n, base, post);
    LeadingZeroes(k, d + post, |d|, base);
    ValueShift(pre, Zeroes(k) + (d + post), k + |d|, base);
  }

  lemma {:induction false} Regroup(pre: seq<byte>, z: seq<byte>, d: seq<byte>, post: seq<byte>)
    ensures pre + (z + d) + post == pre + (z + (d + post))
  {
  }

  /** A numeral behind any prefix and zeros, before anything that stops the run: where it ends, and its value. */
  lemma {:induction false} NumeralReads(pre: seq<byte>, k: nat, n: nat, post: seq<byte>, base: nat)
    requires 2 <= base <= 36 && Stops(post, base)
    ensures var b := Zeroes(k) + Numeral(n, base); var s := pre + b + post;
            && DigitRun(s, |pre|, base) == |pre| + |b|
            && ValueOf(s, |pre|, |pre| + |b|, base) == n
  {
    ZeroesWritten(k, n, base);
    RunIs(pre, Zeroes(k) + Numeral(n, base), post, base);
    PaddedValue(pre, k, n, post, base);
    Regroup(pre, Zeroes(k), Numeral(n, base), post);
  }
}
