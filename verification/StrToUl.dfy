/** strtoul and strtoull: exact or saturating conversion of the longest run of digits. */
module StrToUl {
  import opened Words
  import opened DivBits
  import opened MemCpy
  import opened CStrings

  const SPACE: byte := 32
  const MINUS: byte := 45
  const PLUS: byte := 43
  const ZERO: byte := 48

  predicate IsSpace(c: byte) {
    c == SPACE || 9 <= c <= 13
  }

  predicate IsX(c: byte) {
    c == 120 || c == 88
  }

  /** What a digit or letter counts for; anything else counts 36, which no base admits. */
  function Digit(c: byte): (d: nat)
    ensures d <= 36
  {
    if 48 <= c <= 57 then c - 48 else if 65 <= c <= 90 then c - 55 else if 97 <= c <= 122 then c - 87 else 36
  }

  /** Where the leading white space ends. */
  function SkipSpaces(s: seq<byte>, p: nat): (q: nat)
    requires p <= |s|
    ensures p <= q <= |s| && !IsSpace(CharAt(s, q))
    decreases |s| - p
  {
    if IsSpace(CharAt(s, p)) then SkipSpaces(s, p + 1) else p
  }

  lemma {:induction false} SpacesFrom(s: seq<byte>, p: nat, k: nat)
    requires p <= k < |s| && !IsSpace(s[k]) && forall i :: p <= i < k ==> IsSpace(s[i])
    ensures SkipSpaces(s, p) == k
    decreases k - p
  {
    if p < k { SpacesFrom(s, p + 1, k); }
  }

  /** What comes before the digits: a sign, and the base with where the digits start. */
  datatype Head = Head(neg: bool, base: nat, first: nat)

  function SignEnd(s: seq<byte>, p: nat): (q: nat)
    requires p <= |s|
    ensures p <= q <= |s|
  {
    var q := SkipSpaces(s, p);
    if CharAt(s, q) == MINUS || CharAt(s, q) == PLUS then q + 1 else q
  }

  function HeadOf(s: seq<byte>, p: nat, base: nat): (h: Head)
    requires p <= |s| && (base == 0 || 2 <= base <= 36)
    ensures 2 <= h.base <= 36 && p <= h.first <= |s|
  {
    var neg := CharAt(s, SkipSpaces(s, p)) == MINUS;
    var q := SignEnd(s, p);
    if (base == 0 || base == 16) && CharAt(s, q) == ZERO && IsX(CharAt(s, q + 1)) then Head(neg, 16, q + 2)
    else if base != 0 then Head(neg, base, q)
    else Head(neg, if CharAt(s, q) == ZERO then 8 else 10, q)
  }

  /** Where the longest run of digits of the base ends. */
  function DigitRun(s: seq<byte>, p: nat, base: nat): (q: nat)
    requires p <= |s| && base <= 36
    ensures p <= q <= |s| && (q < |s| ==> Digit(s[q]) >= base)
    decreases |s| - p
  {
    if Digit(CharAt(s, p)) < base then DigitRun(s, p + 1, base) else p
  }

  /** The number written by the digits from p up to q. */
  function ValueOf(s: seq<byte>, p: nat, q: nat, base: nat): nat
    requires p <= q <= |s|
    decreases q
  {
    if p == q then 0 else ValueOf(s, p, q - 1, base) * base + Digit(s[q - 1])
  }

  datatype Parsed = Parsed(value: nat, end: nat)

  /**
   * What the conversion stands for, with max the largest value of the result type: the exact value, or its
   * negative modulo max + 1, or max when it does not fit; with no digits, zero and nothing consumed.
   */
  function Reading(s: seq<byte>, p: nat, base: nat, max: nat): (r: Parsed)
    requires p <= |s| && (base == 0 || 2 <= base <= 36)
    ensures r.value <= max && p <= r.end <= |s|
  {
    var h := HeadOf(s, p, base);
    var e := DigitRun(s, h.first, h.base);
    if e == h.first then Parsed(0, p) else
      var v := ValueOf(s, h.first, e, h.base);
      Parsed(if v > max then max else if h.neg && v > 0 then max + 1 - v else v, e)
  }

  /** All of the run are digits of the base. */
  lemma {:induction false} RunDigits(s: seq<byte>, p: nat, base: nat)
    requires p <= |s| && base <= 36
    ensures forall i :: p <= i < DigitRun(s, p, base) ==> Digit(s[i]) < base
    decreases |s| - p
  {
    if p < |s| && Digit(s[p]) < base { RunDigits(s, p + 1, base); }
  }

  lemma {:induction false} RunExtends(s: seq<byte>, p: nat, q: nat, base: nat)
    requires p <= q <= |s| && base <= 36 && forall i :: p <= i < q ==> Digit(s[i]) < base
    ensures DigitRun(s, p, base) == DigitRun(s, q, base)
    decreases q - p
  {
    if p < q { RunExtends(s, p + 1, q, base); }
  }

  /** The cutoff test says exactly whether another digit would pass max. */
  lemma {:induction false} CutoffExact(acc: nat, c: nat, base: nat, max: nat)
    requires base > 0 && c < base
    ensures acc > max / base || (acc == max / base && c > max % base) <==> acc * base + c > max
  {
    var q, r := max / base, max % base;
    assert max == q * base + r && 0 <= r < base;
    if acc > q { Bigger(acc, q + 1, base); } else if acc < q { Bigger(q, acc + 1, base); }
  }

  lemma {:induction false} Bigger(x: int, y: int, b: int)
    requires x >= y && b >= 0
    ensures x * b >= y * b
    ensures (y - 1) * b == y * b - b
  {
  }

  /** Once past max, always past max. */
  lemma {:induction false} StaysOver(v: nat, c: nat, base: nat, max: nat)
    requires v > max && base >= 1
    ensures v * base + c > max
  {
    Bigger(base, 1, v);
  }

  /** How far the digit loop has got: any is 1 while the value fits, -1 once it does not, 0 before the first digit. */
  ghost predicate Reached(s: seq<byte>, first: nat, q: nat, base: nat, max: nat, acc: nat, any: int) {
    && first <= q <= |s| && 2 <= base <= 36 && acc <= max
    && DigitRun(s, first, base) == DigitRun(s, q, base)
    && (any == 0 <==> q == first)
    && (any >= 0 ==> any <= 1 && acc == ValueOf(s, first, q, base))
    && (any < 0 ==> ValueOf(s, first, q, base) > max)
  }

  lemma {:induction false} NextDigit(s: seq<byte>, first: nat, q: nat, base: nat, max: nat, acc: nat, any: int)
    requires Reached(s, first, q, base, max, acc, any) && q < |s| && Digit(s[q]) < base
    ensures var over := any < 0 || acc > max / base || (acc == max / base && Digit(s[q]) > max % base);
            Reached(s, first, q + 1, base, max,
                    if over then acc else acc * base + Digit(s[q]), if over then -1 else 1)
  {
    var v := ValueOf(s, first, q, base);
    if any < 0 { StaysOver(v, Digit(s[q]), base, max); } else { CutoffExact(v, Digit(s[q]), base, max); }
  }

  /** The skipping of white space and the sign, up to the first character that may be a digit. */
  method Front(s: seq<byte>, from: nat) returns (p: nat, neg: bool)
    requires from <= |s|
    ensures p == SignEnd(s, from) && (neg <==> CharAt(s, SkipSpaces(s, from)) == MINUS)
  {
    p := from;
    while IsSpace(CharAt(s, p))
      invariant p <= |s| && SkipSpaces(s, p) == SkipSpaces(s, from)
      decreases |s| - p
    {
      p := p + 1;
    }
    neg := false;
    if CharAt(s, p) == MINUS {
      neg := true;
      p := p + 1;
    } else if CharAt(s, p) == PLUS {
      p := p + 1;
    }
  }

  /** The choice of the base, and the prefix of base 16. */
  method Prefix(s: seq<byte>, from: nat, givenBase: nat) returns (p: nat, neg: bool, base: nat)
    requires from <= |s| && (givenBase == 0 || 2 <= givenBase <= 36)
    ensures HeadOf(s, from, givenBase) == Head(neg, base, p)
  {
    p, neg := Front(s, from);
    base := givenBase;
    if (base == 0 || base == 16) && CharAt(s, p) == ZERO && IsX(CharAt(s, p + 1)) {
      p := p + 2;
      base := 16;
    }
    if base == 0 {
      base := if CharAt(s, p) == ZERO then 8 else 10;
    }
  }

  /** The digit loop. */
  method Digits(s: seq<byte>, first: nat, base: nat, max: nat) returns (acc: nat, any: int, p: nat)
    requires first <= |s| && 2 <= base <= 36
    ensures p == DigitRun(s, first, base) && Reached(s, first, p, base, max, acc, any)
  {
    var cutoff, cutlim := max / base, max % base;
    acc, any, p := 0, 0, first;
    while true
      invariant Reached(s, first, p, base, max, acc, any)
      decreases |s| - p
    {
      var c := CharAt(s, p) as int;
      if c >= 128 { break; }
      if 48 <= c <= 57 {
        c := c - 48;
      } else if 65 <= c <= 90 {
        c := c - 55;
      } else if 97 <= c <= 122 {
        c := c - 87;
      } else {
        break;
      }
      if c >= base { break; }
      NextDigit(s, first, p, base, max, acc, any);
      if any < 0 || acc > cutoff || (acc == cutoff && c > cutlim) {
        any := -1;
      } else {
        any := 1;
        acc := acc * base + c;
      }
      p := p + 1;
    }
  }

  /** The body that strtoul and strtoull share, for a result type that holds up to max. */
  method Convert(s: seq<byte>, from: nat, givenBase: nat, max: nat) returns (value: nat, end: nat)
    requires from <= |s| && (givenBase == 0 || 2 <= givenBase <= 36)
    ensures Parsed(value, end) == Reading(s, from, givenBase, max)
  {
    var p, neg, base := Prefix(s, from, givenBase);
    var any: int;
    value, any, p := Digits(s, p, base, max);
    if any < 0 {
      value := max;
    } else if neg && value > 0 {
      value := max + 1 - value;
    }
    end := if any != 0 then p else from;
  }

  /** strtoull */
  method StrToULL(s: seq<byte>, from: nat, base: nat) returns (value: dword, end: nat)
    requires from <= |s| && (base == 0 || 2 <= base <= 36)
    ensures Parsed(value, end) == Reading(s, from, base, 0xFFFF_FFFF_FFFF_FFFF)
  {
    var v: nat;
    v, end := Convert(s, from, base, 0xFFFF_FFFF_FFFF_FFFF);
    value := v;
  }

  /** strtoul */
  method StrToUL(s: seq<byte>, from: nat, base: nat) returns (value: word, end: nat)
    requires from <= |s| && (base == 0 || 2 <= base <= 36)
    ensures Parsed(value, end) == Reading(s, from, base, 0xFFFF_FFFF)
  {
    var v: nat;
    v, end := Convert(s, from, base, 0xFFFF_FFFF);
    value := v;
  }

  /** "0x" stands where a number may start, with no hexadecimal digit behind it. */
  predicate BarePrefix(s: seq<byte>, p: nat, base: nat)
    requires p <= |s|
  {
    var q := SignEnd(s, p);
    (base == 0 || base == 16) && CharAt(s, q) == ZERO && IsX(CharAt(s, q + 1)) && Digit(CharAt(s, q + 2)) >= 16
  }

  /** Sign, base and first digit as section 7.22.1.4 of ISO/IEC 9899:2011 has them: "0x" is a prefix only if a
      hexadecimal digit follows, and otherwise its zero is the number. */
  function StandardHead(s: seq<byte>, p: nat, base: nat): (h: Head)
    requires p <= |s| && (base == 0 || 2 <= base <= 36)
    ensures 2 <= h.base <= 36 && p <= h.first <= |s|
  {
    var neg, q := CharAt(s, SkipSpaces(s, p)) == MINUS, SignEnd(s, p);
    var hex := CharAt(s, q) == ZERO && IsX(CharAt(s, q + 1)) && Digit(CharAt(s, q + 2)) < 16;
    if base == 16 then Head(neg, 16, if hex then q + 2 else q)
    else if base != 0 then Head(neg, base, q)
    else if CharAt(s, q) != ZERO then Head(neg, 10, q)
    else if hex then Head(neg, 16, q + 2) else Head(neg, 8, q)
  }

  /** The conversion that the standard asks for. */
  function StandardReading(s: seq<byte>, p: nat, base: nat, max: nat): (r: Parsed)
    requires p <= |s| && (base == 0 || 2 <= base <= 36)
  {
    var h := StandardHead(s, p, base);
    var e := DigitRun(s, h.first, h.base);
    if e == h.first then Parsed(0, p) else
      var v := ValueOf(s, h.first, e, h.base);
      Parsed(if v > max then max else if h.neg && v > 0 then max + 1 - v else v, e)
  }

  /** The code reads what the standard asks for, except for a bare prefix: it then consumes nothing, where the standard
      has the zero. */
  lemma {:induction false} StandardExactly(s: seq<byte>, p: nat, base: nat, max: nat)
    requires p <= |s| && (base == 0 || 2 <= base <= 36)
    ensures Reading(s, p, base, max) == StandardReading(s, p, base, max) <==> !BarePrefix(s, p, base)
    ensures BarePrefix(s, p, base) ==> Reading(s, p, base, max) == Parsed(0, p)
    ensures BarePrefix(s, p, base) ==> StandardReading(s, p, base, max) == Parsed(0, SignEnd(s, p) + 1)
  {
    var q := SignEnd(s, p);
    if BarePrefix(s, p, base) {
      var b := StandardHead(s, p, base).base;
      assert Digit(CharAt(s, q)) == 0 && Digit(CharAt(s, q + 1)) == 33 && b <= 16;
      assert DigitRun(s, q, b) == q + 1;
      assert ValueOf(s, q, q + 1, b) == 0;
      assert HeadOf(s, p, base) == Head(CharAt(s, SkipSpaces(s, p)) == MINUS, 16, q + 2);
      assert DigitRun(s, q + 2, 16) == q + 2;
    } else {
      assert StandardHead(s, p, base) == HeadOf(s, p, base);
    }
  }
}
