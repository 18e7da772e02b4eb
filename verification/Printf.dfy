/** The number and string fields of kvprintf, and the bounded output of snprintf. */
module Printf {
  import opened MemCpy
  import opened CStrings
  import opened StrToUl
  import opened Numerals

  function Reverse(s: seq<byte>): (r: seq<byte>)
    ensures |r| == |s|
  {
    if s == [] then [] else Reverse(s[1..]) + [s[0]]
  }

  lemma {:induction false} ReverseAppend(s: seq<byte>, t: seq<byte>)
    ensures Reverse(s + t) == Reverse(t) + Reverse(s)
  {
    if s == [] {
      assert s + t == t;
    } else {
      ReverseAppend(s[1..], t);
      assert (s + t)[1..] == s[1..] + t;
    }
  }

  /** What is still to be written, before the digits already in the buffer. The quantifier keeps the numerals out of
      proofs that only pass this on. */
  ghost predicate Splits(num0: nat, num: nat, base: nat, written: seq<byte>, more: bool) {
    2 <= base <= 36 && forall w {:trigger Reverse(w)} :: w == written ==>
      Numeral(num0, base) == (if more then Numeral(num, base) else []) + Reverse(w)
  }

  /** Dividing off a digit. */
  function Quot(num: nat, base: nat): (q: nat)
    requires base >= 2
    ensures num > 0 ==> q < num
  {
    if num > 0 then Quotient(num, base); num / base else 0
  }

  lemma {:induction false} QuotIs(num: nat, base: nat)
    requires base >= 2
    ensures Quot(num, base) == num / base
    ensures num / base == 0 <==> num < base
    ensures num < base ==> num % base == num
  {
  }

  lemma {:induction false} SplitStep(num0: nat, num: nat, base: nat, written: seq<byte>)
    requires Splits(num0, num, base, written, true)
    ensures Splits(num0, Quot(num, base), base, written + [Hex2Ascii(num % base)], Quot(num, base) != 0)
  {
    ReverseAppend(written, [Hex2Ascii(num % base)]);
    QuotIs(num, base);
  }

  lemma {:induction false} SplitRoom(num0: nat, num: nat, base: nat, written: seq<byte>)
    requires Splits(num0, num, base, written, true)
    ensures |written| < |Numeral(num0, base)|
  {
    var r := Reverse(written);
  }

  lemma {:induction false} SplitDone(num0: nat, num: nat, base: nat, written: seq<byte>)
    requires Splits(num0, num, base, written, false)
    ensures Numeral(num0, base) == Reverse(written) && |Numeral(num0, base)| == |written|
  {
    assert [] + Reverse(written) == Reverse(written);
  }

  /** ksprintn: the digits, least significant first, behind a zero byte; inside says that no digit went past the
      buffer. */
  method KsPrintN(nbuf: array<byte>, num0: nat, base: nat) returns (p: nat, inside: bool)
    requires 2 <= base <= 36 && nbuf.Length > 0
    modifies nbuf
    ensures inside <==> |Numeral(num0, base)| < nbuf.Length
    ensures inside ==> p == |Numeral(num0, base)| && nbuf[0] == 0
    ensures inside ==> Numeral(num0, base) == Reverse(nbuf[1..p + 1])
  {
    var num: nat := num0;
    p := 0;
    nbuf[p] := 0;
    var more := true;
    while more
      invariant p < nbuf.Length && nbuf[0] == 0
      invariant Splits(num0, num, base, nbuf[1..p + 1], more)
      decreases more, num
    {
      ghost var written := nbuf[1..p + 1];
      SplitRoom(num0, num, base, written);
      SplitStep(num0, num, base, written);
      var c := Hex2Ascii(num % base);
      p := p + 1;
      if p == nbuf.Length { return p, false; }
      nbuf[p] := c;
      assert nbuf[1..p + 1] == written + [c];
      num := Quot(num, base);
      more := num != 0;
    }
    SplitDone(num0, num, base, nbuf[1..p + 1]);
    inside := true;
  }

  // ---------------------------------------------------------------- a number field

  /** The flags of a conversion. */
  datatype Flags = Flags(ladjust: bool, sharp: bool, zero: bool, width: int, precision: int)

  function Max(a: int, b: int): int {
    if a > b then a else b
  }

  function Blanks(k: int): (b: seq<byte>)
    ensures |b| == Max(k, 0) && forall i :: 0 <= i < |b| ==> b[i] == SPACE
  {
    seq(Max(k, 0), i => SPACE)
  }

  /** '-' for a number whose sign was taken off */
  function MinusSign(neg: bool): seq<byte> {
    if neg then [MINUS] else []
  }

  /** 0 before octal and 0x before hexadecimal, but not before zero */
  function BasePrefix(f: Flags, num: nat, base: nat): (t: seq<byte>)
    ensures |t| <= 2
  {
    if !f.sharp || num == 0 then [] else if base == 8 then [ZERO] else if base == 16 then [ZERO, 120] else []
  }

  /** The least number of digits: asked for, or with the 0 flag whatever fills the width. */
  function LeastDigits(f: Flags, num: nat, base: nat, neg: bool): int {
    if !f.ladjust && f.zero then f.width - |BasePrefix(f, num, base)| - |MinusSign(neg)| else f.precision
  }

  function ZeroCount(f: Flags, num: nat, base: nat, neg: bool): nat
    requires 2 <= base <= 36
  {
    Max(LeastDigits(f, num, base, neg) - |Numeral(num, base)|, 0)
  }

  /** Blanks needed to fill the width. */
  function BlankCount(f: Flags, num: nat, base: nat, neg: bool): int
    requires 2 <= base <= 36
  {
    f.width - |BasePrefix(f, num, base)| - |MinusSign(neg)| - Max(LeastDigits(f, num, base, neg), |Numeral(num, base)|)
  }

  /** Sign, prefix, zeros and digits. */
  function Unpadded(f: Flags, num: nat, base: nat, neg: bool): seq<byte>
    requires 2 <= base <= 36
  {
    MinusSign(neg) + BasePrefix(f, num, base) + (Zeroes(ZeroCount(f, num, base, neg)) + Numeral(num, base))
  }

  function NumberField(f: Flags, num: nat, base: nat, neg: bool): seq<byte>
    requires 2 <= base <= 36
  {
    var b := Blanks(BlankCount(f, num, base, neg));
    if f.ladjust then Unpadded(f, num, base, neg) + b else b + Unpadded(f, num, base, neg)
  }

  /** A field is as wide as asked, and no wider than its sign, prefix and digits need. */
  lemma {:induction false} FieldWidth(f: Flags, num: nat, base: nat, neg: bool)
    requires 2 <= base <= 36
    ensures |NumberField(f, num, base, neg)| == Max(f.width, |Unpadded(f, num, base, neg)|)
  {
  }

  /** What the flags ask for, place by place: a blanks, the sign, the prefix, z zeros, the digits, and blanks up to the
      end. */
  ghost predicate Laid(t: seq<byte>, f: Flags, sign: seq<byte>, prefix: seq<byte>, d: seq<byte>, a: nat, z: nat) {
    var s := a + |sign|;
    var b := s + |prefix|;
    var e := b + z + |d|;
    && e <= |t| && |t| == Max(f.width, e - a)
    && t[a..s] == sign && t[s..b] == prefix && t[b + z..e] == d
    && (forall i :: b <= i < b + z ==> t[i] == 48) && (forall i :: 0 <= i < a || e <= i < |t| ==> t[i] == 32)
    && (if f.ladjust then a == 0 else e == |t|)
    && if f.zero && !f.ladjust then a == 0 && (z > 0 ==> |t| == f.width) else z == Max(f.precision - |d|, 0)
  }

  /** '-' before a negative number, 0x or 0 before a non-zero hexadecimal or octal one with '#'. The 0 flag fills with
      zeros before the digits, to the width; without it, or with '-', the precision says how many digits there are, and
      blanks fill the width on the side that '-' says. */
  ghost predicate Shown(t: seq<byte>, f: Flags, num: nat, base: nat, neg: bool)
    requires 2 <= base <= 36
  {
    var sign: seq<byte> := if neg then [45] else [];
    var prefix: seq<byte> :=
      if !f.sharp || num == 0 then [] else if base == 16 then [48, 120] else if base == 8 then [48] else [];
    exists a: nat, z: nat :: Laid(t, f, sign, prefix, Numeral(num, base), a, z)
  }

  lemma {:induction false} PartsLaid(l: seq<byte>, m: seq<byte>, p: seq<byte>, z: seq<byte>, d: seq<byte>, r: seq<byte>)
    ensures var t := l + (m + p + (z + d)) + r; Pieces(t, l, m, p, z, d, r)
  {
  }

  /** The pieces of a field, by place. */
  ghost predicate Pieces(t: seq<byte>, l: seq<byte>, m: seq<byte>, p: seq<byte>, z: seq<byte>, d: seq<byte>,
                         r: seq<byte>) {
    var s := |l| + |m|;
    var b := s + |p|;
    var e := b + |z| + |d|;
    && |t| == e + |r| && t[..|l|] == l && t[|l|..s] == m && t[s..b] == p
    && t[b..b + |z|] == z && t[b + |z|..e] == d && t[e..] == r
  }

  lemma {:induction false} FieldParts(f: Flags, num: nat, base: nat, neg: bool)
    requires 2 <= base <= 36
    ensures var k := BlankCount(f, num, base, neg);
            Pieces(NumberField(f, num, base, neg), Blanks(if f.ladjust then 0 else k), MinusSign(neg),
                   BasePrefix(f, num, base), Zeroes(ZeroCount(f, num, base, neg)), Numeral(num, base),
                   Blanks(if f.ladjust then k else 0))
  {
    var k, u := BlankCount(f, num, base, neg), Unpadded(f, num, base, neg);
    assert Blanks(0) + u == u && Blanks(k) + u + Blanks(0) == Blanks(k) + u;
    PartsLaid(Blanks(if f.ladjust then 0 else k), MinusSign(neg), BasePrefix(f, num, base),
              Zeroes(ZeroCount(f, num, base, neg)), Numeral(num, base), Blanks(if f.ladjust then k else 0));
  }

  /** The numbers of blanks and zeros; n is the length of the numeral, p that of sign and prefix. */
  lemma {:induction false} FieldCounts(f: Flags, num: nat, base: nat, neg: bool, a: nat, z: nat, r: nat, p: nat, n: nat)
    requires 2 <= base <= 36 && n == |Numeral(num, base)| && p == |MinusSign(neg)| + |BasePrefix(f, num, base)|
    requires z == ZeroCount(f, num, base, neg)
    requires a == (if f.ladjust then 0 else Max(BlankCount(f, num, base, neg), 0))
    requires r == (if f.ladjust then Max(BlankCount(f, num, base, neg), 0) else 0)
    ensures a + p + z + n + r == Max(f.width, p + z + n)
    ensures if f.zero && !f.ladjust then a == 0 && (z > 0 ==> p + z + n + r == f.width)
            else z == Max(f.precision - n, 0)
  {
  }

  lemma {:induction false} Everywhere(t: seq<byte>, lo: nat, hi: nat, x: seq<byte>, c: byte)
    requires lo <= hi <= |t| && t[lo..hi] == x && forall i :: 0 <= i < |x| ==> x[i] == c
    ensures forall i :: lo <= i < hi ==> t[i] == c
  {
    forall i | lo <= i < hi
      ensures t[i] == c
    {
      assert t[i] == x[i - lo];
    }
  }

  lemma {:induction false} PiecesLaid(t: seq<byte>, f: Flags, l: seq<byte>, m: seq<byte>, p: seq<byte>, z: seq<byte>,
                                      d: seq<byte>, r: seq<byte>)
    requires Pieces(t, l, m, p, z, d, r)
    requires forall i :: 0 <= i < |l| ==> l[i] == 32
    requires forall i :: 0 <= i < |z| ==> z[i] == 48
    requires forall i :: 0 <= i < |r| ==> r[i] == 32
    requires if f.ladjust then l == [] else r == []
    requires var w := |m| + |p| + |z| + |d|;
             && |l| + w + |r| == Max(f.width, w)
             && if f.zero && !f.ladjust then l == [] && (|z| > 0 ==> w + |r| == f.width)
                else |z| == Max(f.precision - |d|, 0)
    ensures Laid(t, f, m, p, d, |l|, |z|)
  {
    var b := |l| + |m| + |p|;
    Everywhere(t, 0, |l|, l, 32);
    Everywhere(t, b, b + |z|, z, 48);
    Everywhere(t, b + |z| + |d|, |t|, r, 32);
  }

  /** The field is laid out as the flags ask. */
  lemma {:induction false} FieldShown(f: Flags, num: nat, base: nat, neg: bool)
    requires 2 <= base <= 36
    ensures Shown(NumberField(f, num, base, neg), f, num, base, neg)
  {
    var k := BlankCount(f, num, base, neg);
    var l, r := Blanks(if f.ladjust then 0 else k), Blanks(if f.ladjust then k else 0);
    var m, p := MinusSign(neg), BasePrefix(f, num, base);
    var z, d := Zeroes(ZeroCount(f, num, base, neg)), Numeral(num, base);
    FieldParts(f, num, base, neg);
    FieldCounts(f, num, base, neg, |l|, |z|, |r|, |m| + |p|, |d|);
    PiecesLaid(NumberField(f, num, base, neg), f, l, m, p, z, d, r);
  }

  lemma {:induction false} SpacesEnd(k: nat, t: seq<byte>)
    requires t != [] && !IsSpace(t[0])
    ensures SkipSpaces(Blanks(k) + t, 0) == k
  {
    var s := Blanks(k) + t;
    SpacesFrom(s, 0, k);
  }

  /** A character that starts a numeral: neither white space nor a sign. */
  predicate Starts(t: seq<byte>) {
    t != [] && !IsSpace(t[0]) && t[0] != MINUS && t[0] != PLUS
  }

  lemma {:induction false} SignHead(k: nat, neg: bool, t: seq<byte>)
    requires Starts(t)
    ensures var s := Blanks(k) + (MinusSign(neg) + t);
            && SignEnd(s, 0) == k + |MinusSign(neg)|
            && (CharAt(s, SkipSpaces(s, 0)) == MINUS <==> neg)
  {
    var u := MinusSign(neg) + t;
    SpacesEnd(k, u);
    assert (Blanks(k) + u)[k] == u[0];
  }

  /** Digits of base 16 never look like the 0x prefix. */
  lemma {:induction false} NoPrefix(pre: seq<byte>, b: seq<byte>, post: seq<byte>)
    requires b != [] && Written(b, 16) && (post == [] || post[0] == SPACE)
    ensures !IsX(CharAt(pre + b + post, |pre| + 1))
  {
    Middle(pre, b, post);
    var s := pre + b + post;
    if |b| > 1 { assert Digit(b[1]) < 16; assert s[|pre| + 1] == b[1]; }
  }

  lemma {:induction false} BodyStarts(k: nat, n: nat, base: nat, post: seq<byte>)
    requires 2 <= base <= 36
    ensures Starts(Zeroes(k) + Numeral(n, base) + post)
  {
    NumeralDigits(n, base);
    var b := Zeroes(k) + Numeral(n, base);
    assert (b + post)[0] == b[0] && Digit(b[0]) < base;
  }

  /** A number, or its negative modulo max + 1. */
  function Signed(n: nat, neg: bool, max: nat): nat
    requires n <= max
  {
    if neg && n > 0 then max + 1 - n else n
  }

  lemma {:induction false} Regroup2(a: seq<byte>, m: seq<byte>, b: seq<byte>, post: seq<byte>)
    ensures (a + m) + b + post == a + (m + (b + post))
  {
  }

  lemma {:induction false} PlainHead(k: nat, neg: bool, z: nat, n: nat, post: seq<byte>, base: nat)
    requires 2 <= base <= 36 && (post == [] || post[0] == SPACE)
    ensures var pre := Blanks(k) + MinusSign(neg);
            HeadOf(pre + (Zeroes(z) + Numeral(n, base)) + post, 0, base) == Head(neg, base, |pre|)
  {
    var b := Zeroes(z) + Numeral(n, base);
    BodyStarts(z, n, base, post);
    SignHead(k, neg, b + post);
    Regroup2(Blanks(k), MinusSign(neg), b, post);
    if base == 16 {
      ZeroesWritten(z, n, base);
      NoPrefix(Blanks(k) + MinusSign(neg), b, post);
    }
  }

  /** Behind the head, a numeral is read as its number. */
  lemma {:induction false} ReadsBehind(pre: seq<byte>, neg: bool, z: nat, n: nat, post: seq<byte>, base: nat, max: nat)
    requires 2 <= base <= 36 && n <= max && Stops(post, base)
    requires HeadOf(pre + (Zeroes(z) + Numeral(n, base)) + post, 0, base) == Head(neg, base, |pre|)
    ensures Reading(pre + (Zeroes(z) + Numeral(n, base)) + post, 0, base, max)
            == Parsed(Signed(n, neg, max), |pre| + z + |Numeral(n, base)|)
  {
    NumeralReads(pre, z, n, post, base);
  }

  /** The 0x prefix of base 16 is read as such. */
  lemma {:induction false} HexHead(k: nat, neg: bool, b: seq<byte>)
    ensures HeadOf(Blanks(k) + MinusSign(neg) + [ZERO, 120] + b, 0, 16) == Head(neg, 16, k + |MinusSign(neg)| + 2)
  {
    var t := [ZERO, 120] + b;
    SignHead(k, neg, t);
    Regroup2(Blanks(k), MinusSign(neg), [ZERO, 120], b);
    var s := Blanks(k) + (MinusSign(neg) + t);
    var q := k + |MinusSign(neg)|;
    assert s == (Blanks(k) + MinusSign(neg)) + t;
    assert s[q] == ZERO && s[q + 1] == 120;
  }

  lemma {:induction false} OneMoreZero(pre: seq<byte>, z: nat, d: seq<byte>, post: seq<byte>)
    ensures pre + [ZERO] + (Zeroes(z) + d) + post == pre + (Zeroes(z + 1) + d) + post
  {
    assert [ZERO] + Zeroes(z) == Zeroes(z + 1);
  }

  lemma {:induction false} JoinHead(x: seq<byte>, m: seq<byte>, p: seq<byte>, b: seq<byte>, post: seq<byte>)
    ensures x + (m + p + b) + post == x + m + p + b + post
    ensures x + m + p + b + post == x + m + p + (b + post)
  {
  }

  /** Any printed field, between blanks, reads back as the number it was printed for. */
  lemma {:induction false} UnpaddedReads(f: Flags, k: nat, num: nat, base: nat, neg: bool, post: seq<byte>, max: nat)
    requires 2 <= base <= 36 && num <= max && (post == [] || post[0] == SPACE)
    ensures Reading(Blanks(k) + Unpadded(f, num, base, neg) + post, 0, base, max)
            == Parsed(Signed(num, neg, max), k + |Unpadded(f, num, base, neg)|)
  {
    var z := ZeroCount(f, num, base, neg);
    UnpaddedText(f, k, num, base, neg, post);
    if BasePrefix(f, num, base) == [] {
      PlainReads(k, neg, z, num, base, post, max);
    } else if base == 8 {
      PlainReads(k, neg, z + 1, num, base, post, max);
    } else {
      HexReads(k, neg, z, num, post, max);
    }
  }

  /** The text in the form in which it is read: the 0 before octal digits is one zero more. */
  lemma {:induction false} UnpaddedText(f: Flags, k: nat, num: nat, base: nat, neg: bool, post: seq<byte>)
    requires 2 <= base <= 36
    ensures var t, pre := Blanks(k) + Unpadded(f, num, base, neg) + post, Blanks(k) + MinusSign(neg);
            var z, d := ZeroCount(f, num, base, neg), Numeral(num, base);
            t == if BasePrefix(f, num, base) == [] then pre + (Zeroes(z) + d) + post
                 else if base == 8 then pre + (Zeroes(z + 1) + d) + post
                 else pre + [ZERO, 120] + (Zeroes(z) + d) + post
  {
    var p, z, d := BasePrefix(f, num, base), ZeroCount(f, num, base, neg), Numeral(num, base);
    var pre := Blanks(k) + MinusSign(neg);
    JoinHead(Blanks(k), MinusSign(neg), p, Zeroes(z) + d, post);
    if p == [] {
      assert pre + [] == pre;
    } else if base == 8 {
      OneMoreZero(pre, z, d, post);
    }
  }

  /** A number behind blanks and sign, with z zeros before it. */
  lemma {:induction false} PlainReads(k: nat, neg: bool, z: nat, num: nat, base: nat, post: seq<byte>, max: nat)
    requires 2 <= base <= 36 && num <= max && (post == [] || post[0] == SPACE)
    ensures Reading(Blanks(k) + MinusSign(neg) + (Zeroes(z) + Numeral(num, base)) + post, 0, base, max)
            == Parsed(Signed(num, neg, max), k + |MinusSign(neg)| + z + |Numeral(num, base)|)
  {
    PlainHead(k, neg, z, num, post, base);
    ReadsBehind(Blanks(k) + MinusSign(neg), neg, z, num, post, base, max);
  }

  /** The same behind 0x. */
  lemma {:induction false} HexReads(k: nat, neg: bool, z: nat, num: nat, post: seq<byte>, max: nat)
    requires num <= max && (post == [] || post[0] == SPACE)
    ensures Reading(Blanks(k) + MinusSign(neg) + [ZERO, 120] + (Zeroes(z) + Numeral(num, 16)) + post, 0, 16, max)
            == Parsed(Signed(num, neg, max), k + |MinusSign(neg)| + 2 + z + |Numeral(num, 16)|)
  {
    var pre, b := Blanks(k) + MinusSign(neg) + [ZERO, 120], Zeroes(z) + Numeral(num, 16);
    HexHead(k, neg, b + post);
    assert pre + (b + post) == pre + b + post;
    ReadsBehind(pre, neg, z, num, post, 16, max);
  }

  lemma {:induction false} BlanksAround(c: int, u: seq<byte>)
    ensures Blanks(0) + u + Blanks(c) == u + Blanks(c)
    ensures Blanks(Max(c, 0)) + u + [] == Blanks(c) + u
  {
    assert Blanks(Max(c, 0)) == Blanks(c);
  }

  /** Printing and converting back, for every width, precision and flag. */
  lemma {:induction false} FieldReads(f: Flags, num: nat, base: nat, neg: bool, max: nat)
    requires 2 <= base <= 36 && num <= max
    ensures Reading(NumberField(f, num, base, neg), 0, base, max).value == Signed(num, neg, max)
  {
    var c := BlankCount(f, num, base, neg);
    BlanksAround(c, Unpadded(f, num, base, neg));
    if f.ladjust {
      UnpaddedReads(f, 0, num, base, neg, Blanks(c), max);
    } else {
      UnpaddedReads(f, Max(c, 0), num, base, neg, [], max);
    }
  }

  // ---------------------------------------------------------------- output

  /** The argument of snprintf_func: where the next character goes, and what room remains. */
  class Sink {
    const str: array<byte>
    var pos: nat
    var remain: nat
    var count: nat
    ghost var sent: seq<byte>

    ghost predicate Valid()
      reads this, str
    {
      && pos + remain == str.Length && count == |sent|
      && pos == (if |sent| < str.Length then |sent| else Max(str.Length - 1, 0))
      && str[..pos] == sent[..pos]
    }

    constructor (buffer: array<byte>)
      ensures Valid() && str == buffer && sent == []
    {
      str, pos, remain, count, sent := buffer, 0, buffer.Length, 0, [];
    }

    /** snprintf_func: characters past the room are dropped; kvprintf counts them all. */
    method Put(ch: byte)
      requires Valid()
      modifies this, str
      ensures Valid() && sent == old(sent) + [ch]
    {
      if remain >= 2 {
        str[pos] := ch;
        pos, remain := pos + 1, remain - 1;
      }
      count, sent := count + 1, sent + [ch];
    }

    /** while (n-- > 0) PCHAR(c) */
    method Repeat(c: byte, n: int)
      requires Valid()
      modifies this, str
      ensures Valid() && sent == old(sent) + seq(Max(n, 0), i => c)
    {
      var k := 0;
      while k < n
        invariant 0 <= k <= Max(n, 0) && Valid() && sent == old(sent) + seq(k, i => c)
        decreases n - k
      {
        Put(c);
        k := k + 1;
      }
    }

    /** The end of vsnprintf: a terminator if there is room for one, and the length that was asked for. */
    method Close() returns (n: nat)
      requires Valid()
      modifies this, str
      ensures sent == old(sent) && n == |sent|
      ensures str.Length > 0 ==> Holds(str[..], Bounded(sent, str.Length))
    {
      n := count;
      if remain >= 1 {
        str[pos] := 0;
      }
    }

    /** The digits, from the last one ksprintn wrote back to its zero byte. */
    method PutDigits(nbuf: array<byte>, p0: nat)
      requires Valid() && nbuf != str && p0 < nbuf.Length && nbuf[0] == 0 && Chars(nbuf[1..p0 + 1])
      modifies this, str
      ensures Valid() && sent == old(sent) + Reverse(nbuf[1..p0 + 1])
    {
      var p: int := p0;
      ghost var all := nbuf[1..p0 + 1];
      assert all[p..] == [];
      while nbuf[p] != 0
        invariant 0 <= p <= p0 && Valid() && nbuf[..] == old(nbuf[..])
        invariant sent == old(sent) + Reverse(all[p..])
        decreases p
      {
        assert all[p - 1..] == [nbuf[p]] + all[p..];
        Put(nbuf[p]);
        p := p - 1;
      }
    }

    /** The sign and the prefix of a number. */
    method PutPrefix(f: Flags, num: nat, base: nat, neg: bool)
      requires Valid()
      modifies this, str
      ensures Valid() && sent == old(sent) + (MinusSign(neg) + BasePrefix(f, num, base))
    {
      if neg { Put(MINUS); }
      if f.sharp && num != 0 {
        if base == 8 {
          Put(ZERO);
        } else if base == 16 {
          Put(ZERO);
          Put(120);
        }
      }
    }

    /** kvprintf from the label `number` on, unless the digits leave their buffer; the flags are as the format left
        them. */
    method PutNumber(f: Flags, num: nat, base: nat, neg: bool, nbuf: array<byte>) returns (inside: bool)
      requires Valid() && nbuf != str && nbuf.Length == 20 && 2 <= base <= 36
      modifies this, str, nbuf
      ensures Valid() && (inside <==> |Numeral(num, base)| < 20)
      ensures sent == old(sent) + if inside then NumberField(f, num, base, neg) else []
      ensures inside ==> |old(sent)| <= |sent| && Shown(sent[|old(sent)|..], f, num, base, neg)
    {
      var p: nat;
      p, inside := KsPrintN(nbuf, num, base);
      if !inside { return; }
      NumeralChars(num, base, nbuf[1..p + 1]);
      var tmp := 0;
      if f.sharp && num != 0 {
        if base == 8 { tmp := tmp + 1; } else if base == 16 { tmp := tmp + 2; }
      }
      if neg { tmp := tmp + 1; }
      var width, dwidth := f.width, f.precision;
      if !f.ladjust && f.zero { dwidth := width - tmp; }
      width := width - (tmp + Max(dwidth, p));
      dwidth := dwidth - p;
      PutParts(f, num, base, neg, nbuf, p, width, dwidth);
      FieldShown(f, num, base, neg);
      assert sent[|old(sent)|..] == NumberField(f, num, base, neg);
    }

    /** The order in which the parts of a number go out. */
    method PutParts(f: Flags, num: nat, base: nat, neg: bool, nbuf: array<byte>, p: nat, width: int, dwidth: int)
      requires Valid() && nbuf != str && p < nbuf.Length && nbuf[0] == 0 && Chars(nbuf[1..p + 1])
      requires 2 <= base <= 36 && Numeral(num, base) == Reverse(nbuf[1..p + 1])
      requires width == BlankCount(f, num, base, neg) && Max(dwidth, 0) == ZeroCount(f, num, base, neg)
      modifies this, str
      ensures Valid() && sent == old(sent) + NumberField(f, num, base, neg)
    {
      ghost var s0 := sent;
      if !f.ladjust { Repeat(SPACE, width); }
      ghost var s1 := sent;
      PutPrefix(f, num, base, neg);
      ghost var s2 := sent;
      Repeat(ZERO, dwidth);
      ghost var s3 := sent;
      PutDigits(nbuf, p);
      ghost var s4 := sent;
      if f.ladjust { Repeat(SPACE, width); }
      FieldFrom(f, num, base, neg, width, dwidth, s0, s1, s2, s3, s4, sent);
    }

    /** while (n--) PCHAR(*p++) */
    method PutText(p: seq<byte>)
      requires Valid()
      modifies this, str
      ensures Valid() && sent == old(sent) + p
    {
      var k := 0;
      while k < |p|
        invariant 0 <= k <= |p| && Valid() && sent == old(sent) + p[..k]
      {
        Put(p[k]);
        k := k + 1;
      }
    }

    /** The %s conversion; precision counts only behind a dot. */
    method PutString(f: Flags, dot: bool, p: seq<byte>)
      requires Valid() && Chars(p)
      modifies this, str
      ensures Valid() && sent == old(sent) + StringField(f, dot, p)
      ensures |old(sent)| <= |sent| && StringShown(sent[|old(sent)|..], f, dot, p)
    {
      var n := TakenLength(f, dot, p);
      var padc := if f.zero then ZERO else SPACE;
      var width := f.width - n;
      ghost var s0 := sent;
      if !f.ladjust { Repeat(padc, width); }
      ghost var s1 := sent;
      PutText(p[..n]);
      ghost var s2 := sent;
      if f.ladjust { Repeat(padc, width); }
      StringFrom(f, dot, p, s0, s1, s2, sent);
      StringFieldShown(f, dot, p);
      assert sent[|s0|..] == StringField(f, dot, p);
    }
  }

  method TakenLength(f: Flags, dot: bool, p: seq<byte>) returns (n: nat)
    requires Chars(p)
    ensures n <= |p| && p[..n] == Taken(f, dot, p)
  {
    n := 0;
    if !dot {
      n := |p|;
    } else {
      while n < f.precision && CharAt(p, n) != 0
        invariant 0 <= n <= |p| && (n == 0 || n <= f.precision)
        decreases |p| - n
      {
        n := n + 1;
      }
    }
  }

  lemma {:induction false} StringFrom(f: Flags, dot: bool, p: seq<byte>, s0: seq<byte>, s1: seq<byte>, s2: seq<byte>,
                                      s3: seq<byte>)
    requires var pad := seq(Max(f.width - |Taken(f, dot, p)|, 0), i => if f.zero then ZERO else SPACE);
             && s1 == (if f.ladjust then s0 else s0 + pad)
             && s2 == s1 + Taken(f, dot, p)
             && s3 == (if f.ladjust then s2 + pad else s2)
    ensures s3 == s0 + StringField(f, dot, p)
  {
  }

  /** What %s takes from its string. */
  function Taken(f: Flags, dot: bool, p: seq<byte>): (t: seq<byte>)
    ensures t <= p
  {
    if !dot then p else p[..Least(|p|, Max(f.precision, 0))]
  }

  function StringField(f: Flags, dot: bool, p: seq<byte>): seq<byte> {
    var t := Taken(f, dot, p);
    var pad := seq(Max(f.width - |t|, 0), i => if f.zero then ZERO else SPACE);
    if f.ladjust then t + pad else pad + t
  }

  /** A string field holds the string, cut at the precision, and is as wide as asked. */
  lemma {:induction false} StringWidth(f: Flags, dot: bool, p: seq<byte>)
    ensures |StringField(f, dot, p)| == Max(f.width, |Taken(f, dot, p)|)
    ensures dot && f.precision >= 0 ==> |Taken(f, dot, p)| <= f.precision
    ensures !dot ==> Taken(f, dot, p) == p
  {
  }

  /** What %s shows, place by place: all of p, or behind a dot no more of it than the precision, and then blanks, or
      with
      the 0 flag zeros, on the side that '-' says. */
  ghost predicate StringShown(t: seq<byte>, f: Flags, dot: bool, p: seq<byte>) {
    var n := if !dot || |p| <= f.precision then |p| else if f.precision < 0 then 0 else f.precision;
    var a := if f.ladjust then 0 else |t| - n;
    && |t| == Max(f.width, n) && t[a..a + n] == p[..n]
    && forall i :: 0 <= i < a || a + n <= i < |t| ==> t[i] == if f.zero then 48 else 32
  }

  lemma {:induction false} StringFieldShown(f: Flags, dot: bool, p: seq<byte>)
    ensures StringShown(StringField(f, dot, p), f, dot, p)
  {
    var t, n := StringField(f, dot, p), |Taken(f, dot, p)|;
    assert t[if f.ladjust then 0 else |t| - n..][..n] == p[..n];
  }

  /** The parts sent one after the other make up the field. */
  lemma {:induction false} FieldFrom(f: Flags, num: nat, base: nat, neg: bool, width: int, dwidth: int,
                  s0: seq<byte>, s1: seq<byte>, s2: seq<byte>, s3: seq<byte>, s4: seq<byte>, s5: seq<byte>)
    requires 2 <= base <= 36
    requires width == BlankCount(f, num, base, neg) && Max(dwidth, 0) == ZeroCount(f, num, base, neg)
    requires s1 == if f.ladjust then s0 else s0 + seq(Max(width, 0), i => SPACE)
    requires s2 == s1 + (MinusSign(neg) + BasePrefix(f, num, base))
    requires s3 == s2 + seq(Max(dwidth, 0), i => ZERO) && s4 == s3 + Numeral(num, base)
    requires s5 == if f.ladjust then s4 + seq(Max(width, 0), i => SPACE) else s4
    ensures s5 == s0 + NumberField(f, num, base, neg)
  {
    var m, z, d, b := MinusSign(neg) + BasePrefix(f, num, base), Zeroes(Max(dwidth, 0)), Numeral(num, base),
        Blanks(width);
    assert seq(Max(width, 0), i => SPACE) == b;
    assert seq(Max(dwidth, 0), i => ZERO) == z;
    FieldJoin(s0, if f.ladjust then [] else b, m, z, d, if f.ladjust then b else []);
    NoBlanks(s0, m + (z + d), b);
  }

  lemma {:induction false} NoBlanks(o: seq<byte>, u: seq<byte>, b: seq<byte>)
    ensures o + [] == o && [] + u + b == u + b && b + u + [] == b + u
  {
  }

  lemma {:induction false} FieldJoin(o: seq<byte>, l: seq<byte>, m: seq<byte>, z: seq<byte>, d: seq<byte>, t: seq<byte>)
    ensures o + l + m + z + d + t == o + (l + (m + (z + d)) + t)
    ensures t == [] ==> o + l + m + z + d == o + (l + (m + (z + d)) + t)
  {
    assert o + l + m + z + d == o + (l + (m + (z + d)));
  }

  lemma {:induction false} CharsReverse(s: seq<byte>)
    ensures Chars(Reverse(s)) <==> Chars(s)
  {
    if s != [] {
      CharsReverse(s[1..]);
      var r := Reverse(s[1..]);
      assert (r + [s[0]])[..|r|] == r && (r + [s[0]])[|r|] == s[0];
      assert Chars(s) <==> s[0] != 0 && Chars(s[1..]);
    }
  }

  lemma {:induction false} NumeralChars(num: nat, base: nat, written: seq<byte>)
    requires 2 <= base <= 36 && Numeral(num, base) == Reverse(written)
    ensures Chars(written)
  {
    NumeralDigits(num, base);
    CharsReverse(written);
  }

  /** What is left of a text in a buffer of this size, which also holds a terminator. */
  function Bounded(t: seq<byte>, size: nat): (b: seq<byte>)
    requires size > 0
    ensures b <= t && |b| < size && (|t| < size ==> b == t) && (|t| >= size ==> |b| == size - 1)
  {
    t[..Least(|t|, size - 1)]
  }

  function Least(a: int, b: int): int {
    if a < b then a else b
  }

  /** The buffer begins with the string and its terminator. */
  predicate Holds(b: seq<byte>, t: seq<byte>) {
    |t| < |b| && b[..|t|] == t && b[|t|] == 0
  }
}
