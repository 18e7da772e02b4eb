/** How numbers are written, and that the parser reads them: blanks, sign, prefix, and digits in either case. */
module NumberText {
  import opened MemCpy
  import opened CStrings
  import opened StrToUl
  import opened Numerals

  /** Space, tab, newline, vertical tab, form feed, carriage return. */
  predicate Blank(w: seq<byte>) {
    forall i :: 0 <= i < |w| ==> w[i] == 32 || w[i] == 9 || w[i] == 10 || w[i] == 11 || w[i] == 12 || w[i] == 13
  }

  /** 0 to 9, then A to Z or a to z. */
  function Letter(d: nat, upper: bool): byte
    requires d < 36
  {
    if d < 10 then 48 + d else if upper then 65 + (d - 10) else 97 + (d - 10)
  }

  /** t writes the digits ds, each letter in either case. */
  predicate Spells(t: seq<byte>, ds: seq<nat>, base: nat)
    requires base <= 36
  {
    |t| == |ds| && forall i :: 0 <= i < |ds| ==>
      ds[i] < base && (t[i] == Letter(ds[i], true) || t[i] == Letter(ds[i], false))
  }

  /** The number that the digits stand for. */
  function Worth(ds: seq<nat>, base: nat): nat
    decreases |ds|
  {
    if ds == [] then 0 else Worth(ds[..|ds| - 1], base) * base + ds[|ds| - 1]
  }

  predicate SignText(t: seq<byte>, neg: bool) {
    if neg then t == [45] else t == [] || t == [43]
  }

  /** 0x or 0X, which only base 16 and base 0 allow. */
  predicate HexPrefix(t: seq<byte>) {
    t == [48, 120] || t == [48, 88]
  }

  /** The base b of a number that starts with the digit c behind the prefix, when base is asked for. */
  predicate PrefixText(t: seq<byte>, c: byte, base: nat, b: nat) {
    if base == 16 then b == 16 && (t == [] || HexPrefix(t))
    else if base != 0 then b == base && t == []
    else if HexPrefix(t) then b == 16 else t == [] && b == if c == 48 then 8 else 10
  }

  /** Nothing follows, or a character that is no digit of the base. */
  predicate Ends(post: seq<byte>, b: nat)
    requires b <= 36
  {
    post == [] || forall d: nat :: d < b ==> post[0] != Letter(d, true) && post[0] != Letter(d, false)
  }

  lemma {:induction false} LetterDigit(d: nat, upper: bool)
    requires d < 36
    ensures Digit(Letter(d, upper)) == d
  {
  }

  lemma {:induction false} DigitLetter(c: byte)
    requires Digit(c) < 36
    ensures c == Letter(Digit(c), 65 <= c <= 90)
  {
  }

  lemma {:induction false} EndStops(post: seq<byte>, b: nat)
    requires b <= 36 && Ends(post, b)
    ensures Stops(post, b)
  {
    if post != [] && Digit(post[0]) < 36 { DigitLetter(post[0]); }
  }

  lemma {:induction false} SpelledDigits(t: seq<byte>, ds: seq<nat>, base: nat)
    requires base <= 36 && Spells(t, ds, base)
    ensures Written(t, base) && forall i :: 0 <= i < |t| ==> Digit(t[i]) == ds[i]
  {
    forall i | 0 <= i < |t|
      ensures Digit(t[i]) == ds[i] < base
    {
      LetterDigit(ds[i], true);
      LetterDigit(ds[i], false);
    }
  }

  lemma {:induction false} SpelledValue(s: seq<byte>, q: nat, ds: seq<nat>, k: nat, base: nat)
    requires q + |ds| <= |s| && k <= |ds| && forall i :: 0 <= i < |ds| ==> Digit(s[q + i]) == ds[i]
    ensures ValueOf(s, q, q + k, base) == Worth(ds[..k], base)
    decreases k
  {
    if k > 0 {
      SpelledValue(s, q, ds, k - 1, base);
      assert ds[..k][..k - 1] == ds[..k - 1] && Digit(s[q + (k - 1)]) == ds[k - 1];
    }
  }

  /** The characters of a text in five parts. */
  lemma {:induction false} PartsAt(w: seq<byte>, g: seq<byte>, x: seq<byte>, t: seq<byte>, post: seq<byte>)
    ensures Slices(w + g + x + t + post, w, g, x, t, post)
  {
  }

  ghost predicate Slices(s: seq<byte>, w: seq<byte>, g: seq<byte>, x: seq<byte>, t: seq<byte>, post: seq<byte>) {
    var q := |w| + |g|;
    var first := q + |x|;
    && first + |t| <= |s| && s[..|w|] == w && s[|w|..q] == g && s[q..first] == x
    && s[first..first + |t|] == t && s[first + |t|..] == post
  }

  lemma {:induction false} BlanksSkipped(s: seq<byte>, w: seq<byte>)
    requires |w| < |s| && s[..|w|] == w && Blank(w) && !IsSpace(s[|w|])
    ensures SkipSpaces(s, 0) == |w|
  {
    forall i | 0 <= i < |w|
      ensures IsSpace(s[i])
    {
      assert s[i] == w[i];
    }
    SpacesFrom(s, 0, |w|);
  }

  /** The head of a written number: sign, base, and where the digits start. */
  lemma {:induction false} HeadReads(s: seq<byte>, w: seq<byte>, g: seq<byte>, neg: bool, x: seq<byte>, base: nat,
                                     b: nat)
    requires (base == 0 || 2 <= base <= 36) && |w| + |g| + |x| < |s| && Blank(w) && SignText(g, neg)
    requires var q := |w| + |g|; var first := q + |x|;
             && s[..|w|] == w && s[|w|..q] == g && s[q..first] == x
             && PrefixText(x, s[first], base, b) && Digit(s[first]) < b
             && (x == [] && s[first] == 48 && (base == 0 || base == 16) && first + 1 < |s| ==> !IsX(s[first + 1]))
    ensures HeadOf(s, 0, base) == Head(neg, b, |w| + |g| + |x|)
  {
    var q := |w| + |g|;
    if g != [] { assert s[|w|] == s[|w|..q][0]; }
    if x != [] { assert s[q] == s[q..q + 2][0] && s[q + 1] == s[q..q + 2][1]; }
    assert !IsSpace(s[|w|]);
    BlanksSkipped(s, w);
    assert SignEnd(s, 0) == q && (CharAt(s, |w|) == MINUS <==> neg);
  }

  lemma {:induction false} SpelledAt(s: seq<byte>, first: nat, t: seq<byte>, ds: seq<nat>, b: nat)
    requires b <= 36 && first + |t| <= |s| && s[first..first + |t|] == t && Spells(t, ds, b)
    ensures ValueOf(s, first, first + |t|, b) == Worth(ds, b)
  {
    SpelledDigits(t, ds, b);
    forall i | 0 <= i < |ds|
      ensures Digit(s[first + i]) == ds[i]
    {
      assert s[first + i] == t[i];
    }
    SpelledValue(s, first, ds, |t|, b);
    assert ds[..|t|] == ds;
  }

  /** The first two characters behind a prefix. */
  lemma {:induction false} FirstTwo(s: seq<byte>, first: nat, t: seq<byte>, post: seq<byte>)
    requires first + |t| <= |s| && t != [] && s[first..first + |t|] == t && s[first + |t|..] == post
    ensures s[first] == t[0]
    ensures first + 1 < |s| ==> s[first + 1] == if |t| > 1 then t[1] else post[0]
  {
    assert s[first] == s[first..first + |t|][0];
    if |t| > 1 {
      assert s[first + 1] == s[first..first + |t|][1];
    } else if first + 1 < |s| {
      assert s[first + 1] == s[first + |t|..][0];
    }
  }

  /** The number w + g + x + t, as it may be written: blanks, sign, prefix, and the digits ds of base b in either case.
      */
  ghost predicate NumberAs(w: seq<byte>, g: seq<byte>, x: seq<byte>, t: seq<byte>, post: seq<byte>,
                           neg: bool, ds: seq<nat>, base: nat, b: nat) {
    && (base == 0 || 2 <= base <= 36) && 2 <= b <= 36
    && Blank(w) && SignText(g, neg) && t != [] && Spells(t, ds, b) && PrefixText(x, t[0], base, b) && Ends(post, b)
    && (x == [] && t == [48] && (base == 0 || base == 16) && post != [] ==> post[0] != 120 && post[0] != 88)
  }

  lemma {:induction false} HeadOfText(s: seq<byte>, w: seq<byte>, g: seq<byte>, x: seq<byte>, t: seq<byte>,
                                      post: seq<byte>, neg: bool, ds: seq<nat>, base: nat, b: nat)
    requires NumberAs(w, g, x, t, post, neg, ds, base, b)
    requires Slices(s, w, g, x, t, post)
    ensures HeadOf(s, 0, base) == Head(neg, b, |w| + |g| + |x|)
  {
    var first := |w| + |g| + |x|;
    FirstTwo(s, first, t, post);
    SpelledDigits(t, ds, b);
    HeadReads(s, w, g, neg, x, base, b);
  }

  lemma {:induction false} RunOfText(w: seq<byte>, g: seq<byte>, x: seq<byte>, t: seq<byte>, post: seq<byte>,
                                     ds: seq<nat>, b: nat)
    requires 2 <= b <= 36 && Spells(t, ds, b) && Ends(post, b)
    ensures DigitRun(w + g + x + t + post, |w| + |g| + |x|, b) == |w| + |g| + |x| + |t|
  {
    SpelledDigits(t, ds, b);
    EndStops(post, b);
    RunIs(w + g + x, t, post, b);
  }

  /**
   * Every number as it may be written, with letters of either case, is read: its value, saturated to max or negated
   * modulo max + 1, and the end right behind its last digit.
   */
  lemma {:induction false} TextReads(w: seq<byte>, g: seq<byte>, x: seq<byte>, t: seq<byte>, post: seq<byte>,
                                     neg: bool, ds: seq<nat>, base: nat, b: nat, max: nat)
    requires NumberAs(w, g, x, t, post, neg, ds, base, b)
    ensures var v := Worth(ds, b);
            Reading(w + g + x + t + post, 0, base, max)
            == Parsed(if v > max then max else if neg && v > 0 then max + 1 - v else v, |w| + |g| + |x| + |t|)
  {
    PartsAt(w, g, x, t, post);
    RunOfText(w, g, x, t, post, ds, b);
    SlicesRead(w + g + x + t + post, w, g, x, t, post, neg, ds, base, b, max);
  }

  lemma {:induction false} SlicesRead(s: seq<byte>, w: seq<byte>, g: seq<byte>, x: seq<byte>, t: seq<byte>,
                                      post: seq<byte>, neg: bool, ds: seq<nat>, base: nat, b: nat, max: nat)
    requires NumberAs(w, g, x, t, post, neg, ds, base, b) && Slices(s, w, g, x, t, post)
    requires DigitRun(s, |w| + |g| + |x|, b) == |w| + |g| + |x| + |t|
    ensures var v := Worth(ds, b);
            Reading(s, 0, base, max)
            == Parsed(if v > max then max else if neg && v > 0 then max + 1 - v else v, |w| + |g| + |x| + |t|)
  {
    var first := |w| + |g| + |x|;
    assert HeadOf(s, 0, base) == Head(neg, b, first) by { HeadOfText(s, w, g, x, t, post, neg, ds, base, b); }
    SpelledAt(s, first, t, ds, b);
    Assembled(s, neg, b, first, first + |t|, Worth(ds, b), base, max);
  }

  lemma {:induction false} Assembled(s: seq<byte>, neg: bool, b: nat, first: nat, e: nat, v: nat, base: nat, max: nat)
    requires (base == 0 || 2 <= base <= 36) && 2 <= b <= 36 && first < e <= |s|
    requires HeadOf(s, 0, base) == Head(neg, b, first) && DigitRun(s, first, b) == e && ValueOf(s, first, e, b) == v
    ensures Reading(s, 0, base, max) == Parsed(if v > max then max else if neg && v > 0 then max + 1 - v else v, e)
  {
  }
}
