/** Partitions in every form a table may have them, and the search in a table written from them. */
module MtdSpecs {
  import opened Options
  import opened DivBits
  import opened MemCpy
  import opened CStrings
  import opened StrToUl
  import opened Numerals
  import opened Sizes
  import opened FindParts
  import opened MtdLists
  import opened MtdTables

  /** A size or offset: a number with a suffix, or '-' for all that is left. */
  datatype Amount = Number(m: nat, suffix: nat) | Rest

  /** size@offset(name)rolk, of which only the size is needed */
  datatype Spec = Spec(size: Amount, offset: Option<Amount>, name: Option<seq<byte>>, ro: bool, lk: bool)

  function AmountText(a: Amount): seq<byte>
    requires a.Number? ==> a.suffix <= 3
  {
    match a
    case Number(m, suffix) => Numeral(m, 10) + Suffix(suffix)
    case Rest => ['-' as int]
  }

  /** What the text stands for; '-' is the largest 64-bit number. */
  function AmountValue(a: Amount): nat {
    match a
    case Number(m, suffix) =>
      if suffix == 0 then m else if suffix == 1 then m * 0x400 else if suffix == 2 then m * 0x10_0000
        else m * 0x4000_0000
    case Rest => 0xFFFF_FFFF_FFFF_FFFF
  }

  predicate Fits64(a: Amount) {
    a.Number? ==> a.suffix <= 3 && (a.m > 0 || a.suffix == 0) && AmountValue(a) <= 0xFFFF_FFFF_FFFF_FFFF
  }

  /** At least 8192 bytes, an offset that is a number, and a name without the parenthesis that ends it. */
  predicate WellFormed(p: Spec) {
    && Fits64(p.size) && AmountValue(p.size) >= 8192
    && (p.offset.Some? ==> p.offset.value.Number? && Fits64(p.offset.value))
    && (p.name.Some? ==> CLOSE !in p.name.value)
  }

  function OffsetText(p: Spec): seq<byte>
    requires WellFormed(p)
  {
    if p.offset == None then [] else ['@' as int] + AmountText(p.offset.value)
  }

  function NameText(p: Spec): seq<byte> {
    if p.name == None then [] else ['(' as int] + p.name.value + [')' as int]
  }

  function FlagsText(p: Spec): seq<byte> {
    (if p.ro then ['r' as int, 'o' as int] else []) + (if p.lk then ['l' as int, 'k' as int] else [])
  }

  function SpecText(p: Spec): seq<byte>
    requires WellFormed(p)
  {
    AmountText(p.size) + (OffsetText(p) + (NameText(p) + FlagsText(p)))
  }

  function SpecPart(p: Spec): Part {
    Part(AmountValue(p.size), p.name)
  }

  // ---------------------------------------------------------------- amounts

  /** What may follow an amount. */
  predicate Follows(u: seq<byte>) {
    u == [] || u[0] == 64 || u[0] == 40 || u[0] == 114 || u[0] == 108 || u[0] == 44 || u[0] == 59
  }

  lemma {:induction false} ValueScaled(m: nat, suffix: nat)
    requires suffix <= 3
    ensures AmountValue(Number(m, suffix)) == ScaledUp(m, suffix)
  {
    Scales();
    assert ScaledUp(m, 0) == m;
  }

  lemma {:induction false} ZeroInside(pre: seq<byte>, u: seq<byte>)
    requires Follows(u)
    ensures SizeRead(pre + ([ZERO] + u), |pre|) == Parsed(0, |pre| + 1)
  {
    var s, q := pre + ([ZERO] + u), |pre|;
    assert s[q] == ZERO && (u != [] ==> s[q + 1] == u[0]);
    assert HeadOf(s, q, 0) == Head(false, 8, q);
    RunStops(s, q + 1, 8);
    assert DigitRun(s, q, 8) == q + 1;
    assert ValueOf(s, q, q + 1, 8) == 0;
  }

  /** A number with its suffix is read wherever it stands in a table. */
  lemma {:induction false} AmountInside(pre: seq<byte>, a: Amount, u: seq<byte>)
    requires a.Number? && Fits64(a) && Follows(u)
    ensures SizeRead(pre + (AmountText(a) + u), |pre|) == Parsed(AmountValue(a), |pre| + |AmountText(a)|)
  {
    ValueScaled(a.m, a.suffix);
    if a.m == 0 {
      assert AmountText(a) == [ZERO];
      ZeroInside(pre, u);
    } else {
      SizeInside(pre, a.m, a.suffix, u);
    }
  }

  lemma {:induction false} FirstOf(pre: seq<byte>, x: seq<byte>, u: seq<byte>)
    requires x != []
    ensures CharAt(pre + (x + u), |pre|) == x[0]
  {
  }

  lemma {:induction false} AmountStart(a: Amount)
    requires a.Number? && a.suffix <= 3
    ensures AmountText(a) != [] && AmountText(a)[0] != DASH
  {
    NumeralDigits(a.m, 10);
  }

  lemma {:induction false} SizeAt(t: seq<byte>, pre: seq<byte>, a: Amount, u: seq<byte>)
    requires Fits64(a) && AmountValue(a) >= 8192 && Follows(u) && t == pre + (AmountText(a) + u)
    ensures SizeField(t, |pre|) == Some(Field(|pre| + |AmountText(a)|, AmountValue(a)))
  {
    FirstOf(pre, AmountText(a), u);
    if a.Number? {
      AmountStart(a);
      assert SizeRead(t, |pre|) == Parsed(AmountValue(a), |pre| + |AmountText(a)|) by { AmountInside(pre, a, u); }
      SizeIs(t, |pre|, AmountValue(a), |pre| + |AmountText(a)|);
    }
  }

  lemma {:induction false} SizeIs(t: seq<byte>, s: nat, v: nat, e: nat)
    requires s <= |t| && CharAt(t, s) != DASH && SizeRead(t, s) == Parsed(v, e) && v >= 8192
    ensures SizeField(t, s) == Some(Field(e, v))
  {
  }

  lemma {:induction false} OffsetIs(t: seq<byte>, s: nat, v: nat, e: nat)
    requires s < |t| && CharAt(t, s) == AT_SIGN && SizeRead(t, s + 1) == Parsed(v, e)
    ensures OffsetEnd(t, s) == e
  {
  }

  /** A partition that is too small is refused, whatever follows its size. */
  lemma {:induction false} SmallRefused(pre: seq<byte>, a: Amount, u: seq<byte>)
    requires Fits64(a) && AmountValue(a) < 8192 && Follows(u)
    ensures PartField(pre + (AmountText(a) + u), |pre|) == None
  {
    AmountStart(a);
    FirstOf(pre, AmountText(a), u);
    AmountInside(pre, a, u);
  }

  // ---------------------------------------------------------------- the other fields

  lemma {:induction false} OffsetAt(t: seq<byte>, pre: seq<byte>, p: Spec, u: seq<byte>)
    requires WellFormed(p) && Follows(u) && (u == [] || u[0] != 64) && t == pre + (OffsetText(p) + u)
    ensures OffsetEnd(t, |pre|) == |pre| + |OffsetText(p)|
  {
    if p.offset == None {
      assert t == pre + u;
      assert CharAt(t, |pre|) == if u == [] then 0 else u[0];
    } else {
      var x := AmountText(p.offset.value);
      var e := |pre| + 1 + |x|;
      assert pre + (([AT_SIGN] + x) + u) == (pre + [AT_SIGN]) + (x + u);
      FirstOf(pre, OffsetText(p), u);
      assert SizeRead(t, |pre| + 1) == Parsed(AmountValue(p.offset.value), e) by {
        AmountInside(pre + [AT_SIGN], p.offset.value, u);
      }
      OffsetIs(t, |pre|, AmountValue(p.offset.value), e);
    }
  }

  lemma {:induction false} NameAt(t: seq<byte>, pre: seq<byte>, p: Spec, u: seq<byte>)
    requires WellFormed(p) && (u == [] || u[0] != 40) && t == pre + (NameText(p) + u)
    ensures NameField(t, |pre|) == Some(Field(|pre| + |NameText(p)|, p.name))
  {
    if p.name == None {
      assert t == pre + u;
      assert CharAt(t, |pre|) == if u == [] then 0 else u[0];
    } else {
      NameInside(t, pre, p.name.value, u);
    }
  }

  lemma {:induction false} SkipAt(t: seq<byte>, pre: seq<byte>, there: bool, a: byte, b: byte, u: seq<byte>)
    requires t == pre + ((if there then [a, b] else []) + u) && (!there ==> u == [] || u[0] != a)
    ensures SkipTwo(t, |pre|, a, b) == |pre| + if there then 2 else 0
  {
    if there {
      assert t[|pre|] == a && t[|pre| + 1] == b;
    } else {
      assert t == pre + u;
      assert u != [] ==> t[|pre|] == u[0];
    }
  }

  lemma {:induction false} FlagsAt(t: seq<byte>, pre: seq<byte>, p: Spec, post: seq<byte>)
    requires Delimited(post) && t == pre + (FlagsText(p) + post)
    ensures FlagsEnd(t, |pre|) == |pre| + |FlagsText(p)|
  {
    var r: seq<byte>, l: seq<byte> := if p.ro then [114, 111] else [], if p.lk then [108, 107] else [];
    assert (r + l) + post == r + (l + post);
    assert l + post == [] || (l + post)[0] == if p.lk then 108 else post[0];
    SkipAt(t, pre, p.ro, 114, 111, l + post);
    assert pre + (r + (l + post)) == (pre + r) + (l + post);
    SkipAt(t, pre + r, p.lk, 108, 107, post);
  }

  // ---------------------------------------------------------------- whole partitions

  /** A text of four pieces, split before each of them. */
  lemma {:induction false} Regroup4(t: seq<byte>, pre: seq<byte>, a: seq<byte>, o: seq<byte>, n: seq<byte>,
                                    f: seq<byte>,
                                    post: seq<byte>)
    returns (x: seq<byte>, y: seq<byte>, z: seq<byte>, u: seq<byte>, v: seq<byte>, g: seq<byte>)
    requires t == pre + ((a + (o + (n + f))) + post)
    ensures g == f + post && v == n + g && u == o + v
    ensures t == pre + (a + u) == x + (o + v) == y + (n + g) == z + (f + post)
    ensures |x| == |pre| + |a| && |y| == |x| + |o| && |z| == |y| + |n|
  {
    g := f + post;
    v := n + g;
    u := o + v;
    x := pre + a;
    y := x + o;
    z := y + n;
    assert (n + f) + post == v;
    assert (o + (n + f)) + post == o + ((n + f) + post);
    assert (a + (o + (n + f))) + post == a + ((o + (n + f)) + post);
    assert pre + (a + u) == x + u;
    assert x + (o + v) == y + v;
    assert y + (n + g) == z + g;
  }

  /** What may follow each field of a partition. */
  lemma {:induction false} Heads(p: Spec, post: seq<byte>, u: seq<byte>, v: seq<byte>, g: seq<byte>)
    requires WellFormed(p) && Delimited(post) && g == FlagsText(p) + post && v == NameText(p) + g
             && u == OffsetText(p) + v
    ensures Follows(u) && Follows(v) && (v == [] || v[0] != 64) && (g == [] || g[0] != 40)
  {
    FlagsHead(p, post);
    Head2(NameText(p), g);
    Head2(OffsetText(p), v);
  }

  lemma {:induction false} Head2(x: seq<byte>, u: seq<byte>)
    ensures x == [] ==> x + u == u
    ensures x != [] ==> x + u != [] && (x + u)[0] == x[0]
  {
  }

  lemma {:induction false} FlagsHead(p: Spec, post: seq<byte>)
    requires Delimited(post)
    ensures var u := FlagsText(p) + post; u == [] || u[0] == 114 || u[0] == 108 || u[0] == 44 || u[0] == 59
  {
    var r: seq<byte>, l: seq<byte> := if p.ro then [114, 111] else [], if p.lk then [108, 107] else [];
    assert (r + l) + post == r + (l + post);
    Head2(r, l + post);
    Head2(l, post);
  }

  /** p stands in t from s to e. The quantifier keeps the reading itself out of proofs that only pass this on. */
  ghost predicate Placed(t: seq<byte>, s: nat, e: nat, p: Part) {
    s <= |t| && forall i: nat {:trigger PartField(t, i)} :: i == s ==> PartField(t, i) == Some(Field(e, p))
  }

  lemma {:induction false} PlacedIs(t: seq<byte>, s: nat, e: nat, p: Part)
    requires Placed(t, s, e, p)
    ensures s <= |t| && PartField(t, s) == Some(Field(e, p))
  {
  }

  lemma {:induction false} FieldsMake(t: seq<byte>, s: nat, a: nat, o: nat, n: nat, e: nat, length: nat,
                                      name: Option<seq<byte>>)
    requires s <= |t| && SizeField(t, s) == Some(Field(a, length)) && a <= |t| && OffsetEnd(t, a) == o
    requires NameField(t, o) == Some(Field(n, name)) && FlagsEnd(t, n) == e
    ensures Placed(t, s, e, Part(length, name))
  {
  }

  /** Size and offset, with what stands before and behind them. */
  lemma {:induction false} SizeThenOffset(t: seq<byte>, p: Spec, w: seq<byte>, u: seq<byte>, x: seq<byte>, v: seq<byte>)
    requires WellFormed(p) && t == w + (AmountText(p.size) + u) && Follows(u) && |x| == |w| + |AmountText(p.size)|
    requires t == x + (OffsetText(p) + v) && Follows(v) && (v == [] || v[0] != 64)
    ensures SizeField(t, |w|) == Some(Field(|x|, AmountValue(p.size))) && |x| <= |t|
    ensures OffsetEnd(t, |x|) == |x| + |OffsetText(p)|
  {
    assert SizeField(t, |w|) == Some(Field(|x|, AmountValue(p.size))) by { SizeAt(t, w, p.size, u); }
    OffsetAt(t, x, p, v);
  }

  /** Name and flags. */
  lemma {:induction false} NameThenFlags(t: seq<byte>, p: Spec, y: seq<byte>, f: seq<byte>, z: seq<byte>,
                                         post: seq<byte>)
    requires WellFormed(p) && Delimited(post) && t == y + (NameText(p) + f) && (f == [] || f[0] != 40)
    requires t == z + (FlagsText(p) + post) && |z| == |y| + |NameText(p)|
    ensures NameField(t, |y|) == Some(Field(|z|, p.name)) && |z| <= |t|
    ensures FlagsEnd(t, |z|) == |z| + |FlagsText(p)|
  {
    assert NameField(t, |y|) == Some(Field(|z|, p.name)) by { NameAt(t, y, p, f); }
    FlagsAt(t, z, p, post);
  }

  /** x is the text of p. The quantifier keeps the text itself out of proofs that only pass this on. */
  ghost predicate Writes(p: Spec, x: seq<byte>, part: Part) {
    WellFormed(p) && part == SpecPart(p) && forall q: Spec {:trigger SpecText(q)} :: q == p ==> x == SpecText(q)
  }

  /** A partition of any form is read back, wherever it stands in a table. */
  lemma {:induction false} SpecInside(t: seq<byte>, pre: seq<byte>, p: Spec, x: seq<byte>, post: seq<byte>, s: nat,
                                      e: nat, part: Part)
    requires Writes(p, x, part) && Delimited(post)
    requires t == pre + (x + post) && s == |pre| && e == s + |x|
    ensures Placed(t, s, e, part)
  {
    assert x == SpecText(p);
    var q, y, z, u, v, g := Regroup4(t, pre, AmountText(p.size), OffsetText(p), NameText(p), FlagsText(p), post);
    Heads(p, post, u, v, g);
    SizeThenOffset(t, p, pre, u, q, v);
    NameThenFlags(t, p, y, g, z, post);
    FieldsMake(t, s, |q|, |y|, |z|, e, AmountValue(p.size), p.name);
  }

  /** x stands for the partition p wherever it stands before a delimiter. */
  ghost predicate PlacedEverywhere(x: seq<byte>, p: Part) {
    forall pre: seq<byte>, post: seq<byte> {:trigger pre + (x + post)} ::
      Delimited(post) ==> Placed(pre + (x + post), |pre|, |pre| + |x|, p)
  }

  lemma {:induction false} EverywhereReads(x: seq<byte>, p: Part)
    requires PlacedEverywhere(x, p)
    ensures ReadsAs(x, p)
  {
    forall pre: seq<byte>, post: seq<byte> | Delimited(post)
      ensures PartField(pre + (x + post), |pre|) == Some(Field(|pre| + |x|, p))
    {
      PlacedIs(pre + (x + post), |pre|, |pre| + |x|, p);
    }
  }

  lemma {:induction false} SpecEverywhere(p: Spec, x: seq<byte>, part: Part)
    requires Writes(p, x, part)
    ensures PlacedEverywhere(x, part)
  {
    forall pre: seq<byte>, post: seq<byte> | Delimited(post)
      ensures Placed(pre + (x + post), |pre|, |pre| + |x|, part)
    {
      SpecInside(pre + (x + post), pre, p, x, post, |pre|, |pre| + |x|, part);
    }
  }

  /** The text of a partition is read back wherever it stands before a delimiter. */
  lemma {:induction false} SpecReads(p: Spec, x: seq<byte>, part: Part)
    requires WellFormed(p) && x == SpecText(p) && part == SpecPart(p)
    ensures ReadsAs(x, part)
  {
    SpecEverywhere(p, x, part);
    EverywhereReads(x, part);
  }

  // ---------------------------------------------------------------- lists and tables

  /** A medium with its partitions. */
  datatype Line = Line(id: seq<byte>, specs: seq<Spec>)

  predicate AllWellFormed(ps: seq<Spec>) {
    forall i :: 0 <= i < |ps| ==> WellFormed(ps[i])
  }

  /** Partitions of any form, of which only the last may take all that is left. */
  ghost predicate ListFormed(ps: seq<Spec>) {
    && ps != [] && AllWellFormed(ps)
    && (forall i :: 0 <= i < |ps| - 1 ==> AmountValue(ps[i].size) < 0xFFFF_FFFF_FFFF_FFFF)
  }

  function Pieces(ps: seq<Spec>): (r: seq<Piece>)
    requires AllWellFormed(ps)
    ensures |r| == |ps| && forall i :: 0 <= i < |ps| ==> r[i] == Piece(SpecText(ps[i]), SpecPart(ps[i]))
  {
    if ps == [] then [] else [Piece(SpecText(ps[0]), SpecPart(ps[0]))] + Pieces(ps[1..])
  }

  lemma {:induction false} PiecesRead(ps: seq<Spec>)
    requires ListFormed(ps)
    ensures AllRead(Pieces(ps))
  {
    var r := Pieces(ps);
    forall i | 0 <= i < |r|
      ensures ReadsAs(r[i].text, r[i].part) && (i + 1 < |r| ==> r[i].part.length != FILL)
    {
      SpecReads(ps[i], r[i].text, r[i].part);
    }
  }

  /** Zero and the semicolon occur in a partition only if they occur in its name. */
  lemma {:induction false} SpecWithout(p: Spec, c: byte)
    requires WellFormed(p) && (c == 0 || c == SEMICOLON) && (p.name.Some? ==> c !in p.name.value)
    ensures c !in SpecText(p)
  {
    AmountWithout(p.size, c);
    if p.offset.Some? { AmountWithout(p.offset.value, c); }
  }

  lemma {:induction false} AmountWithout(a: Amount, c: byte)
    requires Fits64(a) && (c == 0 || c == SEMICOLON)
    ensures c !in AmountText(a)
  {
    if a.Number? { NumeralLower(a.m, 10); }
  }

  lemma {:induction false} ListWithout(ps: seq<Piece>, c: byte)
    requires c != COMMA && forall i :: 0 <= i < |ps| ==> c !in ps[i].text
    ensures c !in ListText(ps)
    decreases |ps|
  {
    if ps != [] { ListWithout(ps[1..], c); }
  }

  lemma {:induction false} TableWithout(ds: seq<Medium>, c: byte)
    requires c != COLON && c != SEMICOLON && forall i :: 0 <= i < |ds| ==>
             c !in ds[i].id && c !in ListText(ds[i].pieces)
    ensures c !in TableText(ds)
    decreases |ds|
  {
    if ds != [] { TableWithout(ds[1..], c); }
  }

  /** Names without the marks that end them, and without zeros. */
  ghost predicate LineFormed(d: Line) {
    && ListFormed(d.specs) && Chars(d.id) && COLON !in d.id && SEMICOLON !in d.id
    && forall i :: 0 <= i < |d.specs| && d.specs[i].name.Some? ==>
         Chars(d.specs[i].name.value) && SEMICOLON !in d.specs[i].name.value
  }

  lemma {:induction false} SpecsWithout(d: Line, c: byte)
    requires LineFormed(d) && (c == 0 || c == SEMICOLON)
    ensures c !in ListText(Pieces(d.specs))
  {
    forall i | 0 <= i < |d.specs|
      ensures c !in Pieces(d.specs)[i].text
    {
      SpecWithout(d.specs[i], c);
    }
    ListWithout(Pieces(d.specs), c);
  }

  lemma {:induction false} LineWritable(d: Line)
    requires LineFormed(d)
    ensures Writable(Medium(d.id, Pieces(d.specs))) && 0 !in ListText(Pieces(d.specs))
  {
    PiecesRead(d.specs);
    SpecsWithout(d, SEMICOLON);
    SpecsWithout(d, 0);
  }

  ghost predicate AllFormed(ds: seq<Line>) {
    forall d :: d in ds ==> LineFormed(d)
  }

  /** The media of a table, with the texts of their partitions. */
  function Lines(ds: seq<Line>): (r: seq<Medium>)
    requires AllFormed(ds)
    ensures |r| == |ds|
    ensures forall k :: 0 <= k < |ds| ==> LineFormed(ds[k]) && r[k] == Medium(ds[k].id, Pieces(ds[k].specs))
  {
    if ds == [] then [] else
      assert ds[0] in ds;
      [Medium(ds[0].id, Pieces(ds[0].specs))] + Lines(ds[1..])
  }

  lemma {:induction false} LinesWritable(ds: seq<Line>)
    requires AllFormed(ds)
    ensures AllWritable(Lines(ds)) && Chars(TableText(Lines(ds)))
  {
    forall k | 0 <= k < |ds|
      ensures Writable(Lines(ds)[k]) && 0 !in Lines(ds)[k].id && 0 !in ListText(Lines(ds)[k].pieces)
    {
      LineWritable(ds[k]);
    }
    TableWithout(Lines(ds), 0);
  }

  lemma {:induction false} PartsWritten(ps: seq<Piece>)
    ensures |PartsOf(ps)| == |ps| && forall i :: 0 <= i < |ps| ==> PartsOf(ps)[i] == ps[i].part
    decreases |ps|
  {
    if ps != [] { PartsWritten(ps[1..]); }
  }

  lemma {:induction false} MediaWritten(ds: seq<Medium>)
    ensures |MediaOf(ds)| == |ds|
    ensures forall k :: 0 <= k < |ds| ==> MediaOf(ds)[k] == Media(ds[k].id, PartsOf(ds[k].pieces))
    decreases |ds|
  {
    if ds != [] { MediaWritten(ds[1..]); }
  }

  /** The lengths of the first i partitions. */
  function Before(ps: seq<Spec>, i: nat): nat
    requires i <= |ps|
  {
    if i == 0 then 0 else Before(ps, i - 1) + AmountValue(ps[i - 1].size)
  }

  /** Partition i of medium k is the first of its name on the first medium of that name to have one. */
  ghost predicate FirstOfName(ds: seq<Line>, media: seq<byte>, name: seq<byte>, k: nat, i: nat) {
    && k < |ds| && i < |ds[k].specs| && ds[k].id == media && ds[k].specs[i].name == Some(name)
    && (forall j :: 0 <= j < i ==> ds[k].specs[j].name != Some(name))
    && (forall l, j :: 0 <= l < k && ds[l].id == media && 0 <= j < |ds[l].specs| ==> ds[l].specs[j].name != Some(name))
  }

  /** What find_flash_part is to answer: the first such partition with its start and length, or that there is none. */
  ghost predicate Answered(ds: seq<Line>, media: seq<byte>, name: seq<byte>, ret: int, start: nat, length: nat) {
    || (ret == 0 && exists k: nat, i: nat ::
          && FirstOfName(ds, media, name, k, i) && start == Before(ds[k].specs, i) % TWO_64
          && length == AmountValue(ds[k].specs[i].size))
    || (ret == -1 && forall k, i :: 0 <= k < |ds| && ds[k].id == media && 0 <= i < |ds[k].specs| ==>
          ds[k].specs[i].name != Some(name))
  }

  lemma {:induction false} SumBefore(ps: seq<Spec>, parts: seq<Part>, i: nat)
    requires |parts| == |ps| && i <= |ps| && forall j :: 0 <= j < |ps| ==> parts[j] == SpecPart(ps[j])
    ensures Sum(parts[..i]) == Before(ps, i)
    decreases i
  {
    if i > 0 {
      SumBefore(ps, parts, i - 1);
      SumLast(parts[..i - 1], parts[i - 1]);
      assert parts[..i] == parts[..i - 1] + [parts[i - 1]];
    }
  }

  lemma {:induction false} SumLast(parts: seq<Part>, p: Part)
    ensures Sum(parts + [p]) == Sum(parts) + p.length
    decreases |parts|
  {
    if parts == [] {
      assert [] + [p] == [p];
    } else {
      SumLast(parts[1..], p);
      assert (parts + [p])[1..] == parts[1..] + [p];
    }
  }

  /** From medium n on, none before it having the partition. */
  lemma {:induction false} LocatedFrom(ds: seq<Line>, mtds: seq<Media>, n: nat, media: seq<byte>, name: seq<byte>,
                                       ret: int, start: nat, length: nat)
    requires |mtds| == |ds| && n <= |ds| && Located(mtds[n..], media, name, ret, start, length)
    requires forall k :: 0 <= k < |ds| ==> mtds[k].id == ds[k].id && |mtds[k].parts| == |ds[k].specs|
    requires forall k, i :: 0 <= k < |ds| && 0 <= i < |ds[k].specs| ==> mtds[k].parts[i] == SpecPart(ds[k].specs[i])
    requires forall k, i :: 0 <= k < n && ds[k].id == media && 0 <= i < |ds[k].specs| ==>
               ds[k].specs[i].name != Some(name)
    ensures Answered(ds, media, name, ret, start, length)
    decreases |ds| - n
  {
    if n < |ds| {
      var m, i := mtds[n], First(mtds[n].parts, name);
      assert mtds[n..][0] == m && mtds[n..][1..] == mtds[n + 1..];
      if Has(m, media, name) {
        SumBefore(ds[n].specs, m.parts, i);
        FirstSpec(ds[n].specs, m.parts, name);
        assert FirstOfName(ds, media, name, n, i);
      } else {
        FirstSpec(ds[n].specs, m.parts, name);
        LocatedFrom(ds, mtds, n + 1, media, name, ret, start, length);
      }
    }
  }

  lemma {:induction false} FirstSpec(ps: seq<Spec>, parts: seq<Part>, name: seq<byte>)
    requires |parts| == |ps| && forall j :: 0 <= j < |ps| ==> parts[j] == SpecPart(ps[j])
    ensures var i := First(parts, name);
            && (forall j :: 0 <= j < i ==> ps[j].name != Some(name))
            && (i < |ps| ==> ps[i].name == Some(name))
  {
    var i := First(parts, name);
    forall j | 0 <= j < i
      ensures ps[j].name != Some(name)
    {
      assert parts[j].name == ps[j].name;
    }
    assert i < |ps| ==> parts[i].name == ps[i].name;
  }

  lemma {:induction false} LinesMedia(ds: seq<Line>)
    requires AllFormed(ds)
    ensures var mtds := MediaOf(Lines(ds));
            && |mtds| == |ds|
            && (forall k :: 0 <= k < |ds| ==> mtds[k].id == ds[k].id && |mtds[k].parts| == |ds[k].specs|)
            && forall k, i :: 0 <= k < |ds| && 0 <= i < |ds[k].specs| ==> mtds[k].parts[i] == SpecPart(ds[k].specs[i])
  {
    MediaWritten(Lines(ds));
    forall k | 0 <= k < |ds|
      ensures |PartsOf(Pieces(ds[k].specs))| == |ds[k].specs|
      ensures forall i :: 0 <= i < |ds[k].specs| ==> PartsOf(Pieces(ds[k].specs))[i] == SpecPart(ds[k].specs[i])
    {
      PartsWritten(Pieces(ds[k].specs));
    }
  }

  /** find_flash_part on a table of any form: '-' at the end of a list is a partition of 2^64 - 1 bytes, offsets and
      flags
      are skipped, and partitions without a name count for the start only. */
  method FindSpecified(ds: seq<Line>, media: seq<byte>, name: seq<byte>) returns (ret: int, start: nat, length: nat)
    requires ds != [] && Chars(media) && Chars(name) && AllFormed(ds)
    ensures Answered(ds, media, name, ret, start, length)
  {
    LinesWritable(ds);
    ret, start, length := FindWritten(Lines(ds), media, name);
    LinesMedia(ds);
    ghost var mtds := MediaOf(Lines(ds));
    assert mtds[0..] == mtds;
    LocatedFrom(ds, mtds, 0, media, name, ret, start, length);
  }

  // ---------------------------------------------------------------- what is refused

  /** A partition of less than 8192 bytes, or one that takes all that is left with more behind it. */
  datatype Refused = Small(a: Amount, u: seq<byte>) | NotLast(p: Spec, u: seq<byte>)

  predicate RefusedFormed(b: Refused) {
    match b
    case Small(a, u) => Fits64(a) && AmountValue(a) < 8192 && Follows(u)
    case NotLast(p, u) => WellFormed(p) && p.size == Rest
  }

  function RefusedText(b: Refused): seq<byte>
    requires RefusedFormed(b)
  {
    match b
    case Small(a, u) => AmountText(a) + u
    case NotLast(p, u) => SpecText(p) + ([COMMA] + u)
  }

  /** Partitions with a comma behind each. */
  function FrontText(ps: seq<Piece>): seq<byte> {
    if ps == [] then [] else ps[0].text + ([COMMA] + FrontText(ps[1..]))
  }

  /** Partitions that are read, of other names. */
  ghost predicate Passed(ps: seq<Piece>, name: seq<byte>) {
    forall i :: 0 <= i < |ps| ==> ReadsAs(ps[i].text, ps[i].part) && ps[i].part.name != Some(name)
  }

  lemma {:induction false} SpecsPassed(ps: seq<Spec>, name: seq<byte>)
    requires AllWellFormed(ps) && forall i :: 0 <= i < |ps| ==> ps[i].name != Some(name)
    ensures Passed(Pieces(ps), name)
  {
    var r := Pieces(ps);
    forall i | 0 <= i < |r|
      ensures ReadsAs(r[i].text, r[i].part) && r[i].part.name != Some(name)
    {
      SpecReads(ps[i], r[i].text, r[i].part);
    }
  }

  lemma {:induction false} RefusedBreaks(f: Reader, t: seq<byte>, pre: seq<byte>, s: nat, b: Refused, name: seq<byte>)
    requires Reads(f, t) && RefusedFormed(b) && t == pre + RefusedText(b) && s == |pre|
    ensures Broken(f, t, s, name)
  {
    assert f(s) == PartField(t, s);
    match b {
      case Small(a, u) =>
        SmallRefused(pre, a, u);
      case NotLast(p, u) =>
        var x := SpecText(p);
        SpecReads(p, x, SpecPart(p));
        PieceAt(f, t, pre, s, x, [COMMA] + u, s + |x|, SpecPart(p));
    }
  }

  /** Going on behind a partition of another name. */
  lemma {:induction false} BrokenOn(f: Reader, t: seq<byte>, pre: seq<byte>, s: nat, q: nat, x: Piece, u: seq<byte>,
                                    name: seq<byte>)
    requires Reads(f, t) && ReadsAs(x.text, x.part) && x.part.name != Some(name)
    requires t == pre + (x.text + ([COMMA] + u)) && s == |pre| && q == s + |x.text| && Broken(f, t, q + 1, name)
    ensures Broken(f, t, s, name)
  {
    PieceAt(f, t, pre, s, x.text, [COMMA] + u, q, x.part);
  }

  lemma {:induction false} Front2(t: seq<byte>, pre: seq<byte>, x: seq<byte>, y: seq<byte>, z: seq<byte>)
    requires t == pre + ((x + ([COMMA] + y)) + z)
    ensures t == pre + (x + ([COMMA] + (y + z))) == ((pre + x) + [COMMA]) + (y + z)
  {
    assert (x + ([COMMA] + y)) + z == x + ([COMMA] + (y + z));
    assert pre + (x + ([COMMA] + (y + z))) == ((pre + x) + [COMMA]) + (y + z);
  }

  lemma {:induction false} BrokenBehind(f: Reader, t: seq<byte>, pre: seq<byte>, s: nat, ps: seq<Piece>, z: seq<byte>,
                                        name: seq<byte>)
    requires Reads(f, t) && Passed(ps, name) && t == pre + (FrontText(ps) + z) && s == |pre|
    requires Broken(f, t, s + |FrontText(ps)|, name)
    ensures Broken(f, t, s, name)
    decreases |ps|
  {
    if ps != [] {
      var x, y := ps[0].text, FrontText(ps[1..]);
      Front2(t, pre, x, y, z);
      BrokenBehind(f, t, (pre + x) + [COMMA], s + |x| + 1, ps[1..], z, name);
      BrokenOn(f, t, pre, s, s + |x|, ps[0], y + z, name);
    }
  }

  lemma {:induction false} BrokenList(f: Reader, t: seq<byte>, pre: seq<byte>, s: nat, ps: seq<Piece>, b: Refused,
                                      z: seq<byte>, name: seq<byte>)
    requires Reads(f, t) && Passed(ps, name) && RefusedFormed(b) && z == RefusedText(b)
    requires t == pre + (FrontText(ps) + z) && s == |pre|
    ensures Broken(f, t, s, name)
  {
    var x := FrontText(ps);
    assert pre + (x + z) == (pre + x) + z;
    assert Broken(f, t, s + |x|, name) by { RefusedBreaks(f, t, pre + x, s + |x|, b, name); }
    BrokenBehind(f, t, pre, s, ps, z, name);
  }

  lemma {:induction false} ColonAt(t: seq<byte>, id: seq<byte>, w: seq<byte>)
    requires COLON !in id && t == id + ([COLON] + w)
    ensures IndexOf(t, 0, COLON) == |id| < |t| && t[0..|id|] == id && t == (id + [COLON]) + w
  {
    assert t == [] + (id + ([COLON] + w));
    FirstBehind(t, [], id, [COLON] + w, COLON);
  }

  lemma {:induction false} BrokenText(t: seq<byte>, id: seq<byte>, ps: seq<Piece>, b: Refused, z: seq<byte>,
                                      name: seq<byte>)
    requires Passed(ps, name) && RefusedFormed(b) && COLON !in id && z == RefusedText(b)
    requires t == id + ([COLON] + (FrontText(ps) + z))
    ensures BrokenFirst(PartsIn(t), t, 0, id, name)
  {
    ColonAt(t, id, FrontText(ps) + z);
    BrokenList(PartsIn(t), t, id + [COLON], |id| + 1, ps, b, z, name);
  }

  /** find_flash_part fails when its medium's list has, before any partition of the name, one that is too small, or more
      behind a '-'. */
  method FindRefused(id: seq<byte>, ps: seq<Spec>, b: Refused, name: seq<byte>)
    returns (ret: int, start: nat, length: nat)
    requires AllWellFormed(ps) && forall i :: 0 <= i < |ps| ==> ps[i].name != Some(name)
    requires RefusedFormed(b) && COLON !in id && Chars(id) && Chars(name)
    requires Chars(FrontText(Pieces(ps))) && Chars(RefusedText(b))
    ensures ret == -1
  {
    var x, z := FrontText(Pieces(ps)), RefusedText(b);
    var t := id + ([COLON] + (x + z));
    assert Chars(t);
    SpecsPassed(ps, name);
    BrokenText(t, id, Pieces(ps), b, z, name);
    ret, start, length := Search(t, id, name);
  }

  /** find_flash_part on the text t. */
  method Search(t: seq<byte>, media: seq<byte>, name: seq<byte>) returns (ret: int, start: nat, length: nat)
    requires Chars(t) && Chars(media) && Chars(name)
    ensures BrokenFirst(PartsIn(t), t, 0, media, name) ==> ret == -1
  {
    var parts := new MtdParts(t);
    ret, start, length := parts.FindFlashPart(media, name, []);
  }
}
