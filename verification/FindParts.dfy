/** The search for a partition in the text of a partition table. */
module FindParts {
  import opened Options
  import opened DivBits
  import opened MemCpy
  import opened CStrings
  import opened Numerals
  import opened Sizes

  const DASH: byte := 45
  const AT_SIGN: byte := 64
  const OPEN: byte := 40
  const CLOSE: byte := 41
  const COMMA: byte := 44
  const COLON: byte := 58
  const SEMICOLON: byte := 59
  const FILL: nat := 0xFFFF_FFFF_FFFF_FFFF

  /** One partition of a table: its length, FILL for all that is left, and its name if it has one. */
  datatype Part = Part(length: nat, name: Option<seq<byte>>)

  /** Position of the first character ch from s on, or the length of the text. */
  function IndexOf(text: seq<byte>, s: nat, ch: byte): (q: nat)
    requires s <= |text|
    ensures s <= q <= |text| && (q < |text| ==> text[q] == ch)
    decreases |text| - s
  {
    if s == |text| || text[s] == ch then s else IndexOf(text, s + 1, ch)
  }

  lemma {:induction false} IndexOfFirst(text: seq<byte>, s: nat, ch: byte)
    requires s <= |text|
    ensures forall i :: s <= i < IndexOf(text, s, ch) ==> text[i] != ch
    decreases |text| - s
  {
    if s < |text| && text[s] != ch { IndexOfFirst(text, s + 1, ch); }
  }

  // ---------------------------------------------------------------- the grammar

  datatype Field<T> = Field(end: nat, value: T)

  /** The size of a partition: '-' for all that is left, or a number of at least 8192. */
  function SizeField(text: seq<byte>, s: nat): (f: Option<Field<nat>>)
    requires s <= |text|
    ensures f.Some? ==> s <= f.value.end <= |text|
  {
    if CharAt(text, s) == DASH then Some(Field(s + 1, FILL)) else
      var r := SizeRead(text, s);
      if r.value < 8192 then None else Some(Field(r.end, r.value))
  }

  /** Where an offset ends, which is skipped. */
  function OffsetEnd(text: seq<byte>, s: nat): (e: nat)
    requires s <= |text|
    ensures s <= e <= |text|
  {
    if CharAt(text, s) == AT_SIGN then SizeRead(text, s + 1).end else s
  }

  /** A name in parentheses, or none; no field if the parenthesis is not closed. */
  function NameField(text: seq<byte>, s: nat): (f: Option<Field<Option<seq<byte>>>>)
    requires s <= |text|
    ensures f.Some? ==> s <= f.value.end <= |text|
  {
    if CharAt(text, s) != OPEN then Some(Field(s, None)) else
      var q := IndexOf(text, s + 1, CLOSE);
      if q == |text| then None else Some(Field(q + 1, Some(text[s + 1..q])))
  }

  /** The two characters a, b at s are skipped if they are there. */
  function SkipTwo(text: seq<byte>, s: nat, a: byte, b: byte): (e: nat)
    requires s <= |text|
    ensures s <= e <= |text|
  {
    if s + 2 <= |text| && text[s] == a && text[s + 1] == b then s + 2 else s
  }

  /** The flags "ro" and "lk", each at most once, in this order. */
  function FlagsEnd(text: seq<byte>, s: nat): (e: nat)
    requires s <= |text|
    ensures s <= e <= |text|
  {
    SkipTwo(text, SkipTwo(text, s, 114, 111), 108, 107)
  }

  /** The partition that stands at s: size, offset, name and flags, in this order. */
  function PartField(text: seq<byte>, s: nat): (f: Option<Field<Part>>)
    requires s <= |text|
    ensures f.Some? ==> s <= f.value.end <= |text|
  {
    var size := SizeField(text, s);
    if size == None then None else
      var name := NameField(text, OffsetEnd(text, size.value.end));
      if name == None then None
      else Some(Field(FlagsEnd(text, name.value.end), Part(size.value.value, name.value.value)))
  }

  /** What is read at each place of a text, if anything. */
  type Reader = nat -> Option<Field<Part>>

  /** The partitions as the text has them. */
  ghost function PartsIn(text: seq<byte>): (f: Reader)
    ensures Reads(f, text)
  {
    (i: nat) => if i <= |text| then PartField(text, i) else None
  }

  ghost predicate Reads(f: Reader, text: seq<byte>) {
    forall i: nat {:trigger PartField(text, i)} :: i <= |text| ==> f(i) == PartField(text, i)
  }

  /** A list of partitions stands between s and e, separated by commas; only the last may fill up. */
  ghost predicate ListAt(f: Reader, text: seq<byte>, s: nat, e: nat, parts: seq<Part>)
    decreases |parts|
  {
    && parts != [] && f(s).Some? && f(s).value.value == parts[0]
    && var m := f(s).value.end;
       && s <= m <= |text|
       && if |parts| == 1 then e == m && CharAt(text, m) != COMMA
          else
            m < |text| && CharAt(text, m) == COMMA && parts[0].length != FILL && ListAt(f, text, m + 1, e, parts[1..])
  }

  /** Before any partition of this name, the list has a partition that cannot be read, or more behind one that takes all
      that is left. */
  ghost predicate Broken(f: Reader, text: seq<byte>, s: nat, name: seq<byte>)
    decreases |text| - s
  {
    s <= |text| && (f(s) == None ||
      var m, p := f(s).value.end, f(s).value.value;
      && s <= m < |text| && text[m] == COMMA
      && (p.length == FILL || (p.name != Some(name) && Broken(f, text, m + 1, name))))
  }

  /** The first medium of the text is the one looked for, and its list is broken. */
  ghost predicate BrokenFirst(f: Reader, text: seq<byte>, s: nat, media: seq<byte>, name: seq<byte>) {
    s <= |text| && var c := IndexOf(text, s, COLON);
    c < |text| && text[s..c] == media && Broken(f, text, c + 1, name)
  }

  // ---------------------------------------------------------------- what is to be found

  /** The first partition of this name, or the number of partitions. */
  function First(parts: seq<Part>, name: seq<byte>): (i: nat)
    ensures i <= |parts|
    ensures i < |parts| ==> parts[i].name == Some(name)
    ensures forall k :: 0 <= k < i ==> parts[k].name != Some(name)
  {
    if parts == [] || parts[0].name == Some(name) then 0 else 1 + First(parts[1..], name)
  }

  function Sum(parts: seq<Part>): nat {
    if parts == [] then 0 else parts[0].length + Sum(parts[1..])
  }

  /** What find_part leaves: its return value, where it stopped, and the two results. */
  datatype Answer = Answer(ret: int, end: nat, start: nat, length: nat)

  function StartPast(start: nat, length: nat): (r: nat)
    ensures r < TWO_64
  {
    (start + length) % TWO_64
  }

  /** The answer for a list, one partition after the other. */
  ghost predicate Answers(a: Answer, parts: seq<Part>, name: seq<byte>, start: nat, e: nat)
    decreases |parts|
  {
    if parts == [] then a.ret == 0 && a.end == e
    else if parts[0].name == Some(name) then a.ret == 1 && a.start == start && a.length == parts[0].length
    else Answers(a, parts[1..], name, StartPast(start, parts[0].length), e)
  }

  lemma {:induction false} StartSum(start: nat, x: nat, y: nat)
    ensures (StartPast(start, x) + y) % TWO_64 == (start + (x + y)) % TWO_64
  {
    var q := (start + x) / TWO_64;
    assert start + x == q * TWO_64 + (start + x) % TWO_64;
    ModShift((start + x) % TWO_64 + y, q);
  }

  /** The answer for a list: the first partition of the name, its start the sum of all earlier lengths. */
  lemma {:induction false} AnswersFirst(a: Answer, parts: seq<Part>, name: seq<byte>, start: nat, e: nat)
    requires Answers(a, parts, name, start, e) && start < TWO_64
    ensures var i := First(parts, name);
            if i < |parts| then a.ret == 1 && a.start == (start + Sum(parts[..i])) % TWO_64
              && a.length == parts[i].length
            else a.ret == 0 && a.end == e
    decreases |parts|
  {
    if parts != [] && parts[0].name != Some(name) {
      var i := First(parts[1..], name);
      AnswersFirst(a, parts[1..], name, StartPast(start, parts[0].length), e);
      if i < |parts[1..]| {
        assert parts[..i + 1][1..] == parts[1..][..i];
        StartSum(start, parts[0].length, Sum(parts[1..][..i]));
      }
    } else if parts != [] {
      assert Sum(parts[..0]) == 0;
    }
  }

  /** A list whose first partition ends in a comma at q is answered by the rest, if that partition is not the one. */
  lemma {:induction false} ListTail(f: Reader, text: seq<byte>, s: nat, e: nat, parts: seq<Part>, name: seq<byte>,
                                    start: nat, a: Answer, q: nat, p: Part)
    requires s <= q < |text| && f(s) == Some(Field(q, p)) && p.name != Some(name) && CharAt(text, q) == COMMA
    requires parts != [] ==> ListAt(f, text, q + 1, e, parts[1..]) ==>
             Answers(a, parts[1..], name, StartPast(start, p.length), e)
    ensures ListAt(f, text, s, e, parts) ==> Answers(a, parts, name, start, e)
  {
  }

  lemma {:induction false} ListLonger(f: Reader, text: seq<byte>, s: nat, e: nat, parts: seq<Part>, q: nat)
    requires s <= q < |text| && |parts| > 1 && parts[0].length != FILL && f(s) == Some(Field(q, parts[0]))
    requires CharAt(text, q) == COMMA && ListAt(f, text, q + 1, e, parts[1..])
    ensures ListAt(f, text, s, e, parts)
  {
  }

  lemma {:induction false} ListGrows(f: Reader, text: seq<byte>, s: nat, e: nat, read: seq<Part>, q: nat, p: Part)
    requires s <= q < |text| && f(s) == Some(Field(q, p)) && p.length != FILL && CharAt(text, q) == COMMA
    requires ListAt(f, text, q + 1, e, read)
    ensures ListAt(f, text, s, e, [p] + read)
  {
    assert ([p] + read)[1..] == read;
    ListLonger(f, text, s, e, [p] + read, q);
  }

  lemma {:induction false} AnswersGrow(a: Answer, read: seq<Part>, name: seq<byte>, start: nat, e: nat, p: Part)
    requires p.name != Some(name) && Answers(a, read, name, StartPast(start, p.length), e)
    ensures Answers(a, [p] + read, name, start, e)
  {
    assert ([p] + read)[1..] == read;
  }

  /** What the answer for the rest of a list says about the list. */
  lemma {:induction false} Rest(f: Reader, text: seq<byte>, s: nat, e: nat, parts: seq<Part>, rest: seq<Part>,
                                read: seq<Part>, name: seq<byte>,
             start0: nat, start: nat, a: Answer, q: nat, p: Part)
    requires s <= q < |text| && f(s) == Some(Field(q, p)) && p.length != FILL && p.name != Some(name)
    requires CharAt(text, q) == COMMA && start == StartPast(start0, p.length) && (parts != [] ==> rest == parts[1..])
    requires a.ret == 0 ==> ListAt(f, text, q + 1, a.end, read)
    requires a.ret >= 0 ==> Answers(a, read, name, start, a.end)
    requires ListAt(f, text, q + 1, e, rest) ==> Answers(a, rest, name, start, e)
    ensures a.ret == 0 ==> ListAt(f, text, s, a.end, [p] + read)
    ensures a.ret >= 0 ==> Answers(a, [p] + read, name, start0, a.end)
    ensures ListAt(f, text, s, e, parts) ==> Answers(a, parts, name, start0, e)
  {
    ListTail(f, text, s, e, parts, name, start0, a, q, p);
    if a.ret >= 0 { AnswersGrow(a, read, name, start0, a.end, p); }
    if a.ret == 0 { ListGrows(f, text, s, a.end, read, q, p); }
  }

  lemma {:induction false} NoList(f: Reader, text: seq<byte>, s: nat, e: nat, parts: seq<Part>)
    requires f(s) == None
             || (f(s).value.end <= |text| && CharAt(text, f(s).value.end) == COMMA && f(s).value.value.length == FILL)
    ensures !ListAt(f, text, s, e, parts)
  {
  }

  /** A first partition of the right name is the answer. */
  lemma {:induction false} FoundHere(f: Reader, text: seq<byte>, s: nat, e: nat, parts: seq<Part>, name: seq<byte>,
                                     start: nat, a: Answer, p: Part)
    requires s <= |text| && f(s).Some? && p == f(s).value.value && p.name == Some(name)
    requires a.ret == 1 && a.start == start && a.length == p.length
    ensures Answers(a, [p], name, start, a.end)
    ensures ListAt(f, text, s, e, parts) ==> Answers(a, parts, name, start, e)
  {
  }

  /** The last partition of a list, not of this name. */
  lemma {:induction false} LastNot(f: Reader, text: seq<byte>, s: nat, e: nat, parts: seq<Part>, name: seq<byte>,
                                   start: nat, a: Answer, p: Part)
    requires s <= |text| && f(s).Some? && p == f(s).value.value && p.name != Some(name)
    requires a.ret == 0 && s <= a.end == f(s).value.end <= |text| && CharAt(text, a.end) != COMMA
    ensures Answers(a, [p], name, start, a.end) && ListAt(f, text, s, a.end, [p])
    ensures ListAt(f, text, s, e, parts) ==> Answers(a, parts, name, start, e)
  {
  }

  // ---------------------------------------------------------------- several media

  /** One medium of a table: its name and its partitions. */
  datatype Media = Media(id: seq<byte>, parts: seq<Part>)

  /** From s to the end of the text stand media, each a name, a colon and a list, with semicolons between them only. */
  ghost predicate TableAt(f: Reader, text: seq<byte>, s: nat, mtds: seq<Media>)
    requires s <= |text|
    decreases |mtds|
  {
    && mtds != [] && IndexOf(text, s, COLON) < |text|
    && text[s..IndexOf(text, s, COLON)] == mtds[0].id
    && var e := IndexOf(text, s, SEMICOLON);
       && ListAt(f, text, IndexOf(text, s, COLON) + 1, e, mtds[0].parts)
       && if |mtds| == 1 then e == |text| else e < |text| && TableAt(f, text, e + 1, mtds[1..])
  }

  /** The medium m has the name looked for, and on it a partition of the name looked for. */
  predicate Has(m: Media, media: seq<byte>, name: seq<byte>) {
    m.id == media && First(m.parts, name) < |m.parts|
  }

  /** The first medium that has the partition decides: the start is the sum of the lengths before it on that medium. */
  ghost predicate Located(mtds: seq<Media>, media: seq<byte>, name: seq<byte>, ret: int, start: nat, length: nat)
    decreases |mtds|
  {
    if mtds == [] then ret == -1
    else if Has(mtds[0], media, name) then
      var i := First(mtds[0].parts, name);
      ret == 0 && start == Sum(mtds[0].parts[..i]) % TWO_64 && length == mtds[0].parts[i].length
    else Located(mtds[1..], media, name, ret, start, length)
  }

  /** One round: the answer is there, or the next medium is looked at. */
  ghost predicate Round(f: Reader, text: seq<byte>, s: nat, mtds: seq<Media>, media: seq<byte>, name: seq<byte>,
                        done: bool, ret: int, next: nat, start: nat, length: nat)
    requires s <= |text|
  {
    if done then Located(mtds, media, name, ret, start, length)
    else mtds != [] && !Has(mtds[0], media, name) && next <= |text| && TableAt(f, text, next, mtds[1..])
  }

  /** The search has gone past media without the partition and now stands before rest. */
  ghost predicate Skips(mtds: seq<Media>, rest: seq<Media>, media: seq<byte>, name: seq<byte>)
    decreases |mtds|
  {
    mtds == rest || (mtds != [] && !Has(mtds[0], media, name) && Skips(mtds[1..], rest, media, name))
  }

  lemma {:induction false} SkipsLocated(mtds: seq<Media>, rest: seq<Media>, media: seq<byte>, name: seq<byte>,
                                        ret: int, start: nat, length: nat)
    requires Skips(mtds, rest, media, name) && Located(rest, media, name, ret, start, length)
    ensures Located(mtds, media, name, ret, start, length)
    decreases |mtds|
  {
    if mtds != rest { SkipsLocated(mtds[1..], rest, media, name, ret, start, length); }
  }

  lemma {:induction false} SkipsOne(mtds: seq<Media>, rest: seq<Media>, media: seq<byte>, name: seq<byte>)
    requires Skips(mtds, rest, media, name) && rest != [] && !Has(rest[0], media, name)
    ensures Skips(mtds, rest[1..], media, name)
    decreases |mtds|
  {
    if mtds != rest { SkipsOne(mtds[1..], rest, media, name); }
  }

  lemma {:induction false} NoColon(f: Reader, text: seq<byte>, s: nat, mtds: seq<Media>)
    requires s <= |text| && IndexOf(text, s, COLON) == |text|
    ensures !TableAt(f, text, s, mtds)
  {
  }

  /** A medium of another name: the search goes on behind the semicolon, if there is one. */
  lemma {:induction false} OtherMedium(f: Reader, text: seq<byte>, s: nat, mtds: seq<Media>, media: seq<byte>,
                                       name: seq<byte>)
    requires s <= |text| && IndexOf(text, s, COLON) < |text| && text[s..IndexOf(text, s, COLON)] != media
    ensures var e := IndexOf(text, s, SEMICOLON); TableAt(f, text, s, mtds) ==>
              Round(f, text, s, mtds, media, name, e == |text|, -1, if e == |text| then s else e + 1, 0, 0)
  {
  }

  /** A medium of the name: the answer of find_part decides, or the search goes on where it stopped. */
  lemma {:induction false} Judge(f: Reader, text: seq<byte>, s: nat, mtds: seq<Media>, media: seq<byte>,
                                 name: seq<byte>, a: Answer, parts: seq<Part>, e: nat,
                                 done: bool, ret: int)
    requires s <= |text| && IndexOf(text, s, COLON) < |text| && text[s..IndexOf(text, s, COLON)] == media
    requires e == IndexOf(text, s, SEMICOLON) && (mtds != [] ==> parts == mtds[0].parts) && a.end <= |text|
    requires ListAt(f, text, IndexOf(text, s, COLON) + 1, e, parts) ==> Answers(a, parts, name, 0, e)
    requires done == (a.ret != 0 || CharAt(text, a.end) != SEMICOLON) && ret == if a.ret == 1 then 0 else -1
    ensures TableAt(f, text, s, mtds) ==> Round(f, text, s, mtds, media, name, done, ret, a.end + 1, a.start, a.length)
  {
    if TableAt(f, text, s, mtds) { AnswersFirst(a, parts, name, 0, e); }
  }

  // ---------------------------------------------------------------- tables as they are written

  /** size(name) as a table writes it, the size as ultohstr prints it */
  function PartText(m: nat, ix: nat, name: seq<byte>): seq<byte>
    requires ix <= 3
  {
    (Numeral(m, 10) + Suffix(ix)) + ([OPEN] + name + [CLOSE])
  }

  lemma {:induction false} ClosesAt(text: seq<byte>, s: nat, q: nat)
    requires s <= q < |text| && text[q] == CLOSE && forall i :: s <= i < q ==> text[i] != CLOSE
    ensures IndexOf(text, s, CLOSE) == q
    decreases q - s
  {
    if s < q { ClosesAt(text, s + 1, q); }
  }

  lemma {:induction false} NameInside(t: seq<byte>, pre: seq<byte>, name: seq<byte>, post: seq<byte>)
    requires CLOSE !in name && t == pre + ([OPEN] + name + [CLOSE] + post)
    ensures NameField(t, |pre|) == Some(Field(|pre| + |name| + 2, Some(name)))
  {
    assert t[|pre|] == OPEN && t[|pre| + 1 + |name|] == CLOSE;
    assert t[|pre| + 1..|pre| + 1 + |name|] == name;
    forall i | |pre| + 1 <= i < |pre| + 1 + |name|
      ensures t[i] != CLOSE
    {
      assert t[i] == name[i - |pre| - 1];
    }
    ClosesAt(t, |pre| + 1, |pre| + 1 + |name|);
  }

  /** Nothing, or the start of the next partition or medium */
  predicate Delimited(post: seq<byte>) {
    post == [] || post[0] == COMMA || post[0] == SEMICOLON
  }

  lemma {:induction false} PartFrom(t: seq<byte>, s: nat, a: nat, length: nat, e: nat, name: Option<seq<byte>>)
    requires s <= |t| && SizeField(t, s) == Some(Field(a, length)) && OffsetEnd(t, a) == a
    requires NameField(t, a) == Some(Field(e, name)) && FlagsEnd(t, e) == e
    ensures PartField(t, s) == Some(Field(e, Part(length, name)))
  {
  }

  lemma {:induction false} NoFlags(t: seq<byte>, pre: seq<byte>, post: seq<byte>)
    requires Delimited(post) && t == pre + post
    ensures FlagsEnd(t, |pre|) == |pre|
  {
    assert post != [] ==> (pre + post)[|pre|] == post[0];
  }

  lemma {:induction false} SizeFieldInside(t: seq<byte>, pre: seq<byte>, m: nat, ix: nat, z: seq<byte>, u: seq<byte>)
    requires ix <= 3 && 0 < m && 8192 <= ScaledUp(m, ix) < TWO_64 && u != [] && u[0] == OPEN
    requires z == Numeral(m, 10) + Suffix(ix) && t == pre + (z + u)
    ensures SizeField(t, |pre|) == Some(Field(|pre| + |z|, ScaledUp(m, ix))) && OffsetEnd(t, |pre| + |z|) == |pre| + |z|
  {
    SizeInside(pre, m, ix, u);
    NumeralDigits(m, 10);
    Behind(pre, z, u);
    assert (pre + (z + u))[|pre|] == Numeral(m, 10)[0];
  }

  lemma {:induction false} Regrouped(pre: seq<byte>, z: seq<byte>, n: seq<byte>, post: seq<byte>)
    ensures pre + ((z + n) + post) == pre + (z + (n + post)) == (pre + z) + (n + post) == ((pre + z) + n) + post
  {
    assert (z + n) + post == z + (n + post);
    assert pre + (z + (n + post)) == (pre + z) + (n + post);
    assert (pre + z) + (n + post) == ((pre + z) + n) + post;
  }

  lemma {:induction false} SizeThenName(t: seq<byte>, pre: seq<byte>, m: nat, ix: nat, z: seq<byte>, u: seq<byte>,
                                        s: nat, a: nat, e: nat, name: seq<byte>)
    requires ix <= 3 && 0 < m && 8192 <= ScaledUp(m, ix) < TWO_64 && u != [] && u[0] == OPEN
    requires z == Numeral(m, 10) + Suffix(ix) && t == pre + (z + u) && s == |pre| && a == s + |z|
    requires NameField(t, a) == Some(Field(e, Some(name))) && FlagsEnd(t, e) == e
    ensures PartField(t, s) == Some(Field(e, Part(ScaledUp(m, ix), Some(name))))
  {
    SizeFieldInside(t, pre, m, ix, z, u);
    PartFrom(t, s, a, ScaledUp(m, ix), e, Some(name));
  }

  lemma {:induction false} NameThenEnd(t: seq<byte>, pre: seq<byte>, name: seq<byte>, n: seq<byte>, post: seq<byte>,
                                       a: nat, e: nat)
    requires CLOSE !in name && Delimited(post) && n == [OPEN] + name + [CLOSE]
    requires t == pre + (n + post) == (pre + n) + post && a == |pre| && e == a + |n|
    ensures NameField(t, a) == Some(Field(e, Some(name))) && FlagsEnd(t, e) == e
  {
    NameInside(t, pre, name, post);
    NoFlags(t, pre + n, post);
  }

  /** A partition written into a table is read as its size and name, wherever it stands. */
  lemma {:induction false} PartInside(t: seq<byte>, pre: seq<byte>, m: nat, ix: nat, name: seq<byte>, x: seq<byte>,
                                      post: seq<byte>, s: nat, e: nat)
    requires ix <= 3 && 0 < m && 8192 <= ScaledUp(m, ix) < TWO_64 && CLOSE !in name && Delimited(post)
    requires x == PartText(m, ix, name) && t == pre + (x + post) && s == |pre| && e == s + |x|
    ensures PartField(t, s) == Some(Field(e, Part(ScaledUp(m, ix), Some(name))))
  {
    var z, n := Numeral(m, 10) + Suffix(ix), [OPEN] + name + [CLOSE];
    var a := s + |z|;
    Regrouped(pre, z, n, post);
    assert NameField(t, a) == Some(Field(e, Some(name))) && FlagsEnd(t, e) == e by {
      NameThenEnd(t, pre + z, name, n, post, a, e);
    }
    SizeThenName(t, pre, m, ix, z, n + post, s, a, e, name);
  }

  class MtdParts {
    var text: seq<byte>

    constructor (t: seq<byte>)
      ensures text == t
    {
      text := t;
    }

    /** strchr */
    method StrChr(s: nat, ch: byte) returns (p: Option<nat>)
      requires s <= |text| && Chars(text) && ch != 0
      ensures var q := IndexOf(text, s, ch); p == if q < |text| then Some(q) else None
    {
      var i := s;
      while CharAt(text, i) != 0
        invariant s <= i <= |text| && IndexOf(text, i, ch) == IndexOf(text, s, ch)
        decreases |text| - i
      {
        if text[i] == ch { return Some(i); }
        i := i + 1;
      }
      return None;
    }

    /** strncmp over the longer of two lengths: the string at s, ended by a zero at q, is the given one. */
    method SameString(s: nat, other: seq<byte>, ghost q: nat) returns (same: bool)
      requires s <= q < |text| && text[q] == 0 && Chars(text[s..q]) && Chars(other)
      ensures same <==> text[s..q] == other
    {
      var i := 0;
      while CharAt(text, s + i) == CharAt(other, i) && CharAt(other, i) != 0
        invariant i <= |other| && s + i <= q && text[s..s + i] == other[..i]
        decreases |other| - i
      {
        assert text[s..q][i] == text[s + i];
        i := i + 1;
      }
      same := CharAt(text, s + i) == CharAt(other, i);
      assert s + i < q ==> text[s..q][i] == text[s + i] != 0;
    }

    /** The name up to the delimiter at q: it is cut off with a zero, compared, and put back. */
    method Compare(s: nat, q: nat, name: seq<byte>) returns (same: bool)
      requires s <= q < |text| && Chars(text) && Chars(name)
      modifies this
      ensures text == old(text) && (same <==> text[s..q] == name)
    {
      var delim := text[q];
      text := text[q := 0];
      assert text[s..q] == old(text)[s..q];
      same := SameString(s, name, q);
      text := text[q := delim];
    }

    /** The name in parentheses at s, if any, and whether it is the one looked for. */
    method ReadName(s: nat, name: seq<byte>) returns (f: Option<Field<bool>>)
      requires s <= |text| && Chars(text) && Chars(name)
      modifies this
      ensures text == old(text)
      ensures match NameField(text, s)
              case None => f == None
              case Some(n) => f == Some(Field(n.end, n.value == Some(name)))
    {
      if CharAt(text, s) != OPEN { return Some(Field(s, false)); }
      var p := StrChr(s + 1, CLOSE);
      if p == None { return None; }
      var same := Compare(s + 1, p.value, name);
      return Some(Field(p.value + 1, same));
    }

    method ReadSize(s: nat) returns (f: Option<Field<nat>>)
      requires s <= |text|
      ensures f == SizeField(text, s)
    {
      if CharAt(text, s) == DASH { return Some(Field(s + 1, FILL)); }
      var length, e := MemParse(text, s);
      if length < 8192 { return None; }
      return Some(Field(e, length));
    }

    method ReadOffset(s: nat) returns (q: nat)
      requires s <= |text|
      ensures q == OffsetEnd(text, s)
    {
      q := s;
      if CharAt(text, s) == AT_SIGN {
        var skipped: dword;
        skipped, q := MemParse(text, s + 1);
      }
    }

    method ReadFlags(s: nat) returns (q: nat)
      requires s <= |text|
      ensures q == FlagsEnd(text, s)
    {
      q := s;
      if q + 2 <= |text| && text[q] == 114 && text[q + 1] == 111 { q := q + 2; }
      if q + 2 <= |text| && text[q] == 108 && text[q + 1] == 107 { q := q + 2; }
    }

    /** One partition, up to the test for a comma. */
    method ReadPart(s: nat, name: seq<byte>) returns (f: Option<Field<(nat, bool)>>)
      requires s <= |text| && Chars(text) && Chars(name)
      modifies this
      ensures text == old(text)
      ensures match PartField(text, s)
              case None => f == None
              case Some(p) => f == Some(Field(p.end, (p.value.length, p.value.name == Some(name))))
    {
      var size := ReadSize(s);
      if size == None { return None; }
      var q := ReadOffset(size.value.end);
      var found := ReadName(q, name);
      if found == None { return None; }
      q := ReadFlags(found.value.end);
      return Some(Field(q, (size.value.value, found.value.value)));
    }

    /** The same as the reader f has it. */
    method ReadAt(ghost f: Reader, ghost t: seq<byte>, s: nat, name: seq<byte>)
      returns (part: Option<Field<(nat, bool)>>)
      requires text == t && Reads(f, t) && s <= |t| && Chars(t) && Chars(name)
      modifies this
      ensures text == t
      ensures match f(s)
              case None => part == None
              case Some(p) =>
                s <= p.end <= |t| && part == Some(Field(p.end, (p.value.length, p.value.name == Some(name))))
    {
      part := ReadPart(s, name);
      assert f(s) == PartField(t, s);
    }

    /** The recursive call of find_part, behind the comma at q. */
    method FindRest(ghost f: Reader, ghost t: seq<byte>, s: nat, q: nat, name: seq<byte>, start0: nat, length: nat,
                    ghost e: nat, ghost parts: seq<Part>, ghost p: Part)
      returns (a: Answer, ghost read: seq<Part>)
      requires text == t && Reads(f, t) && s <= q < |t| && Chars(t) && Chars(name) && start0 < TWO_64
               && CharAt(t, q) == COMMA
      requires f(s) == Some(Field(q, p)) && p.length == length != FILL && p.name != Some(name)
      modifies this
      ensures text == t
      ensures -1 <= a.ret <= 1 && s <= a.end <= |t|
      ensures a.ret == 0 ==> ListAt(f, t, s, a.end, read)
      ensures a.ret >= 0 ==> Answers(a, read, name, start0, a.end)
      ensures ListAt(f, t, s, e, parts) ==> Answers(a, parts, name, start0, e)
      ensures Broken(f, t, s, name) ==> a.ret == -1
      decreases |t| - s, 0
    {
      var start := StartPast(start0, length);
      ghost var rest := if parts == [] then [] else parts[1..];
      a, read := FindPart(f, t, q + 1, name, start, e, rest);
      Rest(f, t, s, e, parts, rest, read, name, start0, start, a, q, p);
      read := [p] + read;
    }

    /** find_part, from the partition at s on; e and parts are the list that the caller may know to stand there. */
    method FindPart(ghost f: Reader, ghost t: seq<byte>, s: nat, name: seq<byte>, start0: nat, ghost e: nat,
                    ghost parts: seq<Part>)
      returns (a: Answer, ghost read: seq<Part>)
      requires text == t && Reads(f, t) && s <= |t| && Chars(t) && Chars(name) && start0 < TWO_64
      modifies this
      ensures text == t
      ensures -1 <= a.ret <= 1 && s <= a.end <= |t|
      ensures a.ret == 0 ==> ListAt(f, t, s, a.end, read)
      ensures a.ret >= 0 ==> Answers(a, read, name, start0, a.end)
      ensures ListAt(f, t, s, e, parts) ==> Answers(a, parts, name, start0, e)
      ensures Broken(f, t, s, name) ==> a.ret == -1
      decreases |t| - s, 1
    {
      var part := ReadAt(f, t, s, name);
      if part == None {
        NoList(f, t, s, e, parts);
        return Answer(-1, s, start0, 0), [];
      }
      var q, length, isFind := part.value.end, part.value.value.0, part.value.value.1;
      ghost var p := f(s).value.value;
      if CharAt(text, q) == COMMA && length == FILL {
        NoList(f, t, s, e, parts);
        return Answer(-1, s, start0, length), [];
      }
      if isFind {
        a, read := Answer(1, q, start0, length), [p];
        FoundHere(f, t, s, e, parts, name, start0, a, p);
        return;
      }
      if CharAt(text, q) == COMMA {
        a, read := FindRest(f, t, s, q, name, start0, length, e, parts, p);
      } else {
        a, read := Answer(0, q, start0, length), [p];
        LastNot(f, t, s, e, parts, name, start0, a, p);
      }
    }

    method Ask(ghost f: Reader, ghost t: seq<byte>, s: nat, name: seq<byte>, ghost e: nat, ghost parts: seq<Part>)
      returns (a: Answer)
      requires text == t && Reads(f, t) && s <= |t| && Chars(t) && Chars(name)
      modifies this
      ensures text == t && s <= a.end <= |t|
      ensures ListAt(f, t, s, e, parts) ==> Answers(a, parts, name, 0, e)
      ensures Broken(f, t, s, name) ==> a.ret == -1
    {
      ghost var read: seq<Part>;
      a, read := FindPart(f, t, s, name, 0, e, parts);
    }

    /** A round on the medium looked for, whose list stands behind the colon at p. */
    method SearchList(ghost f: Reader, ghost t: seq<byte>, s: nat, p: nat, media: seq<byte>, name: seq<byte>,
                      ghost mtds: seq<Media>)
      returns (done: bool, ret: int, next: nat, start: nat, length: nat)
      requires text == t && Reads(f, t) && s <= p < |t| && p == IndexOf(t, s, COLON) && Chars(t) && Chars(name)
               && t[s..p] == media
      modifies this
      ensures text == t
      ensures !done ==> s < next <= |t|
      ensures TableAt(f, t, s, mtds) ==> Round(f, t, s, mtds, media, name, done, ret, next, start, length)
      ensures Broken(f, t, p + 1, name) ==> done && ret == -1
    {
      ghost var e, parts := IndexOf(t, s, SEMICOLON), if mtds == [] then [] else mtds[0].parts;
      var a := Ask(f, t, p + 1, name, e, parts);
      assert CharAt(t, a.end) == SEMICOLON ==> a.end < |t|;
      done, next := a.ret != 0 || CharAt(text, a.end) != SEMICOLON, a.end + 1;
      ret := if a.ret == 1 then 0 else -1;
      start, length := a.start, a.length;
      Judge(f, t, s, mtds, media, name, a, parts, e, done, ret);
    }

    /** One round of find_flash_part: the media name at s, and its list if the name is the one looked for. */
    method FindInMedia(ghost f: Reader, ghost t: seq<byte>, s: nat, media: seq<byte>, name: seq<byte>,
                       ghost mtds: seq<Media>)
      returns (done: bool, ret: int, next: nat, start: nat, length: nat)
      requires text == t && Reads(f, t) && s <= |t| && Chars(t) && Chars(media) && Chars(name)
      modifies this
      ensures text == t
      ensures !done ==> s < next <= |t|
      ensures TableAt(f, t, s, mtds) ==> Round(f, t, s, mtds, media, name, done, ret, next, start, length)
      ensures BrokenFirst(f, t, s, media, name) ==> done && ret == -1
    {
      done, ret, next, start, length := true, -1, s, 0, 0;
      var p := StrChr(s, COLON);
      if p == None {
        NoColon(f, t, s, mtds);
        return;
      }
      var same := Compare(s, p.value, media);
      if !same {
        var q := StrChr(s, SEMICOLON);
        OtherMedium(f, t, s, mtds, media, name);
        if q != None { done, next := false, q.value + 1; }
      } else {
        done, ret, next, start, length := SearchList(f, t, s, p.value, media, name, mtds);
      }
    }

    /** find_flash_part; mtds is the table that the caller may know to stand in the text. */
    method FindFlashPart(media: seq<byte>, name: seq<byte>, ghost mtds: seq<Media>)
      returns (ret: int, start: nat, length: nat)
      requires Chars(text) && Chars(media) && Chars(name)
      modifies this
      ensures text == old(text)
      ensures TableAt(PartsIn(text), text, 0, mtds) ==> Located(mtds, media, name, ret, start, length)
      ensures BrokenFirst(PartsIn(text), text, 0, media, name) ==> ret == -1
    {
      ghost var t := text;
      ghost var f := PartsIn(t);
      var s, done := 0, false;
      ghost var rest := mtds;
      ret, start, length := -1, 0, 0;
      while !done
        invariant s <= |t| && text == t && Chars(t)
        invariant if done then TableAt(f, t, 0, mtds) ==> Located(mtds, media, name, ret, start, length)
                  else TableAt(f, t, 0, mtds) ==> TableAt(f, t, s, rest) && Skips(mtds, rest, media, name)
        invariant BrokenFirst(f, t, 0, media, name) ==> if done then ret == -1 else s == 0
        decreases !done, |t| - s
      {
        var next: nat;
        ghost var before := rest;
        done, ret, next, start, length := FindInMedia(f, t, s, media, name, rest);
        if done {
          if TableAt(f, t, 0, mtds) { SkipsLocated(mtds, before, media, name, ret, start, length); }
        } else {
          s := next;
          if TableAt(f, t, 0, mtds) { SkipsOne(mtds, before, media, name); }
          rest := if before == [] then [] else before[1..];
        }
      }
    }
  }
}
