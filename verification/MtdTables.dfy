/** Partition tables as they are written, and that the search reads them back. */
module MtdTables {
  import opened CStrings
  import opened MemCpy
  import opened FindParts
  import opened MtdLists

  datatype Medium = Medium(id: seq<byte>, pieces: seq<Piece>)

  /** A name and a list without the marks that end them, and partitions that are read as written. */
  ghost predicate Writable(d: Medium) {
    d.pieces != [] && AllRead(d.pieces) && COLON !in d.id && SEMICOLON !in d.id && SEMICOLON !in ListText(d.pieces)
  }

  ghost predicate AllWritable(ds: seq<Medium>) {
    forall i :: 0 <= i < |ds| ==> Writable(ds[i])
  }

  function MediaOf(ds: seq<Medium>): seq<Media> {
    if ds == [] then [] else [Media(ds[0].id, PartsOf(ds[0].pieces))] + MediaOf(ds[1..])
  }

  /** medium:list;medium:list;... */
  function TableText(ds: seq<Medium>): seq<byte> {
    if ds == [] then []
    else ds[0].id + ([COLON] + (ListText(ds[0].pieces) + if |ds| == 1 then [] else [SEMICOLON] + TableText(ds[1..])))
  }

  lemma {:induction false} FirstAt(t: seq<byte>, s: nat, q: nat, ch: byte)
    requires s <= q <= |t| && (q < |t| ==> t[q] == ch) && forall i :: s <= i < q ==> t[i] != ch
    ensures IndexOf(t, s, ch) == q
    decreases q - s
  {
    if s < q { FirstAt(t, s + 1, q, ch); }
  }

  /** The first ch behind pre comes right after x, or never. */
  lemma {:induction false} FirstBehind(t: seq<byte>, pre: seq<byte>, x: seq<byte>, u: seq<byte>, ch: byte)
    requires t == pre + (x + u) && ch !in x && (u == [] || u[0] == ch)
    ensures IndexOf(t, |pre|, ch) == |pre| + |x|
  {
    forall i | |pre| <= i < |pre| + |x|
      ensures t[i] != ch
    {
      assert t[i] == x[i - |pre|];
    }
    assert u != [] ==> t[|pre| + |x|] == u[0];
    FirstAt(t, |pre|, |pre| + |x|, ch);
  }

  /** A medium regrouped around its colon. */
  lemma {:induction false} Colon(t: seq<byte>, pre: seq<byte>, id: seq<byte>, l: seq<byte>, post: seq<byte>)
    requires t == pre + (id + ([COLON] + (l + post)))
    ensures t == ((pre + id) + [COLON]) + (l + post) == pre + ((id + ([COLON] + l)) + post)
    ensures |pre| + |id| < |t| && t[|pre|..|pre| + |id|] == id
  {
    assert t == ((pre + id) + [COLON]) + (l + post);
    assert (id + ([COLON] + l)) + post == id + ([COLON] + (l + post));
  }

  /** Where the marks of the first medium stand: the colon at c, the semicolon or the end at e. */
  ghost predicate Marked(t: seq<byte>, s: nat, c: nat, e: nat, id: seq<byte>) {
    s <= c < |t| && IndexOf(t, s, COLON) == c && IndexOf(t, s, SEMICOLON) == e && t[s..c] == id
  }

  /** The first medium of a table text: its marks, and what stands before its list. */
  lemma {:induction false} FirstMedium(t: seq<byte>, pre: seq<byte>, id: seq<byte>, l: seq<byte>, post: seq<byte>,
                                       s: nat, c: nat, e: nat) returns (before: seq<byte>)
    requires t == pre + (id + ([COLON] + (l + post))) && s == |pre| && c == s + |id| && e == c + 1 + |l|
    requires COLON !in id && SEMICOLON !in id && SEMICOLON !in l && (post == [] || post[0] == SEMICOLON)
    ensures Marked(t, s, c, e, id) && e == |t| - |post|
    ensures |before| == c + 1 && t == before + (l + post)
  {
    Colon(t, pre, id, l, post);
    FirstBehind(t, pre, id, [COLON] + (l + post), COLON);
    FirstBehind(t, pre, id + ([COLON] + l), post, SEMICOLON);
    before := (pre + id) + [COLON];
  }

  /** What stands before the next medium. */
  lemma {:induction false} NextMedium(t: seq<byte>, before: seq<byte>, l: seq<byte>, rest: seq<byte>, e: nat)
    returns (next: seq<byte>)
    requires t == before + (l + ([SEMICOLON] + rest)) && e == |before| + |l|
    ensures |next| == e + 1 && t == next + rest
  {
    next := (before + l) + [SEMICOLON];
  }

  lemma {:induction false} TableFrom(f: Reader, t: seq<byte>, s: nat, c: nat, e: nat, mtds: seq<Media>)
    requires mtds != [] && Marked(t, s, c, e, mtds[0].id) && ListAt(f, t, c + 1, e, mtds[0].parts)
    requires if |mtds| == 1 then e == |t| else e < |t| && TableAt(f, t, e + 1, mtds[1..])
    ensures TableAt(f, t, s, mtds)
  {
  }

  /** The first medium and its list, before whatever follows. */
  lemma {:induction false} MediumInside(f: Reader, t: seq<byte>, pre: seq<byte>, s: nat, d: Medium, post: seq<byte>,
                                        c: nat, e: nat)
    returns (before: seq<byte>)
    requires Reads(f, t) && Writable(d) && (post == [] || post[0] == SEMICOLON)
    requires t == pre + (d.id + ([COLON] + (ListText(d.pieces) + post)))
    requires s == |pre| && c == s + |d.id| && e == c + 1 + |ListText(d.pieces)|
    ensures Marked(t, s, c, e, d.id) && e == |t| - |post| && ListAt(f, t, c + 1, e, PartsOf(d.pieces))
    ensures |before| == c + 1 && t == before + (ListText(d.pieces) + post)
  {
    before := FirstMedium(t, pre, d.id, ListText(d.pieces), post, s, c, e);
    ListInside(f, t, before, c + 1, d.pieces, post, e, PartsOf(d.pieces));
  }

  /** The last medium of a table. */
  lemma {:induction false} LastInside(f: Reader, t: seq<byte>, pre: seq<byte>, s: nat, d: Medium, mtds: seq<Media>)
    requires Reads(f, t) && Writable(d) && t == pre + (d.id + ([COLON] + (ListText(d.pieces) + [])))
    requires s == |pre| && |mtds| == 1 && mtds[0] == Media(d.id, PartsOf(d.pieces))
    ensures TableAt(f, t, s, mtds)
  {
    var c, e := s + |d.id|, s + |d.id| + 1 + |ListText(d.pieces)|;
    var before := MediumInside(f, t, pre, s, d, [], c, e);
    TableFrom(f, t, s, c, e, mtds);
  }

  /** The first of several media, up to and with its semicolon. */
  lemma {:induction false} FirstInside(f: Reader, t: seq<byte>, pre: seq<byte>, s: nat, d: Medium, rest: seq<byte>)
    returns (c: nat, e: nat, next: seq<byte>)
    requires Reads(f, t) && Writable(d) && t == pre + (d.id + ([COLON] + (ListText(d.pieces) + ([SEMICOLON] + rest))))
    requires s == |pre|
    ensures Marked(t, s, c, e, d.id) && e < |t| && ListAt(f, t, c + 1, e, PartsOf(d.pieces))
    ensures |next| == e + 1 && t == next + rest
  {
    c, e := s + |d.id|, s + |d.id| + 1 + |ListText(d.pieces)|;
    var before := MediumInside(f, t, pre, s, d, [SEMICOLON] + rest, c, e);
    next := NextMedium(t, before, ListText(d.pieces), rest, e);
  }

  lemma {:induction false} OneMedium(ds: seq<Medium>)
    requires |ds| == 1
    ensures TableText(ds) == ds[0].id + ([COLON] + (ListText(ds[0].pieces) + []))
    ensures |MediaOf(ds)| == 1 && MediaOf(ds)[0] == Media(ds[0].id, PartsOf(ds[0].pieces))
  {
  }

  lemma {:induction false} MoreMedia(ds: seq<Medium>)
    requires |ds| > 1
    ensures TableText(ds) == ds[0].id + ([COLON] + (ListText(ds[0].pieces) + ([SEMICOLON] + TableText(ds[1..]))))
    ensures MediaOf(ds)[1..] == MediaOf(ds[1..]) != [] && MediaOf(ds)[0] == Media(ds[0].id, PartsOf(ds[0].pieces))
    ensures |MediaOf(ds)| > 1
  {
  }

  lemma {:induction false} WritableParts(ds: seq<Medium>)
    requires ds != [] && AllWritable(ds)
    ensures Writable(ds[0]) && AllWritable(ds[1..])
  {
  }

  /** The first medium, then a table that is read behind it. */
  lemma {:induction false} TableGrows(f: Reader, t: seq<byte>, s: nat, c: nat, e: nat, d: Medium, mtds: seq<Media>)
    requires |mtds| > 1 && mtds[0] == Media(d.id, PartsOf(d.pieces)) && Marked(t, s, c, e, d.id) && e < |t|
    requires ListAt(f, t, c + 1, e, PartsOf(d.pieces)) && TableAt(f, t, e + 1, mtds[1..])
    ensures TableAt(f, t, s, mtds)
  {
    TableFrom(f, t, s, c, e, mtds);
  }

  /** A written table is read as its media and partitions, wherever it stands at the end of a text. */
  lemma {:induction false} TableInside(f: Reader, t: seq<byte>, pre: seq<byte>, s: nat, ds: seq<Medium>,
                                       mtds: seq<Media>)
    requires Reads(f, t) && ds != [] && AllWritable(ds) && t == pre + TableText(ds) && s == |pre| && mtds == MediaOf(ds)
    ensures TableAt(f, t, s, mtds)
    decreases |ds|
  {
    var d := ds[0];
    WritableParts(ds);
    if |ds| == 1 {
      OneMedium(ds);
      LastInside(f, t, pre, s, d, mtds);
    } else {
      MoreMedia(ds);
      var c, e, next := FirstInside(f, t, pre, s, d, TableText(ds[1..]));
      TableInside(f, t, next, e + 1, ds[1..], mtds[1..]);
      TableGrows(f, t, s, c, e, d, mtds);
    }
  }

  /** The search in a written table finds what was written: the first medium of the name that has the partition. */
  method FindWritten(ds: seq<Medium>, media: seq<byte>, name: seq<byte>) returns (ret: int, start: nat, length: nat)
    requires ds != [] && AllWritable(ds) && Chars(TableText(ds)) && Chars(media) && Chars(name)
    ensures Located(MediaOf(ds), media, name, ret, start, length)
  {
    var t := TableText(ds);
    assert t == [] + t;
    TableInside(PartsIn(t), t, [], 0, ds, MediaOf(ds));
    var parts := new MtdParts(t);
    ret, start, length := parts.FindFlashPart(media, name, MediaOf(ds));
  }
}
