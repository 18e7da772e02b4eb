/** Partition lists as they are written, and that the search reads them back. */
module MtdLists {
  import opened Options
  import opened MemCpy
  import opened CStrings
  import opened Sizes
  import opened FindParts

  /** A text and the partition it stands for. */
  datatype Piece = Piece(text: seq<byte>, part: Part)

  /** Wherever the text stands before a delimiter, the partition is read from it. */
  ghost predicate ReadsAs(x: seq<byte>, p: Part) {
    forall pre: seq<byte>, post: seq<byte> {:trigger PartField(pre + (x + post), |pre|)} ::
      Delimited(post) ==> PartField(pre + (x + post), |pre|) == Some(Field(|pre| + |x|, p))
  }

  ghost predicate AllRead(ps: seq<Piece>) {
    forall i :: 0 <= i < |ps| ==> ReadsAs(ps[i].text, ps[i].part) && (i + 1 < |ps| ==> ps[i].part.length != FILL)
  }

  function PartsOf(ps: seq<Piece>): seq<Part> {
    if ps == [] then [] else [ps[0].part] + PartsOf(ps[1..])
  }

  /** partition,partition,... */
  function ListText(ps: seq<Piece>): seq<byte> {
    if ps == [] then [] else ps[0].text + if |ps| == 1 then [] else [COMMA] + ListText(ps[1..])
  }

  /** A size as ultohstr prints it and a name in parentheses are such a text. */
  lemma {:induction false} PartTextReads(m: nat, ix: nat, name: seq<byte>, x: seq<byte>, p: Part)
    requires ix <= 3 && 0 < m && 8192 <= ScaledUp(m, ix) < FILL && CLOSE !in name
    requires x == PartText(m, ix, name) && p == Part(ScaledUp(m, ix), Some(name))
    ensures ReadsAs(x, p)
  {
    forall pre: seq<byte>, post: seq<byte> | Delimited(post)
      ensures PartField(pre + (x + post), |pre|) == Some(Field(|pre| + |x|, p))
    {
      PartInside(pre + (x + post), pre, m, ix, name, x, post, |pre|, |pre| + |x|);
    }
  }

  /** A list text regrouped around its first comma. */
  lemma {:induction false} Front(t: seq<byte>, pre: seq<byte>, x: seq<byte>, y: seq<byte>, post: seq<byte>)
    requires t == pre + ((x + ([COMMA] + y)) + post)
    ensures t == pre + (x + (([COMMA] + y) + post)) == ((pre + x) + [COMMA]) + (y + post)
  {
    assert (x + ([COMMA] + y)) + post == x + (([COMMA] + y) + post);
    assert pre + (x + (([COMMA] + y) + post)) == ((pre + x) + [COMMA]) + (y + post);
  }

  /** The piece at s, up to the delimiter at q. */
  lemma {:induction false} PieceAt(f: Reader, t: seq<byte>, pre: seq<byte>, s: nat, x: seq<byte>, u: seq<byte>, q: nat,
                                   p: Part)
    requires Reads(f, t) && ReadsAs(x, p) && Delimited(u) && t == pre + (x + u) && s == |pre| && q == s + |x|
    ensures q <= |t| && f(s) == Some(Field(q, p)) && CharAt(t, q) == CharAt(u, 0) && (u != [] ==> q < |t|)
  {
    Behind(pre, x, u);
    assert PartField(pre + (x + u), |pre|) == Some(Field(|pre| + |x|, p));
    assert f(s) == PartField(t, s);
  }

  /** A written list is read as its partitions, wherever it stands. */
  lemma {:induction false} ListInside(f: Reader, t: seq<byte>, pre: seq<byte>, s: nat, ps: seq<Piece>, post: seq<byte>,
                                      e: nat, parts: seq<Part>)
    requires Reads(f, t) && ps != [] && AllRead(ps) && (post == [] || post[0] == SEMICOLON)
    requires t == pre + (ListText(ps) + post) && s == |pre| && e == s + |ListText(ps)| && parts == PartsOf(ps)
    ensures ListAt(f, t, s, e, parts)
    decreases |ps|
  {
    var x, p, rest := ps[0].text, ps[0].part, ps[1..];
    var q := s + |x|;
    if |ps| == 1 {
      PieceAt(f, t, pre, s, x, post, q, p);
    } else {
      var y := ListText(rest);
      Front(t, pre, x, y, post);
      PieceAt(f, t, pre, s, x, ([COMMA] + y) + post, q, p);
      ListInside(f, t, (pre + x) + [COMMA], q + 1, rest, post, e, parts[1..]);
    }
  }
}
