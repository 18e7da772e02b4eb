/** The whole heap invariant, and what a step of the allocator may change in memory. */
module HeapState {
  import opened Words
  import opened HeapShape
  import opened HeapWords
  import opened HeapLists
  import opened HeapBins
  import opened Bits

  const PAGE: int := 4096

  /** w & ~PREV_INUSE */
  function WithoutInUse(w: word): (r: word)
    ensures r == w - w % 2
  {
    AndNotBound(w, 1);
    AndNot(w, 1)
  }

  /** w | PREV_INUSE */
  function WithInUse(w: word): (r: word)
    ensures r == w - w % 2 + 1
  {
    assert Or(w / 2, 0) == w / 2;
    Or(w, 1)
  }

  /** chunksize: the head word without its PREV_INUSE bit. */
  function ChunkSize(m: Mem, p: int): word {
    WithoutInUse(Rd(m, p + 4))
  }

  predicate PrevInUse(m: Mem, p: int) {
    And(Rd(m, p + 4), 1) != 0
  }

  /** The heap has a top chunk that ends at `pos`, on a page boundary. */
  ghost predicate Built(hdr: word, pos: word, s: Shape) {
    && Sound(s)
    && hdr + 1040 <= s.base
    && s.top + s.size[s.top] == pos
    && pos % PAGE == 0
  }

  /** No chunk exists yet: top is the sentinel of bin 0, whose size word is the empty bitmap. */
  ghost predicate Virgin(m: Mem, hdr: word, s: Shape) {
    s.size == map[] && s.live == {} && s.top == hdr && Rd(m, hdr + 4) == 0
  }

  ghost predicate HeadsOk(m: Mem, hdr: word, pos: word, s: Shape) {
    && Written(m, s) && Aligned(s)
    && Rd(m, hdr + 8) == s.top
    && (Virgin(m, hdr, s) || Built(hdr, pos, s))
  }

  /** One half of the heap invariant: what the chunks say in memory, or what the lists say. */
  ghost predicate Half(lists: bool, m: Mem, hdr: word, pos: word, s: Shape, bins: Lists) {
    if lists then ListsOk(m, hdr, s, bins, {}) else HeadsOk(m, hdr, pos, s)
  }

  /** The heap invariant: both halves hold. A proof takes it as one sentence unless it asks for the halves (Halves). */
  ghost predicate Consistent(m: Mem, hdr: word, pos: word, s: Shape, bins: Lists) {
    && |bins| == NBINS && hdr + 1040 < TWO_32
    && forall lists: bool {:trigger Half(lists, m, hdr, pos, s, bins)} :: Half(lists, m, hdr, pos, s, bins)
  }

  lemma {:induction false} Halves(m: Mem, hdr: word, pos: word, s: Shape, bins: Lists)
    requires Consistent(m, hdr, pos, s, bins)
    ensures HeadsOk(m, hdr, pos, s) && ListsOk(m, hdr, s, bins, {})
  {
    assert Half(true, m, hdr, pos, s, bins) && Half(false, m, hdr, pos, s, bins);
  }

  lemma {:induction false} EvenInUse(w: word)
    requires w % 8 == 0
    ensures w + 1 < TWO_32 && WithInUse(w) == w + 1
  {
    assert w == 2 * (4 * (w / 8));
    assert w % 2 == 0;
    assert w != TWO_32 - 1;
  }

  lemma {:induction false} HeadParts(w: word, size: int)
    requires size % 8 == 0 && (w == size || w == size + 1)
    ensures WithoutInUse(w) == size
    ensures And(w, 1) != 0 <==> w == size + 1
  {
    assert And(w / 2, 0) == 0;
  }

  lemma {:induction false} ReadHead(m: Mem, s: Shape, a: int)
    requires Written(m, s) && Aligned(s) && a in s.size
    ensures ChunkSize(m, a) == s.size[a]
    ensures PrevInUse(m, a) <==> a in s.pin
  {
    HeadParts(Rd(m, a + 4), s.size[a]);
  }

  // ---- Frames ----

  /** Payloads of live chunks, and everything outside the control block and the heap, are unchanged. */
  ghost predicate Frame(m: Mem, m': Mem, hdr: word, pos: int, s: Shape) {
    && Kept(m, m', s.live, s.size)
    && forall w {:trigger Rd(m', w)} :: Rd(m', w) != Rd(m, w) ==> hdr + 4 <= w < pos
  }

  lemma {:induction false} FrameTrans(m: Mem, m1: Mem, m2: Mem, hdr: word, pos: int, s: Shape)
    requires Frame(m, m1, hdr, pos, s) && Frame(m1, m2, hdr, pos, s)
    ensures Frame(m, m2, hdr, pos, s)
  {
    forall a, w | a in s.live && a in s.size && a + 8 <= w < a + s.size[a] + 4
      ensures Rd(m2, w) == Rd(m, w)
    {
      assert Rd(m1, w) == Rd(m, w);
    }
    forall w | Rd(m2, w) != Rd(m, w)
      ensures hdr + 4 <= w < pos
    {
      assert Rd(m1, w) != Rd(m, w) || Rd(m2, w) != Rd(m1, w);
    }
  }

  ghost predicate NotPayload(s: Shape, w: int) {
    forall a {:trigger a in s.live} :: a in s.live && a in s.size ==> !(a + 8 <= w < a + s.size[a] + 4)
  }

  lemma {:induction false} PokeFrame(m: Mem, hdr: word, pos: int, s: Shape, w: int, v: word)
    requires NotPayload(s, w) && hdr + 4 <= w < pos
    ensures Frame(m, m[w := v], hdr, pos, s)
  {
  }

  lemma {:induction false} HeadNotPayload(s: Shape, a: int)
    requires Tiled(s) && a in s.size
    ensures NotPayload(s, a + 4)
  {
  }

  /** From the head of a chunk that is not live to the footer behind it there is no payload. */
  lemma {:induction false} InsideNotPayload(s: Shape, a: int, w: int)
    requires Tiled(s) && a in s.size && a !in s.live && a <= w < a + s.size[a] + 4
    requires w >= a + 4
    ensures NotPayload(s, w)
  {
  }

  lemma {:induction false} LinkFrameFrame(m: Mem, m': Mem, hdr: word, pos: int, s: Shape, t: Shape)
    requires LinkFrame(m, m', hdr, t) && Placed(hdr, t) && Disjoint(t.size) && hdr + 1040 <= pos
    requires forall a {:trigger a in t.size} :: a in t.size ==> t.size[a] >= MINSIZE && a + t.size[a] <= pos
    requires forall a {:trigger a in s.live} :: a in s.live && a in s.size ==>
             a in t.live && a in t.size && t.size[a] == s.size[a]
    ensures Frame(m, m', hdr, pos, s)
  {
    LinkFrameKept(m, m', hdr, t);
  }

  // ---- A step is complete when its headers are written and its lists are in order ----

  lemma {:induction false} TakeWholeEnd(m: Mem, m': Mem, hdr: word, pos: word, s: Shape, bins: Lists, v: int, b': Lists)
    requires Consistent(m, hdr, pos, s, bins) && Free(s, v)
    requires ListsOk(m', hdr, s, b', {v})
    requires forall a :: a in s.size && a != End(s.size, v) ==> SameHead(m, m', a)
    requires Rd(m', End(s.size, v) + 4) == Rd(m, End(s.size, v) + 4) + 1
    requires Rd(m', hdr + 8) == Rd(m, hdr + 8)
    ensures Consistent(m', hdr, pos, Take(s, v), b')
  {
    Halves(m, hdr, pos, s, bins);
    var s' := Take(s, v);
    assert End(s.size, v) in s.size && End(s.size, v) !in s.pin;
    TakeWholeSound(s, v);
    WrittenTakeWhole(m, m', s, v);
    ShapeLists(m', hdr, s, b', {v}, s', {});
  }

  lemma {:induction false} SplitAligned(s: Shape, v: int, nb: int)
    requires Aligned(s) && v in s.size && nb % 8 == 0
    ensures Aligned(Split(s, v, nb))
  {
  }

  lemma {:induction false} SplitBuilt(hdr: word, pos: word, s: Shape, v: int, nb: int)
    requires Built(hdr, pos, s) && v in s.size && v != s.top
    requires MINSIZE <= nb <= s.size[v] - MINSIZE
    requires Sound(Take(Split(s, v, nb), v))
    ensures Built(hdr, pos, Take(Split(s, v, nb), v))
  {
    assert v + nb != s.top by { CutDisjoint(s.size, v, nb); }
  }

  /** A chunk on no list becomes live. */
  lemma {:induction false} TakeOutLists(m: Mem, hdr: word, s: Shape, bins: Lists, v: int)
    requires ListsOk(m, hdr, s, bins, {v})
    ensures ListsOk(m, hdr, Take(s, v), bins, {})
  {
    ShapeLists(m, hdr, s, bins, {v}, Take(s, v), {});
  }

  lemma {:induction false} TakeFrontEnd(m: Mem, m': Mem, hdr: word, pos: word, s: Shape, bins: Lists, v: int, nb: int,
                                        b': Lists)
    requires Consistent(m, hdr, pos, s, bins) && Free(s, v)
    requires MINSIZE <= nb <= s.size[v] - MINSIZE && nb % 8 == 0
    requires ListsOk(m', hdr, Split(s, v, nb), b', {v})
    requires forall a :: a in s.size && a != v && a != End(s.size, v) ==> SameHead(m, m', a)
    requires Rd(m', v + 4) == nb + 1 && Rd(m', v + nb + 4) == s.size[v] - nb + 1
    requires Rd(m', End(s.size, v)) == s.size[v] - nb && Rd(m', End(s.size, v) + 4) == Rd(m, End(s.size, v) + 4)
    requires Rd(m', hdr + 8) == Rd(m, hdr + 8)
    ensures Consistent(m', hdr, pos, Take(Split(s, v, nb), v), b')
  {
    Halves(m, hdr, pos, s, bins);
    TakeFrontSound(s, v, nb);
    WrittenTakeFront(m, m', s, v, nb);
    SplitAligned(s, v, nb);
    SplitBuilt(hdr, pos, s, v, nb);
    TakeOutLists(m', hdr, Split(s, v, nb), b', v);
  }

  /** Cutting a free chunk that is on no list. */
  lemma {:induction false} SplitOutLists(m: Mem, hdr: word, s: Shape, bins: Lists, v: int, nb: int)
    requires ListsOk(m, hdr, s, bins, {v}) && Sound(s) && Free(s, v) && hdr + 1040 <= s.base
    requires MINSIZE <= nb <= s.size[v] - MINSIZE
    ensures ListsOk(m, hdr, Split(s, v, nb), bins, {v, v + nb})
  {
    SplitTiled(s, v, nb);
    TiledPlaced(hdr, Split(s, v, nb));
    ShapeLists(m, hdr, s, bins, {v}, Split(s, v, nb), {v, v + nb});
  }

  /** Cutting the chunk in the last-remainder slot. */
  lemma {:induction false} SplitSlotLists(m: Mem, hdr: word, s: Shape, bins: Lists, v: int, nb: int)
    requires ListsOk(m, hdr, s, bins, {}) && Sound(s) && Free(s, v) && hdr + 1040 <= s.base
    requires v in bins[1]
    requires MINSIZE <= nb <= s.size[v] - MINSIZE
    ensures ListsOk(m, hdr, Split(s, v, nb), bins, {v + nb})
  {
    SplitTiled(s, v, nb);
    TiledPlaced(hdr, Split(s, v, nb));
    ShapeLists(m, hdr, s, bins, {}, Split(s, v, nb), {v + nb});
  }

  lemma {:induction false} FreeMeansBuilt(m: Mem, hdr: word, pos: word, s: Shape, bins: Lists, v: int)
    requires Consistent(m, hdr, pos, s, bins) && v in s.size
    ensures Built(hdr, pos, s)
    ensures v != s.top ==> End(s.size, v) in s.size && End(s.size, v) < pos
    ensures hdr + 1040 <= v < pos && v + s.size[v] <= pos
  {
    Halves(m, hdr, pos, s, bins);
  }

  lemma {:induction false} TakeListedFrame(m: Mem, m1: Mem, m2: Mem, hdr: word, pos: word, s: Shape, a: int, v: word)
    requires Built(hdr, pos, s) && Placed(hdr, s)
    requires LinkFrame(m, m1, hdr, s) && a in s.size && a < pos - 4
    requires m2 == m1[a + 4 := v]
    ensures Frame(m, m2, hdr, pos, s)
  {
    LinkFrameFrame(m, m1, hdr, pos, s, s);
    HeadNotPayload(s, a);
    PokeFrame(m1, hdr, pos, s, a + 4, v);
    FrameTrans(m, m1, m2, hdr, pos, s);
  }

  /** unlink, then set the PREV_INUSE bit behind the chunk. */
  lemma {:induction false} TakeListedStep(m: Mem, m1: Mem, m2: Mem, hdr: word, pos: word, s: Shape, bins: Lists,
                                          i: int, k: int, v: word, next: int)
    requires Consistent(m, hdr, pos, s, bins) && 1 <= i < NBINS && 0 <= k < |bins[i]| && v == bins[i][k]
    requires m1 == Unlinked(m, Bk(m, v), Fd(m, v))
    requires next == v + ChunkSize(m, v) && m2 == m1[next + 4 := WithInUse(Rd(m1, next + 4))]
    ensures Free(s, v)
    ensures Consistent(m2, hdr, pos, Take(s, v), Drop(bins, i, k)) && Frame(m, m2, hdr, pos, s)
  {
    Halves(m, hdr, pos, s, bins);
    ListedIsFree(m, hdr, s, bins, {}, i, k);
    ReadBehindFree(m, hdr, pos, s, bins, v);
    FreeMeansBuilt(m, hdr, pos, s, bins, v);
    UnlinkLists(m, hdr, s, bins, {}, i, k, v);
    LinkFrameHeads(m, m1, hdr, s);
    assert {} + {v} == {v as int};
    assert next in s.size;
    TakeListedEnd(m, m1, m2, hdr, pos, s, bins, v, Drop(bins, i, k), Rd(m2, next + 4));
  }

  lemma {:induction false} TakeListedEnd(m: Mem, m1: Mem, m2: Mem, hdr: word, pos: word, s: Shape, bins: Lists, v: int,
                                         b': Lists, w: word)
    requires Consistent(m, hdr, pos, s, bins) && Free(s, v)
    requires ListsOk(m1, hdr, s, b', {v}) && LinkFrame(m, m1, hdr, s)
    requires m2 == m1[End(s.size, v) + 4 := w] && w == Rd(m, End(s.size, v) + 4) + 1
    ensures Consistent(m2, hdr, pos, Take(s, v), b') && Frame(m, m2, hdr, pos, s)
  {
    Halves(m, hdr, pos, s, bins);
    FreeMeansBuilt(m, hdr, pos, s, bins, v);
    LinkFrameHeads(m, m1, hdr, s);
    var n := End(s.size, v);
    assert HeadFrame(m1, m2, hdr, s);
    HeadsLists(m1, m2, hdr, s, b', {v}, s);
    TakeWholeEnd(m, m2, hdr, pos, s, bins, v, b');
    TakeListedFrame(m, m1, m2, hdr, pos, s, n, w);
  }

  /** What the code reads to find the chunk behind a free chunk v, and that chunk's head. */
  lemma {:induction false} ReadBehindFree(m: Mem, hdr: word, pos: word, s: Shape, bins: Lists, v: int)
    requires Consistent(m, hdr, pos, s, bins) && Free(s, v)
    ensures ChunkSize(m, v) == s.size[v] && v + s.size[v] == End(s.size, v) && End(s.size, v) in s.live
    ensures WithInUse(Rd(m, End(s.size, v) + 4)) == Rd(m, End(s.size, v) + 4) + 1
  {
    Halves(m, hdr, pos, s, bins);
    FreeMeansBuilt(m, hdr, pos, s, bins, v);
    ReadHead(m, s, v);
    assert End(s.size, v) in s.size;
  }

  lemma {:induction false} ListedIsFree(m: Mem, hdr: word, s: Shape, bins: Lists, out: set<int>, i: int, k: int)
    requires ListsOk(m, hdr, s, bins, out) && 0 <= i < NBINS && 0 <= k < |bins[i]|
    ensures Free(s, bins[i][k]) && bins[i][k] !in out && (i == 1 || i == BinIndex(s.size[bins[i][k]]))
  {
    assert bins[i][k] in bins[i];
    assert AtHome(s, bins, out, i, bins[i][k]);
  }

  /** What a walk along bin i reads at its k-th node (the sentinel is node 0 and node |bin|+1). */
  lemma {:induction false} ReadNode(m: Mem, hdr: word, pos: word, s: Shape, bins: Lists, out: set<int>, i: int, k: int)
    requires HeadsOk(m, hdr, pos, s) && ListsOk(m, hdr, s, bins, out) && 1 <= i < NBINS && 0 <= k <= |bins[i]|
    ensures |Nodes(hdr, bins, i)| == |bins[i]| + 2
    ensures Nodes(hdr, bins, i)[0] == BinAt(hdr, i) && Nodes(hdr, bins, i)[|bins[i]| + 1] == BinAt(hdr, i)
    ensures Fd(m, Nodes(hdr, bins, i)[k]) == Nodes(hdr, bins, i)[k + 1]
    ensures Bk(m, Nodes(hdr, bins, i)[k + 1]) == Nodes(hdr, bins, i)[k]
    ensures k < |bins[i]| ==>
              && Nodes(hdr, bins, i)[k + 1] == bins[i][k] && bins[i][k] != BinAt(hdr, i)
              && bins[i][k] in s.size && ChunkSize(m, bins[i][k]) == s.size[bins[i][k]]
  {
    assert Ring(m, Nodes(hdr, bins, i));
    if k < |bins[i]| {
      ListedIsFree(m, hdr, s, bins, out, i, k);
      ReadHead(m, s, bins[i][k]);
    }
  }

  lemma {:induction false} FreeSize(m: Mem, hdr: word, pos: word, s: Shape, p: int)
    requires HeadsOk(m, hdr, pos, s) && p in s.size
    ensures MINSIZE <= s.size[p] && p + s.size[p] <= pos
    ensures 2 <= BinIndex(s.size[p]) <= 126
    ensures s.size[p] < MAX_SMALLBIN_SIZE ==> BinIndex(s.size[p]) == s.size[p] / 8
  {
    BinIndexRange(s.size[p]);
  }

  /** All chunks of a small bin have the same size. */
  lemma {:induction false} SmallBin(m: Mem, hdr: word, pos: word, s: Shape, bins: Lists, out: set<int>, i: int, k: int)
    requires HeadsOk(m, hdr, pos, s) && ListsOk(m, hdr, s, bins, out) && 2 <= i < 64 && 0 <= k < |bins[i]|
    ensures bins[i][k] in s.size && s.size[bins[i][k]] == 8 * i
  {
    ListedIsFree(m, hdr, s, bins, out, i, k);
    BinIndexRange(s.size[bins[i][k]]);
  }

  lemma {:induction false} CutIsAligned(s: Shape, v: int, nb: int)
    requires Aligned(s) && v in s.size && nb % 8 == 0
    ensures (s.size[v] - nb) % 8 == 0
  {
    assert s.size[v] - nb == 8 * (s.size[v] / 8 - nb / 8);
  }

  /** The numbers a cut computes are exact: no size wraps and no bit is lost. */
  lemma {:induction false} CutReads(m: Mem, hdr: word, pos: word, s: Shape, v: word, nb: word)
    requires HeadsOk(m, hdr, pos, s) && v in s.size && nb % 8 == 0 && MINSIZE <= nb <= s.size[v] - MINSIZE
    ensures ChunkSize(m, v) == s.size[v]
    ensures v + s.size[v] <= pos && (s.size[v] - nb) % 8 == 0 && s.size[v] - nb + 1 < TWO_32
    ensures nb + 1 < TWO_32 && WithInUse(nb) == nb + 1
  {
    ReadHead(m, s, v);
    EvenInUse(nb);
    CutIsAligned(s, v, nb);
    assert Built(hdr, pos, s);
  }

  /** Bins that are their own sentinels, over no chunks. */
  lemma {:induction false} EmptyLists(m: Mem, hdr: word, s: Shape)
    requires hdr + 1040 < TWO_32 && s.size == map[]
    requires forall i {:trigger BinAt(hdr, i)} :: 0 <= i < NBINS ==>
             Fd(m, BinAt(hdr, i)) == BinAt(hdr, i) == Bk(m, BinAt(hdr, i))
    ensures ListsOk(m, hdr, s, seq(NBINS, _ => []), {})
    ensures Rd(m, hdr + 8) == hdr
  {
    var b: Lists := seq(NBINS, _ => []);
    forall i | 1 <= i < NBINS
      ensures Ring(m, Nodes(hdr, b, i))
    {
      assert Nodes(hdr, b, i) == [BinAt(hdr, i), BinAt(hdr, i)];
    }
    assert Fd(m, BinAt(hdr, 0)) == BinAt(hdr, 0);
  }
}
