/** Each way malloc obtains a chunk, from the memory words it writes to the heap it leaves. */
module HeapSteps {
  import opened Words
  import opened HeapShape
  import opened HeapWords
  import opened HeapLists
  import opened HeapBins
  import opened HeapState

  /** Set the PREV_INUSE bit behind the chunk, then unlink it. */
  lemma {:induction false} TakeScannedStep(m: Mem, m1: Mem, m2: Mem, hdr: word, pos: word, s: Shape, bins: Lists,
                                           i: int, k: int, v: word, next: int)
    requires Consistent(m, hdr, pos, s, bins) && 1 <= i < NBINS && 0 <= k < |bins[i]| && v == bins[i][k]
    requires next == v + ChunkSize(m, v) && m1 == m[next + 4 := WithInUse(Rd(m, next + 4))]
    requires m2 == Unlinked(m1, Bk(m1, v), Fd(m1, v))
    ensures Free(s, v)
    ensures Consistent(m2, hdr, pos, Take(s, v), Drop(bins, i, k)) && Frame(m, m2, hdr, pos, s)
  {
    Halves(m, hdr, pos, s, bins);
    ListedIsFree(m, hdr, s, bins, {}, i, k);
    ReadBehindFree(m, hdr, pos, s, bins, v);
    FreeMeansBuilt(m, hdr, pos, s, bins, v);
    PokeHeadLists(m, hdr, s, bins, {}, next, WithInUse(Rd(m, next + 4)));
    UnlinkLists(m1, hdr, s, bins, {}, i, k, v);
    assert {} + {v} == {v as int};
    LinkFrameHeads(m1, m2, hdr, s);
    TakeWholeEnd(m, m2, hdr, pos, s, bins, v, Drop(bins, i, k));
    PokeThenLinkFrame(m, m1, m2, hdr, pos, s, s, next, WithInUse(Rd(m, next + 4)));
  }

  /** Writing the head of a chunk leaves the lists alone. */
  lemma {:induction false} PokeHeadLists(m: Mem, hdr: word, s: Shape, bins: Lists, out: set<int>, a: int, w: word)
    requires ListsOk(m, hdr, s, bins, out) && a in s.size
    ensures ListsOk(m[a + 4 := w], hdr, s, bins, out)
  {
    HeadsLists(m, m[a + 4 := w], hdr, s, bins, out, s);
  }

  /** Writing a head, then relinking free chunks of t, touches no payload of s. */
  lemma {:induction false} PokeThenLinkFrame(m: Mem, m1: Mem, m2: Mem, hdr: word, pos: word, s: Shape, t: Shape,
                                             a: int, w: word)
    requires Built(hdr, pos, s) && a in s.size && a + 4 < pos
    requires m1 == m[a + 4 := w] && LinkFrame(m1, m2, hdr, t) && Placed(hdr, t)
    requires Tiled(t) && t.top + t.size[t.top] <= pos
    requires forall a {:trigger a in s.live} :: a in s.live ==> a in t.live && a in t.size && t.size[a] == s.size[a]
    ensures Frame(m, m2, hdr, pos, s)
  {
    HeadNotPayload(s, a);
    PokeFrame(m, hdr, pos, s, a + 4, w);
    TiledBounds(t, pos);
    LinkFrameFrame(m1, m2, hdr, pos, s, t);
    FrameTrans(m, m1, m2, hdr, pos, s);
  }

  lemma {:induction false} TiledBounds(t: Shape, pos: int)
    requires Tiled(t) && t.top + t.size[t.top] <= pos
    ensures forall a {:trigger a in t.size} :: a in t.size ==> t.size[a] >= MINSIZE && a + t.size[a] <= pos
  {
  }

  /** Empty the last-remainder slot, then set the PREV_INUSE bit behind the chunk that was there. */
  lemma {:induction false} TakeSlotStep(m: Mem, m1: Mem, m2: Mem, hdr: word, pos: word, s: Shape, bins: Lists, v: word,
                                        next: int)
    requires Consistent(m, hdr, pos, s, bins) && bins[1] == [v]
    requires m1 == SlotCleared(m, hdr)
    requires next == v + ChunkSize(m, v) && m2 == m1[next + 4 := WithInUse(Rd(m1, next + 4))]
    ensures Free(s, v)
    ensures Consistent(m2, hdr, pos, Take(s, v), bins[1 := []]) && Frame(m, m2, hdr, pos, s)
  {
    Halves(m, hdr, pos, s, bins);
    ListedIsFree(m, hdr, s, bins, {}, 1, 0);
    ReadBehindFree(m, hdr, pos, s, bins, v);
    FreeMeansBuilt(m, hdr, pos, s, bins, v);
    SlotClearedLists(m, hdr, s, bins, {}, {v as int});
    LinkFrameHeads(m, m1, hdr, s);
    assert next in s.size;
    TakeListedEnd(m, m1, m2, hdr, pos, s, bins, v, bins[1 := []], Rd(m2, next + 4));
  }

  /** The cut of v at nb is complete once the remainder's head and footer are written. */
  lemma {:induction false} SplitTail(m: Mem, m3: Mem, m4: Mem, hdr: word, pos: word, s: Shape, bins: Lists, v: int,
                                     nb: int, b': Lists, w: word, rs: word)
    requires Consistent(m, hdr, pos, s, bins) && Free(s, v)
    requires MINSIZE <= nb <= s.size[v] - MINSIZE && nb % 8 == 0
    requires ListsOk(m3, hdr, Split(s, v, nb), b', {v})
    requires forall a :: a in s.size && a != v ==> SameHead(m, m3, a)
    requires Rd(m3, v + 4) == nb + 1
    requires rs == s.size[v] - nb && w == rs + 1 && m4 == m3[v + nb + 4 := w][v + nb + rs := rs]
    requires Rd(m3, hdr + 8) == Rd(m, hdr + 8)
    ensures Consistent(m4, hdr, pos, Take(Split(s, v, nb), v), b')
  {
    Halves(m, hdr, pos, s, bins);
    FreeMeansBuilt(m, hdr, pos, s, bins, v);
    SplitTiled(s, v, nb);
    TiledPlaced(hdr, Split(s, v, nb));
    assert End(s.size, v) in s.size;
    assert HeadFrame(m3, m4, hdr, Split(s, v, nb));
    HeadsLists(m3, m4, hdr, Split(s, v, nb), b', {v}, Split(s, v, nb));
    SplitTailHeads(m, m3, m4, s, v, nb, w, rs);
    TakeFrontEnd(m, m4, hdr, pos, s, bins, v, nb, b');
  }

  lemma {:induction false} SplitTailHeads(m: Mem, m3: Mem, m4: Mem, s: Shape, v: int, nb: int, w: word, rs: word)
    requires Tiled(s) && v in s.size && v != s.top && MINSIZE <= nb <= s.size[v] - MINSIZE
    requires forall a :: a in s.size && a != v ==> SameHead(m, m3, a)
    requires Rd(m3, v + 4) == nb + 1
    requires rs == s.size[v] - nb && w == rs + 1 && m4 == m3[v + nb + 4 := w][v + nb + rs := rs]
    ensures forall a :: a in s.size && a != v && a != End(s.size, v) ==> SameHead(m, m4, a)
    ensures Rd(m4, v + 4) == nb + 1 && Rd(m4, v + nb + 4) == w
    ensures Rd(m4, End(s.size, v)) == rs && Rd(m4, End(s.size, v) + 4) == Rd(m, End(s.size, v) + 4)
  {
    assert End(s.size, v) in s.size && SameHead(m, m3, End(s.size, v));
  }

  /** Writes at the head of v, at the head of the remainder and at its footer touch no payload. */
  lemma {:induction false} SplitTailFrame(m: Mem, m3: Mem, m4: Mem, hdr: word, pos: word, s: Shape, v: int, nb: int,
                                          w: word, rs: word)
    requires Built(hdr, pos, s) && Free(s, v) && MINSIZE <= nb <= s.size[v] - MINSIZE
    requires Frame(m, m3, hdr, pos, s)
    requires rs == s.size[v] - nb && m4 == m3[v + nb + 4 := w][v + nb + rs := rs]
    ensures Frame(m, m4, hdr, pos, s)
  {
    assert End(s.size, v) in s.size;
    InsideNotPayload(s, v, v + nb + 4);
    InsideNotPayload(s, v, v + nb + rs);
    PokeFrame(m3, hdr, pos, s, v + nb + 4, w);
    PokeFrame(m3[v + nb + 4 := w], hdr, pos, s, v + nb + rs, rs);
    FrameTrans(m3, m3[v + nb + 4 := w], m4, hdr, pos, s);
    FrameTrans(m, m3, m4, hdr, pos, s);
  }

  lemma {:induction false} SplitFinish(m: Mem, m3: Mem, m4: Mem, hdr: word, pos: word, s: Shape, bins: Lists, v: int,
                                       nb: int, b': Lists, r: int, rs: word)
    requires Consistent(m, hdr, pos, s, bins) && Free(s, v)
    requires MINSIZE <= nb <= s.size[v] - MINSIZE && nb % 8 == 0
    requires ListsOk(m3, hdr, Split(s, v, nb), b', {v})
    requires forall a :: a in s.size && a != v ==> SameHead(m, m3, a)
    requires Rd(m3, v + 4) == nb + 1 && Rd(m3, hdr + 8) == Rd(m, hdr + 8)
    requires r == v + nb && rs == s.size[v] - nb && rs + 1 < TWO_32
    requires m4 == m3[r + 4 := rs + 1][r + rs := rs]
    requires Frame(m, m3, hdr, pos, s)
    ensures Consistent(m4, hdr, pos, Take(Split(s, v, nb), v), b') && Frame(m, m4, hdr, pos, s)
  {
    Halves(m, hdr, pos, s, bins);
    FreeMeansBuilt(m, hdr, pos, s, bins, v);
    SplitTail(m, m3, m4, hdr, pos, s, bins, v, nb, b', rs + 1, rs);
    SplitTailFrame(m, m3, m4, hdr, pos, s, v, nb, rs + 1, rs);
  }

  /** Cut the chunk in the last-remainder slot; the rest becomes the new last remainder. */
  lemma {:induction false} SplitSlotStep(m: Mem, m1: Mem, m2: Mem, m4: Mem, hdr: word, pos: word, s: Shape,
                                         bins: Lists, v: word, nb: word, r: word, rs: word)
    requires Consistent(m, hdr, pos, s, bins) && bins[1] == [v]
    requires v in s.size && MINSIZE <= nb <= s.size[v] - MINSIZE && nb % 8 == 0
    requires r == v + nb && rs == s.size[v] - nb && rs + 1 < TWO_32 && nb + 1 < TWO_32
    requires m1 == m[v + 4 := nb + 1] && m2 == SlotLinked(m1, hdr, r)
    requires m4 == m2[r + 4 := rs + 1][r + rs := rs]
    ensures Free(s, v)
    ensures Consistent(m4, hdr, pos, Take(Split(s, v, nb), v), bins[1 := [r]]) && Frame(m, m4, hdr, pos, s)
  {
    Halves(m, hdr, pos, s, bins);
    ListedIsFree(m, hdr, s, bins, {}, 1, 0);
    FreeMeansBuilt(m, hdr, pos, s, bins, v);
    SplitSlotMiddle(m, hdr, pos, s, bins, v, nb, r);
    SplitFinish(m, m2, m4, hdr, pos, s, bins, v, nb, bins[1 := [r]], r, rs);
  }

  lemma {:induction false} SplitSlotMiddle(m: Mem, hdr: word, pos: word, s: Shape, bins: Lists, v: word, nb: word,
                                           r: word)
    requires ListsOk(m, hdr, s, bins, {}) && Built(hdr, pos, s) && Free(s, v) && bins[1] == [v]
    requires MINSIZE <= nb <= s.size[v] - MINSIZE && r == v + nb && nb + 1 < TWO_32
    ensures var m2 := SlotLinked(m[v + 4 := nb + 1], hdr, r);
            && ListsOk(m2, hdr, Split(s, v, nb), bins[1 := [r]], {v})
            && (forall a :: a in s.size && a != v ==> SameHead(m, m2, a))
            && Rd(m2, v + 4) == nb + 1 && Rd(m2, hdr + 8) == Rd(m, hdr + 8)
            && Frame(m, m2, hdr, pos, s)
  {
    var m1 := m[v + 4 := nb + 1];
    PokeHeadLists(m, hdr, s, bins, {}, v, nb + 1);
    SplitSlotLists(m1, hdr, s, bins, v, nb);
    SlotLists(m1, hdr, Split(s, v, nb), bins, {v + nb}, r, {v as int});
    SplitLinkFrame(m, m1, SlotLinked(m1, hdr, r), hdr, pos, s, v, nb, nb + 1);
  }

  /** Cut a chunk found in a bin; the rest becomes the last remainder. */
  lemma {:induction false} SplitScannedStep(m: Mem, m1: Mem, m2: Mem, m3: Mem, m4: Mem, hdr: word, pos: word, s: Shape,
                                            bins: Lists, i: int, k: int,
                         v: word, nb: word, r: word, rs: word)
    requires Consistent(m, hdr, pos, s, bins) && bins[1] == []
    requires 2 <= i < NBINS && 0 <= k < |bins[i]| && v == bins[i][k]
    requires v in s.size && MINSIZE <= nb <= s.size[v] - MINSIZE && nb % 8 == 0
    requires r == v + nb && rs == s.size[v] - nb && rs + 1 < TWO_32 && nb + 1 < TWO_32
    requires m1 == m[v + 4 := nb + 1] && m2 == Unlinked(m1, Bk(m1, v), Fd(m1, v)) && m3 == SlotLinked(m2, hdr, r)
    requires m4 == m3[r + 4 := rs + 1][r + rs := rs]
    ensures Free(s, v)
    ensures Consistent(m4, hdr, pos, Take(Split(s, v, nb), v), Drop(bins, i, k)[1 := [r]]) && Frame(m, m4, hdr, pos, s)
  {
    Halves(m, hdr, pos, s, bins);
    ListedIsFree(m, hdr, s, bins, {}, i, k);
    FreeMeansBuilt(m, hdr, pos, s, bins, v);
    SplitScannedMiddle(m, m1, m2, m3, hdr, pos, s, bins, i, k, v, nb, r);
    SplitFinish(m, m3, m4, hdr, pos, s, bins, v, nb, Drop(bins, i, k)[1 := [r]], r, rs);
  }

  lemma {:induction false} SplitScannedMiddle(m: Mem, m1: Mem, m2: Mem, m3: Mem, hdr: word, pos: word, s: Shape,
                                              bins: Lists, i: int, k: int,
                           v: word, nb: word, r: word)
    requires ListsOk(m, hdr, s, bins, {}) && Built(hdr, pos, s) && Free(s, v) && bins[1] == []
    requires 2 <= i < NBINS && 0 <= k < |bins[i]| && v == bins[i][k]
    requires MINSIZE <= nb <= s.size[v] - MINSIZE && r == v + nb && nb + 1 < TWO_32
    requires m1 == m[v + 4 := nb + 1] && m2 == Unlinked(m1, Bk(m1, v), Fd(m1, v)) && m3 == SlotLinked(m2, hdr, r)
    ensures ListsOk(m3, hdr, Split(s, v, nb), Drop(bins, i, k)[1 := [r]], {v})
    ensures forall a :: a in s.size && a != v ==> SameHead(m, m3, a)
    ensures Rd(m3, v + 4) == nb + 1 && Rd(m3, hdr + 8) == Rd(m, hdr + 8)
    ensures Frame(m, m3, hdr, pos, s)
  {
    PokeHeadLists(m, hdr, s, bins, {}, v, nb + 1);
    UnlinkLists(m1, hdr, s, bins, {}, i, k, v);
    var b1 := Drop(bins, i, k);
    assert {} + {v} == {v as int};
    SplitOutLists(m2, hdr, s, b1, v, nb);
    SlotLists(m2, hdr, Split(s, v, nb), b1, {v as int, v + nb}, r, {v as int});
    WidenLinkFrame(m1, m2, m3, hdr, s, v, nb);
    SplitLinkFrame(m, m1, m3, hdr, pos, s, v, nb, nb + 1);
  }

  /** Links of free chunks of s are links of free chunks after the cut. */
  lemma {:induction false} WidenLinkFrame(m1: Mem, m2: Mem, m3: Mem, hdr: word, s: Shape, v: int, nb: int)
    requires Free(s, v) && LinkFrame(m1, m2, hdr, s) && LinkFrame(m2, m3, hdr, Split(s, v, nb))
    ensures LinkFrame(m1, m3, hdr, Split(s, v, nb))
  {
    forall w | Rd(m3, w) != Rd(m1, w)
      ensures w == hdr + 4 || hdr + 16 <= w < hdr + 1032 || Free(Split(s, v, nb), w - 8)
              || Free(Split(s, v, nb), w - 12)
    {
      assert Rd(m3, w) != Rd(m2, w) || Rd(m2, w) != Rd(m1, w);
    }
  }

  /** Writing v's new head and relinking the pieces of v keeps every other head and all payloads. */
  lemma {:induction false} SplitLinkFrame(m: Mem, m1: Mem, m2: Mem, hdr: word, pos: word, s: Shape, v: int, nb: int,
                                          w: word)
    requires Built(hdr, pos, s) && Free(s, v) && MINSIZE <= nb <= s.size[v] - MINSIZE
    requires m1 == m[v + 4 := w] && LinkFrame(m1, m2, hdr, Split(s, v, nb)) && Placed(hdr, s)
    ensures forall a :: a in s.size && a != v ==> SameHead(m, m2, a)
    ensures Rd(m2, v + 4) == w && Rd(m2, hdr + 8) == Rd(m, hdr + 8)
    ensures Frame(m, m2, hdr, pos, s)
  {
    SplitTiled(s, v, nb);
    TiledPlaced(hdr, Split(s, v, nb));
    SplitLinkHeads(m, m1, m2, hdr, s, v, nb, w);
    PokeThenLinkFrame(m, m1, m2, hdr, pos, s, Split(s, v, nb), v, w);
  }

  lemma {:induction false} SplitLinkHeads(m: Mem, m1: Mem, m2: Mem, hdr: word, s: Shape, v: int, nb: int, w: word)
    requires v in s.size && Placed(hdr, s) && Placed(hdr, Split(s, v, nb))
    requires m1 == m[v + 4 := w] && LinkFrame(m1, m2, hdr, Split(s, v, nb))
    ensures forall a :: a in s.size && a != v ==> SameHead(m, m2, a)
    ensures Rd(m2, v + 4) == w && Rd(m2, hdr + 8) == Rd(m, hdr + 8)
  {
    LinkFrameHeads(m1, m2, hdr, Split(s, v, nb));
    assert v in Split(s, v, nb).size;
    forall a | a in s.size && a != v
      ensures SameHead(m, m2, a)
    {
      assert a in Split(s, v, nb).size;
    }
  }

  /** frontlink puts the one chunk that is on no list where it belongs. */
  lemma {:induction false} FrontLinkStep(m: Mem, mk: Mem, m': Mem, hdr: word, pos: word, s: Shape, bins: Lists, i: int,
                                         k: int, p: word)
    requires HeadsOk(m, hdr, pos, s) && ListsOk(m, hdr, s, bins, {p}) && p in s.size && i == BinIndex(s.size[p])
             && 2 <= i < NBINS
    requires Fits(s.size, bins[i], k, s.size[p])
    requires mk == MarkedMap(m, hdr, i) || (mk == m && bins[i] != [])
    requires m' == Linked(mk, p, Nodes(hdr, bins, i)[k], Nodes(hdr, bins, i)[k + 1])
    ensures Consistent(m', hdr, pos, s, Put(bins, i, k, p)) && Frame(m, m', hdr, pos, s)
  {
    assert p in {p as int} && Free(s, p);
    assert Built(hdr, pos, s);
    if mk == MarkedMap(m, hdr, i) { MarkLists(m, hdr, s, bins, {p}, i); }
    InsertLists(mk, hdr, s, bins, {p}, i, k, p);
    assert {p as int} - {p} == {};
    LinkFrameTrans(m, mk, m', hdr, s);
    LinkFrameHeads(m, m', hdr, s);
    WrittenFrame(m, m', s);
    TiledBounds(s, pos);
    LinkFrameFrame(m, m', hdr, pos, s, s);
  }

  lemma {:induction false} LinkFrameTrans(m: Mem, m1: Mem, m2: Mem, hdr: word, s: Shape)
    requires m1 == m || LinkFrame(m, m1, hdr, s)
    requires LinkFrame(m1, m2, hdr, s)
    ensures LinkFrame(m, m2, hdr, s)
  {
    forall w | Rd(m2, w) != Rd(m, w)
      ensures w == hdr + 4 || hdr + 16 <= w < hdr + 1032 || Free(s, w - 8) || Free(s, w - 12)
    {
      assert Rd(m2, w) != Rd(m1, w) || Rd(m1, w) != Rd(m, w);
    }
  }

  /** The last remainder leaves its slot and is on no list until frontlink places it. */
  lemma {:induction false} ClearSlotStep(m: Mem, hdr: word, pos: word, s: Shape, bins: Lists, v: word)
    requires Consistent(m, hdr, pos, s, bins) && bins[1] == [v]
    ensures v in s.size && Built(hdr, pos, s)
    ensures HeadsOk(SlotCleared(m, hdr), hdr, pos, s) && ListsOk(SlotCleared(m, hdr), hdr, s, bins[1 := []], {v})
    ensures Frame(m, SlotCleared(m, hdr), hdr, pos, s)
  {
    Halves(m, hdr, pos, s, bins);
    ListedIsFree(m, hdr, s, bins, {}, 1, 0);
    FreeMeansBuilt(m, hdr, pos, s, bins, v);
    SlotClearedLists(m, hdr, s, bins, {}, {v as int});
    LinkFrameHeads(m, SlotCleared(m, hdr), hdr, s);
    WrittenFrame(m, SlotCleared(m, hdr), s);
    TiledBounds(s, pos);
    LinkFrameFrame(m, SlotCleared(m, hdr), hdr, pos, s, s);
  }

  // ---- The top chunk ----

  lemma {:induction false} WrittenResize(m: Mem, m': Mem, s: Shape, n: word)
    requires Sound(s) && Written(m, s) && n >= MINSIZE && n + 1 < TWO_32
    requires m' == m[s.top + 4 := (n + 1) as word]
    ensures Written(m', Resize(s, n))
  {
    FreeIsPinned(s, s.top);
    var s' := Resize(s, n);
    forall a | Free(s', a)
      ensures Rd(m', End(s'.size, a)) == s'.size[a]
    {
      assert End(s.size, a) in s.size;
      assert End(s'.size, a) == End(s.size, a);
    }
  }

  /** The top chunk gets a new size and the heap a new end. */
  lemma {:induction false} ResizeStep(m: Mem, m': Mem, hdr: word, pos: word, s: Shape, bins: Lists, n: word, pos': word)
    requires Consistent(m, hdr, pos, s, bins) && Built(hdr, pos, s)
    requires n >= MINSIZE && n % 8 == 0 && n + 1 < TWO_32 && pos' == s.top + n && pos' % PAGE == 0
    requires m' == m[s.top + 4 := (n + 1) as word]
    ensures Consistent(m', hdr, pos', Resize(s, n), bins)
    ensures Frame(m, m', hdr, if pos < pos' then pos' else pos, s)
  {
    Halves(m, hdr, pos, s, bins);
    ResizeSound(s, n);
    WrittenResize(m, m', s, n);
    HeadsLists(m, m', hdr, s, bins, {}, s);
    ShapeLists(m', hdr, s, bins, {}, Resize(s, n), {});
    HeadNotPayload(s, s.top);
    PokeFrame(m, hdr, if pos < pos' then pos' else pos, s, s.top + 4, (n + 1) as word);
  }

  ghost function OneChunk(t: int, n: int): Shape {
    Shape(map[t := n], {}, {t}, t, t)
  }

  /** The heap after an extension for nb bytes, with room for a remainder. It grows by whole pages, as few as suffice;
      at
      first it starts at the next multiple of 8, goes up to a page boundary, and takes less than two pages too many. */
  ghost predicate Grown(s: Shape, pos: int, s': Shape, pos': int, nb: int) {
    if s.size == map[] then
      && pos <= s'.top < pos + 8 && s'.top % 8 == 0 && pos' % PAGE == 0
      && nb + MINSIZE <= pos' - s'.top < nb + MINSIZE + 2 * PAGE
      && s' == OneChunk(s'.top, pos' - s'.top)
    else
      && s.top in s.size && (pos' - pos) % PAGE == 0 && nb + MINSIZE <= pos' - pos < nb + MINSIZE + PAGE
      && s' == Resize(s, s.size[s.top] + (pos' - pos))
  }

  /** nb bytes from the front of top at v, of the heap as it was if top has room, and else of the extended heap. */
  ghost predicate FromTop(s: Shape, pos: int, s': Shape, pos': int, v: int, nb: int) {
    if TopFits(s, nb) then
      v == s.top && pos' == pos && s' == Carved(s, v, nb)
    else
      exists t :: Grown(s, pos, t, pos', nb) && v == t.top && v in t.size && s' == Carved(t, v, nb)
  }

  /** The first extension creates the heap: one chunk, the top. */
  lemma {:induction false} FirstTopStep(m: Mem, m': Mem, hdr: word, pos: word, s: Shape, bins: Lists, t: word, n: word,
                                        pos': word)
    requires Consistent(m, hdr, pos, s, bins) && s.size == map[]
    requires hdr + 1040 <= t && t % 8 == 0 && n >= MINSIZE && n % 8 == 0 && n + 1 < TWO_32
    requires pos' == t + n && pos' % PAGE == 0
    requires m' == m[hdr + 8 := t][t + 4 := (n + 1) as word]
    ensures Consistent(m', hdr, pos', OneChunk(t, n), bins)
    ensures Frame(m, m', hdr, pos', s)
  {
    var s' := OneChunk(t, n);
    assert HeadsOk(m', hdr, pos', s') by { OneChunkHeads(m, m', hdr, t, n, pos'); }
    assert ListsOk(m', hdr, s', bins, {}) by {
      Halves(m, hdr, pos, s, bins);
      TiledPlaced(hdr, s');
      HeadsLists(m, m', hdr, s, bins, {}, s');
      ShapeLists(m', hdr, s, bins, {}, s', {});
    }
    assert Frame(m, m', hdr, pos', s) by { Halves(m, hdr, pos, s, bins); }
  }

  lemma {:induction false} OneChunkHeads(m: Mem, m': Mem, hdr: word, t: word, n: word, pos': word)
    requires hdr + 1040 <= t && t % 8 == 0 && n >= MINSIZE && n % 8 == 0 && n + 1 < TWO_32
    requires pos' == t + n && pos' % PAGE == 0
    requires m' == m[hdr + 8 := t][t + 4 := (n + 1) as word]
    ensures HeadsOk(m', hdr, pos', OneChunk(t, n))
  {
  }

  /** The front of the top chunk becomes live; what is left is the new top. */
  lemma {:induction false} TakeTopStep(m: Mem, m': Mem, hdr: word, pos: word, s: Shape, bins: Lists, nb: word,
                                       rs: word, t: word)
    requires Consistent(m, hdr, pos, s, bins) && Built(hdr, pos, s)
    requires MINSIZE <= nb <= s.size[s.top] - MINSIZE && nb % 8 == 0
    requires rs == s.size[s.top] - nb && t == s.top + nb && nb + 1 < TWO_32 && rs + 1 < TWO_32
    requires m' == m[s.top + 4 := (nb + 1) as word][hdr + 8 := t][t + 4 := (rs + 1) as word]
    ensures Consistent(m', hdr, pos, Take(Split(s, s.top, nb), s.top), bins)
    ensures Frame(m, m', hdr, pos, s)
  {
    var s' := Take(Split(s, s.top, nb), s.top);
    assert HeadsOk(m', hdr, pos, s') by {
      Halves(m, hdr, pos, s, bins);
      TakeTopHeads(m, m', hdr, pos, s, nb, rs, t);
    }
    assert ListsOk(m', hdr, s', bins, {}) by {
      Halves(m, hdr, pos, s, bins);
      TakeTopSound(s, nb);
      TiledPlaced(hdr, s');
      TakeTopLists(m, m', hdr, s, bins, nb);
    }
    TakeTopFrame(m, m', hdr, pos, s, nb, nb + 1, t, rs + 1);
  }

  lemma {:induction false} TakeTopHeads(m: Mem, m': Mem, hdr: word, pos: word, s: Shape, nb: word, rs: word, t: word)
    requires HeadsOk(m, hdr, pos, s) && Built(hdr, pos, s)
    requires MINSIZE <= nb <= s.size[s.top] - MINSIZE && nb % 8 == 0
    requires rs == s.size[s.top] - nb && t == s.top + nb && nb + 1 < TWO_32 && rs + 1 < TWO_32
    requires m' == m[s.top + 4 := (nb + 1) as word][hdr + 8 := t][t + 4 := (rs + 1) as word]
    ensures HeadsOk(m', hdr, pos, Take(Split(s, s.top, nb), s.top))
  {
    TakeTopSound(s, nb);
    WrittenTakeTop(m, m', s, nb);
    SplitAligned(s, s.top, nb);
  }

  lemma {:induction false} TakeTopLists(m: Mem, m': Mem, hdr: word, s: Shape, bins: Lists, nb: int)
    requires ListsOk(m, hdr, s, bins, {}) && s.top in s.size && s.top !in s.live && s.top + nb !in s.size
    requires Placed(hdr, Take(Split(s, s.top, nb), s.top))
    requires HeadFrame(m, m', hdr, Take(Split(s, s.top, nb), s.top))
    ensures ListsOk(m', hdr, Take(Split(s, s.top, nb), s.top), bins, {})
  {
    var s' := Take(Split(s, s.top, nb), s.top);
    HeadsLists(m, m', hdr, s, bins, {}, s');
    ShapeLists(m', hdr, s, bins, {}, s', {});
  }

  lemma {:induction false} TakeTopFrame(m: Mem, m': Mem, hdr: word, pos: word, s: Shape, nb: int, w: word, t: word,
                                        u: word)
    requires Built(hdr, pos, s) && 0 <= nb <= s.size[s.top] - MINSIZE && t == s.top + nb
    requires m' == m[s.top + 4 := w][hdr + 8 := t][t + 4 := u]
    ensures Frame(m, m', hdr, pos, s)
  {
    InsideNotPayload(s, s.top, s.top + 4);
    InsideNotPayload(s, s.top, t + 4);
  }

  /** The top chunk, as the extension code reads it. */
  lemma {:induction false} ReadTop(m: Mem, hdr: word, pos: word, s: Shape)
    requires HeadsOk(m, hdr, pos, s) && Built(hdr, pos, s)
    ensures Rd(m, hdr + 8) == s.top && ChunkSize(m, s.top) == s.size[s.top] && s.top + s.size[s.top] == pos
    ensures s.size[s.top] % 8 == 0 && MINSIZE <= s.size[s.top] && hdr + 1040 <= s.base <= s.top && s.top % 8 == 0
    ensures pos % 8 == 0
  {
    ReadHead(m, s, s.top);
  }

  lemma {:induction false} TopFacts(m: Mem, hdr: word, pos: word, s: Shape, bins: Lists)
    requires Consistent(m, hdr, pos, s, bins) && Built(hdr, pos, s)
    ensures Rd(m, hdr + 8) == s.top && ChunkSize(m, s.top) == s.size[s.top] && s.top + s.size[s.top] == pos
    ensures s.size[s.top] % 8 == 0 && MINSIZE <= s.size[s.top] && hdr + 1040 <= s.base <= s.top && s.top % 8 == 0
    ensures pos % 8 == 0
  {
    Halves(m, hdr, pos, s, bins);
    ReadTop(m, hdr, pos, s);
  }

  lemma {:induction false} GrowStep(m: Mem, hdr: word, pos: word, s: Shape, bins: Lists, more: word, pos': word)
    requires Consistent(m, hdr, pos, s, bins) && Built(hdr, pos, s)
    requires more % PAGE == 0 && pos' == pos + more
    ensures s.size[s.top] + more + 1 < TWO_32
    ensures var n: word := s.size[s.top] + more;
            && WithInUse(n) == n + 1
            && Consistent(m[s.top + 4 := WithInUse(n)], hdr, pos', Resize(s, n), bins)
            && Frame(m, m[s.top + 4 := WithInUse(n)], hdr, pos', s)
  {
    TopFacts(m, hdr, pos, s, bins);
    var n: word := s.size[s.top] + more;
    ResizeStep(m, m[s.top + 4 := WithInUse(n)], hdr, pos, s, bins, n, pos');
  }

  /** The words read before the top chunk is cut. */
  lemma {:induction false} TopReads(m: Mem, hdr: word, pos: word, s: Shape, nb: word)
    requires HeadsOk(m, hdr, pos, s) && Built(hdr, pos, s)
    requires nb % 8 == 0 && MINSIZE <= nb <= s.size[s.top] - MINSIZE
    ensures Rd(m, hdr + 8) == s.top > 0 && ChunkSize(m, s.top) == s.size[s.top] && s.top + s.size[s.top] == pos
    ensures nb + 1 < TWO_32 && WithInUse(nb) == nb + 1
    ensures s.size[s.top] - nb + 1 < TWO_32 && WithInUse(s.size[s.top] - nb) == s.size[s.top] - nb + 1
  {
    ReadTop(m, hdr, pos, s);
    CutReads(m, hdr, pos, s, s.top, nb);
    EvenInUse(s.size[s.top] - nb);
  }

  lemma {:induction false} TakeTopAll(m: Mem, m': Mem, hdr: word, pos: word, s: Shape, bins: Lists, nb: word, rs: word,
                                      t: word)
    requires Consistent(m, hdr, pos, s, bins) && Built(hdr, pos, s)
    requires nb % 8 == 0 && MINSIZE <= nb <= s.size[s.top] - MINSIZE && rs == s.size[s.top] - nb && t == s.top + nb
    requires WithInUse(nb) == nb + 1 && WithInUse(rs) == rs + 1
    requires m' == m[s.top + 4 := WithInUse(nb)][hdr + 8 := t][t + 4 := WithInUse(rs)]
    ensures Consistent(m', hdr, pos, Take(Split(s, s.top, nb), s.top), bins) && Frame(m, m', hdr, pos, s)
    ensures Granted(s, Take(Split(s, s.top, nb), s.top), s.top, nb)
  {
    Halves(m, hdr, pos, s, bins);
    TakeTopStep(m, m', hdr, pos, s, bins, nb, rs, t);
    GrantedFront(s, s.top, nb);
  }

  /** Frames compose when the live chunks of the first are live, with the same sizes, in the second. */
  lemma {:induction false} FrameShift(m: Mem, m1: Mem, m2: Mem, hdr: word, pos: int, s: Shape, s1: Shape)
    requires Frame(m, m1, hdr, pos, s) && Frame(m1, m2, hdr, pos, s1)
    requires forall a {:trigger a in s.live} :: a in s.live && a in s.size ==>
             a in s1.live && a in s1.size && s1.size[a] == s.size[a]
    ensures Frame(m, m2, hdr, pos, s)
  {
    forall a, w | a in s.live && a in s.size && a + 8 <= w < a + s.size[a] + 4
      ensures Rd(m2, w) == Rd(m, w)
    {
      assert Rd(m1, w) == Rd(m, w);
    }
    FrameOutside(m, m1, m2, hdr, pos);
  }

  lemma {:induction false} FrameOutside(m: Mem, m1: Mem, m2: Mem, hdr: word, pos: int)
    requires forall w {:trigger Rd(m1, w)} :: Rd(m1, w) != Rd(m, w) ==> hdr + 4 <= w < pos
    requires forall w {:trigger Rd(m2, w)} :: Rd(m2, w) != Rd(m1, w) ==> hdr + 4 <= w < pos
    ensures forall w {:trigger Rd(m2, w)} :: Rd(m2, w) != Rd(m, w) ==> hdr + 4 <= w < pos
  {
    forall w | Rd(m2, w) != Rd(m, w)
      ensures hdr + 4 <= w < pos
    {
      assert Rd(m1, w) != Rd(m, w) || Rd(m2, w) != Rd(m1, w);
    }
  }

  /** memlib_trim: whole pages at the end of a big top chunk go back. */
  lemma {:induction false} PagesApart(a: int, b: int)
    requires a % PAGE == 0 && b % PAGE == 0
    ensures (a - b) % PAGE == 0
  {
    assert a == (a / PAGE) * PAGE && b == (b / PAGE) * PAGE;
    assert a - b == (a / PAGE - b / PAGE) * PAGE;
  }

  lemma {:induction false} TrimStep(m: Mem, hdr: word, pos: word, s: Shape, bins: Lists, extra: int)
    requires Consistent(m, hdr, pos, s, bins) && Built(hdr, pos, s)
    requires 0 <= extra && MINSIZE <= s.size[s.top] - extra && extra % PAGE == 0 && (s.size[s.top] - extra) % 8 == 0
    ensures s.size[s.top] - extra + 1 < TWO_32 && pos - extra >= hdr + 1040
    ensures var n: word := s.size[s.top] - extra;
            && WithInUse(n) == n + 1
            && Consistent(m[s.top + 4 := WithInUse(n)], hdr, (pos - extra) as word, Resize(s, n), bins)
            && Frame(m, m[s.top + 4 := WithInUse(n)], hdr, pos, s)
  {
    TopFacts(m, hdr, pos, s, bins);
    var n: word := s.size[s.top] - extra;
    EvenInUse(n);
    var pos': word := pos - extra;
    assert pos' % PAGE == 0 by { PagesApart(pos, extra); }
    ResizeStep(m, m[s.top + 4 := WithInUse(n)], hdr, pos, s, bins, n, pos');
  }
}
