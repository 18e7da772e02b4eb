/** Freeing a chunk: merge with its neighbours, keep or move the last remainder, or grow the top chunk. */
module HeapFree {
  import opened Words
  import opened HeapShape
  import opened HeapWords
  import opened HeapLists
  import opened HeapBins
  import opened HeapState
  import opened HeapRequest
  import opened HeapSteps

  /** Where the free of p stands: lists and headers of the heap in which p is free but not yet merged.
      lo is where the merged chunk will begin; `slot` says it sits in the last-remainder slot. */
  ghost predicate Merging(m0: Mem, m: Mem, hdr: word, pos: word, s: Shape, p: int, lo: int, bins: Lists, out: set<int>,
                          slot: bool) {
    && ListsOk(m, hdr, Release(s, p), bins, out)
    && Rd(m, End(s.size, p)) == Rd(m0, End(s.size, p))
    && (forall a :: a in s.size && a != End(s.size, p) ==> SameHead(m0, m, a))
    && Rd(m, hdr + 8) == Rd(m0, hdr + 8)
    && Frame(m0, m, hdr, pos, Release(s, p))
    && (lo in out <==> !slot) && (slot ==> bins[1] == [lo])
    && (p != lo ==> p in out)
    && out <= {p, lo, End(s.size, p)}
  }

  lemma {:induction false} ReleasePlaced(hdr: word, pos: word, s: Shape, p: int)
    requires Built(hdr, pos, s) && p in s.live && hdr + 1040 < TWO_32
    ensures Tiled(Release(s, p)) && Placed(hdr, Release(s, p)) && End(s.size, p) in s.size
    ensures forall a {:trigger a in s.size} :: a in s.size ==> s.size[a] >= MINSIZE && a + s.size[a] <= pos
  {
    assert End(s.size, p) in s.size;
    TiledPlaced(hdr, Release(s, p));
  }

  /** A live chunk is not the last remainder. */
  lemma {:induction false} LiveNotSlot(m: Mem, hdr: word, s: Shape, bins: Lists, out: set<int>, a: int)
    requires ListsOk(m, hdr, s, bins, out)
    ensures |bins| == NBINS && (a in s.live ==> bins[1] != [a])
  {
    if bins[1] == [a] {
      assert a in bins[1];
      assert AtHome(s, bins, out, 1, a);
    }
  }

  /** p is released: it is free, and on no list. */
  lemma {:induction false} StartMerging(m: Mem, hdr: word, pos: word, s: Shape, bins: Lists, p: int)
    requires Consistent(m, hdr, pos, s, bins) && p in s.live
    ensures Built(hdr, pos, s) && p in s.size
    ensures Merging(m, m, hdr, pos, s, p, p, bins, {p}, false)
  {
    Halves(m, hdr, pos, s, bins);
    assert p in s.size;
    FreeMeansBuilt(m, hdr, pos, s, bins, p);
    ReleasePlaced(hdr, pos, s, p);
    ShapeLists(m, hdr, s, bins, {}, Release(s, p), {p});
  }

  /** Unlinking a free neighbour x of p. */
  lemma {:induction false} UnlinkNeighbour(m0: Mem, m: Mem, hdr: word, pos: word, s: Shape, p: int, lo: int,
                                           bins: Lists, out: set<int>, slot: bool,
                        x: word, i: int, k: int)
    requires Built(hdr, pos, s) && p in s.live && Merging(m0, m, hdr, pos, s, p, lo, bins, out, slot)
    requires 1 <= i < NBINS && 0 <= k < |bins[i]| && bins[i][k] == x
    requires slot ==> i >= 2
    ensures Rd(Unlinked(m, Bk(m, x), Fd(m, x)), End(s.size, p) + 4) == Rd(m, End(s.size, p) + 4)
    ensures x == End(s.size, p) ==>
            Merging(m0, Unlinked(m, Bk(m, x), Fd(m, x)), hdr, pos, s, p, lo, Drop(bins, i, k), out + {x}, slot)
    ensures out == {p} && p == lo && !slot ==>
              Merging(m0, Unlinked(m, Bk(m, x), Fd(m, x)), hdr, pos, s, p, x, Drop(bins, i, k), {p, x as int}, false)
  {
    var m' := Unlinked(m, Bk(m, x), Fd(m, x));
    ReleasePlaced(hdr, pos, s, p);
    UnlinkLists(m, hdr, Release(s, p), bins, out, i, k, x);
    MergingLinks(m0, m, m', hdr, pos, s, p);
    assert {p} + {x as int} == {p, x as int};
  }

  /** Link writes among the free chunks of the released heap keep heads and payloads. */
  lemma {:induction false} MergingLinks(m0: Mem, m: Mem, m': Mem, hdr: word, pos: word, s: Shape, p: int)
    requires Built(hdr, pos, s) && p in s.live && hdr + 1040 < TWO_32
    requires LinkFrame(m, m', hdr, Release(s, p))
    requires forall a :: a in s.size && a != End(s.size, p) ==> SameHead(m0, m, a)
    requires Rd(m, End(s.size, p)) == Rd(m0, End(s.size, p))
    requires Frame(m0, m, hdr, pos, Release(s, p))
    ensures forall a :: a in s.size ==> SameHead(m, m', a)
    ensures Rd(m', End(s.size, p)) == Rd(m0, End(s.size, p)) && Rd(m', End(s.size, p) + 4) == Rd(m, End(s.size, p) + 4)
    ensures forall a :: a in s.size && a != End(s.size, p) ==> SameHead(m0, m', a)
    ensures Rd(m', hdr + 8) == Rd(m, hdr + 8)
    ensures Frame(m0, m', hdr, pos, Release(s, p))
  {
    ReleasePlaced(hdr, pos, s, p);
    LinkFrameHeads(m, m', hdr, Release(s, p));
    LinkFrameFrame(m, m', hdr, pos, Release(s, p), Release(s, p));
    FrameTrans(m0, m, m', hdr, pos, Release(s, p));
    assert forall a :: a in s.size ==> a in Release(s, p).size;
  }

  /** The next chunk's PREV_INUSE bit is cleared. */
  lemma {:induction false} ClearNextStep(m: Mem, hdr: word, pos: word, s: Shape, bins: Lists, p: int, w: word)
    requires Built(hdr, pos, s) && p in s.live && Merging(m, m, hdr, pos, s, p, p, bins, {p}, false)
    ensures Merging(m, m[End(s.size, p) + 4 := w], hdr, pos, s, p, p, bins, {p}, false)
  {
    ReleasePlaced(hdr, pos, s, p);
    var n := End(s.size, p);
    PokeHeadLists(m, hdr, Release(s, p), bins, {p}, n, w);
    HeadNotPayload(Release(s, p), n);
    PokeFrame(m, hdr, pos, Release(s, p), n + 4, w);
  }

  /** The next chunk is the last remainder: the merged chunk takes its place in the slot. */
  lemma {:induction false} SlotNeighbour(m0: Mem, m: Mem, hdr: word, pos: word, s: Shape, p: int, lo: word,
                                         bins: Lists, out: set<int>)
    requires Built(hdr, pos, s) && p in s.live && Merging(m0, m, hdr, pos, s, p, lo, bins, out, false)
    requires bins[1] == [End(s.size, p)]
    ensures Merging(m0, SlotLinked(m, hdr, lo), hdr, pos, s, p, lo, bins[1 := [lo]],
            (out + {End(s.size, p)}) - {lo as int}, true)
    ensures Rd(SlotLinked(m, hdr, lo), End(s.size, p) + 4) == Rd(m, End(s.size, p) + 4)
  {
    ReleasePlaced(hdr, pos, s, p);
    ListedIsFree(m, hdr, Release(s, p), bins, out, 1, 0);
    SlotLists(m, hdr, Release(s, p), bins, out, lo, (out + {End(s.size, p)}) - {lo as int});
    MergingLinks(m0, m, SlotLinked(m, hdr, lo), hdr, pos, s, p);
  }

  /** The chunk before p, when it is free: found through p's prev_size word. */
  lemma {:induction false} ReadPrevious(m: Mem, hdr: word, pos: word, s: Shape, p: int) returns (lo: int)
    requires HeadsOk(m, hdr, pos, s) && Built(hdr, pos, s) && p in s.live
    ensures MergeStart(s, p, lo)
    ensures p !in s.pin ==> lo == p - Rd(m, p) && Rd(m, p) == s.size[lo] && hdr + 1040 <= lo < p
    ensures PrevInUse(m, p) <==> p in s.pin
  {
    assert p in s.size;
    ReadHead(m, s, p);
    if p in s.pin {
      lo := p;
    } else {
      lo := Predecessor(s, s.base, p);
    }
  }

  /** Every free chunk not in `out` is at some position of some list. */
  lemma {:induction false} FindListed(s: Shape, bins: Lists, out: set<int>, a: int) returns (i: int, k: int)
    requires Stocked(s, bins, out) && Free(s, a) && a !in out
    ensures 1 <= i < NBINS && 0 <= k < |bins[i]| && bins[i][k] == a
  {
    assert OnList(s, bins, a);
    i := if a in bins[1] then 1 else BinIndex(s.size[a]);
    k :| 0 <= k < |bins[i]| && bins[i][k] == a;
  }

  /** The free predecessor is the last remainder: it stays in its slot and grows. */
  lemma {:induction false} AdoptSlot(m0: Mem, m: Mem, hdr: word, pos: word, s: Shape, p: int, lo: int, bins: Lists)
    requires Merging(m0, m, hdr, pos, s, p, p, bins, {p}, false) && bins[1] == [lo] && lo != p
    ensures Merging(m0, m, hdr, pos, s, p, lo, bins, {p}, true)
  {
  }

  /** A chunk's fd field is the slot's sentinel exactly when the chunk is the last remainder. */
  lemma {:induction false} FdTellsSlot(m: Mem, hdr: word, s: Shape, bins: Lists, out: set<int>, a: int, i: int, k: int)
    requires ListsOk(m, hdr, s, bins, out) && 1 <= i < NBINS && 0 <= k < |bins[i]| && bins[i][k] == a
    ensures Fd(m, a) == BinAt(hdr, 1) <==> i == 1
    ensures i == 1 <==> bins[1] == [a]
  {
    assert a in bins[i] && AtHome(s, bins, out, i, a);
    var c := Nodes(hdr, bins, i);
    assert Ring(m, c) && c[k + 1] == a;
    assert Fd(m, c[k + 1]) == c[k + 2];
    if k + 1 < |bins[i]| { ListedIsFree(m, hdr, s, bins, out, i, k + 1); }
  }

  lemma {:induction false} EndAligned(s: Shape, a: int)
    requires Aligned(s) && a in s.size
    ensures End(s.size, a) % 8 == 0
  {
    Apart8(a, -s.size[a]);
  }

  lemma {:induction false} Apart8(a: int, b: int)
    requires a % 8 == 0 && b % 8 == 0
    ensures (a - b) % 8 == 0
  {
  }

  lemma {:induction false} FreedAligned(s: Shape, p: int, lo: int)
    requires Sound(s) && Aligned(s) && p in s.live && MergeStart(s, p, lo)
    ensures Aligned(Freed(s, p, lo))
  {
    FreedExplicit(s, p, lo);
    EndAligned(s, p);
    if End(s.size, p) !in s.live { EndAligned(s, End(s.size, p)); }
    Apart8(MergeEnd(s, p), lo);
    var f := Freed(s, p, lo);
    forall a | a in f.size
      ensures a % 8 == 0 && f.size[a] % 8 == 0
    {
      if a != lo { assert a in s.size && f.size[a] == s.size[a]; }
    }
  }

  lemma {:induction false} FreedBuilt(hdr: word, pos: word, s: Shape, p: int, lo: int)
    requires Built(hdr, pos, s) && p in s.live && MergeStart(s, p, lo)
    ensures Built(hdr, pos, Freed(s, p, lo))
    ensures End(s.size, p) in s.size
            && (End(s.size, p) != s.top ==> MergeEnd(s, p) in s.live && MergeEnd(s, p) in Freed(s, p, lo).size)
    ensures End(s.size, p) == s.top ==> MergeEnd(s, p) == pos
    ensures lo <= p < End(s.size, p) <= MergeEnd(s, p)
    ensures lo in Freed(s, p, lo).size && Freed(s, p, lo).top == (if End(s.size, p) == s.top then lo else s.top)
  {
    FreedExplicit(s, p, lo);
    FreedSound(s, p, lo);
    assert End(s.size, p) in s.size;
    if lo != p { assert End(s.size, lo) == p; }
  }

  /** The lists of the released heap are the lists of the merged one. */
  lemma {:induction false} MergedLists(m: Mem, m': Mem, hdr: word, pos: word, s: Shape, p: int, lo: int, bins: Lists,
                                       out: set<int>, slot: bool, out': set<int>)
    requires Built(hdr, pos, s) && p in s.live && MergeStart(s, p, lo)
    requires ListsOk(m, hdr, Release(s, p), bins, out) && HeadFrame(m, m', hdr, Freed(s, p, lo))
    requires (lo in out <==> !slot) && (slot ==> bins[1] == [lo]) && (p != lo ==> p in out)
    requires out <= {p, lo, End(s.size, p)}
             && (End(s.size, p) !in s.live && End(s.size, p) != s.top ==> End(s.size, p) in out)
    requires out' == (if slot || End(s.size, p) == s.top then {} else {lo})
    requires End(s.size, p) == s.top ==> !slot
    ensures ListsOk(m', hdr, Freed(s, p, lo), bins, out')
  {
    FreedExplicit(s, p, lo);
    FreedBuilt(hdr, pos, s, p, lo);
    TiledPlaced(hdr, Freed(s, p, lo));
    assert p in s.size;
    HeadsLists(m, m', hdr, Release(s, p), bins, out, Freed(s, p, lo));
    ShapeLists(m', hdr, Release(s, p), bins, out, Freed(s, p, lo), out');
  }

  /** set_head and set_foot of the merged chunk complete a free below the top chunk. */
  lemma {:induction false} FinishBelow(m0: Mem, m: Mem, m': Mem, hdr: word, pos: word, s: Shape, p: int, lo: int,
                                       bins: Lists, out: set<int>, slot: bool,
                    sz: word, w: word)
    requires HeadsOk(m0, hdr, pos, s) && Built(hdr, pos, s) && p in s.live && MergeStart(s, p, lo)
    requires Merging(m0, m, hdr, pos, s, p, lo, bins, out, slot)
    requires End(s.size, p) != s.top && (End(s.size, p) !in s.live ==> End(s.size, p) in out)
    requires End(s.size, p) in s.size && Rd(m, End(s.size, p) + 4) == s.size[End(s.size, p)]
    requires sz == MergeEnd(s, p) - lo && w == sz + 1 && m' == m[lo + 4 := w][lo + sz := sz]
    ensures HeadsOk(m', hdr, pos, Freed(s, p, lo))
    ensures ListsOk(m', hdr, Freed(s, p, lo), bins, if slot then {} else {lo})
    ensures Frame(m0, m', hdr, pos, Release(s, p))
  {
    FinishHeads(m0, m, m', hdr, pos, s, p, lo, sz, w);
    FinishLists(m, m', hdr, pos, s, p, lo, bins, out, slot, sz, w);
    FinishFrame(m0, m, m', hdr, pos, s, p, lo, sz, w);
  }

  lemma {:induction false} FinishHeads(m0: Mem, m: Mem, m': Mem, hdr: word, pos: word, s: Shape, p: int, lo: int,
                                       sz: word, w: word)
    requires HeadsOk(m0, hdr, pos, s) && Built(hdr, pos, s) && p in s.live && MergeStart(s, p, lo)
    requires forall a :: a in s.size && a != End(s.size, p) ==> SameHead(m0, m, a)
    requires Rd(m, End(s.size, p)) == Rd(m0, End(s.size, p)) && Rd(m, hdr + 8) == Rd(m0, hdr + 8)
    requires End(s.size, p) in s.size && End(s.size, p) != s.top && Rd(m, End(s.size, p) + 4) == s.size[End(s.size, p)]
    requires sz == MergeEnd(s, p) - lo && w == sz + 1 && m' == m[lo + 4 := w][lo + sz := sz]
    ensures HeadsOk(m', hdr, pos, Freed(s, p, lo))
  {
    FreedBuilt(hdr, pos, s, p, lo);
    FreedAligned(s, p, lo);
    FinishWritten(m0, m, m', s, p, lo, sz, w);
  }

  lemma {:induction false} FinishLists(m: Mem, m': Mem, hdr: word, pos: word, s: Shape, p: int, lo: int, bins: Lists,
                                       out: set<int>, slot: bool, sz: word, w: word)
    requires Built(hdr, pos, s) && p in s.live && MergeStart(s, p, lo)
    requires ListsOk(m, hdr, Release(s, p), bins, out)
    requires (lo in out <==> !slot) && (slot ==> bins[1] == [lo]) && (p != lo ==> p in out)
    requires out <= {p, lo, End(s.size, p)}
    requires End(s.size, p) != s.top && (End(s.size, p) !in s.live ==> End(s.size, p) in out)
    requires sz == MergeEnd(s, p) - lo && m' == m[lo + 4 := w][lo + sz := sz]
    ensures ListsOk(m', hdr, Freed(s, p, lo), bins, if slot then {} else {lo})
  {
    FreedBuilt(hdr, pos, s, p, lo);
    MergedLists(m, m', hdr, pos, s, p, lo, bins, out, slot, if slot then {} else {lo});
  }

  lemma {:induction false} FinishWritten(m0: Mem, m: Mem, m': Mem, s: Shape, p: int, lo: int, sz: word, w: word)
    requires Written(m0, s) && Sound(s) && p in s.live && MergeStart(s, p, lo)
    requires forall a :: a in s.size && a != End(s.size, p) ==> SameHead(m0, m, a)
    requires Rd(m, End(s.size, p)) == Rd(m0, End(s.size, p))
    requires End(s.size, p) in s.size && End(s.size, p) != s.top && Rd(m, End(s.size, p) + 4) == s.size[End(s.size, p)]
    requires sz == MergeEnd(s, p) - lo && w == sz + 1 && m' == m[lo + 4 := w][lo + sz := sz]
    ensures Written(m', Freed(s, p, lo))
  {
    var n, hi := End(s.size, p), MergeEnd(s, p);
    assert lo < n <= hi && lo in s.size && lo + 16 <= n by { if lo != p { assert End(s.size, lo) == p; } }
    assert hi in s.size;
    assert hi != n ==> hi !in s.pin && SameHead(m0, m, hi);
    forall a | a in s.size && a != lo && a != n && a != hi
      ensures SameHead(m0, m', a)
    {
      assert SameHead(m0, m, a);
    }
    assert SameHead(m0, m, lo);
    WrittenFreed(m0, m', s, p, lo);
  }

  lemma {:induction false} FinishFrame(m0: Mem, m: Mem, m': Mem, hdr: word, pos: word, s: Shape, p: int, lo: int,
                                       sz: word, w: word)
    requires Built(hdr, pos, s) && p in s.live && MergeStart(s, p, lo) && hdr + 1040 < TWO_32
    requires Frame(m0, m, hdr, pos, Release(s, p)) && End(s.size, p) != s.top
    requires sz == MergeEnd(s, p) - lo && m' == m[lo + 4 := w][lo + sz := sz]
    ensures Frame(m0, m', hdr, pos, Release(s, p))
  {
    MergeSpots(hdr, pos, s, p, lo);
    TwoPokesFrame(m0, m, hdr, pos, Release(s, p), lo + 4, w, lo + sz, sz);
  }

  /** The head of the merged chunk and the word behind it hold no payload. */
  lemma {:induction false} MergeSpots(hdr: word, pos: word, s: Shape, p: int, lo: int)
    requires Built(hdr, pos, s) && p in s.live && MergeStart(s, p, lo) && hdr + 1040 < TWO_32 && End(s.size, p) != s.top
    ensures NotPayload(Release(s, p), lo + 4) && NotPayload(Release(s, p), MergeEnd(s, p))
    ensures hdr + 4 <= lo + 4 < pos && hdr + 4 <= MergeEnd(s, p) < pos
  {
    var r, n := Release(s, p), End(s.size, p);
    ReleasePlaced(hdr, pos, s, p);
    assert lo in s.size;
    HeadNotPayload(r, lo);
    if n in s.live {
      InsideNotPayload(r, p, n);
    } else {
      assert End(s.size, n) in s.size;
      InsideNotPayload(r, n, End(s.size, n));
    }
  }

  lemma {:induction false} TwoPokesFrame(m0: Mem, m: Mem, hdr: word, pos: word, s: Shape, a: int, v: word, b: int,
                                         w: word)
    requires Frame(m0, m, hdr, pos, s) && NotPayload(s, a) && NotPayload(s, b)
    requires hdr + 4 <= a < pos && hdr + 4 <= b < pos
    ensures Frame(m0, m[a := v][b := w], hdr, pos, s)
  {
    PokeFrame(m, hdr, pos, s, a, v);
    PokeFrame(m[a := v], hdr, pos, s, b, w);
    FrameTrans(m, m[a := v], m[a := v][b := w], hdr, pos, s);
    FrameTrans(m0, m, m[a := v][b := w], hdr, pos, s);
  }

  /** set_head and the new top pointer complete a free into the top chunk. */
  lemma {:induction false} FinishTop(m0: Mem, m: Mem, m': Mem, hdr: word, pos: word, s: Shape, p: int, lo: word,
                                     bins: Lists, out: set<int>, sz: word, w: word)
    requires HeadsOk(m0, hdr, pos, s) && Built(hdr, pos, s) && p in s.live && MergeStart(s, p, lo)
    requires Merging(m0, m, hdr, pos, s, p, lo, bins, out, false)
    requires End(s.size, p) == s.top && End(s.size, p) !in out
    requires sz == pos - lo && w == sz + 1 && m' == m[lo + 4 := w][hdr + 8 := lo]
    ensures Consistent(m', hdr, pos, Freed(s, p, lo), bins)
    ensures Frame(m0, m', hdr, pos, Release(s, p))
  {
    FinishTopHeads(m0, m, m', hdr, pos, s, p, lo, sz, w);
    FreedBuilt(hdr, pos, s, p, lo);
    assert s.top !in s.live;
    MergedLists(m, m', hdr, pos, s, p, lo, bins, out, false, {});
    FinishTopFrame(m0, m, m', hdr, pos, s, p, lo, w);
  }

  lemma {:induction false} FinishTopHeads(m0: Mem, m: Mem, m': Mem, hdr: word, pos: word, s: Shape, p: int, lo: word,
                                          sz: word, w: word)
    requires HeadsOk(m0, hdr, pos, s) && Built(hdr, pos, s) && p in s.live && MergeStart(s, p, lo)
    requires forall a :: a in s.size && a != End(s.size, p) ==> SameHead(m0, m, a)
    requires End(s.size, p) == s.top
    requires sz == pos - lo && w == sz + 1 && m' == m[lo + 4 := w][hdr + 8 := lo]
    ensures HeadsOk(m', hdr, pos, Freed(s, p, lo))
  {
    FreedBuilt(hdr, pos, s, p, lo);
    FreedAligned(s, p, lo);
    FinishTopWritten(m0, m, m', hdr, s, p, lo, sz, w);
  }

  lemma {:induction false} FinishTopFrame(m0: Mem, m: Mem, m': Mem, hdr: word, pos: word, s: Shape, p: int, lo: word,
                                          w: word)
    requires Built(hdr, pos, s) && p in s.live && MergeStart(s, p, lo) && hdr + 1040 < TWO_32
    requires Frame(m0, m, hdr, pos, Release(s, p)) && m' == m[lo + 4 := w][hdr + 8 := lo]
    ensures Frame(m0, m', hdr, pos, Release(s, p))
  {
    ReleasePlaced(hdr, pos, s, p);
    assert lo in s.size && lo + MINSIZE <= pos;
    HeadNotPayload(Release(s, p), lo);
    TwoPokesFrame(m0, m, hdr, pos, Release(s, p), lo + 4, w, hdr + 8, lo);
  }

  lemma {:induction false} FinishTopWritten(m0: Mem, m: Mem, m': Mem, hdr: word, s: Shape, p: int, lo: word, sz: word,
                                            w: word)
    requires Written(m0, s) && Sound(s) && p in s.live && MergeStart(s, p, lo) && hdr + 1040 <= s.base
    requires forall a :: a in s.size && a != End(s.size, p) ==> SameHead(m0, m, a)
    requires End(s.size, p) == s.top
    requires sz == MergeEnd(s, p) - lo && w == sz + 1 && m' == m[lo + 4 := w][hdr + 8 := lo]
    ensures Written(m', Freed(s, p, lo))
  {
    assert lo in s.size && lo < s.top by {
      if lo != p { assert End(s.size, lo) == p; }
      assert End(s.size, p) in s.size;
    }
    forall a | a in s.size && a != lo && a != s.top
      ensures SameHead(m0, m', a)
    {
      assert SameHead(m0, m, a);
    }
    assert SameHead(m0, m, lo);
    WrittenFreed(m0, m', s, p, lo);
  }

  /** The free chunk before p, as the code finds it while p is being merged. */
  lemma {:induction false} PreviousReady(m0: Mem, m: Mem, hdr: word, pos: word, s: Shape, bins: Lists, p: int)
    returns (lo: int, i: int, k: int)
    requires HeadsOk(m0, hdr, pos, s) && Built(hdr, pos, s) && p in s.live && p !in s.pin
    requires Merging(m0, m, hdr, pos, s, p, p, bins, {p}, false)
    ensures lo == p - Rd(m, p) && hdr + 1040 <= lo < p && MergeStart(s, p, lo) && lo != End(s.size, p)
    ensures 1 <= i < NBINS && 0 <= k < |bins[i]| && bins[i][k] == lo
    ensures Fd(m, lo) == BinAt(hdr, 1) <==> i == 1
    ensures i == 1 <==> bins[1] == [lo]
  {
    lo := ReadPrevious(m0, hdr, pos, s, p);
    assert p in s.size && SameHead(m0, m, p);
    assert Free(Release(s, p), lo);
    i, k := FindListed(Release(s, p), bins, {p}, lo);
    FdTellsSlot(m, hdr, Release(s, p), bins, {p}, lo, i, k);
  }

  /** The free chunk after p, as the code finds it while p is being merged. */
  lemma {:induction false} NextReady(m0: Mem, m: Mem, hdr: word, pos: word, s: Shape, bins: Lists, p: int, lo: int,
                                     out: set<int>, slot: bool)
    returns (i: int, k: int)
    requires Built(hdr, pos, s) && p in s.live && End(s.size, p) !in s.live && End(s.size, p) != s.top
    requires MergeStart(s, p, lo) && Merging(m0, m, hdr, pos, s, p, lo, bins, out, slot) && End(s.size, p) !in out
    ensures 1 <= i < NBINS && 0 <= k < |bins[i]| && bins[i][k] == End(s.size, p)
    ensures Fd(m, End(s.size, p)) == BinAt(hdr, 1) <==> i == 1
    ensures i == 1 <==> bins[1] == [End(s.size, p)]
    ensures slot ==> i >= 2
  {
    var n := End(s.size, p);
    assert n in s.size;
    i, k := FindListed(Release(s, p), bins, out, n);
    FdTellsSlot(m, hdr, Release(s, p), bins, out, n, i, k);
    assert lo < n by { if lo != p { assert End(s.size, lo) == p; } }
  }

  /** What memlib_free reads of the chunk, of the next chunk and of the chunk behind that. */
  lemma {:induction false} FreeReads(m: Mem, hdr: word, pos: word, s: Shape, p: int)
    requires HeadsOk(m, hdr, pos, s) && Built(hdr, pos, s) && p in s.live
    ensures p in s.size && ChunkSize(m, p) == s.size[p] && p + s.size[p] == End(s.size, p)
            && (PrevInUse(m, p) <==> p in s.pin)
    ensures var n := End(s.size, p);
            && n in s.size && ChunkSize(m, n) == s.size[n] && n + s.size[n] <= pos
            && (n != s.top ==> End(s.size, n) in s.size && (PrevInUse(m, n + s.size[n]) <==> n in s.live))
    ensures Rd(m, hdr + 8) == s.top && End(s.size, p) != p && hdr + 1040 <= p
  {
    var n := End(s.size, p);
    assert p in s.size && n in s.size;
    ReadHead(m, s, p);
    ReadHead(m, s, n);
    if n != s.top {
      assert End(s.size, n) in s.size;
      ReadHead(m, s, End(s.size, n));
    }
  }

  /** While p is merged, the bit behind the next chunk still tells whether that chunk is live. */
  lemma {:induction false} NextStatus(m0: Mem, m: Mem, hdr: word, pos: word, s: Shape, p: int, lo: int, bins: Lists,
                                      out: set<int>, slot: bool)
    requires HeadsOk(m0, hdr, pos, s) && Built(hdr, pos, s) && p in s.live && End(s.size, p) != s.top
    requires Merging(m0, m, hdr, pos, s, p, lo, bins, out, slot)
    ensures End(s.size, p) in s.size
    ensures PrevInUse(m, End(s.size, p) + s.size[End(s.size, p)]) <==> End(s.size, p) in s.live
  {
    FreeReads(m0, hdr, pos, s, p);
    assert SameHead(m0, m, End(s.size, End(s.size, p)));
  }

  /** The size of the merged chunk. */
  lemma {:induction false} MergedSize(hdr: word, pos: word, s: Shape, p: int, lo: int)
    requires Built(hdr, pos, s) && Aligned(s) && p in s.live && MergeStart(s, p, lo)
    ensures lo <= p < MergeEnd(s, p) <= pos && (MergeEnd(s, p) - lo) % 8 == 0
    ensures p in s.size && p + s.size[p] == End(s.size, p)
  {
    FreedBuilt(hdr, pos, s, p, lo);
    FreedAligned(s, p, lo);
    FreedExplicit(s, p, lo);
    assert p in s.size && End(s.size, p) in s.size;
  }

  /** The heap after memlib_free(p), merged from lo on: a top chunk that grew past the threshold is trimmed. */
  ghost function AfterFree(s: Shape, p: int, lo: int): Shape
    requires Sound(s) && p in s.live && MergeStart(s, p, lo)
  {
    var f := Freed(s, p, lo);
    if End(s.size, p) == s.top && f.top in f.size && f.size[f.top] >= TRIM_THRESHOLD
    then Resize(f, f.size[f.top] - TrimExtra(f.size[f.top]))
    else f
  }

  /** The last remainder after a free: it stays one when the freed chunk is merged with it, unless both become top. */
  ghost function SlotAfterFree(s: Shape, slot: seq<word>, p: int, lo: int): seq<int> {
    if End(s.size, p) == s.top then (if slot == [lo] then [] else slot)
    else if slot == [End(s.size, p)] then [lo] else slot
  }

  /** The break moves only when the freed chunk joins top and top then has 128 KiB or more: it keeps more than a minimal
      chunk, and at most a page more. */
  ghost predicate Trimmed(s: Shape, pos: int, s': Shape, pos': int, p: int, lo: int) {
    if End(s.size, p) != s.top then pos' == pos else
      && s'.top == lo && lo in s'.size && pos' == lo + s'.size[lo]
      && if pos - lo < 0x2_0000 then pos' == pos else MINSIZE < pos' - lo <= MINSIZE + PAGE
  }

  lemma {:induction false} TopEnds(m: Mem, hdr: word, pos: word, s: Shape, bins: Lists, p: int, lo: int)
    requires Consistent(m, hdr, pos, s, bins) && p in s.live && MergeStart(s, p, lo)
    ensures s.top in s.size && s.top !in s.live && End(s.size, s.top) == pos && (pos - lo) % 8 == 0
  {
    LiveBuilt(m, hdr, pos, s, bins, p);
    TopFacts(m, hdr, pos, s, bins);
    assert lo % 8 == 0 by { Halves(m, hdr, pos, s, bins); }
    Apart8(pos, lo);
  }

  lemma {:induction false} LiveBuilt(m: Mem, hdr: word, pos: word, s: Shape, bins: Lists, p: int)
    requires Consistent(m, hdr, pos, s, bins) && p in s.live
    ensures p in s.size && Built(hdr, pos, s)
  {
    Halves(m, hdr, pos, s, bins);
  }

  lemma {:induction false} AfterFreeTrimmed(s: Shape, pos: int, pos': int, p: int, lo: int)
    requires Sound(s) && p in s.live && MergeStart(s, p, lo) && s.top in s.size && End(s.size, s.top) == pos
    requires s.top !in s.live && (pos - lo) % 8 == 0
    requires var s' := AfterFree(s, p, lo); s'.top in s'.size && End(s'.size, s'.top) == pos'
    ensures Trimmed(s, pos, AfterFree(s, p, lo), pos', p, lo)
  {
    FreedExplicit(s, p, lo);
    if pos - lo >= TRIM_THRESHOLD { TrimLeaves(pos - lo); }
  }

  /** Freeing a chunk leaves every other live chunk live, where it was and as long as it was. */
  lemma {:induction false} AfterFreeLive(s: Shape, p: int, lo: int)
    requires Sound(s) && p in s.live && MergeStart(s, p, lo)
    ensures AfterFree(s, p, lo).live == s.live - {p}
    ensures forall a {:trigger a in s.live} :: a in s.live && a != p ==>
              a in s.size && a in AfterFree(s, p, lo).size && AfterFree(s, p, lo).size[a] == s.size[a]
  {
    FreedExplicit(s, p, lo);
    FreedSound(s, p, lo);
    if lo != p { assert lo !in s.live; }
  }

  lemma {:induction false} FrameWiden(m: Mem, m': Mem, hdr: word, pos: int, pos': int, s: Shape)
    requires Frame(m, m', hdr, pos, s) && pos <= pos'
    ensures Frame(m, m', hdr, pos', s)
  {
  }

  // ---- memalign ----

  /** Two live chunks are made of one: the head of the second part, then the size of the first, are written. */
  lemma {:induction false} SplitLiveStep(m: Mem, m': Mem, hdr: word, pos: word, s: Shape, bins: Lists, p: int, n: int,
                                         w: word, u: word)
    requires Consistent(m, hdr, pos, s, bins) && p in s.live && p in s.size && MINSIZE <= n <= s.size[p] - MINSIZE
             && n % 8 == 0
    requires w == s.size[p] - n + 1 && u == n + Rd(m, p + 4) - s.size[p] && m' == m[p + n + 4 := w][p + 4 := u]
    ensures Consistent(m', hdr, pos, Split(s, p, n), bins)
    ensures Frame(m, m', hdr, pos, Release(s, p))
  {
    Halves(m, hdr, pos, s, bins);
    FreeMeansBuilt(m, hdr, pos, s, bins, p);
    SplitLiveSound(s, p, n);
    SplitAligned(s, p, n);
    SplitLiveHeads(m, m', hdr, pos, s, p, n, w, u);
    SplitLiveLists(m, m', hdr, s, bins, p, n);
    SplitLiveFrame(m, m', hdr, pos, s, p, n, w, u);
  }

  lemma {:induction false} SplitLiveHeads(m: Mem, m': Mem, hdr: word, pos: word, s: Shape, p: int, n: int, w: word,
                                          u: word)
    requires Written(m, s) && Built(hdr, pos, s) && p in s.live && p in s.size && MINSIZE <= n <= s.size[p] - MINSIZE
    requires w == s.size[p] - n + 1 && u == n + Rd(m, p + 4) - s.size[p] && m' == m[p + n + 4 := w][p + 4 := u]
    requires Sound(Split(s, p, n))
    ensures Written(m', Split(s, p, n)) && Built(hdr, pos, Split(s, p, n)) && Rd(m', hdr + 8) == Rd(m, hdr + 8)
  {
    CutDisjoint(s.size, p, n);
    forall a | a in s.size && a != p
      ensures SameHead(m, m', a)
    {
    }
    WrittenSplitLive(m, m', s, p, n);
  }

  lemma {:induction false} SplitLiveLists(m: Mem, m': Mem, hdr: word, s: Shape, bins: Lists, p: int, n: int)
    requires ListsOk(m, hdr, s, bins, {}) && p in s.live && p in s.size && p != s.top && Tiled(Split(s, p, n))
             && hdr + 1040 <= s.base
    requires HeadFrame(m, m', hdr, Split(s, p, n)) && p + n !in s.size
    ensures ListsOk(m', hdr, Split(s, p, n), bins, {})
  {
    TiledPlaced(hdr, Split(s, p, n));
    HeadsLists(m, m', hdr, s, bins, {}, Split(s, p, n));
    ShapeLists(m', hdr, s, bins, {}, Split(s, p, n), {});
  }

  lemma {:induction false} SplitLiveFrame(m: Mem, m': Mem, hdr: word, pos: word, s: Shape, p: int, n: int, w: word,
                                          u: word)
    requires Built(hdr, pos, s) && p in s.live && p in s.size && MINSIZE <= n <= s.size[p] - MINSIZE
             && hdr + 1040 < TWO_32
    requires m' == m[p + n + 4 := w][p + 4 := u]
    ensures Frame(m, m', hdr, pos, Release(s, p))
  {
    ReleasePlaced(hdr, pos, s, p);
    InsideNotPayload(Release(s, p), p, p + n + 4);
    InsideNotPayload(Release(s, p), p, p + 4);
    PokeFrame(m, hdr, pos, Release(s, p), p + n + 4, w);
    TwoPokesFrame(m, m, hdr, pos, Release(s, p), p + n + 4, w, p + 4, u);
  }

  /** Reading and rewriting the head of a live chunk. */
  lemma {:induction false} LiveHead(m: Mem, s: Shape, p: int)
    requires Written(m, s) && Aligned(s) && p in s.size
    ensures Rd(m, p + 4) % 2 == Rd(m, p + 4) - s.size[p]
  {
    HeadParts(Rd(m, p + 4), s.size[p]);
  }

  lemma {:induction false} SplitLiveFacts(s: Shape, p: int, n: int)
    requires Sound(s) && p in s.live && p in s.size && MINSIZE <= n <= s.size[p] - MINSIZE
    ensures var t := Split(s, p, n);
            && t.live == s.live + {p + n} && p + n !in s.live && p in t.live && p + n in t.size
            && t.size[p] == n && t.size[p + n] == s.size[p] - n
            && forall a {:trigger a in s.live} :: a in s.live && a != p ==>
               a in s.size && a in t.size && t.size[a] == s.size[a]
  {
    CutDisjoint(s.size, p, n);
  }

  lemma {:induction false} FrameRefl(m: Mem, hdr: word, pos: int, s: Shape)
    ensures Frame(m, m, hdr, pos, s)
  {
  }

  /** Live chunk p has given way to live chunk q; every other live chunk is as it was. */
  ghost predicate Replaced(s0: Shape, s1: Shape, p: int, q: int) {
    && p in s0.live && s1.live == s0.live - {p} + {q} && (q == p || q !in s0.live) && q in s1.size
    && forall a {:trigger a in s0.live} :: a in s0.live && a != p ==>
       a in s0.size && a in s1.size && s1.size[a] == s0.size[a]
  }

  lemma {:induction false} ReplacedTrans(s0: Shape, s1: Shape, s2: Shape, p: int, q: int)
    requires Replaced(s0, s1, p, q) && Replaced(s1, s2, q, q)
    ensures Replaced(s0, s2, p, q)
  {
    forall a | a in s0.live && a != p
      ensures a in s0.size && a in s2.size && s2.size[a] == s0.size[a]
    {
      assert a in s1.live && a != q;
    }
  }

  /** A chunk granted for a padded request and then carved is granted for the request itself. */
  lemma {:induction false} GrantedCarved(s0: Shape, s1: Shape, s2: Shape, p: int, q: int, t: int, nb: int)
    requires Granted(s0, s1, p, t) && Replaced(s1, s2, p, q) && nb <= s2.size[q] < nb + MINSIZE
    ensures Granted(s0, s2, q, nb)
  {
    forall a | a in s0.live
      ensures a in s0.size && a in s2.size && s2.size[a] == s0.size[a]
    {
      assert a in s1.live && a != p;
    }
  }

  lemma {:induction false} FrameCarved(m0: Mem, m1: Mem, m2: Mem, hdr: word, pos: int, s0: Shape, s1: Shape, p: int,
                                       t: int)
    requires Granted(s0, s1, p, t)
    requires Frame(m0, m1, hdr, pos, s0) && Frame(m1, m2, hdr, pos, Release(s1, p))
    ensures Frame(m0, m2, hdr, pos, s0)
  {
    FrameShift(m0, m1, m2, hdr, pos, s0, Release(s1, p));
  }

  lemma {:induction false} FrameReplaced(m0: Mem, m1: Mem, m2: Mem, hdr: word, pos: int, s0: Shape, s1: Shape, p: int,
                                         q: int)
    requires Frame(m0, m1, hdr, pos, Release(s0, p)) && Replaced(s0, s1, p, q)
             && Frame(m1, m2, hdr, pos, Release(s1, q))
    ensures Frame(m0, m2, hdr, pos, Release(s0, p))
  {
    FrameShift(m0, m1, m2, hdr, pos, Release(s0, p), Release(s1, q));
  }

  /** Cutting p at n and freeing one part leaves the other in place of p. */
  lemma {:induction false} CutThenFree(m0: Mem, m1: Mem, m2: Mem, hdr: word, pos: int, pos1: int, s: Shape, p: int,
                                       n: int, freed: int, kept: int, lo: int)
    requires Sound(s) && p in s.live && p in s.size && MINSIZE <= n <= s.size[p] - MINSIZE
    requires (freed == p && kept == p + n) || (freed == p + n && kept == p)
    requires Sound(Split(s, p, n)) && freed in Split(s, p, n).live && MergeStart(Split(s, p, n), freed, lo)
    requires Frame(m0, m1, hdr, pos1, Release(s, p)) && Frame(m1, m2, hdr, pos1, Release(Split(s, p, n), freed))
             && pos1 <= pos
    ensures Replaced(s, AfterFree(Split(s, p, n), freed, lo), p, kept)
    ensures AfterFree(Split(s, p, n), freed, lo).size[kept] == (if kept == p then n else s.size[p] - n)
    ensures Frame(m0, m2, hdr, pos, Release(s, p))
  {
    SplitLiveFacts(s, p, n);
    AfterFreeLive(Split(s, p, n), freed, lo);
    FrameWiden(m0, m1, hdr, pos1, pos, Release(s, p));
    FrameWiden(m1, m2, hdr, pos1, pos, Release(Split(s, p, n), freed));
    FrameShift(m0, m1, m2, hdr, pos, Release(s, p), Release(Split(s, p, n), freed));
  }

  lemma {:induction false} ReplacedAgain(m0: Mem, m1: Mem, m2: Mem, hdr: word, pos: int, s0: Shape, s1: Shape,
                                         s2: Shape, p: int, q: int)
    requires Frame(m0, m1, hdr, pos, Release(s0, p)) && Replaced(s0, s1, p, q)
    requires Frame(m1, m2, hdr, pos, Release(s1, q)) && Replaced(s1, s2, q, q)
    ensures Replaced(s0, s2, p, q) && Frame(m0, m2, hdr, pos, Release(s0, p))
  {
    ReplacedTrans(s0, s1, s2, p, q);
    FrameReplaced(m0, m1, m2, hdr, pos, s0, s1, p, q);
  }
}
