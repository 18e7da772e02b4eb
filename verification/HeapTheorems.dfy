/** What the heap invariant means for the allocator's callers. */
module HeapTheorems {
  import opened Words
  import opened HeapShape
  import opened HeapWords
  import opened HeapLists
  import opened HeapBins
  import opened HeapState
  import opened HeapFree

  // ---- Chunks cover the heap ----

  /** The chunks met when walking from a to top by adding sizes. */
  ghost function Walk(s: Shape, a: int): seq<int>
    requires Tiled(s) && a in s.size
    decreases s.top - a
  {
    if a == s.top then [a] else
      assert End(s.size, a) in s.size;
      [a] + Walk(s, End(s.size, a))
  }

  ghost function TotalSize(s: Shape, l: seq<int>): int {
    if l == [] then 0 else (if l[0] in s.size then s.size[l[0]] else 0) + TotalSize(s, l[1..])
  }

  /** The walk from a meets exactly the chunks at or past a. */
  lemma {:induction false} WalkMeetsAll(s: Shape, a: int, b: int)
    requires Tiled(s) && a in s.size
    ensures b in Walk(s, a) <==> b in s.size && a <= b
    decreases s.top - a
  {
    if a != s.top {
      var n := End(s.size, a);
      assert n in s.size;
      WalkMeetsAll(s, n, b);
    }
  }

  lemma {:induction false} WalkSize(s: Shape, a: int)
    requires Tiled(s) && a in s.size
    ensures TotalSize(s, Walk(s, a)) == s.top + s.size[s.top] - a
    decreases s.top - a
  {
    if a != s.top {
      var n := End(s.size, a);
      assert n in s.size;
      WalkSize(s, n);
      assert Walk(s, a)[1..] == Walk(s, n);
    }
  }

  /** Conservation: walking the boundary tags from the first chunk meets every chunk, and their sizes add up to the
      whole heap, from its base to `pos`. */
  lemma {:induction false} ChunksCoverHeap(m: Mem, hdr: word, pos: word, s: Shape, bins: Lists)
    requires Consistent(m, hdr, pos, s, bins) && s.size != map[]
    ensures Tiled(s) && (forall b :: b in Walk(s, s.base) <==> b in s.size)
    ensures TotalSize(s, Walk(s, s.base)) == pos - s.base
  {
    Halves(m, hdr, pos, s, bins);
    forall b
      ensures b in Walk(s, s.base) <==> b in s.size
    {
      WalkMeetsAll(s, s.base, b);
    }
    WalkSize(s, s.base);
  }

  /** The tags in memory lead along the walk: the head word of each chunk gives the address of the next. */
  lemma {:induction false} HeadsLeadOn(m: Mem, hdr: word, pos: word, s: Shape, bins: Lists, a: int)
    requires Consistent(m, hdr, pos, s, bins) && a in s.size
    ensures a + ChunkSize(m, a) == (if a == s.top then pos as int else End(s.size, a))
    ensures a != s.top ==> a + ChunkSize(m, a) in s.size
    ensures a in s.live <==> a != s.top && PrevInUse(m, a + ChunkSize(m, a))
    ensures Free(s, a) ==> Rd(m, a + ChunkSize(m, a)) == ChunkSize(m, a)
  {
    Halves(m, hdr, pos, s, bins);
    ReadHead(m, s, a);
    FreeMeansBuilt(m, hdr, pos, s, bins, a);
    if a != s.top {
      assert End(s.size, a) in s.size;
      ReadHead(m, s, End(s.size, a));
    }
  }

  // ---- Live payloads ----

  /** Payloads are 8-aligned, inside the heap, pairwise disjoint, and hold what was asked for. */
  lemma {:induction false} PayloadsDisjoint(m: Mem, hdr: word, pos: word, s: Shape, bins: Lists, a: int, b: int)
    requires Consistent(m, hdr, pos, s, bins) && a in s.live && b in s.live && a < b
    ensures a in s.size && b in s.size
    ensures (a + 8) % 8 == 0 && (b + 8) % 8 == 0
    ensures hdr + 1040 <= a && a + s.size[a] + 4 <= b + 4 && b + s.size[b] + 4 < pos
  {
    Halves(m, hdr, pos, s, bins);
    assert a in s.size && b in s.size;
    FreeMeansBuilt(m, hdr, pos, s, bins, b);
    assert End(s.size, b) in s.size;
  }

  /** The owner of a live chunk may write any word of its payload: no header, footer or link of the heap is there. */
  lemma {:induction false} PayloadWriteIsSafe(m: Mem, hdr: word, pos: word, s: Shape, bins: Lists, a: int, w: int,
                                              v: word)
    requires Consistent(m, hdr, pos, s, bins) && a in s.live && a in s.size && a + 8 <= w < a + s.size[a] + 4
    ensures Consistent(m[w := v], hdr, pos, s, bins)
  {
    Halves(m, hdr, pos, s, bins);
    FreeMeansBuilt(m, hdr, pos, s, bins, a);
    var m' := m[w := v];
    forall b | b in s.size
      ensures Rd(m', b + 4) == HeadWord(s, b)
    {
      if b + 4 == w { PayloadHead(s, a, b); }
    }
    forall b | Free(s, b)
      ensures Rd(m', End(s.size, b)) == s.size[b]
    {
      if End(s.size, b) == w { PayloadFoot(s, a, b); }
    }
    PayloadWriteLists(m, hdr, s, bins, a, w, v);
  }

  lemma {:induction false} PayloadHead(s: Shape, a: int, b: int)
    requires Tiled(s) && a in s.size && b in s.size
    ensures !(a + 8 <= b + 4 < a + s.size[a] + 4)
  {
  }

  lemma {:induction false} PayloadFoot(s: Shape, a: int, b: int)
    requires Sound(s) && a in s.live && a in s.size && Free(s, b)
    ensures !(a + 8 <= End(s.size, b) < a + s.size[a] + 4)
  {
    assert End(s.size, b) in s.size && End(s.size, a) in s.size;
    if End(s.size, b) == End(s.size, a) { EndInjective(s, a, b); }
  }

  lemma {:induction false} PayloadWriteLists(m: Mem, hdr: word, s: Shape, bins: Lists, a: int, w: int, v: word)
    requires ListsOk(m, hdr, s, bins, {}) && Sound(s) && a in s.live && a in s.size && a + 8 <= w < a + s.size[a] + 4
    ensures ListsOk(m[w := v], hdr, s, bins, {})
  {
    var m' := m[w := v];
    forall i | 1 <= i < NBINS
      ensures Ring(m', Nodes(hdr, bins, i))
    {
      forall x | x in Nodes(hdr, bins, i)
        ensures Fd(m', x) == Fd(m, x) && Bk(m', x) == Bk(m, x)
      {
        if x in bins[i] { assert AtHome(s, bins, {}, i, x); LinksOutsidePayload(s, a, x); }
      }
      assert Ring(m, Nodes(hdr, bins, i));
      RingFrame(m, m', Nodes(hdr, bins, i));
    }
  }

  lemma {:induction false} LinksOutsidePayload(s: Shape, a: int, x: int)
    requires Tiled(s) && a in s.live && a in s.size && Free(s, x)
    ensures x + 16 <= a + 8 || a + s.size[a] + 4 <= x + 8
  {
  }

  // ---- Free chunks ----

  /** Every free chunk is on exactly one list, once: in the bin of its size or in the last-remainder slot. */
  lemma {:induction false} OnExactlyOneList(m: Mem, hdr: word, pos: word, s: Shape, bins: Lists, a: int)
    requires Consistent(m, hdr, pos, s, bins) && Free(s, a)
    ensures exists i, k :: 0 <= i < NBINS && 0 <= k < |bins[i]| && bins[i][k] == a
    ensures forall i, k, j, l ::
              && 0 <= i < NBINS && 0 <= k < |bins[i]| && bins[i][k] == a
              && 0 <= j < NBINS && 0 <= l < |bins[j]| && bins[j][l] == a
              ==> i == j && k == l
    ensures forall i, k :: 0 <= i < NBINS && 0 <= k < |bins[i]| && bins[i][k] == a ==>
            i == 1 || i == BinIndex(s.size[a])
  {
    Halves(m, hdr, pos, s, bins);
    var i, k := FindListed(s, bins, {}, a);
    forall i, k, j, l | 0 <= i < NBINS && 0 <= k < |bins[i]| && bins[i][k] == a && 0 <= j < NBINS && 0 <= l < |bins[j]|
      && bins[j][l] == a
      ensures i == j && k == l && (i == 1 || i == BinIndex(s.size[a]))
    {
      assert a in bins[i] && a in bins[j];
      assert AtHome(s, bins, {}, i, a) && AtHome(s, bins, {}, j, a);
    }
  }

  /** When nothing is live, everything is back in the top chunk: it starts at the base and all lists are empty. */
  lemma {:induction false} AllFreed(m: Mem, hdr: word, pos: word, s: Shape, bins: Lists)
    requires Consistent(m, hdr, pos, s, bins) && s.live == {} && s.size != map[]
    ensures s.size.Keys == {s.top} && s.top == s.base && s.size[s.top] == pos - s.base
    ensures forall i :: 0 <= i < NBINS ==> bins[i] == []
  {
    Halves(m, hdr, pos, s, bins);
    forall a | a in s.size
      ensures a == s.top
    {
      if a != s.top { var e := End(s.size, a); }
    }
    forall i | 0 <= i < NBINS
      ensures bins[i] == []
    {
      assert bins[i] == [] || (bins[i][0] in bins[i] && AtHome(s, bins, {}, i, bins[i][0]));
    }
  }

  // ---- free undoes malloc ----

  /** Freeing a chunk that was taken whole from the free chunks restores the heap chunk by chunk. */
  lemma {:induction false} FreeUndoesTakeWhole(s: Shape, v: int)
    requires Sound(s) && Free(s, v)
    ensures Sound(Take(s, v)) && MergeStart(Take(s, v), v, v)
    ensures Freed(Take(s, v), v, v) == s
  {
    TakeWholeSound(s, v);
    FreeIsPinned(s, v);
    assert End(s.size, v) in s.live && End(s.size, v) !in s.pin by { assert End(s.size, v) in s.size; }
    assert Release(Take(s, v), v) == s;
  }

  /** Freeing a chunk that was cut from the front of a free chunk merges it with its remainder again. */
  lemma {:induction false} FreeUndoesTakeFront(s: Shape, v: int, n: int)
    requires Sound(s) && Free(s, v) && MINSIZE <= n <= s.size[v] - MINSIZE
    ensures Sound(Take(Split(s, v, n), v)) && MergeStart(Take(Split(s, v, n), v), v, v)
    ensures Freed(Take(Split(s, v, n), v), v, v) == s
  {
    TakeFrontSound(s, v, n);
    FreeIsPinned(s, v);
    CutDisjoint(s.size, v, n);
    CutEnds(s.size, v, n);
    UndoCut(s, v, n);
  }

  /** Freeing a chunk that was cut from the top chunk gives it back to the top chunk. */
  lemma {:induction false} FreeUndoesTakeTop(s: Shape, n: int)
    requires Sound(s) && MINSIZE <= n <= s.size[s.top] - MINSIZE
    ensures Sound(Take(Split(s, s.top, n), s.top)) && MergeStart(Take(Split(s, s.top, n), s.top), s.top, s.top)
    ensures Freed(Take(Split(s, s.top, n), s.top), s.top, s.top) == s
  {
    TakeTopSound(s, n);
    FreeIsPinned(s, s.top);
    CutDisjoint(s.size, s.top, n);
    CutEnds(s.size, s.top, n);
    UndoCut(s, s.top, n);
  }

  lemma {:induction false} UndoCut(s: Shape, v: int, n: int)
    requires v in s.size && s.top in s.size && v !in s.live && v + n !in s.size && v + n !in s.live && v + n !in s.pin
             && n != 0
    ensures var t := Take(Split(s, v, n), v);
            End(t.size, v) == v + n && v + n in t.size && Join(Release(t, v), v) == s
  {
    var t := Take(Split(s, v, n), v);
    assert Glue(t.size, v) == s.size;
    assert t.live - {v} == s.live;
    assert t.pin - {v + n} - {v + n} == s.pin;
    assert Join(Release(t, v), v) == Shape(s.size, s.live, s.pin, s.base, s.top);
  }
}
