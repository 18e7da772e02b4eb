/** How the chunk-level heap is written into memory: header words and footers. */
module HeapWords {
  import opened Words
  import opened HeapShape

  /** Memory, keyed by the byte address of each 32-bit word. */
  type Mem = map<int, word>

  function Rd(m: Mem, a: int): word {
    if a in m then m[a] else 0
  }

  ghost function HeadWord(s: Shape, a: int): int
    requires a in s.size
  {
    s.size[a] + if a in s.pin then 1 else 0
  }

  /** Head of every chunk at a+4; footer of every free chunk in the prev_size word of its successor. */
  ghost predicate Written(m: Mem, s: Shape) {
    && (forall a {:trigger a in s.size} :: a in s.size ==> Rd(m, a + 4) == HeadWord(s, a))
    && (forall a {:trigger End(s.size, a)} :: Free(s, a) ==> Rd(m, End(s.size, a)) == s.size[a])
  }

  ghost predicate Aligned(s: Shape) {
    forall a {:trigger a in s.size} :: a in s.size ==> a % 8 == 0 && s.size[a] % 8 == 0
  }

  ghost predicate SameHead(m: Mem, m': Mem, a: int) {
    Rd(m', a) == Rd(m, a) && Rd(m', a + 4) == Rd(m, a + 4)
  }

  lemma {:induction false} WrittenFrame(m: Mem, m': Mem, s: Shape)
    requires Sound(s) && Written(m, s)
    requires forall a :: a in s.size ==> SameHead(m, m', a)
    ensures Written(m', s)
  {
    forall a | Free(s, a)
      ensures Rd(m', End(s.size, a)) == s.size[a]
    {
      assert End(s.size, a) in s.size;
    }
  }

  lemma {:induction false} WrittenTakeWhole(m: Mem, m': Mem, s: Shape, v: int)
    requires Sound(s) && Written(m, s) && Free(s, v)
    requires forall a :: a in s.size && a != End(s.size, v) ==> SameHead(m, m', a)
    requires Rd(m', End(s.size, v) + 4) == s.size[End(s.size, v)] + 1
    ensures Written(m', Take(s, v))
  {
    var s' := Take(s, v);
    assert End(s.size, v) in s.size;
    forall a | Free(s', a)
      ensures Rd(m', End(s.size, a)) == s.size[a]
    {
      assert End(s.size, a) in s.size;
      if End(s.size, a) == End(s.size, v) { EndInjective(s, a, v); }
    }
  }

  lemma {:induction false} WrittenTakeFront(m: Mem, m': Mem, s: Shape, v: int, n: int)
    requires Sound(s) && Written(m, s) && Free(s, v) && MINSIZE <= n <= s.size[v] - MINSIZE
    requires forall a :: a in s.size && a != v && a != End(s.size, v) ==> SameHead(m, m', a)
    requires Rd(m', v + 4) == n + 1 && Rd(m', v + n + 4) == s.size[v] - n + 1
    requires Rd(m', End(s.size, v)) == s.size[v] - n && Rd(m', End(s.size, v) + 4) == Rd(m, End(s.size, v) + 4)
    ensures Written(m', Take(Split(s, v, n), v))
  {
    var s' := Take(Split(s, v, n), v);
    CutDisjoint(s.size, v, n);
    CutEnds(s.size, v, n);
    assert End(s.size, v) in s.live;
    assert v in s.pin by { FreeIsPinned(s, v); }
    forall a | Free(s', a)
      ensures Rd(m', End(s'.size, a)) == s'.size[a]
    {
      if a != v + n {
        assert End(s.size, a) in s.live;
        if End(s.size, a) == End(s.size, v) { EndInjective(s, a, v); }
      }
    }
  }

  /** The PREV_INUSE bit of a chunk that is not live is set: free chunks never touch. */
  lemma {:induction false} FreeIsPinned(s: Shape, a: int)
    requires Sound(s) && a in s.size && a !in s.live
    ensures a in s.pin
  {
    if a != s.base {
      var b := Predecessor(s, s.base, a);
    }
  }

  lemma {:induction false} WrittenTakeTop(m: Mem, m': Mem, s: Shape, n: int)
    requires Sound(s) && Written(m, s) && MINSIZE <= n <= s.size[s.top] - MINSIZE
    requires forall a :: a in s.size && a != s.top ==> SameHead(m, m', a)
    requires Rd(m', s.top + 4) == n + 1 && Rd(m', s.top + n + 4) == s.size[s.top] - n + 1
    ensures Written(m', Take(Split(s, s.top, n), s.top))
  {
    var s' := Take(Split(s, s.top, n), s.top);
    CutDisjoint(s.size, s.top, n);
    CutEnds(s.size, s.top, n);
    FreeIsPinned(s, s.top);
    forall a | Free(s', a)
      ensures Rd(m', End(s'.size, a)) == s'.size[a]
    {
      assert End(s.size, a) in s.live;
    }
  }

  lemma {:induction false} WrittenSplitLive(m: Mem, m': Mem, s: Shape, p: int, n: int)
    requires Sound(s) && Written(m, s) && p in s.live && MINSIZE <= n <= s.size[p] - MINSIZE
    requires forall a :: a in s.size && a != p ==> SameHead(m, m', a)
    requires Rd(m', p) == Rd(m, p) && Rd(m', p + 4) == n + Rd(m, p + 4) - s.size[p]
             && Rd(m', p + n + 4) == s.size[p] - n + 1
    ensures Written(m', Split(s, p, n))
  {
    var s' := Split(s, p, n);
    CutDisjoint(s.size, p, n);
    CutEnds(s.size, p, n);
    forall a | Free(s', a)
      ensures Rd(m', End(s'.size, a)) == s'.size[a]
    {
      assert End(s.size, a) in s.live;
      if End(s.size, a) == p {}
    }
  }

  lemma {:induction false} WrittenFreed(m: Mem, m': Mem, s: Shape, p: int, lo: int)
    requires Sound(s) && Written(m, s) && p in s.live && MergeStart(s, p, lo)
    requires forall a :: a in s.size && a != lo && a != End(s.size, p) && a != MergeEnd(s, p) ==> SameHead(m, m', a)
    requires Rd(m', lo) == Rd(m, lo) && Rd(m', lo + 4) == MergeEnd(s, p) - lo + 1
    requires End(s.size, p) in s.size && (End(s.size, p) != s.top ==> MergeEnd(s, p) in s.size)
    requires End(s.size, p) != s.top ==>
               && Rd(m', MergeEnd(s, p)) == MergeEnd(s, p) - lo
               && Rd(m', MergeEnd(s, p) + 4) == s.size[MergeEnd(s, p)]
    ensures Written(m', Freed(s, p, lo))
  {
    FreedExplicit(s, p, lo);
    FreedHeads(m, m', s, p, lo, Freed(s, p, lo));
    FreedFeet(m, m', s, p, lo, Freed(s, p, lo));
  }

  lemma {:induction false} FreedHeads(m: Mem, m': Mem, s: Shape, p: int, lo: int, s': Shape)
    requires Sound(s) && Written(m, s) && p in s.live && MergeStart(s, p, lo)
    requires FreedOutcome(s, p, lo, s')
    requires forall a :: a in s.size && a != lo && a != End(s.size, p) && a != MergeEnd(s, p) ==> SameHead(m, m', a)
    requires Rd(m', lo + 4) == MergeEnd(s, p) - lo + 1
    requires End(s.size, p) != s.top ==>
             MergeEnd(s, p) in s.size && Rd(m', MergeEnd(s, p) + 4) == s.size[MergeEnd(s, p)]
    ensures forall a :: a in s'.size ==> Rd(m', a + 4) == HeadWord(s', a)
  {
    var n := End(s.size, p);
    assert n in s.size;
    if lo != p { FreeIsPinned(s, lo); }
    forall a | a in s'.size
      ensures Rd(m', a + 4) == HeadWord(s', a)
    {
      if a == lo {
        assert lo in s'.pin;
      } else if a == MergeEnd(s, p) {
        assert a !in s'.pin;
      } else {
        assert SameHead(m, m', a);
      }
    }
  }

  lemma {:induction false} FreedFeet(m: Mem, m': Mem, s: Shape, p: int, lo: int, s': Shape)
    requires Sound(s) && Written(m, s) && p in s.live && MergeStart(s, p, lo)
    requires FreedOutcome(s, p, lo, s')
    requires forall a :: a in s.size && a != lo && a != End(s.size, p) && a != MergeEnd(s, p) ==> SameHead(m, m', a)
    requires Rd(m', lo) == Rd(m, lo)
    requires End(s.size, p) != s.top ==> Rd(m', MergeEnd(s, p)) == MergeEnd(s, p) - lo
    ensures forall a :: Free(s', a) ==> Rd(m', End(s'.size, a)) == s'.size[a]
  {
    var n := End(s.size, p);
    assert n in s.size;
    forall a | Free(s', a)
      ensures Rd(m', End(s'.size, a)) == s'.size[a]
    {
      if a != lo {
        assert Free(s, a);
        assert End(s.size, a) in s.live;
        if End(s.size, a) == n { EndInjective(s, a, p); }
        if n !in s.live && End(s.size, a) == End(s.size, n) { EndInjective(s, a, n); }
        if End(s.size, a) != lo { assert SameHead(m, m', End(s.size, a)); }
      }
    }
  }
}
