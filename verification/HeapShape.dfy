/** Chunk-level view of the heap: where chunks begin, how long they are, which are live. */
module HeapShape {
  const MINSIZE: int := 16

  /** `size` maps every chunk address (the top chunk included) to its size; `pin` holds the chunks whose
      PREV_INUSE bit is set. */
  datatype Shape = Shape(size: map<int, int>, live: set<int>, pin: set<int>, base: int, top: int)

  ghost function End(size: map<int, int>, a: int): int {
    if a in size then a + size[a] else a
  }

  /** The chunks tile the heap from `base` to the end of `top`: each ends where another begins. */
  ghost predicate Tiled(s: Shape) {
    && s.base in s.size && s.top in s.size
    && (forall a {:trigger a in s.size} :: a in s.size ==> s.base <= a <= s.top && s.size[a] >= MINSIZE)
    && (forall a {:trigger End(s.size, a)} :: a in s.size && a != s.top ==> End(s.size, a) in s.size)
    && Disjoint(s.size)
  }

  ghost predicate Disjoint(size: map<int, int>) {
    forall a, b {:trigger a in size, b in size} :: a in size && b in size && a < b ==> a + size[a] <= b
  }

  /** PREV_INUSE bits tell the truth. */
  ghost predicate Pinned(s: Shape) {
    && s.live <= s.size.Keys && s.pin <= s.size.Keys
    && s.top !in s.live
    && s.base in s.pin
    && (forall a {:trigger End(s.size, a)} :: a in s.size && a != s.top ==> (a in s.live <==> End(s.size, a) in s.pin))
  }

  /** Chunks that are neither live nor top. */
  ghost predicate Free(s: Shape, a: int) {
    a in s.size && a !in s.live && a != s.top
  }

  /** No two free chunks (top included) touch. */
  ghost predicate Apart(s: Shape) {
    forall a {:trigger End(s.size, a)} :: Free(s, a) ==> End(s.size, a) in s.live
  }

  ghost predicate Sound(s: Shape) {
    Tiled(s) && Pinned(s) && Apart(s)
  }

  // ---- Moves ----

  ghost function Cut(size: map<int, int>, a: int, n: int): map<int, int>
    requires a in size
  {
    size[a := n][a + n := size[a] - n]
  }

  ghost function Glue(size: map<int, int>, a: int): map<int, int>
    requires a in size && End(size, a) in size
  {
    (size - {End(size, a)})[a := size[a] + size[End(size, a)]]
  }

  lemma {:induction false} CutDisjoint(size: map<int, int>, a: int, n: int)
    requires Disjoint(size) && a in size && 0 < n < size[a]
    ensures a + n !in size
    ensures Disjoint(Cut(size, a, n))
  {
  }

  lemma {:induction false} GlueDisjoint(size: map<int, int>, a: int)
    requires Disjoint(size) && a in size && size[a] > 0 && End(size, a) in size && size[End(size, a)] > 0
    ensures Disjoint(Glue(size, a))
  {
  }

  lemma {:induction false} CutEnds(size: map<int, int>, a: int, n: int)
    requires a in size && a + n !in size && n != 0
    ensures forall x {:trigger End(size, x)} {:trigger End(Cut(size, a, n), x)} :: x in size && x != a ==>
      End(Cut(size, a, n), x) == End(size, x)
    ensures End(Cut(size, a, n), a) == a + n && End(Cut(size, a, n), a + n) == End(size, a)
  {
  }

  lemma {:induction false} GlueEnds(size: map<int, int>, a: int)
    requires a in size && End(size, a) in size && size[a] != 0
    ensures forall x {:trigger End(size, x)} {:trigger End(Glue(size, a), x)} ::
            x in size && x != a && x != End(size, a) ==>
      End(Glue(size, a), x) == End(size, x)
    ensures End(Glue(size, a), a) == End(size, End(size, a))
  {
  }

  lemma {:induction false} EndInjective(s: Shape, a: int, b: int)
    requires Tiled(s) && a in s.size && b in s.size && End(s.size, a) == End(s.size, b)
    ensures a == b
  {
  }

  /** Cut chunk a into [a, a+n) and the rest; both parts keep the status of a, a cut top stays on top. */
  ghost function Split(s: Shape, a: int, n: int): Shape
    requires a in s.size
  {
    Shape(Cut(s.size, a, n),
          if a in s.live then s.live + {a + n} else s.live,
          if a in s.live then s.pin + {a + n} else s.pin,
          s.base,
          if a == s.top then a + n else s.top)
  }

  /** Merge the non-live chunk a with the non-live chunk that follows it. */
  ghost function Join(s: Shape, a: int): Shape
    requires a in s.size && End(s.size, a) in s.size
  {
    Shape(Glue(s.size, a), s.live, s.pin - {End(s.size, a)}, s.base, if End(s.size, a) == s.top then a else s.top)
  }

  ghost function Take(s: Shape, a: int): Shape {
    s.(live := s.live + {a}, pin := s.pin + {End(s.size, a)})
  }

  ghost function Release(s: Shape, a: int): Shape {
    s.(live := s.live - {a}, pin := s.pin - {End(s.size, a)})
  }

  ghost function Resize(s: Shape, n: int): Shape {
    s.(size := s.size[s.top := n])
  }

  lemma {:induction false} SplitTiled(s: Shape, a: int, n: int)
    requires Tiled(s) && a in s.size && MINSIZE <= n <= s.size[a] - MINSIZE
    ensures Tiled(Split(s, a, n)) && a + n !in s.size
  {
    CutDisjoint(s.size, a, n);
    CutEnds(s.size, a, n);
    var s' := Split(s, a, n);
    forall x | x in s'.size && x != s'.top
      ensures End(s'.size, x) in s'.size
    {
      if x != a && x != a + n { assert End(s.size, x) in s.size; }
      if x == a + n { assert End(s.size, a) in s.size; }
    }
    SplitBounds(s, a, n);
  }

  lemma {:induction false} SplitBounds(s: Shape, a: int, n: int)
    requires Tiled(s) && a in s.size && MINSIZE <= n <= s.size[a] - MINSIZE
    ensures forall x :: x in Cut(s.size, a, n) ==>
      s.base <= x <= (if a == s.top then a + n else s.top) && Cut(s.size, a, n)[x] >= MINSIZE
  {
  }

  lemma {:induction false} SplitPinned(s: Shape, a: int, n: int)
    requires Tiled(s) && Pinned(s) && a in s.size && MINSIZE <= n <= s.size[a] - MINSIZE
    ensures Pinned(Split(s, a, n))
  {
    CutDisjoint(s.size, a, n);
    CutEnds(s.size, a, n);
    SplitPinned0(s, a, n);
  }

  lemma {:induction false} SplitPinned0(s: Shape, a: int, n: int)
    requires Pinned(s) && a in s.size && a + n !in s.size && n != 0
    requires s.top in s.size && forall x {:trigger End(s.size, x)} :: x in s.size && x != s.top ==>
             End(s.size, x) in s.size
    requires forall x {:trigger End(Cut(s.size, a, n), x)} :: x in s.size && x != a ==>
             End(Cut(s.size, a, n), x) == End(s.size, x)
    requires End(Cut(s.size, a, n), a) == a + n && End(Cut(s.size, a, n), a + n) == End(s.size, a)
    ensures Pinned(Split(s, a, n))
  {
    var s' := Split(s, a, n);
    forall x | x in s'.size && x != s'.top
      ensures x in s'.live <==> End(s'.size, x) in s'.pin
    {
      if x == a + n {
        assert End(s'.size, x) == End(s.size, a);
        assert End(s.size, a) in s.size;
      } else if x != a {
        assert End(s'.size, x) == End(s.size, x);
        assert End(s.size, x) in s.size;
      }
    }
  }

  lemma {:induction false} JoinTiled(s: Shape, a: int)
    requires Tiled(s) && a in s.size && a != s.top
    ensures Tiled(Join(s, a))
  {
    var b := End(s.size, a);
    assert b in s.size;
    GlueDisjoint(s.size, a);
    GlueEnds(s.size, a);
    var s' := Join(s, a);
    forall x | x in s'.size && x != s'.top
      ensures End(s'.size, x) in s'.size
    {
      if x == a {
        assert End(s.size, b) in s.size;
      } else {
        assert End(s.size, x) in s.size;
        if End(s.size, x) == b { EndInjective(s, x, a); }
      }
    }
    JoinBounds(s, a);
  }

  lemma {:induction false} JoinBounds(s: Shape, a: int)
    requires Tiled(s) && a in s.size && End(s.size, a) in s.size
    ensures forall x :: x in Glue(s.size, a) ==> s.base <= x <= Join(s, a).top && Glue(s.size, a)[x] >= MINSIZE
  {
  }

  lemma {:induction false} JoinPinned(s: Shape, a: int)
    requires Tiled(s) && Pinned(s) && a in s.size && a != s.top && a !in s.live && End(s.size, a) !in s.live
    ensures End(s.size, a) in s.size && Pinned(Join(s, a))
  {
    var b := End(s.size, a);
    assert b in s.size;
    GlueEnds(s.size, a);
    var s' := Join(s, a);
    forall x | x in s'.size && x != s'.top
      ensures x in s'.live <==> End(s'.size, x) in s'.pin
    {
      if x == a {
        assert End(s.size, b) != b;
        assert End(s'.size, x) == End(s.size, b);
      } else {
        assert End(s'.size, x) == End(s.size, x);
        if End(s.size, x) == b { EndInjective(s, x, a); }
      }
    }
  }

  lemma {:induction false} FlipPinned(s: Shape, a: int)
    requires Tiled(s) && Pinned(s) && a in s.size && a != s.top
    ensures a !in s.live ==> Pinned(Take(s, a))
    ensures a in s.live ==> Pinned(Release(s, a))
  {
    assert End(s.size, a) in s.size;
    forall x | x in s.size && x != a && End(s.size, x) == End(s.size, a) ensures false {
      EndInjective(s, x, a);
    }
  }

  lemma {:induction false} ResizeSound(s: Shape, n: int)
    requires Sound(s) && n >= MINSIZE
    ensures Sound(Resize(s, n))
  {
    var s' := Resize(s, n);
    forall x | x in s'.size && x != s.top
      ensures End(s'.size, x) == End(s.size, x)
    {
    }
    forall x | x in s'.size && x != s.top
      ensures End(s'.size, x) in s'.size
    {
      assert End(s.size, x) in s.size;
    }
  }

  // ---- What the allocator does, as moves ----

  lemma {:induction false} TakeWholeSound(s: Shape, v: int)
    requires Sound(s) && Free(s, v)
    ensures Sound(Take(s, v))
  {
    FlipPinned(s, v);
  }

  lemma {:induction false} TakeFrontSound(s: Shape, v: int, n: int)
    requires Sound(s) && Free(s, v) && MINSIZE <= n <= s.size[v] - MINSIZE
    ensures Sound(Take(Split(s, v, n), v))
  {
    SplitTiled(s, v, n);
    SplitPinned(s, v, n);
    FlipPinned(Split(s, v, n), v);
    CutEnds(s.size, v, n);
    assert End(s.size, v) in s.live;
  }

  lemma {:induction false} TakeTopSound(s: Shape, n: int)
    requires Sound(s) && MINSIZE <= n <= s.size[s.top] - MINSIZE
    ensures Sound(Take(Split(s, s.top, n), s.top))
  {
    SplitTiled(s, s.top, n);
    SplitPinned(s, s.top, n);
    FlipPinned(Split(s, s.top, n), s.top);
    CutEnds(s.size, s.top, n);
  }

  /** A live chunk cut in two live chunks. */
  lemma {:induction false} SplitLiveSound(s: Shape, p: int, n: int)
    requires Sound(s) && p in s.live && MINSIZE <= n <= s.size[p] - MINSIZE
    ensures Sound(Split(s, p, n))
  {
    SplitTiled(s, p, n);
    SplitPinned(s, p, n);
    CutEnds(s.size, p, n);
  }

  /** Every chunk but the first has a physical predecessor. */
  lemma {:induction false} Predecessor(s: Shape, from: int, a: int) returns (b: int)
    requires Tiled(s) && from in s.size && a in s.size && from < a
    ensures b in s.size && b < a && End(s.size, b) == a
    decreases a - from
  {
    assert End(s.size, from) in s.size;
    if End(s.size, from) == a {
      b := from;
    } else {
      b := Predecessor(s, End(s.size, from), a);
    }
  }

  /** lo is where the free chunk around p begins once p is freed. */
  ghost predicate MergeStart(s: Shape, p: int, lo: int) {
    && (p in s.pin ==> lo == p)
    && (p !in s.pin ==> Free(s, lo) && End(s.size, lo) == p)
  }

  /** Release p, merging with the next chunk if it is not live and with the previous one if it is free. */
  ghost function Freed(s: Shape, p: int, lo: int): Shape
    requires Sound(s) && p in s.live && MergeStart(s, p, lo)
  {
    FreedSteps(s, p, lo);
    var s1 := Release(s, p);
    var s2 := if End(s.size, p) in s.live then s1 else Join(s1, p);
    if lo == p then s2 else Join(s2, lo)
  }

  lemma {:induction false} FreedSteps(s: Shape, p: int, lo: int)
    requires Sound(s) && p in s.live && MergeStart(s, p, lo)
    ensures End(s.size, p) in s.size
    ensures var s1 := Release(s, p);
            var s2 := if End(s.size, p) in s.live then s1 else Join(s1, p);
            && Tiled(s2) && Pinned(s2)
            && (lo != p ==> lo in s2.size && End(s2.size, lo) == p && p in s2.size && lo != s2.top && lo !in s2.live)
            && p !in s2.live && p in s2.size
  {
    assert End(s.size, p) in s.size;
    FlipPinned(s, p);
    var s1 := Release(s, p);
    if End(s.size, p) !in s.live {
      JoinTiled(s1, p);
      JoinPinned(s1, p);
      GlueEnds(s.size, p);
    }
  }

  lemma {:induction false} FreedSound(s: Shape, p: int, lo: int)
    requires Sound(s) && p in s.live && MergeStart(s, p, lo)
    ensures Sound(Freed(s, p, lo))
  {
    FreedSteps(s, p, lo);
    var s1 := Release(s, p);
    var s2 := if End(s.size, p) in s.live then s1 else Join(s1, p);
    if lo != p {
      JoinTiled(s2, lo);
      JoinPinned(s2, lo);
    }
    FreedApart(s, p, lo);
  }

  /** End of the merged chunk. */
  ghost function MergeEnd(s: Shape, p: int): int {
    var n := End(s.size, p);
    if n in s.live then n else End(s.size, n)
  }

  lemma {:induction false} GlueExplicit(size: map<int, int>, a: int)
    requires a in size && End(size, a) in size && size[a] != 0
    ensures Glue(size, a).Keys == size.Keys - {End(size, a)}
    ensures Glue(size, a)[a] == size[a] + size[End(size, a)]
    ensures forall x :: x in Glue(size, a) && x != a ==> Glue(size, a)[x] == size[x]
  {
  }

  /** The forward merge, chunk by chunk. */
  lemma {:induction false} ForwardExplicit(s: Shape, p: int)
    requires Sound(s) && p in s.live
    ensures End(s.size, p) in s.size
    ensures var n := End(s.size, p);
            var s2 := if n in s.live then Release(s, p) else Join(Release(s, p), p);
            && s2.live == s.live - {p} && s2.pin == s.pin - {n} && s2.base == s.base
            && s2.top == (if n == s.top then p else s.top)
            && s2.size.Keys == s.size.Keys - (if n in s.live then {} else {n})
            && p in s2.size && s2.size[p] == MergeEnd(s, p) - p
            && (forall a :: a in s2.size && a != p ==> s2.size[a] == s.size[a])
  {
    assert End(s.size, p) in s.size;
    if End(s.size, p) !in s.live {
      GlueExplicit(s.size, p);
    }
  }

  /** The outcome of Freed, chunk by chunk. */
  ghost predicate FreedOutcome(s: Shape, p: int, lo: int, s': Shape) {
    var n := End(s.size, p);
    && s'.live == s.live - {p} && s'.pin == s.pin - {n} && s'.base == s.base
    && s'.top == (if n == s.top then lo else s.top)
    && s'.size.Keys == s.size.Keys - (if n in s.live then {} else {n}) - (if lo == p then {} else {p})
    && lo in s'.size && s'.size[lo] == MergeEnd(s, p) - lo
    && (forall a :: a in s'.size && a != lo ==> s'.size[a] == s.size[a])
  }

  lemma {:induction false} FreedExplicit(s: Shape, p: int, lo: int)
    requires Sound(s) && p in s.live && MergeStart(s, p, lo)
    ensures FreedOutcome(s, p, lo, Freed(s, p, lo))
  {
    FreedSteps(s, p, lo);
    ForwardExplicit(s, p);
    var s2 := if End(s.size, p) in s.live then Release(s, p) else Join(Release(s, p), p);
    if lo != p {
      BackwardExplicit(s, p, lo, s2);
    }
  }

  lemma {:induction false} BackwardExplicit(s: Shape, p: int, lo: int, s2: Shape)
    requires FreedOutcome(s, p, p, s2)
    requires lo != p && lo in s.size && lo in s2.size && p in s2.size && End(s2.size, lo) == p && lo != s2.top
    requires p !in s.pin && p != s.top && s2.size[lo] != 0
    ensures FreedOutcome(s, p, lo, Join(s2, lo))
  {
    GlueExplicit(s2.size, lo);
    assert s2.pin - {p} == s2.pin;
  }

  lemma {:induction false} FreedApart(s: Shape, p: int, lo: int)
    requires Sound(s) && p in s.live && MergeStart(s, p, lo)
    ensures Apart(Freed(s, p, lo))
  {
    FreedExplicit(s, p, lo);
    var s', n, hi := Freed(s, p, lo), End(s.size, p), MergeEnd(s, p);
    assert n in s.size;
    forall a | Free(s', a)
      ensures End(s'.size, a) in s'.live
    {
      if a == lo {
        assert End(s'.size, a) == hi;
        assert hi in s.live && hi != p;
      } else {
        assert End(s'.size, a) == End(s.size, a);
        assert End(s.size, a) in s.live;
        if End(s.size, a) == p { EndInjective(s, a, lo); }
      }
    }
  }

  /** v is a new live chunk for a request of nb bytes; every other live chunk is as before. */
  ghost predicate Granted(s: Shape, s': Shape, v: int, nb: int) {
    && v in s'.size && v !in s.live && s'.live == s.live + {v}
    && nb <= s'.size[v] < nb + MINSIZE
    && forall a {:trigger a in s.live} :: a in s.live ==> a in s.size && a in s'.size && s'.size[a] == s.size[a]
  }

  lemma {:induction false} GrantedWhole(s: Shape, v: int, nb: int)
    requires Sound(s) && Free(s, v) && nb <= s.size[v] < nb + MINSIZE
    ensures Granted(s, Take(s, v), v, nb)
  {
  }

  lemma {:induction false} GrantedFront(s: Shape, v: int, nb: int)
    requires Sound(s) && v in s.size && v !in s.live && MINSIZE <= nb <= s.size[v] - MINSIZE
    ensures Granted(s, Take(Split(s, v, nb), v), v, nb)
  {
    CutDisjoint(s.size, v, nb);
  }

  /** The top chunk can serve nb bytes and stay a chunk. */
  /** The first nb bytes of the chunk v become live; what is left stays free if it can be a chunk. */
  ghost function Carved(s: Shape, v: int, nb: int): Shape
    requires v in s.size
  {
    if s.size[v] >= nb + MINSIZE then Take(Split(s, v, nb), v) else Take(s, v)
  }

  ghost predicate TopFits(s: Shape, nb: int) {
    s.top in s.size && s.size[s.top] >= nb + MINSIZE
  }

  /** What an extension leaves: the chunks below top are untouched, and top has room for nb unless refused. */
  ghost predicate Extended(s: Shape, s': Shape, refused: bool, nb: int) {
    && (refused ==> s' == s)
    && (!refused ==> TopFits(s', nb))
    && s'.live == s.live
    && (forall a {:trigger Free(s', a)} :: Free(s', a) ==> Free(s, a) && s'.size[a] == s.size[a])
    && (forall a {:trigger a in s.live} :: a in s.live && a in s.size ==> a in s'.size && s'.size[a] == s.size[a])
  }

  lemma {:induction false} ResizeExtends(s: Shape, n: int, nb: int)
    requires s.top in s.size && s.top !in s.live && n >= nb + MINSIZE
    ensures Extended(s, Resize(s, n), false, nb)
  {
  }

  lemma {:induction false} GrantedAfterExtension(s: Shape, s1: Shape, s2: Shape, v: int, nb: int)
    requires s1 == s || Extended(s, s1, false, nb)
    requires Granted(s1, s2, v, nb) && s.live <= s.size.Keys
    ensures Granted(s, s2, v, nb)
  {
  }
}
