/** Whole runs of the allocator: any sequence of malloc, memalign, free and stores into what malloc returned. */
module HeapRun {
  import opened Words
  import opened Bits
  import opened HeapShape
  import opened HeapWords
  import opened HeapBins
  import opened HeapState
  import opened HeapRequest
  import opened HeapFree
  import opened HeapTheorems
  import opened MemLib

  datatype Op =
    | Malloc(bytes: word)
    | Memalign(alignment: word, ghost k: nat, size: word)
    | Free(p: word)
    | Store(q: word, offset: nat, value: word)

  /** What an operation did: Got also stands for a refusal, with address 0. */
  datatype Event = Got(p: word, bytes: word) | Freed(q: word) | Stored(at: int, value: word) | Nothing

  /** The pointers a client holds after a run, with the sizes it asked for. */
  function Held(log: seq<Event>): map<int, word> {
    if log == [] then map[] else HeldAfter(Held(log[..|log| - 1]), log[|log| - 1])
  }

  function HeldAfter(h: map<int, word>, e: Event): map<int, word> {
    match e
    case Got(p, bytes) => if p == 0 then h else h[p as int := bytes]
    case Freed(q) => h - {q as int}
    case Stored(_, _) => h
    case Nothing => h
  }

  /** The words a client may expect to read back: stored, and not freed since. */
  function Expected(log: seq<Event>): map<int, word> {
    if log == [] then map[] else ExpectedAfter(Expected(log[..|log| - 1]), Held(log[..|log| - 1]), log[|log| - 1])
  }

  function ExpectedAfter(x: map<int, word>, h: map<int, word>, e: Event): map<int, word> {
    match e
    case Freed(q) => Outside(x, q, h)
    case Stored(at, value) => x[at := value]
    case Got(_, _) => x
    case Nothing => x
  }

  lemma {:induction false} OneMore(log: seq<Event>, e: Event)
    ensures Held(log + [e]) == HeldAfter(Held(log), e)
    ensures Expected(log + [e]) == ExpectedAfter(Expected(log), Held(log), e)
  {
    assert (log + [e])[..|log|] == log;
  }

  function Outside(e: map<int, word>, q: int, held: map<int, word>): map<int, word> {
    map w | w in e && !(q in held && q <= w < q + held[q]) :: e[w]
  }

  /** Requests outside request2size's hole and, for memalign, powers of two whose padding does not wrap. */
  ghost predicate InDomain(op: Op) {
    match op
    case Malloc(bytes) => bytes <= 0x7FFF_FFF4 || bytes >= TWO_31
    case Memalign(alignment, k, size) =>
      && (size <= 0x7FFF_FFF4 || size >= TWO_31)
      && alignment == Pow2(k)
         && (size < TWO_31 && alignment > 8 ==> Padded(if alignment < 16 then 16 else alignment, size))
    case Free(_) => true
    case Store(_, _, _) => true
  }

  /** e is a fair record of op, given what the client held. */
  ghost predicate Records(held: map<int, word>, op: Op, e: Event) {
    match op
    case Malloc(bytes) => e.Got? && e.bytes == bytes && e.p !in held
    case Memalign(alignment, k, size) => e.Got? && e.bytes == size && alignment > 0 && e.p % alignment == 0
      && e.p !in held
    case Free(p) => e == if p in held then Freed(p) else Nothing
    case Store(q, offset, value) =>
      e == if q in held && offset % 4 == 0 && offset + 4 <= held[q] then Stored(q + offset, value) else Nothing
  }

  /** The heap serves the client: it holds exactly the live chunks, each with room for what was asked, and every word it
      stored into them is there. */
  ghost predicate Serves(m: Mem, s: Shape, log: seq<Event>) {
    && (forall p {:trigger p in Held(log)} :: p in Held(log) ==>
       p - 8 in s.live && p - 8 in s.size && Held(log)[p] + 4 <= s.size[p - 8])
    && (forall a {:trigger a in s.live} :: a in s.live ==> a + 8 in Held(log))
    && (forall w {:trigger w in Expected(log)} :: w in Expected(log) ==> Rd(m, w) == Expected(log)[w] && Backed(log, w))
  }

  ghost predicate Backed(log: seq<Event>, w: int) {
    exists p: int :: p in Held(log) && p <= w < p + Held(log)[p]
  }

  lemma {:induction false} ServesGot(m: Mem, m': Mem, hdr: word, pos: int, s: Shape, s': Shape, log: seq<Event>,
                                     p: word, bytes: word)
    requires Serves(m, s, log) && Frame(m, m', hdr, pos, s)
    requires p == 0 ==> s' == s
    requires p != 0 ==> p >= 8 && Granted(s, s', p - 8, Request2Size(bytes)) && bytes <= 0x7FFF_FFF4
    requires p == 0 ==> 0 !in Held(log)
    ensures p !in Held(log)
    ensures Serves(m', s', log + [Got(p, bytes)])
  {
    var log' := log + [Got(p, bytes)];
    OneMore(log, log'[|log|]);
    if p != 0 { Request2SizeExact(bytes); }
    assert forall q :: q in Held(log) ==> q in Held(log') && Held(log')[q] == Held(log)[q];
    forall w | w in Expected(log')
      ensures Rd(m', w) == Expected(log')[w] && Backed(log', w)
    {
      assert Backed(log, w);
      var q: int :| q in Held(log) && q <= w < q + Held(log)[q];
      assert q - 8 in s.live;
    }
  }

  lemma {:induction false} ServesFreed(m: Mem, m': Mem, hdr: word, pos: int, s: Shape, s': Shape, log: seq<Event>,
                                       p: word)
    requires Serves(m, s, log) && p in Held(log) && Frame(m, m', hdr, pos, Release(s, p - 8))
    requires s'.live == s.live - {p - 8}
    requires forall a {:trigger a in s.live} :: a in s.live && a != p - 8 ==>
             a in s.size && a in s'.size && s'.size[a] == s.size[a]
    ensures Serves(m', s', log + [Freed(p)])
  {
    var log' := log + [Freed(p)];
    OneMore(log, log'[|log|]);
    forall w | w in Expected(log')
      ensures Rd(m', w) == Expected(log')[w] && Backed(log', w)
    {
      assert Backed(log, w);
      var q: int :| q in Held(log) && q <= w < q + Held(log)[q];
      assert q != p && q in Held(log');
      assert q - 8 in s.live && q - 8 in Release(s, p - 8).live;
    }
  }

  lemma {:induction false} ServesStored(m: Mem, s: Shape, log: seq<Event>, p: word, offset: nat, v: word)
    requires Serves(m, s, log) && p in Held(log) && offset + 4 <= Held(log)[p]
    ensures Serves(m[p + offset := v], s, log + [Stored(p + offset, v)])
  {
    var log' := log + [Stored(p + offset, v)];
    OneMore(log, log'[|log|]);
    forall w | w in Expected(log')
      ensures Backed(log', w)
    {
      if w == p + offset {
        assert p in Held(log');
      } else {
        assert Backed(log, w);
      }
    }
  }

  lemma {:induction false} ServesNothing(m: Mem, s: Shape, log: seq<Event>)
    requires Serves(m, s, log)
    ensures Serves(m, s, log + [Nothing])
  {
    var log' := log + [Nothing];
    OneMore(log, log'[|log|]);
    forall w | w in Expected(log')
      ensures Backed(log', w)
    {
      assert Backed(log, w);
    }
  }

  /** Two held blocks never overlap, and every block is 8-aligned. */
  ghost predicate Separate(held: map<int, word>) {
    && (forall p {:trigger p in held} :: p in held ==> p % 8 == 0)
    && (forall p: int, q: int {:trigger p in held, q in held} :: p in held && q in held && p < q ==> p + held[p] <= q)
  }

  lemma {:induction false} HeldPointer(m: Mem, hdr: word, pos: word, s: Shape, bins: Lists, log: seq<Event>, p: int)
    requires Consistent(m, hdr, pos, s, bins) && Serves(m, s, log) && p in Held(log)
    ensures p >= 16 && p % 8 == 0 && p - 8 in s.live && p - 8 in s.size
  {
    Halves(m, hdr, pos, s, bins);
    LiveAligned(m, hdr, pos, s, bins, p - 8);
  }

  lemma {:induction false} LiveAligned(m: Mem, hdr: word, pos: word, s: Shape, bins: Lists, a: int)
    requires Consistent(m, hdr, pos, s, bins) && a in s.live
    ensures a in s.size && a >= 8 && (a + 8) % 8 == 0
  {
    Halves(m, hdr, pos, s, bins);
  }

  lemma {:induction false} HeldSeparate(m: Mem, hdr: word, pos: word, s: Shape, bins: Lists, log: seq<Event>)
    requires Consistent(m, hdr, pos, s, bins) && Serves(m, s, log)
    ensures Separate(Held(log))
  {
    Halves(m, hdr, pos, s, bins);
    forall p | p in Held(log)
      ensures p % 8 == 0
    {
      HeldPointer(m, hdr, pos, s, bins, log, p);
    }
    forall p: int, q: int | p in Held(log) && q in Held(log) && p < q
      ensures p + Held(log)[p] <= q
    {
      HeldApart(m, hdr, pos, s, bins, log, p, q);
    }
  }

  lemma {:induction false} HeldApart(m: Mem, hdr: word, pos: word, s: Shape, bins: Lists, log: seq<Event>, p: int,
                                     q: int)
    requires Consistent(m, hdr, pos, s, bins) && Serves(m, s, log) && p in Held(log) && q in Held(log) && p < q
    ensures p + Held(log)[p] <= q
  {
    Halves(m, hdr, pos, s, bins);
    PayloadsDisjoint(m, hdr, pos, s, bins, p - 8, q - 8);
  }

  lemma {:induction false} NullNotHeld(m: Mem, hdr: word, pos: word, s: Shape, bins: Lists, log: seq<Event>)
    requires Consistent(m, hdr, pos, s, bins) && Serves(m, s, log)
    ensures 0 !in Held(log)
  {
    Halves(m, hdr, pos, s, bins);
    if 0 in Held(log) { HeldPointer(m, hdr, pos, s, bins, log, 0); }
  }

  lemma {:induction false} ServesAfterFree(m: Mem, m': Mem, hdr: word, pos: int, s: Shape, log: seq<Event>, p: word,
                                           lo: int)
    requires Serves(m, s, log) && p in Held(log) && Frame(m, m', hdr, pos, Release(s, p - 8))
    requires Sound(s) && p - 8 in s.live && MergeStart(s, p - 8, lo)
    ensures Serves(m', AfterFree(s, p - 8, lo), log + [Freed(p)])
  {
    AfterFreeLive(s, p - 8, lo);
    ServesFreed(m, m', hdr, pos, s, AfterFree(s, p - 8, lo), log, p);
  }

  method StepFree(h: Heap, p: word, ghost log: seq<Event>)
    requires h.Valid() && Serves(h.mem, h.s, log) && p in Held(log)
    modifies h
    ensures h.Valid() && Serves(h.mem, h.s, log + [Freed(p)])
  {
    HeldPointer(h.mem, h.hdr, h.pos, h.s, h.bins, log, p);
    ghost var m0, s0 := h.mem, h.s;
    ghost var pos0 := h.pos;
    ghost var lo := h.MemlibFree(p);
    ServesAfterFree(m0, h.mem, h.hdr, pos0, s0, log, p, lo);
  }

  method StepStore(h: Heap, p: word, offset: nat, v: word, ghost log: seq<Event>)
    requires h.Valid() && Serves(h.mem, h.s, log) && p in Held(log) && offset % 4 == 0 && offset + 4 <= Held(log)[p]
    modifies h
    ensures h.Valid() && Serves(h.mem, h.s, log + [Stored(p + offset, v)])
  {
    HeldPointer(h.mem, h.hdr, h.pos, h.s, h.bins, log, p);
    ServesStored(h.mem, h.s, log, p, offset, v);
    PayloadWriteIsSafe(h.mem, h.hdr, h.pos, h.s, h.bins, p - 8, p + offset, v);
    h.mem := h.mem[p as int + offset := v];
  }

  method Step(h: Heap, op: Op, log: seq<Event>) returns (e: Event)
    requires h.Valid() && Serves(h.mem, h.s, log) && InDomain(op)
    modifies h
    ensures h.Valid() && Serves(h.mem, h.s, log + [e]) && Records(Held(log), op, e)
  {
    NullNotHeld(h.mem, h.hdr, h.pos, h.s, h.bins, log);
    ghost var m0, s0 := h.mem, h.s;
    match op {
      case Malloc(bytes) =>
        var p := h.MemlibMalloc(bytes);
        ServesGot(m0, h.mem, h.hdr, h.pos, s0, h.s, log, p, bytes);
        e := Got(p, bytes);
      case Memalign(alignment, k, size) =>
        var p := h.MemlibMemalign(alignment, size, k);
        ServesGot(m0, h.mem, h.hdr, h.end, s0, h.s, log, p, size);
        e := Got(p, size);
      case Free(p) =>
        if p in Held(log) {
          StepFree(h, p, log);
          e := Freed(p);
        } else {
          ServesNothing(m0, s0, log);
          e := Nothing;
        }
      case Store(q, offset, value) =>
        if q in Held(log) && offset % 4 == 0 && offset + 4 <= Held(log)[q] {
          StepStore(h, q, offset, value, log);
          e := Stored(q + offset, value);
        } else {
          ServesNothing(m0, s0, log);
          e := Nothing;
        }
    }
  }

  /** The heap is one top chunk, from its base to the break, and no list holds anything. */
  ghost predicate OneTop(pos: word, s: Shape, bins: Lists) {
    && s.size.Keys == {s.top} && s.top == s.base && s.top in s.size && s.size[s.top] == pos - s.base
    && |bins| == NBINS && forall i :: 0 <= i < NBINS ==> bins[i] == []
  }

  /** A client that holds nothing has given everything back. */
  lemma {:induction false} AllReturned(m: Mem, hdr: word, pos: word, s: Shape, bins: Lists, log: seq<Event>)
    requires Consistent(m, hdr, pos, s, bins) && Serves(m, s, log)
    ensures Held(log) == map[] && s.size != map[] ==> OneTop(pos, s, bins)
  {
    Halves(m, hdr, pos, s, bins);
    if Held(log) == map[] && s.size != map[] {
      assert forall a {:trigger a in s.live} :: a !in s.live;
      assert s.live == {};
      AllFreed(m, hdr, pos, s, bins);
    }
  }

  /** Safety over whole runs: from a fresh heap, after any sequence of operations, the blocks the client holds are
      8-aligned and disjoint, they are exactly the live chunks, and every word stored into them and not freed since
      reads back. */
  method Run(ctrl: word, len: word, m: Mem, ops: seq<Op>) returns (h: Heap, log: seq<Event>)
    requires 1056 + 4096 < len < 1056 + 0x7FFF_F000 && ctrl + len < TWO_32
    requires forall i :: 0 <= i < |ops| ==> InDomain(ops[i])
    ensures h.Valid() && Serves(h.mem, h.s, log) && Separate(Held(log))
    ensures |log| == |ops| && forall i :: 0 <= i < |ops| ==> Records(Held(log[..i]), ops[i], log[i])
    ensures forall w :: w in Expected(log) ==> Rd(h.mem, w) == Expected(log)[w]
    ensures Held(log) == map[] && h.s.size != map[] ==> OneTop(h.pos, h.s, h.bins)
  {
    RegionExact(ctrl + 1056, ctrl + len);
    var h0 := Heap.MemlibInit(ctrl, len, m);
    h := h0;
    log := [];
    for i := 0 to |ops|
      invariant fresh(h) && h.Valid() && Serves(h.mem, h.s, log) && |log| == i
      invariant forall j :: 0 <= j < i ==> Records(Held(log[..j]), ops[j], log[j])
    {
      var e := Step(h, ops[i], log);
      ghost var log0 := log;
      log := log + [e];
      assert forall j :: 0 <= j <= i ==> log[..j] == log0[..j];
    }
    HeldSeparate(h.mem, h.hdr, h.pos, h.s, h.bins, log);
    AllReturned(h.mem, h.hdr, h.pos, h.s, h.bins, log);
  }
}
