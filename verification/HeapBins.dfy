/** The bins: which list every free chunk is on. */
module HeapBins {
  import opened Words
  import opened HeapShape
  import opened HeapWords
  import opened HeapLists
  import opened Bits

  const NBINS: int := 128
  const MAX_SMALLBIN_SIZE: int := 512

  /** bin_index of the C code: 8-byte steps below 512, then six logarithmic ranges. */
  function BinIndex(sz: int): int {
    if sz / 512 == 0 then sz / 8
    else if sz / 512 <= 4 then 56 + sz / 64
    else if sz / 512 <= 20 then 91 + sz / 512
    else if sz / 512 <= 84 then 110 + sz / 4096
    else if sz / 512 <= 340 then 119 + sz / 32768
    else if sz / 512 <= 1364 then 124 + sz / 262144
    else 126
  }

  lemma {:induction false} BinIndexMonotone(a: int, b: int)
    requires 0 <= a <= b
    ensures BinIndex(a) <= BinIndex(b)
  {
  }

  lemma {:induction false} BinIndexRange(sz: int)
    requires MINSIZE <= sz
    ensures 2 <= BinIndex(sz) <= 126
    ensures sz < MAX_SMALLBIN_SIZE <==> BinIndex(sz) < 64
    ensures sz < MAX_SMALLBIN_SIZE ==> BinIndex(sz) == sz / 8
  {
  }

  type Lists = seq<seq<word>>

  /** bin_at: the sentinel of bin i lies on the two header words before hdr[2i+2]. */
  function BinAt(hdr: int, i: int): int {
    hdr + 8 * i
  }

  /** The cycle of nodes of bin i. */
  ghost function Nodes(hdr: word, bins: Lists, i: int): seq<word>
    requires hdr + 1040 < TWO_32 && 0 <= i < |bins| <= NBINS
  {
    Cycle(BinAt(hdr, i), bins[i])
  }

  /** Every bin but bin 0, whose words hold the bitmap and the top pointer, is a proper ring. */
  ghost predicate Wired(m: Mem, hdr: word, bins: Lists) {
    && |bins| == NBINS
    && hdr + 1040 < TWO_32
    && forall i {:trigger Nodes(hdr, bins, i)} :: 1 <= i < NBINS ==> Ring(m, Nodes(hdr, bins, i))
  }

  ghost predicate NoDup(l: seq<word>) {
    forall j, k {:trigger l[j], l[k]} :: 0 <= j < k < |l| ==> l[j] != l[k]
  }

  /** Chunk a may be on list i: bin 1 is the last-remainder slot, every other bin holds its own sizes. */
  ghost predicate AtHome(s: Shape, bins: Lists, out: set<int>, i: int, a: int)
    requires |bins| == NBINS
  {
    Free(s, a) && a !in out && (i == 1 || (i == BinIndex(s.size[a]) && a !in bins[1]))
  }

  /** The lists hold exactly the free chunks not in `out`, each once. */
  ghost predicate Stocked(s: Shape, bins: Lists, out: set<int>) {
    && |bins| == NBINS && |bins[1]| <= 1
    && (forall a {:trigger a in out} :: a in out ==> Free(s, a))
    && (forall i, a {:trigger a in bins[i]} :: 0 <= i < NBINS && a in bins[i] ==> AtHome(s, bins, out, i, a))
    && (forall i {:trigger bins[i]} :: 0 <= i < NBINS ==> NoDup(bins[i]))
    && (forall a {:trigger Free(s, a)} :: Free(s, a) && a !in out ==> OnList(s, bins, a))
  }

  ghost predicate OnList(s: Shape, bins: Lists, a: int)
    requires a in s.size && |bins| == NBINS
  {
    a in bins[1] || (2 <= BinIndex(s.size[a]) < NBINS && a in bins[BinIndex(s.size[a])])
  }

  ghost predicate Descending(size: map<int, int>, l: seq<word>) {
    forall j, k {:trigger l[j], l[k]} :: 0 <= j < k < |l| && l[j] in size && l[k] in size ==> size[l[j]] >= size[l[k]]
  }

  /** Bins are sorted, largest chunk first. */
  ghost predicate Sorted(s: Shape, bins: Lists) {
    forall i {:trigger bins[i]} :: 2 <= i < |bins| ==> Descending(s.size, bins[i])
  }

  /** A clear bit in the block bitmap means four empty bins. */
  ghost predicate Marked(m: Mem, hdr: int, bins: Lists) {
    forall i {:trigger bins[i]} :: 2 <= i < |bins| && bins[i] != [] ==> Bit(Rd(m, hdr + 4), i / 4)
  }

  ghost function Drop(bins: Lists, i: int, k: int): Lists
    requires 0 <= i < |bins| && 0 <= k < |bins[i]|
  {
    bins[i := bins[i][..k] + bins[i][k + 1..]]
  }

  ghost function Put(bins: Lists, i: int, k: int, p: word): Lists
    requires 0 <= i < |bins| && 0 <= k <= |bins[i]|
  {
    bins[i := bins[i][..k] + [p] + bins[i][k..]]
  }

  lemma {:induction false} DropStocked(s: Shape, bins: Lists, out: set<int>, i: int, k: int)
    requires Stocked(s, bins, out) && 0 <= i < NBINS && 0 <= k < |bins[i]|
    ensures Stocked(s, Drop(bins, i, k), out + {bins[i][k]})
  {
    var b', p := Drop(bins, i, k), bins[i][k];
    assert forall x :: x in b'[i] <==> x in bins[i] && x != p;
    assert p in bins[i];
  }

  lemma {:induction false} InsertNoDup(l: seq<word>, k: int, p: word)
    requires NoDup(l) && 0 <= k <= |l| && p !in l
    ensures NoDup(l[..k] + [p] + l[k..])
  {
  }

  lemma {:induction false} PutStocked(s: Shape, bins: Lists, out: set<int>, i: int, k: int, p: word)
    requires Stocked(s, bins, out) && Free(s, p) && p in out && i == BinIndex(s.size[p]) && 2 <= i < NBINS
             && 0 <= k <= |bins[i]|
    ensures Stocked(s, Put(bins, i, k, p), out - {p})
  {
    var b' := Put(bins, i, k, p);
    assert forall x :: x in b'[i] <==> x in bins[i] || x == p;
    InsertNoDup(bins[i], k, p);
  }

  /** The lists stay right when the shape changes around them: the listed chunks are the same. */
  lemma {:induction false} StockedShape(s: Shape, bins: Lists, out: set<int>, s': Shape, out': set<int>)
    requires Stocked(s, bins, out)
    requires forall a {:trigger Free(s', a)} :: Free(s', a) && a !in out' ==>
               Free(s, a) && a !in out && (s'.size[a] == s.size[a] || a in bins[1])
    requires forall a {:trigger Free(s, a)} :: Free(s, a) && a !in out ==>
               Free(s', a) && a !in out' && (s'.size[a] == s.size[a] || a in bins[1])
    requires forall a {:trigger a in out'} :: a in out' ==> Free(s', a)
    ensures Stocked(s', bins, out')
  {
    forall i, a | 0 <= i < NBINS && a in bins[i]
      ensures AtHome(s', bins, out', i, a)
    {
      assert AtHome(s, bins, out, i, a);
    }
    forall a | Free(s', a) && a !in out'
      ensures OnList(s', bins, a)
    {
      assert OnList(s, bins, a);
    }
  }

  /** The last-remainder slot is overwritten: its old content, if any, is on no list afterwards. */
  lemma {:induction false} SlotStocked(s: Shape, bins: Lists, out: set<int>, l: seq<word>, out': set<int>)
    requires Stocked(s, bins, out) && |l| <= 1 && forall p {:trigger p in l} :: p in l ==> p in out
    requires forall a {:trigger a in out'} :: a in out' <==> (a in out || a in bins[1]) && a !in l
    ensures Stocked(s, bins[1 := l], out')
  {
    var b' := bins[1 := l];
    forall a | a in out'
      ensures Free(s, a)
    {
      if a in bins[1] { assert AtHome(s, bins, out, 1, a); }
    }
    forall i, a | 0 <= i < NBINS && a in b'[i]
      ensures AtHome(s, b', out', i, a)
    {
      if i == 1 { assert Free(s, a); } else { assert AtHome(s, bins, out, i, a); assert a !in l; }
    }
    forall a | Free(s, a) && a !in out'
      ensures OnList(s, b', a)
    {
      assert a in out ==> a in l;
    }
  }

  /** Chunks lie above the control block and do not overlap. */
  ghost predicate Placed(hdr: word, s: Shape) {
    && hdr + 1040 < TWO_32
    && (forall a {:trigger a in s.size} :: a in s.size ==> hdr + 1040 <= a)
    && (forall a, b {:trigger a in s.size, b in s.size} :: a in s.size && b in s.size && a < b ==> a + MINSIZE <= b)
  }

  lemma {:induction false} TiledPlaced(hdr: word, s: Shape)
    requires Tiled(s) && hdr + 1040 <= s.base && hdr + 1040 < TWO_32
    ensures Placed(hdr, s)
  {
  }

  lemma {:induction false} NodesSpread(hdr: word, s: Shape, bins: Lists, out: set<int>, i: int)
    requires Placed(hdr, s) && Stocked(s, bins, out) && 0 <= i < NBINS
    ensures Spread(Nodes(hdr, bins, i))
  {
    var c := Nodes(hdr, bins, i);
    forall j, k | 0 <= j < k < |c| - 1
      ensures Clear(c[j], c[k])
    {
      assert c[k] in bins[i];
      assert AtHome(s, bins, out, i, c[k]);
      if j > 0 {
        assert c[j] in bins[i];
        assert AtHome(s, bins, out, i, c[j]);
        assert bins[i][j - 1] != bins[i][k - 1];
      }
    }
  }

  lemma {:induction false} NodesClear(hdr: word, s: Shape, bins: Lists, out: set<int>, i: int, i': int, x: word,
                                      y: word)
    requires Placed(hdr, s) && Stocked(s, bins, out) && 0 <= i < NBINS && 0 <= i' < NBINS && i != i'
    requires x in Nodes(hdr, bins, i) && y in Nodes(hdr, bins, i')
    ensures Clear(x, y)
  {
    if x in bins[i] { assert AtHome(s, bins, out, i, x); }
    if y in bins[i'] { assert AtHome(s, bins, out, i', y); }
  }

  lemma {:induction false} DropWired(m: Mem, hdr: word, s: Shape, bins: Lists, out: set<int>, i: int, k: int)
    requires Wired(m, hdr, bins) && Placed(hdr, s) && Stocked(s, bins, out)
    requires 1 <= i < NBINS && 0 <= k < |bins[i]|
    ensures Bk(m, bins[i][k]) == Nodes(hdr, bins, i)[k] && Fd(m, bins[i][k]) == Nodes(hdr, bins, i)[k + 2]
    ensures Wired(Unlinked(m, Bk(m, bins[i][k]), Fd(m, bins[i][k])), hdr, Drop(bins, i, k))
  {
    var c := Nodes(hdr, bins, i);
    assert Ring(m, c) && c[k + 1] == bins[i][k];
    assert Bk(m, c[k + 1]) == c[k] && Fd(m, c[k + 1]) == c[k + 2];
    NodesSpread(hdr, s, bins, out, i);
    RemoveRing(m, c, k + 1);
    var m', b' := Unlinked(m, c[k], c[k + 2]), Drop(bins, i, k);
    assert Nodes(hdr, b', i) == c[..k + 1] + c[k + 2..];
    forall i' | 1 <= i' < NBINS && i' != i
      ensures Ring(m', Nodes(hdr, b', i'))
    {
      OtherRing(m, hdr, s, bins, out, i, i', m', c[k], c[k + 2]);
      assert Nodes(hdr, b', i') == Nodes(hdr, bins, i');
    }
  }

  /** Writing links of nodes x and y of bin i leaves every other ring alone. */
  lemma {:induction false} OtherRing(m: Mem, hdr: word, s: Shape, bins: Lists, out: set<int>, i: int, i': int, m': Mem,
                                     x: word, y: word)
    requires Wired(m, hdr, bins) && Placed(hdr, s) && Stocked(s, bins, out)
    requires 1 <= i < NBINS && 1 <= i' < NBINS && i != i'
    requires x in Nodes(hdr, bins, i) && y in Nodes(hdr, bins, i)
    requires m' == Unlinked(m, x, y)
    ensures Ring(m', Nodes(hdr, bins, i'))
  {
    forall z | z in Nodes(hdr, bins, i')
      ensures Fd(m', z) == Fd(m, z) && Bk(m', z) == Bk(m, z)
    {
      NodesClear(hdr, s, bins, out, i, i', x, z);
      NodesClear(hdr, s, bins, out, i, i', y, z);
    }
    assert Ring(m, Nodes(hdr, bins, i'));
    RingFrame(m, m', Nodes(hdr, bins, i'));
  }

  lemma {:induction false} PutWired(m: Mem, hdr: word, s: Shape, bins: Lists, out: set<int>, i: int, k: int, p: word)
    requires Wired(m, hdr, bins) && Placed(hdr, s) && Stocked(s, bins, out)
    requires 1 <= i < NBINS && 0 <= k <= |bins[i]| && p in s.size && p in out
    ensures Wired(Linked(m, p, Nodes(hdr, bins, i)[k], Nodes(hdr, bins, i)[k + 1]), hdr, Put(bins, i, k, p))
  {
    var c := Nodes(hdr, bins, i);
    NodesSpread(hdr, s, bins, out, i);
    forall j | 0 <= j < |c| ensures Clear(p, c[j]) {
      if 0 < j < |c| - 1 {
        assert c[j] in bins[i];
        assert AtHome(s, bins, out, i, c[j]);
      }
    }
    assert Ring(m, c);
    InsertRing(m, c, k + 1, p);
    var m', b' := Linked(m, p, c[k], c[k + 1]), Put(bins, i, k, p);
    assert Nodes(hdr, b', i) == c[..k + 1] + [p] + c[k + 1..];
    forall i' | 1 <= i' < NBINS && i' != i
      ensures Ring(m', Nodes(hdr, b', i'))
    {
      assert c[k] in c && c[k + 1] in c;
      OtherRingLinked(m, hdr, s, bins, out, i, i', m', p, c[k], c[k + 1]);
      assert Nodes(hdr, b', i') == Nodes(hdr, bins, i');
    }
  }

  lemma {:induction false} OtherRingLinked(m: Mem, hdr: word, s: Shape, bins: Lists, out: set<int>, i: int, i': int,
                                           m': Mem, p: word, x: word, y: word)
    requires Wired(m, hdr, bins) && Placed(hdr, s) && Stocked(s, bins, out)
    requires 1 <= i < NBINS && 1 <= i' < NBINS && i != i' && p in s.size && p in out
    requires x in Nodes(hdr, bins, i) && y in Nodes(hdr, bins, i)
    requires m' == Linked(m, p, x, y)
    ensures Ring(m', Nodes(hdr, bins, i'))
  {
    forall z | z in Nodes(hdr, bins, i')
      ensures Fd(m', z) == Fd(m, z) && Bk(m', z) == Bk(m, z)
    {
      NodesClear(hdr, s, bins, out, i, i', x, z);
      NodesClear(hdr, s, bins, out, i, i', y, z);
      if z in bins[i'] { assert AtHome(s, bins, out, i', z); }
    }
    assert Ring(m, Nodes(hdr, bins, i'));
    RingFrame(m, m', Nodes(hdr, bins, i'));
  }

  /** link_last_remainder: the slot's ring is rewritten to hold p alone. */
  function SlotLinked(m: Mem, hdr: word, p: word): Mem
    requires hdr + 1040 < TWO_32
  {
    var l := BinAt(hdr, 1);
    m[l + 12 := p][l + 8 := p][p + 12 := l][p + 8 := l]
  }

  function SlotCleared(m: Mem, hdr: word): Mem
    requires hdr + 1040 < TWO_32
  {
    var l := BinAt(hdr, 1);
    m[l + 12 := l][l + 8 := l]
  }

  /** p may be any address above the control block whose link words no other ring uses. */
  lemma {:induction false} SlotLinkedWired(m: Mem, hdr: word, s: Shape, bins: Lists, out: set<int>, p: word)
    requires Wired(m, hdr, bins) && Placed(hdr, s) && Stocked(s, bins, out)
    requires hdr + 1040 <= p
    requires forall i, z {:trigger z in bins[i]} :: 2 <= i < NBINS && z in bins[i] ==> Clear(p, z)
    ensures Wired(SlotLinked(m, hdr, p), hdr, bins[1 := [p]])
  {
    var m', b' := SlotLinked(m, hdr, p), bins[1 := [p]];
    assert Nodes(hdr, b', 1) == [BinAt(hdr, 1), p, BinAt(hdr, 1)];
    forall i | 2 <= i < NBINS
      ensures Ring(m', Nodes(hdr, b', i))
    {
      forall z | z in Nodes(hdr, bins, i)
        ensures Fd(m', z) == Fd(m, z) && Bk(m', z) == Bk(m, z)
      {
        if z in bins[i] { assert AtHome(s, bins, out, i, z); }
      }
      assert Ring(m, Nodes(hdr, bins, i));
      RingFrame(m, m', Nodes(hdr, bins, i));
      assert Nodes(hdr, b', i) == Nodes(hdr, bins, i);
    }
  }

  lemma {:induction false} SlotClearedWired(m: Mem, hdr: word, s: Shape, bins: Lists, out: set<int>)
    requires Wired(m, hdr, bins) && Placed(hdr, s) && Stocked(s, bins, out)
    ensures Wired(SlotCleared(m, hdr), hdr, bins[1 := []])
  {
    var m', b' := SlotCleared(m, hdr), bins[1 := []];
    assert Nodes(hdr, b', 1) == [BinAt(hdr, 1), BinAt(hdr, 1)];
    forall i | 2 <= i < NBINS
      ensures Ring(m', Nodes(hdr, b', i))
    {
      forall z | z in Nodes(hdr, bins, i)
        ensures Fd(m', z) == Fd(m, z) && Bk(m', z) == Bk(m, z)
      {
        if z in bins[i] { assert AtHome(s, bins, out, i, z); }
      }
      assert Ring(m, Nodes(hdr, bins, i));
      RingFrame(m, m', Nodes(hdr, bins, i));
      assert Nodes(hdr, b', i) == Nodes(hdr, bins, i);
    }
  }

  // ---- Order within a bin ----

  lemma {:induction false} RemoveDescending(size: map<int, int>, l: seq<word>, k: int)
    requires Descending(size, l) && 0 <= k < |l|
    ensures Descending(size, l[..k] + l[k + 1..])
  {
  }

  lemma {:induction false} InsertDescending(size: map<int, int>, l: seq<word>, k: int, p: word)
    requires Descending(size, l) && 0 <= k <= |l| && p in size
    requires forall j {:trigger l[j]} :: 0 <= j < k && l[j] in size ==> size[l[j]] >= size[p]
    requires k < |l| && l[k] in size ==> size[l[k]] <= size[p]
    requires forall j {:trigger l[j]} :: 0 <= j < |l| ==> l[j] in size
    ensures Descending(size, l[..k] + [p] + l[k..])
  {
  }

  lemma {:induction false} ShapeSorted(s: Shape, bins: Lists, out: set<int>, s': Shape)
    requires Stocked(s, bins, out) && Sorted(s, bins)
    requires forall a {:trigger Free(s, a)} :: Free(s, a) && a !in out && a !in bins[1] ==>
             a in s'.size && s'.size[a] == s.size[a]
    ensures Sorted(s', bins)
  {
    forall i | 2 <= i < NBINS
      ensures Descending(s'.size, bins[i])
    {
      forall a | a in bins[i] ensures a in s.size && a in s'.size && s'.size[a] == s.size[a] {
        assert AtHome(s, bins, out, i, a);
      }
      assert Descending(s.size, bins[i]);
      forall j, k | 0 <= j < k < |bins[i]|
        ensures s'.size[bins[i][j]] >= s'.size[bins[i][k]]
      {
        assert bins[i][j] in bins[i] && bins[i][k] in bins[i];
      }
    }
  }

  // ---- The bitmap ----

  /** mark_binblock */
  function MarkedMap(m: Mem, hdr: word, i: int): Mem
    requires 0 <= i < NBINS
  {
    Pow2Of32();
    Pow2Monotone(i / 4, 31);
    OrBound(Rd(m, hdr + 4), Pow2(i / 4), 32);
    m[hdr + 4 := Or(Rd(m, hdr + 4), Pow2(i / 4))]
  }

  lemma {:induction false} MarkKeeps(m: Mem, hdr: word, bins: Lists, i: int)
    requires 0 <= i < NBINS
    ensures forall k: nat {:trigger Bit(Rd(MarkedMap(m, hdr, i), hdr + 4), k)} ::
      Bit(Rd(MarkedMap(m, hdr, i), hdr + 4), k) <==> Bit(Rd(m, hdr + 4), k) || k == i / 4
  {
    forall k: nat {:trigger Bit(Or(Rd(m, hdr + 4), Pow2(i / 4)), k)}
      ensures Bit(Or(Rd(m, hdr + 4), Pow2(i / 4)), k) <==> Bit(Rd(m, hdr + 4), k) || k == i / 4
    {
      BitOfOr(Rd(m, hdr + 4), Pow2(i / 4), k);
      BitOfPow2(i / 4, k);
    }
  }

  /** Clearing the bit of block b is right once the four bins of the block are empty. */
  lemma {:induction false} UnmarkMarked(m: Mem, hdr: int, bins: Lists, b: nat, m': Mem)
    requires |bins| == NBINS && Marked(m, hdr, bins)
    requires forall i {:trigger bins[i]} :: 2 <= i < NBINS && i / 4 == b ==> bins[i] == []
    requires Rd(m', hdr + 4) == AndNot(Rd(m, hdr + 4), Pow2(b))
    ensures Marked(m', hdr, bins)
  {
    forall i | 2 <= i < NBINS && bins[i] != []
      ensures Bit(Rd(m', hdr + 4), i / 4)
    {
      BitOfAndNot(Rd(m, hdr + 4), Pow2(b), i / 4);
      BitOfPow2(b, i / 4);
    }
  }

  // ---- What list surgery may touch ----

  /** Words that differ are the bitmap or list links: of a sentinel, or of a chunk that is free in s. */
  ghost predicate LinkFrame(m: Mem, m': Mem, hdr: word, s: Shape) {
    forall w {:trigger Rd(m', w)} :: Rd(m', w) != Rd(m, w) ==>
      w == hdr + 4 || hdr + 16 <= w < hdr + 1032 || Free(s, w - 8) || Free(s, w - 12)
  }

  ghost predicate Linkable(hdr: word, s: Shape, x: int) {
    (hdr + 8 <= x <= hdr + 1016) || Free(s, x)
  }

  lemma {:induction false} NodesLinkable(hdr: word, s: Shape, bins: Lists, out: set<int>, i: int, x: word)
    requires hdr + 1040 < TWO_32 && Stocked(s, bins, out) && 1 <= i < NBINS && x in Nodes(hdr, bins, i)
    ensures Linkable(hdr, s, x)
  {
    if x in bins[i] { assert AtHome(s, bins, out, i, x); }
  }

  lemma {:induction false} UnlinkedFrame(m: Mem, hdr: word, s: Shape, bk: word, fd: word)
    requires Linkable(hdr, s, bk) && Linkable(hdr, s, fd)
    ensures LinkFrame(m, Unlinked(m, bk, fd), hdr, s)
  {
  }

  lemma {:induction false} LinkedFrame(m: Mem, hdr: word, s: Shape, p: word, bk: word, fd: word)
    requires Linkable(hdr, s, bk) && Linkable(hdr, s, fd) && Free(s, p)
    ensures LinkFrame(m, Linked(m, p, bk, fd), hdr, s)
  {
  }

  lemma {:induction false} LinkFrameHeads(m: Mem, m': Mem, hdr: word, s: Shape)
    requires LinkFrame(m, m', hdr, s) && Placed(hdr, s)
    ensures forall a {:trigger a in s.size} :: a in s.size ==> SameHead(m, m', a)
    ensures Rd(m', hdr + 8) == Rd(m, hdr + 8)
  {
  }

  /** Payload words of the given chunks: from 8 past the chunk to the next chunk's prev_size word. */
  ghost predicate Kept(m: Mem, m': Mem, live: set<int>, size: map<int, int>) {
    forall a, w {:trigger a in live, Rd(m', w)} :: a in live && a in size && a + 8 <= w < a + size[a] + 4 ==>
      Rd(m', w) == Rd(m, w)
  }

  lemma {:induction false} LinkFrameKept(m: Mem, m': Mem, hdr: word, s: Shape)
    requires LinkFrame(m, m', hdr, s) && Placed(hdr, s) && Disjoint(s.size)
    requires forall a {:trigger a in s.size} :: a in s.size ==> s.size[a] >= MINSIZE
    ensures Kept(m, m', s.live, s.size)
  {
  }

  /** Words that differ are the top pointer, or heads or footers of chunks of s. */
  ghost predicate HeadFrame(m: Mem, m': Mem, hdr: word, s: Shape) {
    forall w {:trigger Rd(m', w)} :: Rd(m', w) != Rd(m, w) ==> w == hdr + 8 || w in s.size || w - 4 in s.size
  }

  // ---- All list facts together, and the list operations on them ----

  ghost predicate ListsOk(m: Mem, hdr: word, s: Shape, bins: Lists, out: set<int>) {
    Placed(hdr, s) && Wired(m, hdr, bins) && Stocked(s, bins, out) && Sorted(s, bins) && Marked(m, hdr, bins)
  }

  lemma {:induction false} UnlinkLists(m: Mem, hdr: word, s: Shape, bins: Lists, out: set<int>, i: int, k: int, p: word)
    requires ListsOk(m, hdr, s, bins, out) && 1 <= i < NBINS && 0 <= k < |bins[i]| && p == bins[i][k]
    ensures ListsOk(Unlinked(m, Bk(m, p), Fd(m, p)), hdr, s, Drop(bins, i, k), out + {p})
    ensures LinkFrame(m, Unlinked(m, Bk(m, p), Fd(m, p)), hdr, s)
  {
    var b' := Drop(bins, i, k);
    var c := Nodes(hdr, bins, i);
    DropWired(m, hdr, s, bins, out, i, k);
    DropStocked(s, bins, out, i, k);
    assert c[k] in c && c[k + 2] in c;
    NodesLinkable(hdr, s, bins, out, i, c[k]);
    NodesLinkable(hdr, s, bins, out, i, c[k + 2]);
    UnlinkedFrame(m, hdr, s, Bk(m, p), Fd(m, p));
    if i >= 2 { RemoveDescending(s.size, bins[i], k); }
    UnlinkedMarked(m, hdr, bins, i, k, Bk(m, p), Fd(m, p), s);
  }

  lemma {:induction false} UnlinkedMarked(m: Mem, hdr: word, bins: Lists, i: int, k: int, bk: word, fd: word, s: Shape)
    requires Marked(m, hdr, bins) && Placed(hdr, s) && |bins| == NBINS
    requires 1 <= i < NBINS && 0 <= k < |bins[i]|
    requires Linkable(hdr, s, bk) && Linkable(hdr, s, fd)
    ensures Marked(Unlinked(m, bk, fd), hdr, Drop(bins, i, k))
  {
    assert Rd(Unlinked(m, bk, fd), hdr + 4) == Rd(m, hdr + 4);
  }

  lemma {:induction false} MarkLists(m: Mem, hdr: word, s: Shape, bins: Lists, out: set<int>, i: int)
    requires ListsOk(m, hdr, s, bins, out) && 0 <= i < NBINS
    ensures ListsOk(MarkedMap(m, hdr, i), hdr, s, bins, out)
    ensures LinkFrame(m, MarkedMap(m, hdr, i), hdr, s)
    ensures Bit(Rd(MarkedMap(m, hdr, i), hdr + 4), i / 4)
  {
    MarkKeeps(m, hdr, bins, i);
    BitmapWired(m, MarkedMap(m, hdr, i), hdr, s, bins, out);
  }

  /** Only the bitmap word differs: the rings are untouched. */
  lemma {:induction false} BitmapWired(m: Mem, m': Mem, hdr: word, s: Shape, bins: Lists, out: set<int>)
    requires Placed(hdr, s) && Wired(m, hdr, bins) && Stocked(s, bins, out)
    requires forall w {:trigger Rd(m', w)} :: w != hdr + 4 ==> Rd(m', w) == Rd(m, w)
    ensures Wired(m', hdr, bins)
  {
    forall i | 1 <= i < NBINS
      ensures Ring(m', Nodes(hdr, bins, i))
    {
      forall x | x in Nodes(hdr, bins, i)
        ensures Fd(m', x) == Fd(m, x) && Bk(m', x) == Bk(m, x)
      {
        if x in bins[i] { assert AtHome(s, bins, out, i, x); }
      }
      assert Ring(m, Nodes(hdr, bins, i));
      RingFrame(m, m', Nodes(hdr, bins, i));
    }
  }

  /** Position k of l keeps l descending when a chunk of the given size is inserted there. */
  ghost predicate Fits(size: map<int, int>, l: seq<word>, k: int, sz: int) {
    && 0 <= k <= |l|
    && (forall j {:trigger l[j]} :: 0 <= j < k && l[j] in size ==> size[l[j]] >= sz)
    && (k < |l| && l[k] in size ==> size[l[k]] <= sz)
  }

  lemma {:induction false} InsertLists(m: Mem, hdr: word, s: Shape, bins: Lists, out: set<int>, i: int, k: int, p: word)
    requires ListsOk(m, hdr, s, bins, out) && p in out && Free(s, p) && i == BinIndex(s.size[p]) && 2 <= i < NBINS
    requires Fits(s.size, bins[i], k, s.size[p])
    requires Bit(Rd(m, hdr + 4), i / 4)
    ensures ListsOk(Linked(m, p, Nodes(hdr, bins, i)[k], Nodes(hdr, bins, i)[k + 1]), hdr, s, Put(bins, i, k, p),
            out - {p})
    ensures LinkFrame(m, Linked(m, p, Nodes(hdr, bins, i)[k], Nodes(hdr, bins, i)[k + 1]), hdr, s)
  {
    var c := Nodes(hdr, bins, i);
    PutWired(m, hdr, s, bins, out, i, k, p);
    PutStocked(s, bins, out, i, k, p);
    assert c[k] in c && c[k + 1] in c;
    NodesLinkable(hdr, s, bins, out, i, c[k]);
    NodesLinkable(hdr, s, bins, out, i, c[k + 1]);
    LinkedFrame(m, hdr, s, p, c[k], c[k + 1]);
    forall j | 0 <= j < |bins[i]| ensures bins[i][j] in s.size {
      assert bins[i][j] in bins[i];
      assert AtHome(s, bins, out, i, bins[i][j]);
    }
    assert Descending(s.size, bins[i]);
    InsertDescending(s.size, bins[i], k, p);
    InsertMarked(m, hdr, bins, i, k, p, c[k], c[k + 1], s);
  }

  lemma {:induction false} InsertMarked(m: Mem, hdr: word, bins: Lists, i: int, k: int, p: word, bk: word, fd: word,
                                        s: Shape)
    requires Marked(m, hdr, bins) && Placed(hdr, s) && |bins| == NBINS && p in s.size
    requires 1 <= i < NBINS && 0 <= k <= |bins[i]| && Bit(Rd(m, hdr + 4), i / 4)
    requires Linkable(hdr, s, bk) && Linkable(hdr, s, fd)
    ensures Marked(Linked(m, p, bk, fd), hdr, Put(bins, i, k, p))
  {
    assert Rd(Linked(m, p, bk, fd), hdr + 4) == Rd(m, hdr + 4);
  }

  lemma {:induction false} SlotLists(m: Mem, hdr: word, s: Shape, bins: Lists, out: set<int>, p: word, out': set<int>)
    requires ListsOk(m, hdr, s, bins, out) && p in out
    requires forall a {:trigger a in out'} :: a in out' <==> (a in out || a in bins[1]) && a != p
    ensures ListsOk(SlotLinked(m, hdr, p), hdr, s, bins[1 := [p]], out')
    ensures LinkFrame(m, SlotLinked(m, hdr, p), hdr, s)
  {
    assert Free(s, p);
    forall i, z | 2 <= i < NBINS && z in bins[i] ensures Clear(p, z) {
      assert AtHome(s, bins, out, i, z);
    }
    SlotLinkedWired(m, hdr, s, bins, out, p);
    SlotStocked(s, bins, out, [p], out');
    assert Rd(SlotLinked(m, hdr, p), hdr + 4) == Rd(m, hdr + 4);
  }

  lemma {:induction false} SlotClearedLists(m: Mem, hdr: word, s: Shape, bins: Lists, out: set<int>, out': set<int>)
    requires ListsOk(m, hdr, s, bins, out)
    requires forall a {:trigger a in out'} :: a in out' <==> a in out || a in bins[1]
    ensures ListsOk(SlotCleared(m, hdr), hdr, s, bins[1 := []], out')
    ensures LinkFrame(m, SlotCleared(m, hdr), hdr, s)
  {
    SlotClearedWired(m, hdr, s, bins, out);
    SlotStocked(s, bins, out, [], out');
    assert Rd(SlotCleared(m, hdr), hdr + 4) == Rd(m, hdr + 4);
  }

  /** Header writes leave the lists alone; the shape may change as long as the listed chunks stay. */
  lemma {:induction false} HeadsLists(m: Mem, m': Mem, hdr: word, s: Shape, bins: Lists, out: set<int>, t: Shape)
    requires ListsOk(m, hdr, s, bins, out) && Placed(hdr, t) && HeadFrame(m, m', hdr, t)
    requires forall a {:trigger Free(s, a)} :: Free(s, a) && a !in out ==> a in t.size
    ensures ListsOk(m', hdr, s, bins, out)
  {
    forall i | 1 <= i < NBINS
      ensures Ring(m', Nodes(hdr, bins, i))
    {
      forall x | x in Nodes(hdr, bins, i)
        ensures Fd(m', x) == Fd(m, x) && Bk(m', x) == Bk(m, x)
      {
        if x in bins[i] { assert AtHome(s, bins, out, i, x); }
      }
      assert Ring(m, Nodes(hdr, bins, i));
      RingFrame(m, m', Nodes(hdr, bins, i));
    }
  }

  lemma {:induction false} ShapeLists(m: Mem, hdr: word, s: Shape, bins: Lists, out: set<int>, s': Shape,
                                      out': set<int>)
    requires ListsOk(m, hdr, s, bins, out) && Placed(hdr, s')
    requires forall a {:trigger Free(s', a)} :: Free(s', a) && a !in out' ==>
               Free(s, a) && a !in out && (s'.size[a] == s.size[a] || a in bins[1])
    requires forall a {:trigger Free(s, a)} :: Free(s, a) && a !in out ==>
               Free(s', a) && a !in out' && (s'.size[a] == s.size[a] || a in bins[1])
    requires forall a {:trigger a in out'} :: a in out' ==> Free(s', a)
    ensures ListsOk(m, hdr, s', bins, out')
  {
    StockedShape(s, bins, out, s', out');
    ShapeSorted(s, bins, out, s');
  }
}
