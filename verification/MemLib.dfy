/** The boundary-tag allocator. */
module MemLib {
  import opened Words
  import opened HeapShape
  import opened HeapWords
  import opened HeapLists
  import opened HeapBins
  import opened HeapRequest
  import opened HeapFree
  import opened HeapState
  import opened HeapSearch
  import opened HeapSteps
  import opened Bits

  class Heap {
    const hdr: word
    const start: word
    const end: word
    var pos: word
    var sbrkBase: word
    var mem: Mem
    ghost var s: Shape
    ghost var bins: Lists

    ghost predicate Valid()
      reads this
    {
      && start == hdr + 1040 && start <= pos <= end
      && end - start < 0x7FFF_F000
      && (s.size != map[] ==> sbrkBase != EFAIL)
      && Consistent(mem, hdr, pos, s, bins)
    }

    /** memlib_init: no heap for a region of a page or less behind the control block. The heap it sets up elsewhere is
        valid exactly if memlib_sbrk judges the region rightly (RegionExact). */
    static method MemlibInit(ctrl: word, len: word, m: Mem) returns (h: Heap?)
      requires ctrl + len < TWO_32
      ensures h == null <==> len <= 1056 + 4096
      ensures h != null ==> fresh(h) && (h.Valid() <==> RegionJudged(h.start, h.end))
      ensures h != null ==>
              h.s.size == map[] && h.s.live == {} && h.pos == h.start == ctrl + 1056 && h.end == ctrl + len
      ensures h != null ==> Consistent(h.mem, h.hdr, h.pos, h.s, h.bins)
      ensures h != null ==> forall w {:trigger Rd(h.mem, w)} :: Rd(h.mem, w) != Rd(m, w) ==>
              ctrl + 16 <= w < ctrl + 1056
    {
      if len <= 1056 + 4096 { return null; }
      h := new Heap(ctrl, len, m);
      RegionExact(h.start, h.end);
    }

    /** The control block: every bin is its own sentinel, twice; hdr[2], where top will be kept, is bin 0 too. */
    constructor (ctrl: word, len: word, m: Mem)
      requires 1056 < len && ctrl + len < TWO_32
      ensures Consistent(mem, hdr, pos, s, bins) && (Valid() <==> len - 1056 < 0x7FFF_F000)
      ensures hdr == ctrl + 16 && s.size == map[] && s.live == {} && pos == start == ctrl + 1056 && end == ctrl + len
      ensures forall w {:trigger Rd(mem, w)} :: Rd(mem, w) != Rd(m, w) ==> ctrl + 16 <= w < start
    {
      hdr := ctrl + 16;
      start := ctrl + 1056;
      end := ctrl + len;
      pos := ctrl + 1056;
      sbrkBase := EFAIL;
      mem := m[ctrl + 20 := 0];
      s := Shape(map[], {}, {}, ctrl + 16, ctrl + 16);
      bins := seq(NBINS, _ => []);
      new;
      for ix := 0 to NBINS
        invariant hdr == ctrl + 16 && start == ctrl + 1056 && end == ctrl + len && pos == start && sbrkBase == EFAIL
        invariant s == Shape(map[], {}, {}, hdr, hdr) && bins == seq(NBINS, _ => [])
        invariant Rd(mem, hdr + 4) == 0
        invariant forall i {:trigger BinAt(hdr, i)} :: 0 <= i < ix ==>
                  Fd(mem, BinAt(hdr, i)) == BinAt(hdr, i) == Bk(mem, BinAt(hdr, i))
        invariant forall w {:trigger Rd(mem, w)} :: Rd(mem, w) != Rd(m, w) ==> ctrl + 16 <= w < start
      {
        ghost var m1 := mem;
        mem := mem[hdr + 8 + 8 * ix := BinAt(hdr, ix)];
        mem := mem[hdr + 12 + 8 * ix := BinAt(hdr, ix)];
        assert forall w {:trigger Rd(mem, w)} :: Rd(mem, w) != Rd(m1, w) ==> hdr + 8 + 8 * ix <= w <= hdr + 12 + 8 * ix;
      }
      EmptyLists(mem, hdr, s);
    }

    // ---- Macros ----

    /** unlink(P, BK, FD) */
    method Unlink(p: word)
      modifies this`mem
      ensures mem == Unlinked(old(mem), Bk(old(mem), p), Fd(old(mem), p))
    {
      var bk: word, fd: word := Bk(mem, p), Fd(mem, p);
      mem := mem[fd as int + 12 := bk];
      mem := mem[bk as int + 8 := fd];
    }

    /** set_inuse_bit_at_offset */
    method SetInUseAt(a: int)
      modifies this`mem
      ensures mem == old(mem)[a + 4 := WithInUse(Rd(old(mem), a + 4))]
    {
      mem := mem[a + 4 := WithInUse(Rd(mem, a + 4))];
    }

    /** Exact fit from a list: unlink, then mark the chunk in use. */
    method TakeListed(victim: word, ghost i: int, ghost k: int)
      requires Valid() && 1 <= i < NBINS && 0 <= k < |bins[i]| && victim == bins[i][k]
      modifies this`mem, this`s, this`bins
      ensures Valid() && s == Take(old(s), victim) && old(Free(s, victim))
      ensures Frame(old(mem), mem, hdr, pos, old(s))
      ensures i >= 2 ==> bins[1] == old(bins)[1]
    {
      Halves(mem, hdr, pos, s, bins);
      var victimSize := ChunkSize(mem, victim);
      Unlink(victim);
      ghost var m1 := mem;
      SetInUseAt(victim + victimSize);
      TakeListedStep(old(mem), m1, mem, hdr, pos, s, bins, i, k, victim, victim + victimSize);
      bins := Drop(bins, i, k);
      s := Take(s, victim);
    }

    /** P->bk = BK; P->fd = FD; FD->bk = BK->fd = P */
    method LinkBetween(p: word, bk: word, fd: word)
      modifies this`mem
      ensures mem == Linked(old(mem), p, bk, fd)
    {
      mem := mem[p as int + 12 := bk];
      mem := mem[p as int + 8 := fd];
      mem := mem[bk as int + 8 := p];
      mem := mem[fd as int + 12 := p];
    }

    /** First half of frontlink: mark the block of the bin and find P's neighbours, at the front of a small
        bin, or before the first chunk that is not bigger in a large one. */
    method FindNeighbours(p: word, sz: word) returns (bk: word, fd: word, ghost idx: int, ghost k: int)
      requires HeadsOk(mem, hdr, pos, s) && ListsOk(mem, hdr, s, bins, {p}) && p in s.size && s.size[p] == sz
      modifies this`mem
      ensures idx == BinIndex(sz) && 2 <= idx < NBINS && Fits(s.size, bins[idx], k, sz)
      ensures mem == MarkedMap(old(mem), hdr, idx) || (mem == old(mem) && bins[idx] != [])
      ensures bk == Nodes(hdr, bins, idx)[k] && fd == Nodes(hdr, bins, idx)[k + 1]
    {
      FreeSize(mem, hdr, pos, s, p);
      if sz < MAX_SMALLBIN_SIZE {
        var ix := sz / 8;
        idx, k := ix, 0;
        ReadNode(mem, hdr, pos, s, bins, {p}, ix, 0);
        if |bins[idx]| > 0 { SmallBin(mem, hdr, pos, s, bins, {p}, idx, 0); }
        mem := MarkedMap(mem, hdr, ix);
        bk := BinAt(hdr, ix);
        fd := Fd(mem, bk);
      } else {
        var ix := BinIndex(sz);
        idx, k := ix, 0;
        ReadNode(mem, hdr, pos, s, bins, {p}, ix, 0);
        bk := BinAt(hdr, ix);
        fd := Fd(mem, bk);
        if fd == bk {
          mem := MarkedMap(mem, hdr, ix);
        } else {
          fd, k := FindPlace(ix, sz, {p});
          bk := Bk(mem, fd);
        }
      }
    }

    /** Walk a large bin from its biggest chunk down to the first that is not bigger than sz. */
    method FindPlace(idx: int, sz: word, ghost out: set<int>) returns (fd: word, ghost k: int)
      requires HeadsOk(mem, hdr, pos, s) && ListsOk(mem, hdr, s, bins, out) && 2 <= idx < NBINS
      ensures Fits(s.size, bins[idx], k, sz) && fd == Nodes(hdr, bins, idx)[k + 1]
      ensures Bk(mem, fd) == Nodes(hdr, bins, idx)[k]
    {
      fd := Fd(mem, BinAt(hdr, idx));
      k := 0;
      ReadNode(mem, hdr, pos, s, bins, out, idx, 0);
      while fd != BinAt(hdr, idx) && sz < ChunkSize(mem, fd)
        invariant 0 <= k <= |bins[idx]| && fd == Nodes(hdr, bins, idx)[k + 1]
        invariant forall j {:trigger bins[idx][j]} :: 0 <= j < k && bins[idx][j] in s.size ==>
                  s.size[bins[idx][j]] >= sz
        decreases |bins[idx]| - k
      {
        ReadNode(mem, hdr, pos, s, bins, out, idx, k);
        ReadNode(mem, hdr, pos, s, bins, out, idx, k + 1);
        fd := Fd(mem, fd);
        k := k + 1;
      }
      ReadNode(mem, hdr, pos, s, bins, out, idx, k);
    }

    /** frontlink(P, S): put P at its place in the bin of its size. */
    method FrontLink(p: word, sz: word)
      requires HeadsOk(mem, hdr, pos, s) && ListsOk(mem, hdr, s, bins, {p}) && p in s.size && s.size[p] == sz
      modifies this`mem, this`bins
      ensures Consistent(mem, hdr, pos, s, bins) && bins[1] == old(bins[1])
      ensures Frame(old(mem), mem, hdr, pos, s)
    {
      ghost var idx, k;
      var bk: word, fd: word;
      bk, fd, idx, k := FindNeighbours(p, sz);
      ghost var mk := mem;
      LinkBetween(p, bk, fd);
      FrontLinkStep(old(mem), mk, mem, hdr, pos, s, bins, idx, k, p);
      bins := Put(bins, idx, k, p);
    }

    // ---- Searching the bins ----

    /** Walk bin idx from its smallest chunk (bk order) to the first that holds nb bytes. */
    method FindInBin(idx: int, nb: word) returns (victim: word, ghost k: int)
      requires Valid() && 2 <= idx < NBINS && nb < TWO_31
      ensures victim == BinAt(hdr, idx) <==> k == -1
      ensures k == -1 || (0 <= k < |bins[idx]| && victim == bins[idx][k] && victim in s.size && s.size[victim] >= nb)
      ensures forall j {:trigger bins[idx][j]} :: 0 <= j < |bins[idx]| && k < j && bins[idx][j] in s.size ==>
              s.size[bins[idx][j]] < nb
    {
      Halves(mem, hdr, pos, s, bins);
      k := |bins[idx]| - 1;
      ReadNode(mem, hdr, pos, s, bins, {}, idx, k + 1);
      victim := Bk(mem, BinAt(hdr, idx));
      while victim != BinAt(hdr, idx)
        invariant -1 <= k < |bins[idx]| && victim == Nodes(hdr, bins, idx)[k + 1]
        invariant forall j {:trigger bins[idx][j]} :: k < j < |bins[idx]| && bins[idx][j] in s.size ==>
                  s.size[bins[idx][j]] < nb
        decreases k
      {
        ReadNode(mem, hdr, pos, s, bins, {}, idx, k);
        FreeSize(mem, hdr, pos, s, victim);
        if LongDiff(ChunkSize(mem, victim), nb) >= 0 {
          return;
        }
        victim := Bk(mem, victim);
        k := k - 1;
      }
      if k >= 0 { ReadNode(mem, hdr, pos, s, bins, {}, idx, k); }
    }

    /** From an even block boundary, step to the next marked block; j is one. */
    method SkipBlocks(idx0: int, block0: word, ghost j: nat) returns (idx: int, block: word)
      requires 0 <= idx0 < NBINS && idx0 % 4 == 0 && block0 == Pow2(idx0 / 4)
      requires idx0 / 4 <= j < 32 && Bit(Rd(mem, hdr + 4), j)
      ensures idx0 <= idx < NBINS && idx % 4 == 0 && block == Pow2(idx / 4) && Bit(Rd(mem, hdr + 4), idx / 4)
      ensures Unmarked(Rd(mem, hdr + 4), idx0 / 4, idx / 4)
    {
      idx, block := idx0, block0;
      ghost var from, b: nat := idx0 / 4, idx0 / 4;
      MaskTest(b, Rd(mem, hdr + 4));
      while And(block, Rd(mem, hdr + 4)) == 0
        invariant from <= b <= j && idx == 4 * b && block == Pow2(b)
        invariant And(block, Rd(mem, hdr + 4)) == 0 <==> !Bit(Rd(mem, hdr + 4), b)
        invariant Unmarked(Rd(mem, hdr + 4), from, b)
        decreases j - b
      {
        NextMask(Rd(mem, hdr + 4), from, b, j);
        idx := idx + 4;
        block := U32(2 * block);
        b := b + 1;
      }
    }

    /** From a bin of an unmarked block to the next marked one; j is one. */
    method LeaveBlock(idx0: int, block0: word, ghost j: nat) returns (idx: int, block: word)
      requires 0 <= idx0 < NBINS && block0 == Pow2(idx0 / 4) && !Bit(Rd(mem, hdr + 4), idx0 / 4)
      requires idx0 / 4 <= j < 32 && Bit(Rd(mem, hdr + 4), j)
      ensures idx0 <= idx < NBINS && idx % 4 == 0 && block == Pow2(idx / 4) && Bit(Rd(mem, hdr + 4), idx / 4)
      ensures Unmarked(Rd(mem, hdr + 4), idx0 / 4, idx / 4)
    {
      ShiftMask(idx0 / 4);
      idx := 4 * (idx0 / 4) + 4;
      block := U32(2 * block0);
      idx, block := SkipBlocks(idx, block, j);
    }

    /** Scan the rest of the block of bin idx0. */
    method ScanBlock(idx0: int, nb: word, ghost w: int) returns (idx: int, victim: word, found: bool, ghost k: int)
      requires Valid() && 4 <= idx0 < NBINS && nb < TWO_31
      requires NoFitBelow(s, bins, idx0, nb) && Promising(s, bins, idx0, nb, w)
      ensures idx0 <= idx && 4 <= idx
      ensures found ==> idx < NBINS && 0 <= k < |bins[idx]| && victim == bins[idx][k]
      ensures found ==> victim in s.size && s.size[victim] >= nb && Least(s, bins, victim, nb)
      ensures !found ==> idx == 4 * (idx0 / 4) + 4 && NoFitBelow(s, bins, idx, nb) && BinIndex(nb) < idx
      ensures !found ==> forall i {:trigger bins[i]} :: idx0 <= i < idx && i < NBINS ==> bins[i] == []
    {
      Halves(mem, hdr, pos, s, bins);
      idx := idx0;
      SizesNonNegative();
      while true
        invariant idx0 <= idx < 4 * (idx0 / 4) + 4
        invariant NoFitBelow(s, bins, idx, nb)
        invariant forall i {:trigger bins[i]} :: idx0 <= i < idx ==> bins[i] == []
        decreases 4 * (idx0 / 4) + 4 - idx
      {
        victim, k := FindInBin(idx, nb);
        if victim != BinAt(hdr, idx) {
          LeastInBin(s, bins, idx, k, victim, nb);
          found := true;
          return;
        }
        NoFitIsEmpty(s, bins, idx0, nb, w, idx);
        BinWithoutFit(s, bins, idx, nb);
        idx := idx + 1;
        if idx % 4 == 0 {
          break;
        }
      }
      found := false;
    }

    lemma {:induction false} SizesNonNegative()
      requires Valid()
      ensures forall a {:trigger a in s.size} :: a in s.size ==> s.size[a] >= 0
    {
      Halves(mem, hdr, pos, s, bins);
    }

    /** Bins idx .. end of block are empty: clear the block's bit if the earlier bins of the block are empty too. */
    method ClearBlock(idx: int, block: word)
      requires Valid() && 4 <= idx < NBINS && block == Pow2(idx / 4) && Bit(Rd(mem, hdr + 4), idx / 4)
      requires forall i {:trigger bins[i]} :: idx <= i < 4 * (idx / 4) + 4 ==> bins[i] == []
      modifies this`mem
      ensures Valid() && Frame(old(mem), mem, hdr, pos, s)
    {
      Halves(mem, hdr, pos, s, bins);
      var startidx := idx;
      while true
        invariant mem == old(mem)
        invariant 4 * (idx / 4) <= startidx <= idx
        invariant forall i {:trigger bins[i]} :: startidx <= i < 4 * (idx / 4) + 4 ==> bins[i] == []
        decreases startidx
      {
        if startidx % 4 == 0 {
          AndNotBound(Rd(mem, hdr + 4), block);
          BitOfZero(idx / 4);
          mem := mem[hdr as int + 4 := AndNot(Rd(mem, hdr + 4), block)];
          ClearBlockStep(old(mem), mem, hdr, pos, s, bins, idx / 4);
          break;
        }
        startidx := startidx - 1;
        ReadNode(mem, hdr, pos, s, bins, {}, startidx, 0);
        if Fd(mem, BinAt(hdr, startidx)) != BinAt(hdr, startidx) {
          break;
        }
      }
    }

    /** No block is marked from a bin on: nothing fits. */
    lemma {:induction false} NoneLeft(idx: int, nb: int)
      requires Valid() && 2 <= idx <= NBINS && bins[1] == [] && NoFitBelow(s, bins, idx, nb)
      requires idx == NBINS || Pow2(idx / 4) > Rd(mem, hdr + 4)
      ensures NoFit(s, nb)
    {
      Halves(mem, hdr, pos, s, bins);
      NoBlockLeft(mem, hdr, s, bins, idx, nb);
    }

    lemma {:induction false} SkippedOnly(idx: int, idx': int, nb: int, w: int)
      requires Valid() && 2 <= idx <= idx' <= NBINS && idx' % 4 == 0
      requires NoFitBelow(s, bins, idx, nb) && Promising(s, bins, idx, nb, w)
      requires Unmarked(Rd(mem, hdr + 4), idx / 4, idx' / 4)
      ensures NoFitBelow(s, bins, idx', nb) && (idx' < NBINS ==> Promising(s, bins, idx', nb, w))
    {
      Halves(mem, hdr, pos, s, bins);
      SkippedBlocks(mem, hdr, s, bins, idx, idx', nb, w);
    }

    /** Find the first marked block at or after bin idx0, if any. */
    method FirstBlock(idx0: int, nb: word, ghost w: int) returns (idx: int, block: word, more: bool)
      requires Valid() && 4 <= idx0 < NBINS && bins[1] == []
      requires NoFitBelow(s, bins, idx0, nb) && Promising(s, bins, idx0, nb, w)
      ensures more ==> idx0 <= idx < NBINS && block == Pow2(idx / 4) && Bit(Rd(mem, hdr + 4), idx / 4)
      ensures more ==> NoFitBelow(s, bins, idx, nb) && Promising(s, bins, idx, nb, w)
      ensures !more ==> NoFit(s, nb)
    {
      idx, more := idx0, false;
      ShiftMask(idx / 4);
      block := Pow2(idx / 4);
      if block <= Rd(mem, hdr + 4) {
        more := true;
        ghost var j := SomeMark(idx / 4, Rd(mem, hdr + 4));
        if And(block, Rd(mem, hdr + 4)) == 0 {
          idx, block := LeaveBlock(idx, block, j);
          SkippedOnly(idx0, idx, nb, w);
        }
      } else {
        NoneLeft(idx, nb);
      }
    }

    /** Move on from the block that ends at bin idx0 to the next marked one, if any. */
    method NextBlock(idx0: int, block0: word, nb: word, ghost w: int) returns (idx: int, block: word, more: bool)
      requires Valid() && 8 <= idx0 <= NBINS && idx0 % 4 == 0 && block0 == Pow2(idx0 / 4 - 1) && bins[1] == []
      requires NoFitBelow(s, bins, idx0, nb) && Promising(s, bins, idx0, nb, w)
      ensures more ==> idx0 <= idx < NBINS && block == Pow2(idx / 4) && Bit(Rd(mem, hdr + 4), idx / 4)
      ensures more ==> NoFitBelow(s, bins, idx, nb) && Promising(s, bins, idx, nb, w)
      ensures !more ==> NoFit(s, nb)
    {
      idx, more := idx0, false;
      ShiftMask(idx / 4 - 1);
      block := U32(2 * block0);
      if block <= Rd(mem, hdr + 4) && block != 0 {
        more := true;
        ghost var j := SomeMark(idx / 4, Rd(mem, hdr + 4));
        idx, block := SkipBlocks(idx, block, j);
        SkippedOnly(idx0, idx, nb, w);
      } else {
        NoneLeft(idx, nb);
      }
    }

    /** The block-wise best-fit search. Not finding a chunk means no free chunk holds nb bytes. */
    method ScanBlocks(idx0: int, nb: word, ghost w: int) returns (idx: int, victim: word, found: bool, ghost k: int)
      requires Valid() && 4 <= idx0 < NBINS && nb < TWO_31 && bins[1] == []
      requires NoFitBelow(s, bins, idx0, nb) && Promising(s, bins, idx0, nb, w)
      modifies this`mem
      ensures Valid() && Frame(old(mem), mem, hdr, pos, s)
      ensures found ==> 2 <= idx < NBINS && 0 <= k < |bins[idx]| && victim == bins[idx][k]
      ensures found ==> victim in s.size && s.size[victim] >= nb && Least(s, bins, victim, nb)
      ensures !found ==> NoFit(s, nb)
    {
      Halves(mem, hdr, pos, s, bins);
      victim, found, k := 0, false, 0;
      var block: word, more: bool;
      idx, block, more := FirstBlock(idx0, nb, w);
      while more
        invariant Valid() && Frame(old(mem), mem, hdr, pos, s)
        invariant more ==> 4 <= idx < NBINS && block == Pow2(idx / 4) && Bit(Rd(mem, hdr + 4), idx / 4)
        invariant more ==> NoFitBelow(s, bins, idx, nb) && Promising(s, bins, idx, nb, w)
        invariant !more ==> NoFit(s, nb)
        decreases more, NBINS - idx
      {
        ghost var m1 := mem;
        var startidx := idx;
        idx, victim, found, k := ScanBlock(startidx, nb, w);
        if found {
          return;
        }
        ClearBlock(startidx, block);
        FrameTrans(old(mem), m1, mem, hdr, pos, s);
        idx, block, more := NextBlock(idx, block, nb, w);
      }
    }

    /** last(bin_at(i)) */
    method Last(i: int) returns (v: word)
      requires Valid() && 1 <= i < NBINS
      ensures v == BinAt(hdr, i) <==> bins[i] == []
      ensures bins[i] != [] ==> v == bins[i][|bins[i]| - 1]
    {
      Halves(mem, hdr, pos, s, bins);
      ReadNode(mem, hdr, pos, s, bins, {}, i, |bins[i]|);
      v := Bk(mem, BinAt(hdr, i));
      if bins[i] != [] { ReadNode(mem, hdr, pos, s, bins, {}, i, |bins[i]| - 1); }
    }

    /** Requests below 504 bytes: look in the bin of that very size, then in the next one. */
    method FindSmall(nb: word) returns (victim: word, i: int)
      requires Valid() && MINSIZE <= nb < 504 && nb % 8 == 0
      ensures nb / 8 <= i <= nb / 8 + 1
      ensures victim == BinAt(hdr, i) ==> bins[nb / 8] == [] && bins[nb / 8 + 1] == []
      ensures victim != BinAt(hdr, i) ==> bins[i] != [] && victim == bins[i][|bins[i]| - 1]
      ensures victim != BinAt(hdr, i) ==> victim in s.size && Least(s, bins, victim, nb)
    {
      Halves(mem, hdr, pos, s, bins);
      i := nb / 8;
      victim := Last(i);
      if victim == BinAt(hdr, i) {
        i := i + 1;
        victim := Last(i);
      }
      if bins[i] != [] {
        SizesNonNegative();
        SmallLeast(s, bins, nb, i);
      }
    }

    method TrySmall(nb: word) returns (idx: int, victim: word)
      requires Valid() && MINSIZE <= nb < 504 && nb % 8 == 0
      modifies this`mem, this`s, this`bins
      ensures Valid() && Frame(old(mem), mem, hdr, pos, old(s))
      ensures victim != 0 ==> Granted(old(s), s, victim, nb) && !NoFit(old(s), nb)
      ensures victim != 0 ==> Chosen(old(s), old(bins), victim, nb) && s == Carved(old(s), victim, nb)
      ensures victim != 0 ==> Slot(old(s), old(bins), bins, victim, nb)
      ensures victim == 0 ==> s == old(s) && bins == old(bins) && 4 <= idx < NBINS
      ensures victim == 0 ==> NoFitBelow(s, bins, idx, nb) && BinIndex(nb) < idx
    {
      Halves(mem, hdr, pos, s, bins);
      victim, idx := FindSmall(nb);
      if victim != BinAt(hdr, idx) {
        SmallBin(mem, hdr, pos, s, bins, {}, idx, |bins[idx]| - 1);
        NotInSlot(mem, hdr, s, bins, idx, |bins[idx]| - 1);
        TakeListed(victim, idx, |bins[idx]| - 1);
        GrantedListed(old(s), victim, nb);
        return;
      }
      SizesNonNegative();
      SmallMiss(s, bins, nb);
      victim, idx := 0, nb / 8 + 2;
    }

    lemma {:induction false} GrantedListed(s0: Shape, v: word, nb: int)
      requires Sound(s0) && hdr + 1040 <= s0.base && Free(s0, v) && nb <= s0.size[v] < nb + MINSIZE
      ensures v > 0 && Granted(s0, Take(s0, v), v, nb)
    {
      GrantedWhole(s0, v, nb);
    }

    /** Larger requests: walk the bin of that size for a chunk with less than a chunk to spare. */
    method TryLarge(nb: word) returns (idx: int, victim: word, ghost w: int)
      requires Valid() && 504 <= nb < TWO_31 && nb % 8 == 0
      modifies this`mem, this`s, this`bins
      ensures Valid() && Frame(old(mem), mem, hdr, pos, old(s))
      ensures victim != 0 ==> Granted(old(s), s, victim, nb) && !NoFit(old(s), nb)
      ensures victim != 0 ==> Chosen(old(s), old(bins), victim, nb) && s == Carved(old(s), victim, nb)
      ensures victim != 0 ==> Slot(old(s), old(bins), bins, victim, nb)
      ensures victim == 0 ==> s == old(s) && bins == old(bins) && 4 <= idx < NBINS && NoExact(s, bins, nb)
      ensures victim == 0 ==> NoFitBelow(s, bins, idx, nb) && Promising(s, bins, idx, nb, w)
    {
      Halves(mem, hdr, pos, s, bins);
      BinIndexRange(nb);
      BinIndexMonotone(504, nb);
      idx := BinIndex(nb);
      ghost var k;
      victim, k := FindInBin(idx, nb);
      SizesNonNegative();
      LargeMiss(s, bins, nb, k);
      LargeLeast(s, bins, nb, k);
      w := victim;
      if victim != BinAt(hdr, idx) {
        FreeSize(mem, hdr, pos, s, victim);
        ReadHead(mem, s, victim);
        if LongDiff(ChunkSize(mem, victim), nb) >= MINSIZE {
          idx := idx - 1;
        } else {
          NotInSlot(mem, hdr, s, bins, idx, k);
          TakeListed(victim, idx, k);
          GrantedListed(old(s), victim, nb);
          return;
        }
      }
      idx := idx + 1;
      victim := 0;
    }

    // ---- The last remainder ----

    /** link_last_remainder */
    method LinkLastRemainder(p: word)
      requires hdr + 1040 < TWO_32
      modifies this`mem
      ensures mem == SlotLinked(old(mem), hdr, p)
    {
      var l: word := BinAt(hdr, 1);
      mem := mem[l as int + 12 := p];
      mem := mem[l as int + 8 := p];
      mem := mem[p as int + 12 := l];
      mem := mem[p as int + 8 := l];
    }

    /** clear_last_remainder */
    method ClearLastRemainder()
      requires hdr + 1040 < TWO_32
      modifies this`mem
      ensures mem == SlotCleared(old(mem), hdr)
    {
      var l: word := BinAt(hdr, 1);
      mem := mem[l as int + 12 := l];
      mem := mem[l as int + 8 := l];
    }

    /** set_head and set_foot of a remainder */
    method WriteRemainder(r: word, sz: word)
      requires sz % 8 == 0
      modifies this`mem
      ensures sz + 1 < TWO_32 && mem == old(mem)[r + 4 := (sz + 1) as word][r + sz := sz]
    {
      EvenInUse(sz);
      mem := mem[r as int + 4 := WithInUse(sz)];
      mem := mem[r as int + sz := sz];
    }

    /** Cut the last remainder; what is left stays the last remainder. */
    method SplitSlot(victim: word, nb: word)
      requires Valid() && bins[1] == [victim] && victim in s.size && nb % 8 == 0
               && MINSIZE <= nb <= s.size[victim] - MINSIZE
      modifies this`mem, this`s, this`bins
      ensures Valid() && s == Take(Split(old(s), victim, nb), victim)
      ensures Frame(old(mem), mem, hdr, pos, old(s))
      ensures bins[1] == [victim + nb]
    {
      Halves(mem, hdr, pos, s, bins);
      CutReads(mem, hdr, pos, s, victim, nb);
      var r: word, rs: word := victim + nb, ChunkSize(mem, victim) - nb;
      mem := mem[victim as int + 4 := WithInUse(nb)];
      ghost var m1 := mem;
      LinkLastRemainder(r);
      ghost var m2 := mem;
      WriteRemainder(r, rs);
      SplitSlotStep(old(mem), m1, m2, mem, hdr, pos, s, bins, victim, nb, r, rs);
      bins := bins[1 := [r]];
      s := Take(Split(s, victim, nb), victim);
    }

    /** The last remainder fits with less than a chunk to spare: use all of it. */
    method TakeSlot(victim: word)
      requires Valid() && bins[1] == [victim]
      modifies this`mem, this`s, this`bins
      ensures Valid() && s == Take(old(s), victim) && old(Free(s, victim))
      ensures Frame(old(mem), mem, hdr, pos, old(s))
      ensures bins[1] == []
    {
      Halves(mem, hdr, pos, s, bins);
      var victimSize := ChunkSize(mem, victim);
      ClearLastRemainder();
      ghost var m1 := mem;
      SetInUseAt(victim + victimSize);
      TakeSlotStep(old(mem), m1, mem, hdr, pos, s, bins, victim, victim + victimSize);
      bins := bins[1 := []];
      s := Take(s, victim);
    }

    /** The last remainder is too small: place it in its bin. */
    method BinSlot(victim: word)
      requires Valid() && bins[1] == [victim]
      modifies this`mem, this`bins
      ensures Valid() && bins[1] == []
      ensures Frame(old(mem), mem, hdr, pos, s)
    {
      Halves(mem, hdr, pos, s, bins);
      ClearSlotStep(mem, hdr, pos, s, bins, victim);
      ReadHead(mem, s, victim);
      var victimSize := ChunkSize(mem, victim);
      ClearLastRemainder();
      ghost var m1 := mem;
      bins := bins[1 := []];
      FrontLink(victim, victimSize);
      FrameTrans(old(mem), m1, mem, hdr, pos, s);
    }

    /** Use the last split-off remainder if it is big enough, and empty its slot if it is not. */
    method UseSlot(victim: word, nb: word) returns (taken: bool)
      requires Valid() && bins[1] == [victim] && victim in s.size && MINSIZE <= nb < TWO_31 && nb % 8 == 0
      modifies this`mem, this`s, this`bins
      ensures Valid() && Frame(old(mem), mem, hdr, pos, old(s))
      ensures taken ==> victim > 0 && Granted(old(s), s, victim, nb) && !NoFit(old(s), nb)
      ensures taken ==> Free(old(s), victim) && old(s).size[victim] >= nb && s == Carved(old(s), victim, nb)
      ensures taken ==> bins[1] == if old(s).size[victim] >= nb + MINSIZE then [victim + nb] else []
      ensures !taken ==> s == old(s) && bins[1] == [] && s.size[victim] < nb
    {
      Halves(mem, hdr, pos, s, bins);
      ListedIsFree(mem, hdr, s, bins, {}, 1, 0);
      FreeSize(mem, hdr, pos, s, victim);
      ReadHead(mem, s, victim);
      var remainderSize := LongDiff(ChunkSize(mem, victim), nb);
      taken := remainderSize >= 0;
      if remainderSize >= MINSIZE {
        SplitSlot(victim, nb);
        GrantedFront(old(s), victim, nb);
      } else if remainderSize >= 0 {
        TakeSlot(victim);
        GrantedListed(old(s), victim, nb);
      } else {
        BinSlot(victim);
      }
    }

    method TryRemainder(nb: word, ghost idx: int, ghost w: int) returns (victim: word)
      requires Valid() && MINSIZE <= nb < TWO_31 && nb % 8 == 0
      requires NoFitBelow(s, bins, idx, nb) && Promising(s, bins, idx, nb, w)
      modifies this`mem, this`s, this`bins
      ensures Valid() && Frame(old(mem), mem, hdr, pos, old(s))
      ensures victim != 0 ==> Granted(old(s), s, victim, nb) && !NoFit(old(s), nb)
      ensures victim != 0 ==> Free(old(s), victim) && old(s).size[victim] >= nb && victim in old(bins)[1]
      ensures victim != 0 ==> s == Carved(old(s), victim, nb) && Slot(old(s), old(bins), bins, victim, nb)
      ensures victim == 0 ==> s == old(s) && bins[1] == []
      ensures victim == 0 ==> forall r :: r in old(bins)[1] && r in s.size ==> s.size[r] < nb
      ensures victim == 0 ==> NoFitBelow(s, bins, idx, nb) && Promising(s, bins, idx, nb, w)
    {
      Halves(mem, hdr, pos, s, bins);
      ReadNode(mem, hdr, pos, s, bins, {}, 1, 0);
      victim := Fd(mem, BinAt(hdr, 1));
      if victim == BinAt(hdr, 1) {
        return 0;
      }
      assert bins[1] == [victim];
      ghost var b0 := bins;
      var taken := UseSlot(victim, nb);
      if !taken {
        RemainderBinned(s, b0, bins, idx, nb, w, victim);
        victim := 0;
      }
    }

    // ---- A chunk found by the block scan ----

    /** set_head of the victim, unlink it, and make r the last remainder. */
    method MoveToSlot(victim: word, nb: word, r: word) returns (ghost m1: Mem, ghost m2: Mem, ghost m3: Mem)
      requires hdr + 1040 < TWO_32
      modifies this`mem
      ensures m1 == old(mem)[victim + 4 := WithInUse(nb)]
      ensures m2 == Unlinked(m1, Bk(m1, victim), Fd(m1, victim))
      ensures m3 == SlotLinked(m2, hdr, r) && mem == m3
    {
      mem := mem[victim as int + 4 := WithInUse(nb)];
      m1 := mem;
      Unlink(victim);
      m2 := mem;
      LinkLastRemainder(r);
      m3 := mem;
    }

    lemma {:induction false} CutPlace(victim: word, nb: word)
      requires Valid() && victim in s.size && nb % 8 == 0 && MINSIZE <= nb <= s.size[victim] - MINSIZE
      ensures ChunkSize(mem, victim) == s.size[victim] && victim + s.size[victim] <= pos && hdr + 1040 < TWO_32
      ensures (s.size[victim] - nb) % 8 == 0 && s.size[victim] - nb + 1 < TWO_32
      ensures nb + 1 < TWO_32 && WithInUse(nb) == nb + 1
    {
      Halves(mem, hdr, pos, s, bins);
      CutReads(mem, hdr, pos, s, victim, nb);
    }

    method SplitScanned(victim: word, nb: word, ghost i: int, ghost k: int)
      requires Valid() && bins[1] == [] && 2 <= i < NBINS && 0 <= k < |bins[i]| && victim == bins[i][k]
      requires victim in s.size && nb % 8 == 0 && MINSIZE <= nb <= s.size[victim] - MINSIZE
      modifies this`mem, this`s, this`bins
      ensures Valid() && s == Take(Split(old(s), victim, nb), victim)
      ensures Frame(old(mem), mem, hdr, pos, old(s))
      ensures bins[1] == [victim + nb]
    {
      CutPlace(victim, nb);
      var r: word, rs: word := victim + nb, ChunkSize(mem, victim) - nb;
      ghost var m1, m2, m3 := MoveToSlot(victim, nb, r);
      WriteRemainder(r, rs);
      SplitScannedStep(old(mem), m1, m2, m3, mem, hdr, pos, s, bins, i, k, victim, nb, r, rs);
      bins := Drop(bins, i, k)[1 := [r]];
      s := Take(Split(s, victim, nb), victim);
    }

    method TakeScanned(victim: word, ghost i: int, ghost k: int)
      requires Valid() && 1 <= i < NBINS && 0 <= k < |bins[i]| && victim == bins[i][k]
      modifies this`mem, this`s, this`bins
      ensures Valid() && s == Take(old(s), victim) && old(Free(s, victim))
      ensures Frame(old(mem), mem, hdr, pos, old(s))
      ensures i >= 2 ==> bins[1] == old(bins)[1]
    {
      Halves(mem, hdr, pos, s, bins);
      var victimSize := ChunkSize(mem, victim);
      SetInUseAt(victim + victimSize);
      ghost var m1 := mem;
      Unlink(victim);
      TakeScannedStep(old(mem), m1, mem, hdr, pos, s, bins, i, k, victim, victim + victimSize);
      bins := Drop(bins, i, k);
      s := Take(s, victim);
    }

    method UseScanned(victim: word, nb: word, ghost i: int, ghost k: int)
      requires Valid() && bins[1] == [] && 2 <= i < NBINS && 0 <= k < |bins[i]| && victim == bins[i][k]
      requires victim in s.size && MINSIZE <= nb <= s.size[victim] && nb < TWO_31 && nb % 8 == 0
      modifies this`mem, this`s, this`bins
      ensures Valid() && Frame(old(mem), mem, hdr, pos, old(s))
      ensures victim > 0 && Granted(old(s), s, victim, nb) && !NoFit(old(s), nb)
      ensures Free(old(s), victim) && s == Carved(old(s), victim, nb)
      ensures bins[1] == if old(s).size[victim] >= nb + MINSIZE then [victim + nb] else []
    {
      Halves(mem, hdr, pos, s, bins);
      ListedIsFree(mem, hdr, s, bins, {}, i, k);
      FreeSize(mem, hdr, pos, s, victim);
      ReadHead(mem, s, victim);
      if LongDiff(ChunkSize(mem, victim), nb) >= MINSIZE {
        SplitScanned(victim, nb, i, k);
        GrantedFront(old(s), victim, nb);
      } else {
        TakeScanned(victim, i, k);
        GrantedListed(old(s), victim, nb);
      }
    }

    // ---- The top chunk ----

    /** memlib_sbrk: `increment` is a signed step in two's complement. */
    method Sbrk(increment: word) returns (brk: word)
      modifies this`pos
      ensures var newPos := U32(old(pos) + increment);
              if newPos < start || newPos > end then brk == EFAIL && pos == old(pos)
              else brk == old(pos) && pos == newPos
    {
      var newPos := U32(pos + increment);
      if newPos < start || newPos > end {
        return EFAIL;
      }
      brk := pos;
      pos := newPos;
    }

    /** Where the heap would end after an extension for nb bytes. */
    ghost function ExtensionEnd(nb: word): int
      requires nb % 8 == 0 && nb <= 0x7FFF_FFF8
      reads this
    {
      var n := ExtensionSize(nb, sbrkBase == EFAIL);
      if s.size == map[] then NewEnd(pos, n) else pos + n
    }

    /** The old top, its size and its end; before the first extension that is the sentinel of bin 0. */
    method ReadOldTop() returns (oldTop: word, oldTopSize: word, oldEnd: int)
      requires Valid()
      ensures s.size == map[] ==> oldTop == hdr && oldTopSize == 0 && oldEnd == hdr
      ensures s.size != map[] ==>
              Built(hdr, pos, s) && oldTop == s.top && oldTopSize == s.size[s.top] < TWO_31 && oldEnd == pos
    {
      Halves(mem, hdr, pos, s, bins);
      if s.size != map[] { ReadTop(mem, hdr, pos, s); }
      oldTop := Rd(mem, hdr + 8);
      oldTopSize := ChunkSize(mem, oldTop);
      oldEnd := oldTop + oldTopSize;
    }

    /** sbrk returned the end of the top chunk: add the new bytes to it. */
    method GrowTop(nb: word, sbrkSize: word, oldTopSize: word, ghost pos0: word)
      requires Consistent(mem, hdr, pos0, s, bins) && Built(hdr, pos0, s) && oldTopSize == s.size[s.top]
      requires sbrkSize % PAGE == 0 && nb + MINSIZE <= sbrkSize < nb + MINSIZE + PAGE && pos == pos0 + sbrkSize
      modifies this`mem, this`s
      ensures Consistent(mem, hdr, pos, s, bins) && s.size != map[] && Frame(old(mem), mem, hdr, pos, old(s))
      ensures Extended(old(s), s, false, nb) && Grown(old(s), pos0, s, pos, nb)
    {
      Halves(mem, hdr, pos0, s, bins);
      ReadTop(mem, hdr, pos0, s);
      GrowStep(mem, hdr, pos0, s, bins, sbrkSize, pos);
      var topSize: word := sbrkSize + oldTopSize;
      mem := mem[Rd(mem, hdr + 8) as int + 4 := WithInUse(topSize)];
      s := Resize(s, topSize);
      ResizeExtends(old(s), topSize, nb);
    }

    /** sbrk returned fresh memory: align it, take it up to a page boundary and make it the top chunk. */
    method NewTop(nb: word, sbrkSize: word, brk: word, oldTop: word)
      requires Consistent(mem, hdr, brk, s, bins) && s.size == map[] && oldTop == hdr
      requires start == hdr + 1040 && start <= brk && pos == brk + sbrkSize && pos <= end
      requires end - start < 0x7FFF_F000
      requires sbrkSize % 8 == 0 && nb + MINSIZE <= sbrkSize <= 0x8000_1000 && sbrkSize < nb + MINSIZE + PAGE
      modifies this`mem, this`s, this`pos, this`sbrkBase
      ensures start <= pos <= end && old(pos) <= pos && sbrkBase != EFAIL
      ensures Consistent(mem, hdr, pos, s, bins) && Frame(old(mem), mem, hdr, pos, old(s))
      ensures Extended(old(s), s, NewEnd(brk, sbrkSize) > end, nb)
      ensures NewEnd(brk, sbrkSize) <= end ==> Grown(old(s), brk, s, pos, nb)
    {
      Halves(mem, hdr, brk, s, bins);
      // a heap that already has a top would now need a double fencepost: the space is not contiguous
      var foreign := oldTop != BinAt(hdr, 0);
      assert !foreign;
      if sbrkBase == EFAIL {
        sbrkBase := brk;
      }
      var newBrk: word, correction: word;
      ghost var e;
      newBrk, correction, e := Correction(brk, sbrkSize);
      CorrectTop(nb, sbrkSize, brk, newBrk, correction, e);
      if foreign {
        assert false;
      }
    }

    /** Get the correction from sbrk too; if that is refused the memory of the first call stays unused. */
    method CorrectTop(nb: word, sbrkSize: word, brk: word, newBrk: word, correction: word, ghost e: int)
      requires Consistent(mem, hdr, brk, s, bins) && s.size == map[] && start == hdr + 1040 && start <= brk <= newBrk
               && newBrk % 8 == 0
      requires pos == brk + sbrkSize && pos <= end && end - start < 0x7FFF_F000
      requires nb + MINSIZE <= sbrkSize < nb + MINSIZE + PAGE && newBrk < brk + 8
      requires correction == e - pos && correction <= 0x8000_1000 && newBrk + sbrkSize <= e < newBrk + sbrkSize + PAGE
      requires e % PAGE == 0 && e % 8 == 0
      modifies this`mem, this`s, this`pos
      ensures start <= pos <= end && old(pos) <= pos
      ensures Consistent(mem, hdr, pos, s, bins) && Frame(old(mem), mem, hdr, pos, old(s))
      ensures Extended(old(s), s, e > end, nb) && (e <= end ==> Grown(old(s), brk, s, pos, nb))
    {
      Halves(mem, hdr, brk, s, bins);
      ForwardStep(pos, correction, start, end);
      var secondBrk := Sbrk(correction);
      if secondBrk == EFAIL {
        return;
      }
      NewTopSize(brk, newBrk, sbrkSize, correction, e);
      PlaceTop(nb, newBrk, U32(secondBrk - newBrk + correction), brk);
    }

    method PlaceTop(nb: word, newBrk: word, topSize: word, ghost brk: word)
      requires Consistent(mem, hdr, brk, s, bins) && s.size == map[] && start == hdr + 1040 && start <= newBrk
               && newBrk % 8 == 0
      requires topSize % 8 == 0 && nb + MINSIZE <= topSize < nb + MINSIZE + 2 * PAGE && topSize + 1 < TWO_32
      requires pos == newBrk + topSize && pos % PAGE == 0 && brk <= newBrk < brk + 8
      modifies this`mem, this`s
      ensures Consistent(mem, hdr, pos, s, bins) && Frame(old(mem), mem, hdr, pos, old(s))
      ensures Extended(old(s), s, false, nb) && Grown(old(s), brk, s, pos, nb)
    {
      Halves(mem, hdr, brk, s, bins);
      mem := mem[hdr as int + 8 := newBrk];
      mem := mem[newBrk as int + 4 := WithInUse(topSize)];
      FirstTopStep(old(mem), mem, hdr, brk, s, bins, newBrk, topSize, pos);
      s := OneChunk(newBrk, topSize);
    }

    method ExtendTop(nb: word)
      requires Valid() && nb % 8 == 0 && MINSIZE <= nb <= 0x7FFF_FFF8
      modifies this`mem, this`s, this`pos, this`sbrkBase
      ensures Valid() && old(pos) <= pos && Frame(old(mem), mem, hdr, pos, old(s))
      ensures Extended(old(s), s, old(ExtensionEnd(nb)) > end, nb)
      ensures old(ExtensionEnd(nb)) <= end ==> Grown(old(s), old(pos), s, pos, nb)
    {
      Halves(mem, hdr, pos, s, bins);
      var oldTop, oldTopSize, oldEnd := ReadOldTop();
      var sbrkSize := ExtensionSize(nb, sbrkBase == EFAIL);
      ghost var pos0 := pos;
      ForwardStep(pos, sbrkSize, start, end);
      var brk := Sbrk(sbrkSize);
      if brk == EFAIL || (brk < oldEnd && oldTop != BinAt(hdr, 0)) {
        return;
      }
      if brk == oldEnd {
        GrowTop(nb, sbrkSize, oldTopSize, pos0);
      } else {
        NewTop(nb, sbrkSize, brk, oldTop);
      }
    }

    /** Cut the request from the front of the top chunk. */
    method CutTop(nb: word) returns (victim: word)
      requires Valid() && TopFits(s, nb) && nb % 8 == 0 && MINSIZE <= nb
      modifies this`mem, this`s
      ensures Valid() && Frame(old(mem), mem, hdr, pos, old(s))
      ensures victim > 0 && Granted(old(s), s, victim, nb)
      ensures victim == old(s).top && s == Carved(old(s), victim, nb)
    {
      Halves(mem, hdr, pos, s, bins);
      TopReads(mem, hdr, pos, s, nb);
      victim := Rd(mem, hdr + 8);
      var newTop: word, remainderSize: word := victim + nb, ChunkSize(mem, victim) - nb;
      mem := mem[victim as int + 4 := WithInUse(nb)];
      mem := mem[hdr as int + 8 := newTop];
      mem := mem[newTop as int + 4 := WithInUse(remainderSize)];
      TakeTopAll(old(mem), mem, hdr, pos, s, bins, nb, remainderSize, newTop);
      s := Take(Split(s, s.top, nb), s.top);
    }

    /** Use the top chunk, extending it first if it has no room. */
    method UseTop(nb: word) returns (victim: word)
      requires Valid() && nb % 8 == 0 && MINSIZE <= nb <= 0x7FFF_FFF8
      modifies this`mem, this`s, this`pos, this`sbrkBase
      ensures Valid() && old(pos) <= pos && Frame(old(mem), mem, hdr, pos, old(s))
      ensures victim != 0 ==> Granted(old(s), s, victim, nb) && FromTop(old(s), old(pos), s, pos, victim, nb)
      ensures victim == 0 ==> s == old(s)
      ensures victim == 0 <==> old(ExtensionEnd(nb)) > end && !TopFits(old(s), nb)
    {
      Halves(mem, hdr, pos, s, bins);
      var roomy := TopHasRoom(nb);
      ghost var m1, s1 := mem, s;
      if !roomy {
        ExtendTop(nb);
        m1, s1 := mem, s;
        roomy := TopHasRoom(nb);
        if !roomy {
          return 0;
        }
      }
      victim := CutTop(nb);
      FrameShift(old(mem), m1, mem, hdr, pos, old(s), s1);
      GrantedAfterExtension(old(s), s1, s, victim, nb);
    }

    method TopHasRoom(nb: word) returns (roomy: bool)
      requires Valid() && nb % 8 == 0 && MINSIZE <= nb <= 0x7FFF_FFF8
      ensures roomy <==> TopFits(s, nb)
    {
      Halves(mem, hdr, pos, s, bins);
      var top, topSize, topEnd := ReadOldTop();
      roomy := LongDiff(topSize, nb) >= MINSIZE;
    }

    // ---- memlib_malloc ----

    /** nb bytes can be had: from a free chunk, from the top chunk, or by extending the heap. */
    ghost predicate CanServe(nb: word)
      requires nb % 8 == 0
      reads this
    {
      !NoFit(s, nb) || TopFits(s, nb) || (nb <= 0x7FFF_FFF8 && ExtensionEnd(nb) <= end)
    }

    method TryBins(nb: word) returns (idx: int, victim: word, ghost w: int)
      requires Valid() && MINSIZE <= nb < TWO_31 && nb % 8 == 0
      modifies this`mem, this`s, this`bins
      ensures Valid() && Frame(old(mem), mem, hdr, pos, old(s))
      ensures victim != 0 ==> Granted(old(s), s, victim, nb) && !NoFit(old(s), nb)
      ensures victim != 0 ==> Chosen(old(s), old(bins), victim, nb) && s == Carved(old(s), victim, nb)
      ensures victim != 0 ==> Slot(old(s), old(bins), bins, victim, nb)
      ensures victim == 0 ==> s == old(s) && bins == old(bins) && 4 <= idx < NBINS && NoExact(s, bins, nb)
      ensures victim == 0 ==> NoFitBelow(s, bins, idx, nb) && Promising(s, bins, idx, nb, w)
    {
      w := 0;
      if nb < 504 {
        idx, victim := TrySmall(nb);
        if victim == 0 { NoneExact(s, bins, idx, nb); }
      } else {
        idx, victim, w := TryLarge(nb);
      }
    }

    /** Everything malloc tries before the top chunk. */
    method TryFree(nb: word) returns (victim: word)
      requires Valid() && MINSIZE <= nb < TWO_31 && nb % 8 == 0
      modifies this`mem, this`s, this`bins
      ensures Valid() && Frame(old(mem), mem, hdr, pos, old(s))
      ensures victim != 0 ==> Granted(old(s), s, victim, nb) && !NoFit(old(s), nb)
      ensures victim != 0 ==> Chosen(old(s), old(bins), victim, nb) && s == Carved(old(s), victim, nb)
      ensures victim != 0 ==> Slot(old(s), old(bins), bins, victim, nb)
      ensures victim == 0 ==> s == old(s) && bins[1] == [] && NoFit(s, nb)
    {
      var idx;
      ghost var w, k;
      idx, victim, w := TryBins(nb);
      if victim != 0 {
        return;
      }
      ghost var m1 := mem;
      victim := TryRemainder(nb, idx, w);
      FrameTrans(old(mem), m1, mem, hdr, pos, old(s));
      if victim != 0 {
        return;
      }
      ghost var m2 := mem;
      var found;
      idx, victim, found, k := ScanBlocks(idx, nb, w);
      FrameTrans(old(mem), m2, mem, hdr, pos, old(s));
      if !found {
        return 0;
      }
      ghost var m3, b3 := mem, bins;
      UseScanned(victim, nb, idx, k);
      ScannedChosen(old(s), old(bins), b3, victim, nb);
      FrameTrans(old(mem), m3, mem, hdr, pos, old(s));
    }

    /** memlib_malloc. It fails exactly when the request is negative as a `long`, or no free chunk holds nb bytes, the
        top chunk has no room for nb and a remainder, and the region has no room for an extension. */
    method MemlibMalloc(bytes: word) returns (p: word)
      requires Valid()
      modifies this`mem, this`s, this`bins, this`pos, this`sbrkBase
      ensures Valid() && old(pos) <= pos && Frame(old(mem), mem, hdr, pos, old(s))
      ensures p != 0 ==> bytes < TWO_31 && p >= 8 && Granted(old(s), s, p - 8, Request2Size(bytes))
      ensures p != 0 && !NoFit(old(s), Request2Size(bytes)) ==>
              && Chosen(old(s), old(bins), p - 8, Request2Size(bytes))
              && s == Carved(old(s), p - 8, Request2Size(bytes)) && pos == old(pos)
              && Slot(old(s), old(bins), bins, p - 8, Request2Size(bytes))
      ensures p != 0 && NoFit(old(s), Request2Size(bytes)) ==>
              FromTop(old(s), old(pos), s, pos, p - 8, Request2Size(bytes)) && bins[1] == []
      ensures p == 0 ==> s == old(s)
      ensures p == 0 <==> (bytes >= TWO_31 || !old(CanServe(Request2Size(bytes))))
    {
      if S32(bytes) < 0 {
        return 0;
      }
      Request2SizeExact(bytes);
      var nb := Request2Size(bytes);
      var victim := TryFree(nb);
      if victim == 0 {
        ghost var m1 := mem;
        victim := UseTop(nb);
        FrameShift(old(mem), m1, mem, hdr, pos, old(s), old(s));
        if victim == 0 {
          return 0;
        }
      }
      GrantedAddress(victim);
      p := victim + 8;
    }

    lemma {:induction false} GrantedAddress(v: int)
      requires Valid() && v in s.size
      ensures 0 < v && v + MINSIZE <= pos
    {
      Halves(mem, hdr, pos, s, bins);
    }

    // ---- memlib_free ----

    /** The chunk before p is free: join it to p's free space. The last remainder stays where it is if `keep`. */
    method MergePrevious(p: word, keep: bool, ghost m0: Mem) returns (lo: word, slot: bool)
      requires HeadsOk(m0, hdr, pos, s) && Built(hdr, pos, s) && p in s.live && p !in s.pin
      requires Merging(m0, mem, hdr, pos, s, p, p, bins, {p as int}, false)
      modifies this`mem, this`bins
      ensures MergeStart(s, p, lo) && lo != p
      ensures Merging(m0, mem, hdr, pos, s, p, lo, bins, if slot then {p as int} else {p as int, lo as int}, slot)
      ensures Rd(mem, End(s.size, p) + 4) == old(Rd(mem, End(s.size, p) + 4))
      ensures slot <==> keep && old(bins)[1] == [lo]
      ensures bins[1] == if old(bins)[1] == [lo] && !keep then [] else old(bins)[1]
    {
      ghost var q, i, k := PreviousReady(m0, mem, hdr, pos, s, bins, p);
      lo := p - Rd(mem, p);
      slot := keep && Fd(mem, lo) == BinAt(hdr, 1);
      if slot {
        AdoptSlot(m0, mem, hdr, pos, s, p, lo, bins);
      } else {
        UnlinkNeighbour(m0, mem, hdr, pos, s, p, p, bins, {p as int}, false, lo, i, k);
        Unlink(lo);
        bins := Drop(bins, i, k);
      }
    }

    /** The chunk after p is free: take it off its list; a last remainder hands its slot to the merged chunk. */
    method MergeNext(p: word, lo: word, next: word, slot0: bool, ghost m0: Mem, ghost out0: set<int>)
      returns (slot: bool, ghost out: set<int>)
      requires Built(hdr, pos, s) && p in s.live && next == End(s.size, p) && next !in s.live && next != s.top
      requires MergeStart(s, p, lo) && Merging(m0, mem, hdr, pos, s, p, lo, bins, out0, slot0) && next !in out0
      modifies this`mem, this`bins
      ensures Merging(m0, mem, hdr, pos, s, p, lo, bins, out, slot) && next in out
      ensures Rd(mem, next + 4) == old(Rd(mem, next + 4))
      ensures slot <==> slot0 || old(bins)[1] == [next]
      ensures bins[1] == if old(bins)[1] == [next] then [lo] else old(bins)[1]
    {
      ghost var i, k := NextReady(m0, mem, hdr, pos, s, bins, p, lo, out0, slot0);
      assert lo != next by { NextIsPast(s, p, lo); }
      slot := slot0;
      if !slot0 && Fd(mem, next) == BinAt(hdr, 1) {
        slot := true;
        SlotNeighbour(m0, mem, hdr, pos, s, p, lo, bins, out0);
        LinkLastRemainder(lo);
        bins := bins[1 := [lo]];
        out := (out0 + {next as int}) - {lo as int};
        NextIsPast(s, p, lo);
      } else {
        UnlinkNeighbour(m0, mem, hdr, pos, s, p, lo, bins, out0, slot0, next, i, k);
        Unlink(next);
        bins := Drop(bins, i, k);
        out := out0 + {next};
      }
    }

    lemma {:induction false} NextIsPast(t: Shape, p: int, lo: int)
      requires Tiled(t) && p in t.size && MergeStart(t, p, lo)
      ensures lo < End(t.size, p)
    {
    }

    /** Clear the next chunk's PREV_INUSE bit and merge p with the chunk before it if that is free. */
    method MergeBackward(p: word, next: word, nextSize: word, prevInUse: bool)
      returns (lo: word, slot: bool, ghost out: set<int>)
      requires Valid() && p in s.live && next == End(s.size, p) && next in s.size && next != s.top
      requires nextSize == s.size[next] && (prevInUse <==> p in s.pin)
      modifies this`mem, this`bins
      ensures Built(hdr, pos, s) && MergeStart(s, p, lo) && next !in out
      ensures Merging(old(mem), mem, hdr, pos, s, p, lo, bins, out, slot)
      ensures Rd(mem, next + 4) == nextSize && bins[1] == old(bins)[1] && (slot <==> old(bins)[1] == [lo])
    {
      Halves(mem, hdr, pos, s, bins);
      LiveNotSlot(mem, hdr, s, bins, {}, p);
      StartMerging(mem, hdr, pos, s, bins, p);
      ClearNextStep(mem, hdr, pos, s, bins, p, nextSize);
      mem := mem[next as int + 4 := nextSize];
      lo, slot, out := p, false, {p as int};
      if !prevInUse {
        lo, slot := MergePrevious(p, true, old(mem));
        out := if slot then {p as int} else {p as int, lo as int};
      }
      NextIsPast(s, p, lo);
    }

    /** Merge p with the chunk after it if that is free. */
    method MergeForward(p: word, next: word, nextSize: word, lo: word, slot0: bool, ghost out0: set<int>, ghost m0: Mem)
      returns (more: word, slot: bool, ghost out: set<int>)
      requires HeadsOk(m0, hdr, pos, s) && Built(hdr, pos, s) && p in s.live && next == End(s.size, p)
               && next in s.size && next != s.top
      requires nextSize == s.size[next] && MergeStart(s, p, lo) && next !in out0
      requires Merging(m0, mem, hdr, pos, s, p, lo, bins, out0, slot0)
      modifies this`mem, this`bins
      ensures Merging(m0, mem, hdr, pos, s, p, lo, bins, out, slot)
      ensures next !in s.live ==> next in out
      ensures MergeEnd(s, p) == next + more
      ensures Rd(mem, next + 4) == old(Rd(mem, next + 4))
      ensures slot <==> slot0 || old(bins)[1] == [next]
      ensures bins[1] == if old(bins)[1] == [next] then [lo] else old(bins)[1]
    {
      NextStatus(m0, mem, hdr, pos, s, p, lo, bins, out0, slot0);
      LiveNotSlot(mem, hdr, Release(s, p), bins, out0, next);
      more, slot, out := 0, slot0, out0;
      if !PrevInUse(mem, next + nextSize) {
        more := nextSize;
        slot, out := MergeNext(p, lo, next, slot0, m0, out0);
      }
    }

    /** Merge p with the chunks around it that are free: the merged chunk starts at `at` and has sz bytes. */
    method MergeAround(p: word, next: word, thisSize: word, nextSize: word, prevInUse: bool)
      returns (at: word, sz: word, slot: bool, ghost out: set<int>)
      requires Valid() && p in s.live && next == End(s.size, p) && next in s.size && next != s.top
      requires p in s.size && thisSize == s.size[p] && nextSize == s.size[next] && (prevInUse <==> p in s.pin)
      modifies this`mem, this`bins
      ensures Built(hdr, pos, s) && MergeStart(s, p, at) && Merging(old(mem), mem, hdr, pos, s, p, at, bins, out, slot)
      ensures next !in s.live ==> next in out
      ensures Rd(mem, next + 4) == nextSize && sz == MergeEnd(s, p) - at && sz % 8 == 0
      ensures bins[1] == if old(bins)[1] == [next] then [at] else old(bins)[1]
    {
      assert HeadsOk(mem, hdr, pos, s) by { Halves(mem, hdr, pos, s, bins); }
      at, slot, out := MergeBackward(p, next, nextSize, prevInUse);
      var more;
      more, slot, out := MergeForward(p, next, nextSize, at, slot, out, old(mem));
      MergedSize(hdr, pos, s, p, at);
      sz := (p - at) + thisSize + more;
    }

    /** Free p below the top chunk. */
    method FreeBelow(p: word, next: word, thisSize: word, nextSize: word, prevInUse: bool) returns (ghost lo: int)
      requires Valid() && p in s.live && next == End(s.size, p) && next in s.size && next != s.top
      requires p in s.size && thisSize == s.size[p] && nextSize == s.size[next] && (prevInUse <==> p in s.pin)
      modifies this`mem, this`s, this`bins
      ensures Valid() && old(Sound(s) && MergeStart(s, p, lo)) && s == Freed(old(s), p, lo)
      ensures Frame(old(mem), mem, hdr, pos, Release(old(s), p))
      ensures bins[1] == if old(bins)[1] == [next] then [lo] else old(bins)[1]
    {
      assert HeadsOk(mem, hdr, pos, s) && hdr + 1040 < TWO_32 by { Halves(mem, hdr, pos, s, bins); }
      var at, sz, slot;
      ghost var out;
      at, sz, slot, out := MergeAround(p, next, thisSize, nextSize, prevInUse);
      lo := at;
      FinishMerged(p, at, sz, slot, out, old(mem));
    }

    /** The merged chunk gets its tags, and its place in a bin unless it is the last remainder. */
    method FinishMerged(p: word, lo: word, sz: word, slot: bool, ghost out: set<int>, ghost m0: Mem)
      requires HeadsOk(m0, hdr, pos, s) && Built(hdr, pos, s) && p in s.live && MergeStart(s, p, lo)
      requires Merging(m0, mem, hdr, pos, s, p, lo, bins, out, slot)
      requires End(s.size, p) != s.top && (End(s.size, p) !in s.live ==> End(s.size, p) in out)
      requires End(s.size, p) in s.size && Rd(mem, End(s.size, p) + 4) == s.size[End(s.size, p)]
      requires sz == MergeEnd(s, p) - lo && sz % 8 == 0 && hdr + 1040 < TWO_32
      modifies this`mem, this`s, this`bins
      ensures Consistent(mem, hdr, pos, s, bins) && s == Freed(old(s), p, lo) && s.size != map[]
      ensures Frame(m0, mem, hdr, pos, Release(old(s), p))
      ensures bins[1] == old(bins)[1]
    {
      ghost var s0 := s;
      WriteMerged(p, lo, sz, slot, out, m0);
      if !slot {
        ghost var m1 := mem;
        FrontLink(lo, sz);
        FrameShift(m0, m1, mem, hdr, pos, Release(s0, p), s);
      }
    }

    /** set_head and set_foot of the merged chunk. */
    method WriteMerged(p: word, lo: word, sz: word, slot: bool, ghost out: set<int>, ghost m0: Mem)
      requires HeadsOk(m0, hdr, pos, s) && Built(hdr, pos, s) && p in s.live && MergeStart(s, p, lo)
      requires Merging(m0, mem, hdr, pos, s, p, lo, bins, out, slot)
      requires End(s.size, p) != s.top && (End(s.size, p) !in s.live ==> End(s.size, p) in out)
      requires End(s.size, p) in s.size && Rd(mem, End(s.size, p) + 4) == s.size[End(s.size, p)]
      requires sz == MergeEnd(s, p) - lo && sz % 8 == 0
      modifies this`mem, this`s
      ensures HeadsOk(mem, hdr, pos, s) && ListsOk(mem, hdr, s, bins, if slot then {} else {lo as int})
      ensures s == Freed(old(s), p, lo) && lo in s.size && s.size[lo] == sz
      ensures Frame(m0, mem, hdr, pos, Release(old(s), p))
      ensures forall a {:trigger a in s.live} :: a in Release(old(s), p).live ==>
              a in s.live && a in s.size && s.size[a] == old(s).size[a]
    {
      ghost var m1 := mem;
      WriteRemainder(lo, sz);
      FinishBelow(m0, m1, mem, hdr, pos, s, p, lo, bins, out, slot, sz, sz + 1);
      FreedExplicit(s, p, lo);
      s := Freed(s, p, lo);
    }

    /** The two calls of memlib_sbrk in memlib_trim: where the heap ends now, and extra bytes back. */
    method StepBack(extra: int)
      requires start <= pos - extra && pos <= end && extra >= 0
      modifies this`pos
      ensures pos == old(pos) - extra
    {
      BackwardStep(pos, 0, start, end);
      BackwardStep(pos, extra, start, end);
      var currentBrk := Sbrk(0);
      assert currentBrk == pos;
      var newBrk := Sbrk(U32(-extra));
      assert newBrk == currentBrk;
    }

    /** memlib_trim with pad 0. The checks for a foreign sbrk and for a refused step back never fail. */
    method Trim()
      requires Valid() && s.size != map[] && s.top in s.size && s.size[s.top] >= TRIM_THRESHOLD
      modifies this`mem, this`s, this`pos
      ensures Valid() && s == Resize(old(s), old(s.size[s.top] - TrimExtra(s.size[s.top])))
      ensures Frame(old(mem), mem, hdr, old(pos), old(s))
    {
      Halves(mem, hdr, pos, s, bins);
      ReadTop(mem, hdr, pos, s);
      var top: word := Rd(mem, hdr + 8);
      var topSize := ChunkSize(mem, top);
      TrimLeaves(topSize);
      var extra := TrimExtra(topSize);
      TrimStep(mem, hdr, pos, s, bins, extra);
      StepBack(extra);
      mem := mem[top as int + 4 := WithInUse(topSize - extra)];
      s := Resize(s, topSize - extra);
    }

    /** Free p just below the top chunk: it becomes part of top. */
    method FreeIntoTop(p: word, thisSize: word, topSize: word, prevInUse: bool) returns (ghost lo: int)
      requires Valid() && p in s.live && End(s.size, p) == s.top && s.top in s.size
      requires p in s.size && thisSize == s.size[p] && topSize == s.size[s.top] && (prevInUse <==> p in s.pin)
      modifies this`mem, this`s, this`bins
      ensures Valid() && old(Sound(s) && MergeStart(s, p, lo)) && s == Freed(old(s), p, lo)
      ensures Frame(old(mem), mem, hdr, pos, Release(old(s), p))
      ensures bins[1] == if old(bins)[1] == [lo] then [] else old(bins)[1]
    {
      Halves(mem, hdr, pos, s, bins);
      LiveNotSlot(mem, hdr, s, bins, {}, p);
      StartMerging(mem, hdr, pos, s, bins, p);
      var at: word, slot := p, false;
      ghost var out := {p as int};
      if !prevInUse {
        at, slot := MergePrevious(p, false, mem);
        out := {p as int, at as int};
      }
      lo := at;
      NextIsPast(s, p, lo);
      MergedSize(hdr, pos, s, p, lo);
      var sz: word := (p - at) + thisSize + topSize;
      EvenInUse(sz);
      ghost var m1 := mem;
      mem := mem[at as int + 4 := WithInUse(sz)];
      mem := mem[hdr as int + 8 := at];
      FinishTop(old(mem), m1, mem, hdr, pos, s, p, at, bins, out, sz, sz + 1);
      s := Freed(s, p, lo);
    }

    /** chunksize(topmost_chunk) */
    method TopSize() returns (n: word)
      requires Valid() && s.top in s.size
      ensures s.size != map[] && n == s.size[s.top]
    {
      Halves(mem, hdr, pos, s, bins);
      ReadTop(mem, hdr, pos, s);
      n := ChunkSize(mem, Rd(mem, hdr + 8));
    }

    /** Free p into the top chunk, and give back what is past the threshold. */
    method FreeAndTrim(p: word, thisSize: word, topSize: word, prevInUse: bool) returns (ghost lo: int)
      requires Valid() && p in s.live && End(s.size, p) == s.top && s.top in s.size
      requires p in s.size && thisSize == s.size[p] && topSize == s.size[s.top] && (prevInUse <==> p in s.pin)
      modifies this`mem, this`s, this`bins, this`pos
      ensures Valid() && old(Sound(s) && MergeStart(s, p, lo)) && s == AfterFree(old(s), p, lo)
      ensures Frame(old(mem), mem, hdr, old(pos), Release(old(s), p))
      ensures bins[1] == if old(bins)[1] == [lo] then [] else old(bins)[1]
    {
      lo := FreeIntoTop(p, thisSize, topSize, prevInUse);
      var topSizeNow := TopSize();
      if topSizeNow >= TRIM_THRESHOLD {
        ghost var m1, s1 := mem, s;
        Trim();
        FreedExplicit(old(s), p, lo);
        FrameShift(old(mem), m1, mem, hdr, old(pos), Release(old(s), p), s1);
      }
    }

    /** The chunk p goes: it is merged with its free neighbours or with top. */
    method FreeLive(p: word) returns (ghost lo: int)
      requires Valid() && p in s.live
      modifies this`mem, this`s, this`bins, this`pos
      ensures Valid() && old(Sound(s) && MergeStart(s, p, lo)) && s == AfterFree(old(s), p, lo)
      ensures Frame(old(mem), mem, hdr, old(pos), Release(old(s), p))
      ensures bins[1] == SlotAfterFree(old(s), old(bins)[1], p, lo)
    {
      Halves(mem, hdr, pos, s, bins);
      LiveMeansBuilt(p);
      FreeReads(mem, hdr, pos, s, p);
      var prevInUse := PrevInUse(mem, p);
      var thisSize := ChunkSize(mem, p);
      var next: word := p + thisSize;
      var nextSize := ChunkSize(mem, next);
      if next == Rd(mem, hdr + 8) {
        lo := FreeAndTrim(p, thisSize, nextSize, prevInUse);
      } else {
        lo := FreeBelow(p, next, thisSize, nextSize, prevInUse);
      }
    }

    /** memlib_free: null is ignored, a live chunk is merged with its free neighbours or with top. */
    method MemlibFree(memp: word) returns (ghost lo: int)
      requires Valid() && (memp == 0 || (memp >= 8 && memp - 8 in s.live))
      modifies this`mem, this`s, this`bins, this`pos
      ensures Valid()
      ensures memp == 0 ==> s == old(s) && mem == old(mem) && bins == old(bins) && pos == old(pos)
      ensures memp != 0 ==>
              old(Sound(s) && memp - 8 in s.live && MergeStart(s, memp - 8, lo)) && s == AfterFree(old(s), memp - 8, lo)
      ensures memp != 0 ==> Trimmed(old(s), old(pos), s, pos, memp - 8, lo) && pos <= old(pos)
      ensures memp != 0 ==> bins[1] == SlotAfterFree(old(s), old(bins)[1], memp - 8, lo)
      ensures memp != 0 ==> Frame(old(mem), mem, hdr, old(pos), Release(old(s), memp - 8))
    {
      lo := 0;
      if memp == 0 {
        return;
      }
      ghost var m0, s0, bins0, pos0 := mem, s, bins, pos;
      lo := FreeLive(memp - 8);
      TrimRule(m0, s0, bins0, pos0, memp - 8, lo);
    }

    lemma {:induction false} TrimRule(m0: Mem, s0: Shape, bins0: Lists, pos0: word, p: int, lo: int)
      requires Valid() && Consistent(m0, hdr, pos0, s0, bins0) && p in s0.live && Sound(s0) && MergeStart(s0, p, lo)
      requires s == AfterFree(s0, p, lo)
      ensures Trimmed(s0, pos0, s, pos, p, lo)
    {
      TopEnds(m0, hdr, pos0, s0, bins0, p, lo);
      AfterFreeLive(s0, p, lo);
      FreedExplicit(s0, p, lo);
      BreakIsTopEnd();
      AfterFreeTrimmed(s0, pos0, pos, p, lo);
    }

    lemma {:induction false} BreakIsTopEnd()
      requires Valid() && s.size != map[]
      ensures s.top in s.size && End(s.size, s.top) == pos
    {
      Halves(mem, hdr, pos, s, bins);
    }

    lemma {:induction false} LiveMeansBuilt(p: int)
      requires Valid() && p in s.live
      ensures p in s.size && Built(hdr, pos, s)
    {
      LiveBuilt(mem, hdr, pos, s, bins, p);
    }

    // ---- memlib_memalign ----

    /** Cut the live chunk p at n: the part from n on becomes a live chunk of its own. */
    method CutLive(p: word, n: word, rest: word)
      requires Valid() && p in s.live && p in s.size && n % 8 == 0 && MINSIZE <= n <= s.size[p] - MINSIZE
               && rest == s.size[p] - n
      modifies this`mem, this`s
      ensures Valid() && s == Split(old(s), p, n)
      ensures Frame(old(mem), mem, hdr, pos, Release(old(s), p))
    {
      Halves(mem, hdr, pos, s, bins);
      CutReads(mem, hdr, pos, s, p, n);
      EvenInUse(rest);
      LiveHead(mem, s, p);
      mem := mem[p as int + n + 4 := WithInUse(rest)];
      mem := mem[p as int + 4 := HeadWithSize(Rd(mem, p + 4), n)];
      SplitLiveStep(old(mem), mem, hdr, pos, s, bins, p, n, rest + 1, Rd(mem, p + 4));
      s := Split(s, p, n);
    }

    /** Give back the first `lead` bytes of the live chunk p. */
    method GiveLead(p: word, lead: word) returns (newp: word)
      requires Valid() && p in s.live && p in s.size && lead % 8 == 0 && MINSIZE <= lead <= s.size[p] - MINSIZE
      modifies this`mem, this`s, this`bins, this`pos
      ensures Valid() && pos <= old(pos) && newp == p + lead && Replaced(old(s), s, p, newp)
              && s.size[newp] == old(s.size[p]) - lead
      ensures Frame(old(mem), mem, hdr, end, Release(old(s), p))
    {
      Halves(mem, hdr, pos, s, bins);
      CutReads(mem, hdr, pos, s, p, lead);
      newp := p + lead;
      CutLive(p, lead, ChunkSize(mem, p) - lead);
      ghost var m1, s1 := mem, s;
      SplitLiveFacts(old(s), p, lead);
      LiveMeansBuilt(p);
      ghost var lo := MemlibFree(p + 8);
      CutThenFree(old(mem), m1, mem, hdr, end, old(pos), old(s), p, lead, p, newp, lo);
    }

    /** chunksize(p) - nb, as a long */
    method Measure(p: word, nb: word) returns (d: int)
      requires Valid() && p in s.size && nb < TWO_31
      ensures d == s.size[p] - nb && s.size[p] % 8 == 0
    {
      Halves(mem, hdr, pos, s, bins);
      FreeSize(mem, hdr, pos, s, p);
      ReadHead(mem, s, p);
      d := LongDiff(ChunkSize(mem, p), nb);
    }

    /** Give back what the live chunk p has behind its first nb bytes, if that is a chunk. */
    method GiveTail(p: word, nb: word)
      requires Valid() && p in s.live && p in s.size && nb % 8 == 0 && MINSIZE <= nb <= s.size[p]
      modifies this`mem, this`s, this`bins, this`pos
      ensures Valid() && pos <= old(pos) && Replaced(old(s), s, p, p) && nb <= s.size[p] < nb + MINSIZE
      ensures Frame(old(mem), mem, hdr, end, Release(old(s), p))
    {
      LiveMeansBuilt(p);
      var remainderSize := Measure(p, nb);
      if remainderSize >= MINSIZE {
        CutLive(p, nb, remainderSize);
        ghost var m1, s1 := mem, s;
        SplitLiveFacts(old(s), p, nb);
        LiveMeansBuilt(p);
        var rest: word := p + nb;
        ghost var lo := MemlibFree(rest + 8);
        CutThenFree(old(mem), m1, mem, hdr, end, old(pos), old(s), p, nb, rest, p, lo);
      } else {
        LiveKeys(p);
      }
    }

    lemma {:induction false} LiveKeys(p: int)
      requires Valid() && p in s.live
      ensures s.live <= s.size.Keys && Replaced(s, s, p, p)
    {
      Halves(mem, hdr, pos, s, bins);
    }

    /** How much of the chunk p lies before the first aligned place for a payload. */
    method LeadSize(p: word, alignment: word, ghost k: nat, ghost size: int) returns (lead: word)
      requires p % 8 == 0 && alignment == Pow2(k) && alignment >= 16 && (p + 8) % alignment != 0
               && alignment + 24 <= size < TWO_31
      ensures lead % 8 == 0 && MINSIZE <= lead <= alignment + 8 && (p + lead + 8) % alignment == 0
    {
      LeadFits(p, alignment, k);
      lead := Lead(p, alignment);
    }

    /** The payload m0 moved up to the alignment, and the lead given back. */
    method SkipLead(m0: word, alignment: word, ghost k: nat) returns (p: word)
      requires Valid() && m0 >= 8 && m0 - 8 in s.live && m0 - 8 in s.size && (m0 - 8) % 8 == 0
      requires alignment == Pow2(k) && alignment >= 16 && s.size[m0 - 8] >= alignment + 24
      modifies this`mem, this`s, this`bins, this`pos
      ensures Valid() && (p + 8) % alignment == 0 && pos <= old(pos) && m0 - 8 <= p <= m0 + alignment
      ensures Replaced(old(s), s, m0 - 8, p) && s.size[p] >= old(s.size[m0 - 8]) - alignment - 8
      ensures Frame(old(mem), mem, hdr, end, Release(old(s), m0 - 8))
    {
      p := m0 - 8;
      LiveKeys(p);
      FrameRefl(mem, hdr, end, Release(s, p));
      if m0 % alignment != 0 {
        SizeBound(p);
        var lead := LeadSize(p, alignment, k, s.size[p]);
        p := GiveLead(p, lead);
      }
    }

    lemma {:induction false} SizeBound(p: int)
      requires Valid() && p in s.size
      ensures s.size[p] < TWO_31
    {
      Halves(mem, hdr, pos, s, bins);
      FreeSize(mem, hdr, pos, s, p);
    }

    /** The carving half of memlib_memalign: m0 is the payload of a chunk with room for nb, the lead and a tail. */
    method Carve(m0: word, alignment: word, nb: word, ghost k: nat) returns (p: word)
      requires Valid() && m0 >= 8 && m0 - 8 in s.live && m0 - 8 in s.size && (m0 - 8) % 8 == 0
      requires alignment == Pow2(k) && alignment >= 16 && nb % 8 == 0 && MINSIZE <= nb
      requires s.size[m0 - 8] >= nb + alignment + 24
      modifies this`mem, this`s, this`bins, this`pos
      ensures Valid() && (p + 8) % alignment == 0 && pos <= old(pos) && m0 - 8 <= p <= m0 + alignment
      ensures Replaced(old(s), s, m0 - 8, p) && nb <= s.size[p] < nb + MINSIZE
      ensures Frame(old(mem), mem, hdr, end, Release(old(s), m0 - 8))
    {
      p := SkipLead(m0, alignment, k);
      ghost var m1, s1 := mem, s;
      GiveTail(p, nb);
      ReplacedAgain(old(mem), m1, mem, hdr, end, old(s), s1, s, m0 - 8, p);
    }

    /** memlib_memalign asks the search for its padded request, and a chunk found there is used before the heap grows.
        */
    static ghost predicate AlignedFromFree(s0: Shape, bins0: Lists, pos0: int, pos1: int, alignment: word, bytes: word,
                                           r: int)
    {
      if alignment <= 8 then FromFree(s0, bins0, pos0, pos1, Request2Size(bytes), r, 0) else
        var a := if alignment < MINSIZE then MINSIZE else alignment;
        var t := Request2Size(bytes) + a + MINSIZE;
        t < TWO_31 && FromFree(s0, bins0, pos0, pos1, Request2Size(t), r, a + 8)
    }

    /** A request to memlib_memalign can be served: small alignments as they are, others with their padding. */
    ghost predicate CanAlign(alignment: word, bytes: word)
      reads this
    {
      if alignment <= 8 then CanServe(Request2Size(bytes)) else
        var t := Request2Size(bytes) + (if alignment < MINSIZE then MINSIZE else alignment) + MINSIZE;
        t < TWO_31 && CanServe(Request2Size(t))
    }

    /** memlib_malloc as memlib_memalign uses it: whatever chunk comes, and a frame up to the end of the region. */
    method Obtain(bytes: word) returns (m: word)
      requires Valid()
      modifies this`mem, this`s, this`bins, this`pos, this`sbrkBase
      ensures Valid() && Frame(old(mem), mem, hdr, end, old(s))
      ensures m != 0 ==> bytes < TWO_31 && m >= 8 && Granted(old(s), s, m - 8, Request2Size(bytes)) && m % 8 == 0
      ensures m != 0 ==> FromFree(old(s), old(bins), old(pos), pos, Request2Size(bytes), m, 0)
      ensures m == 0 ==> s == old(s)
      ensures m == 0 <==> (bytes >= TWO_31 || !old(CanServe(Request2Size(bytes))))
    {
      m := MemlibMalloc(bytes);
      FrameWiden(old(mem), mem, hdr, pos, end, old(s));
      if m != 0 {
        PayloadAligned(m - 8);
        FromFreeAt(old(s), old(bins), old(pos), pos, Request2Size(bytes), m);
      }
    }

    /** memlib_memalign for a power of two of at least 16. */
    method AlignedMalloc(alignment: word, bytes: word, ghost k: nat) returns (r: word)
      requires Valid() && alignment == Pow2(k) && alignment >= 16 && bytes < TWO_31 && Padded(alignment, bytes)
      modifies this`mem, this`s, this`bins, this`pos, this`sbrkBase
      ensures Valid() && Frame(old(mem), mem, hdr, end, old(s))
      ensures r != 0 ==> r % alignment == 0 && r >= 8 && Granted(old(s), s, r - 8, Request2Size(bytes))
      ensures r != 0 ==> var t := Request2Size(bytes) + alignment + MINSIZE;
                         t < TWO_31 && FromFree(old(s), old(bins), old(pos), pos, Request2Size(t), r, alignment + 8)
      ensures r == 0 ==> s == old(s)
      ensures r == 0 <==> (var t := Request2Size(bytes) + alignment + MINSIZE;
                           t >= TWO_31 || !old(CanServe(Request2Size(t))))
    {
      PaddedRequest(alignment, bytes, k);
      var nb := Request2Size(bytes);
      var t: word := U32(nb + alignment + MINSIZE);
      var m := Obtain(t);
      if m == 0 {
        return 0;
      }
      ghost var m1, s1 := mem, s;
      ghost var pos1 := pos;
      r := Carve(m, alignment, nb, k);
      FromFreeMoved(old(s), old(bins), old(pos), pos1, pos, Request2Size(t), m, r + 8, alignment + 8);
      GrantedAddress(r);
      FrameCarved(old(mem), m1, mem, hdr, end, old(s), s1, m - 8, Request2Size(t));
      GrantedCarved(old(s), s1, s, m - 8, r, Request2Size(t), nb);
      r := r + 8;
    }

    lemma {:induction false} PayloadAligned(p: int)
      requires Valid() && p in s.size
      ensures p % 8 == 0
    {
      Halves(mem, hdr, pos, s, bins);
    }

    /** memlib_memalign: a power-of-two alignment 2^k divides the payload address. A request up to 8 goes straight to
        malloc, one below 16 asks for 16. */
    method MemlibMemalign(alignment: word, bytes: word, ghost k: nat) returns (r: word)
      requires Valid() && (alignment < 16 || alignment == Pow2(k))
      requires bytes < TWO_31 && alignment > 8 ==> Padded(if alignment < 16 then 16 else alignment, bytes)
      modifies this`mem, this`s, this`bins, this`pos, this`sbrkBase
      ensures Valid() && Frame(old(mem), mem, hdr, end, old(s))
      ensures r != 0 ==> bytes < TWO_31 && r >= 8 && Granted(old(s), s, r - 8, Request2Size(bytes))
      ensures r % 8 == 0 && (r != 0 && alignment == Pow2(k) ==> r % alignment == 0)
      ensures r != 0 ==> AlignedFromFree(old(s), old(bins), old(pos), pos, alignment, bytes, r)
      ensures r == 0 ==> s == old(s)
      ensures r == 0 <==> (bytes >= TWO_31 || !old(CanAlign(alignment, bytes)))
    {
      if S32(bytes) < 0 {
        return 0;
      }
      if alignment <= 8 {
        r := SmallMemalign(alignment, bytes, k);
        return;
      }
      var a: word := alignment;
      ghost var e := k;
      if alignment < MINSIZE {
        Sixteen();
        RaisedAlignment(alignment, k);
        a, e := MINSIZE, 4;
      }
      r := AlignedMalloc(a, bytes, e);
      if r != 0 { PayloadAligned(r - 8); }
    }

    /** An alignment of up to 8 is what every payload has. */
    method SmallMemalign(alignment: word, bytes: word, ghost k: nat) returns (r: word)
      requires Valid() && alignment <= 8
      modifies this`mem, this`s, this`bins, this`pos, this`sbrkBase
      ensures Valid() && Frame(old(mem), mem, hdr, end, old(s))
      ensures r != 0 ==> bytes < TWO_31 && r >= 8 && Granted(old(s), s, r - 8, Request2Size(bytes))
      ensures r % 8 == 0 && (r != 0 && alignment == Pow2(k) ==> r % alignment == 0)
      ensures r != 0 ==> FromFree(old(s), old(bins), old(pos), pos, Request2Size(bytes), r, 0)
      ensures r == 0 ==> s == old(s)
      ensures r == 0 <==> (bytes >= TWO_31 || !old(CanServe(Request2Size(bytes))))
    {
      r := Obtain(bytes);
      if r != 0 && alignment == Pow2(k) {
        SmallAlignment(alignment, k, r);
      }
    }
  }
}
