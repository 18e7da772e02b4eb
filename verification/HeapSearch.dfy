/** Why the bitmap and bin search misses no chunk that is big enough. */
module HeapSearch {
  import opened Words
  import opened HeapShape
  import opened HeapWords
  import opened HeapBins
  import opened HeapState
  import opened Bits

  /** No binned chunk of a bin below idx can serve nb bytes. */
  ghost predicate NoFitBelow(s: Shape, bins: Lists, idx: int, nb: int)
    requires |bins| == NBINS
  {
    forall a {:trigger Free(s, a)} :: Free(s, a) && a !in bins[1] && BinIndex(s.size[a]) < idx ==> s.size[a] < nb
  }

  /** No free chunk at all can serve nb bytes. */
  ghost predicate NoFit(s: Shape, nb: int) {
    forall a {:trigger Free(s, a)} :: Free(s, a) ==> s.size[a] < nb
  }

  /** Every non-empty bin from idx on holds a chunk of at least nb bytes. */
  ghost predicate Promising(s: Shape, bins: Lists, idx: int, nb: int, w: int)
    requires |bins| == NBINS
  {
    BinIndex(nb) < idx || (BinIndex(nb) == idx && Free(s, w) && w !in bins[1] && BinIndex(s.size[w]) == idx
      && s.size[w] >= nb)
  }

  /** No binned chunk that can serve nb bytes is smaller than v. */
  ghost predicate Least(s: Shape, bins: Lists, v: int, nb: int)
    requires |bins| == NBINS && v in s.size
  {
    forall a {:trigger Free(s, a)} :: Free(s, a) && a !in bins[1] && s.size[a] >= nb ==> s.size[v] <= s.size[a]
  }

  /** No binned chunk has just nb bytes. */
  ghost predicate NoExact(s: Shape, bins: Lists, nb: int)
    requires |bins| == NBINS
  {
    forall a {:trigger Free(s, a)} :: Free(s, a) && a !in bins[1] ==> s.size[a] != nb
  }

  /** The policy of the search for nb bytes: the smallest binned chunk that suffices. Only the last remainder may come
      before it, if it suffices, no binned chunk is an exact fit and the smallest one would not be used whole. */
  ghost predicate Chosen(s: Shape, bins: Lists, v: int, nb: int)
    requires |bins| == NBINS
  {
    && Free(s, v) && s.size[v] >= nb
    && if v in bins[1] then NoExact(s, bins, nb)
       else Least(s, bins, v, nb)
            && (s.size[v] < nb + MINSIZE || forall r :: r in bins[1] && r in s.size ==> s.size[r] < nb)
  }

  /** The last remainder after the chunk v served nb bytes: what was cut off; nothing, when it was v itself or was too
      small
      and went to its bin; else the one before. */
  ghost predicate Slot(s: Shape, bins: Lists, bins': Lists, v: int, nb: int)
    requires |bins| == NBINS && |bins'| == NBINS && v in s.size
  {
    if s.size[v] >= nb + MINSIZE then bins'[1] == [v + nb]
    else if v in bins[1] then bins'[1] == []
    else bins'[1] == bins[1] || (bins'[1] == [] && forall r :: r in bins[1] && r in s.size ==> s.size[r] < nb)
  }

  /** If a free chunk holds nb bytes, the heap did not grow, and the payload r lies in the chunk that the policy says,
      at
      most slack bytes into it. */
  ghost predicate FromFree(s: Shape, bins: Lists, pos: int, pos': int, nb: int, r: int, slack: int)
    requires nb >= 0
  {
    |bins| == NBINS && (NoFit(s, nb)
      || (pos' <= pos && exists v :: Chosen(s, bins, v, nb) && v + 8 <= r <= v + 8 + slack))
  }

  lemma {:induction false} FromFreeAt(s: Shape, bins: Lists, pos: int, pos': int, nb: int, m: int)
    requires |bins| == NBINS && nb >= 0 && (NoFit(s, nb) || (Chosen(s, bins, m - 8, nb) && pos' == pos))
    ensures FromFree(s, bins, pos, pos', nb, m, 0)
  {
  }

  lemma {:induction false} FromFreeMoved(s: Shape, bins: Lists, pos: int, pos1: int, pos2: int, nb: int, m: int, r: int,
                                         slack: int)
    requires nb >= 0 && FromFree(s, bins, pos, pos1, nb, m, 0) && pos2 <= pos1 && m <= r <= m + slack
    ensures FromFree(s, bins, pos, pos2, nb, r, slack)
  {
  }

  /** In a sorted bin below which nothing fits, the last chunk that suffices is the smallest of all. */
  lemma {:induction false} LeastInBin(s: Shape, bins: Lists, i: int, k: int, v: int, nb: int)
    requires Stocked(s, bins, {}) && Sorted(s, bins) && 2 <= i < NBINS && NoFitBelow(s, bins, i, nb)
    requires forall a {:trigger a in s.size} :: a in s.size ==> s.size[a] >= 0
    requires 0 <= k < |bins[i]| && v == bins[i][k] && v in s.size
    requires forall j {:trigger bins[i][j]} :: k < j < |bins[i]| && bins[i][j] in s.size ==> s.size[bins[i][j]] < nb
    ensures Least(s, bins, v, nb)
  {
    assert bins[i][k] in bins[i];
    assert AtHome(s, bins, {}, i, v);
    assert Descending(s.size, bins[i]);
    forall a | Free(s, a) && a !in bins[1] && s.size[a] >= nb
      ensures s.size[v] <= s.size[a]
    {
      assert OnList(s, bins, a);
      if BinIndex(s.size[a]) == i {
        var j :| 0 <= j < |bins[i]| && bins[i][j] == a;
      } else if s.size[a] < s.size[v] {
        BinIndexMonotone(s.size[a], s.size[v]);
      }
    }
  }

  /** Nothing of the size of nb is binned when the bins up to that size hold no fit. */
  lemma {:induction false} NoneExact(s: Shape, bins: Lists, idx: int, nb: int)
    requires |bins| == NBINS && NoFitBelow(s, bins, idx, nb) && BinIndex(nb) < idx
    ensures NoExact(s, bins, nb)
  {
  }

  lemma {:induction false} BelowStart(s: Shape, bins: Lists, nb: int)
    requires |bins| == NBINS && forall a {:trigger a in s.size} :: a in s.size ==> s.size[a] >= 0
    requires nb >= 0
    ensures NoFitBelow(s, bins, BinIndex(nb), nb)
  {
    forall a | Free(s, a) && BinIndex(s.size[a]) < BinIndex(nb)
      ensures s.size[a] < nb
    {
      if nb <= s.size[a] { BinIndexMonotone(nb, s.size[a]); }
    }
  }

  lemma {:induction false} BinWithoutFit(s: Shape, bins: Lists, idx: int, nb: int)
    requires Stocked(s, bins, {}) && 2 <= idx < NBINS && NoFitBelow(s, bins, idx, nb)
    requires forall j {:trigger bins[idx][j]} :: 0 <= j < |bins[idx]| && bins[idx][j] in s.size ==>
             s.size[bins[idx][j]] < nb
    ensures NoFitBelow(s, bins, idx + 1, nb)
  {
    forall a | Free(s, a) && a !in bins[1] && BinIndex(s.size[a]) < idx + 1
      ensures s.size[a] < nb
    {
      if BinIndex(s.size[a]) == idx {
        assert OnList(s, bins, a);
        var j :| 0 <= j < |bins[idx]| && bins[idx][j] == a;
      }
    }
  }

  /** A bin past the first that holds no fit holds nothing. */
  lemma {:induction false} NoFitIsEmpty(s: Shape, bins: Lists, idx: int, nb: int, w: int, i: int)
    requires Stocked(s, bins, {}) && 2 <= idx <= i < NBINS && Promising(s, bins, idx, nb, w)
    requires forall a {:trigger a in s.size} :: a in s.size ==> s.size[a] >= 0
    requires nb >= 0
    requires forall j {:trigger bins[i][j]} :: 0 <= j < |bins[i]| && bins[i][j] in s.size ==> s.size[bins[i][j]] < nb
    ensures bins[i] == [] && BinIndex(nb) < i
  {
    if BinIndex(nb) < i && bins[i] != [] {
      assert bins[i][0] in bins[i];
      assert AtHome(s, bins, {}, i, bins[i][0]);
      BinIndexMonotone(s.size[bins[i][0]], nb);
    }
  }

  /** Bins idx .. idx'-1 are empty. */
  lemma {:induction false} EmptyBins(s: Shape, bins: Lists, idx: int, idx': int, nb: int)
    requires Stocked(s, bins, {}) && 2 <= idx <= idx' <= NBINS && NoFitBelow(s, bins, idx, nb)
    requires forall i {:trigger bins[i]} :: idx <= i < idx' ==> bins[i] == []
    ensures NoFitBelow(s, bins, idx', nb)
  {
    forall a | Free(s, a) && a !in bins[1] && BinIndex(s.size[a]) < idx'
      ensures s.size[a] < nb
    {
      assert OnList(s, bins, a);
    }
  }

  /** Nothing below the end of the bins fits, and the last-remainder slot is empty: nothing fits. */
  lemma {:induction false} NothingFits(s: Shape, bins: Lists, nb: int)
    requires Stocked(s, bins, {}) && NoFitBelow(s, bins, NBINS, nb) && bins[1] == []
    ensures NoFit(s, nb)
  {
    forall a | Free(s, a)
      ensures s.size[a] < nb
    {
      assert OnList(s, bins, a);
    }
  }

  /** No block from `from` up to `to` is marked in the bitmap w. */
  ghost predicate Unmarked(w: word, from: int, to: int) {
    forall b: nat :: from <= b < to ==> !Bit(w, b)
  }

  /** Blocks whose bit is clear are empty. */
  lemma {:induction false} ClearBlocks(m: Mem, hdr: int, bins: Lists, from: nat, to: int)
    requires |bins| == NBINS && Marked(m, hdr, bins)
    requires Unmarked(Rd(m, hdr + 4), from, to)
    ensures forall i {:trigger bins[i]} :: 2 <= i < NBINS && 4 * from <= i < 4 * to ==> bins[i] == []
  {
  }

  /** A mask greater than the bitmap: no marked block from there on. */
  lemma {:induction false} MaskTooBig(w: word, b: nat)
    requires Pow2(b) > w
    ensures forall c: nat {:trigger Bit(w, c)} :: b <= c ==> !Bit(w, c)
  {
    forall c: nat {:trigger Bit(w, c)} | b <= c
      ensures !Bit(w, c)
    {
      if Bit(w, c) { BitBound(w, c); Pow2Monotone(b, c); }
    }
  }

  lemma {:induction false} ClearBlockStep(m: Mem, m': Mem, hdr: word, pos: word, s: Shape, bins: Lists, b: nat)
    requires Consistent(m, hdr, pos, s, bins) && Built(hdr, pos, s)
    requires forall i {:trigger bins[i]} :: 2 <= i < NBINS && i / 4 == b ==> bins[i] == []
    requires AndNot(Rd(m, hdr + 4), Pow2(b)) < TWO_32 && m' == m[hdr + 4 := AndNot(Rd(m, hdr + 4), Pow2(b))]
    ensures Consistent(m', hdr, pos, s, bins) && Frame(m, m', hdr, pos, s)
  {
    Halves(m, hdr, pos, s, bins);
    BitmapWired(m, m', hdr, s, bins, {});
    UnmarkMarked(m, hdr, bins, b, m');
    WrittenFrame(m, m', s);
    PokeFrame(m, hdr, pos, s, hdr + 4, AndNot(Rd(m, hdr + 4), Pow2(b)));
  }

  lemma {:induction false} BitIsBelow32(w: word, j: nat)
    requires Bit(w, j)
    ensures j < 32
  {
    BitBound(w, j);
    if j >= 32 { Pow2Of32(); Pow2Monotone(32, j); }
  }

  /** A word that reaches the mask of bit b has a bit there or above, and the mask tests its own bit. */
  lemma {:induction false} SomeMark(b: nat, w: word) returns (j: nat)
    requires Pow2(b) <= w
    ensures b <= j < 32 && Bit(w, j) && (And(Pow2(b), w) == 0 <==> !Bit(w, b))
  {
    j := MaskAtMost(b, w);
    BitIsBelow32(w, j);
    MaskTest(b, w);
  }

  /** One shift of the mask past an unmarked block, below a marked one. */
  lemma {:induction false} NextMask(w: word, from: int, b: nat, j: nat)
    requires Unmarked(w, from, b) && !Bit(w, b) && b <= j < 32 && Bit(w, j)
    ensures b < j && U32(2 * Pow2(b)) == Pow2(b + 1) && Unmarked(w, from, b + 1)
    ensures And(Pow2(b + 1), w) == 0 <==> !Bit(w, b + 1)
  {
    ShiftMask(b);
    MaskTest(b + 1, w);
  }

  /** Skipping to the next marked block skips only empty bins. */
  lemma {:induction false} SkippedBlocks(m: Mem, hdr: word, s: Shape, bins: Lists, idx: int, idx': int, nb: int, w: int)
    requires ListsOk(m, hdr, s, bins, {}) && 2 <= idx <= idx' <= NBINS && idx' % 4 == 0
    requires NoFitBelow(s, bins, idx, nb) && Promising(s, bins, idx, nb, w)
    requires Unmarked(Rd(m, hdr + 4), idx / 4, idx' / 4)
    ensures NoFitBelow(s, bins, idx', nb) && (idx' < NBINS ==> Promising(s, bins, idx', nb, w))
  {
    ClearBlocks(m, hdr, bins, idx / 4, idx' / 4);
    EmptyBins(s, bins, idx, idx', nb);
  }

  /** No marked block from idx on: nothing fits. */
  lemma {:induction false} NoBlockLeft(m: Mem, hdr: word, s: Shape, bins: Lists, idx: int, nb: int)
    requires ListsOk(m, hdr, s, bins, {}) && 2 <= idx <= NBINS && bins[1] == []
    requires NoFitBelow(s, bins, idx, nb)
    requires idx == NBINS || Pow2(idx / 4) > Rd(m, hdr + 4)
    ensures NoFit(s, nb)
  {
    if idx < NBINS {
      MaskTooBig(Rd(m, hdr + 4), idx / 4);
      ClearBlocks(m, hdr, bins, idx / 4, 32);
    }
    EmptyBins(s, bins, idx, NBINS, nb);
    NothingFits(s, bins, nb);
  }

  /** Shifting a one-bit mask left: the next power of two, or 0 when it falls off the word. */
  lemma {:induction false} ShiftMask(b: nat)
    requires b < 32
    ensures Pow2(b) < TWO_32
    ensures b < 31 ==> U32(2 * Pow2(b)) == Pow2(b + 1) && Pow2(b + 1) > 0
    ensures b == 31 ==> U32(2 * Pow2(b)) == 0
  {
    Pow2Of32();
    if b < 31 { Pow2Monotone(b + 1, 31); }
  }

  /** Both small bins that could serve nb exactly, or with less than a chunk to spare, are empty. */
  lemma {:induction false} SmallMiss(s: Shape, bins: Lists, nb: int)
    requires Stocked(s, bins, {}) && MINSIZE <= nb < 504 && nb % 8 == 0
    requires forall a {:trigger a in s.size} :: a in s.size ==> s.size[a] >= 0
    requires bins[nb / 8] == [] && bins[nb / 8 + 1] == []
    ensures NoFitBelow(s, bins, nb / 8 + 2, nb) && BinIndex(nb) == nb / 8
  {
    BinIndexRange(nb);
    BelowStart(s, bins, nb);
    EmptyBins(s, bins, nb / 8, nb / 8 + 2, nb);
  }

  /** The last chunk of a small bin, or of the next one when that is empty, is the smallest that suffices. */
  lemma {:induction false} SmallLeast(s: Shape, bins: Lists, nb: int, i: int)
    requires Stocked(s, bins, {}) && Sorted(s, bins) && MINSIZE <= nb < 504 && nb % 8 == 0
    requires forall a {:trigger a in s.size} :: a in s.size ==> s.size[a] >= 0
    requires (i == nb / 8 || (i == nb / 8 + 1 && bins[nb / 8] == [])) && bins[i] != []
    ensures bins[i][|bins[i]| - 1] in s.size && Least(s, bins, bins[i][|bins[i]| - 1], nb)
  {
    var k := |bins[i]| - 1;
    BinIndexRange(nb);
    BelowStart(s, bins, nb);
    if i > nb / 8 { EmptyBins(s, bins, nb / 8, i, nb); }
    assert bins[i][k] in bins[i];
    assert AtHome(s, bins, {}, i, bins[i][k]);
    LeastInBin(s, bins, i, k, bins[i][k], nb);
  }

  /** The chunk found in a large bin is the smallest that suffices; without one, or with one to be cut, none is exact.
      */
  lemma {:induction false} LargeLeast(s: Shape, bins: Lists, nb: int, k: int)
    requires Stocked(s, bins, {}) && Sorted(s, bins) && MINSIZE <= nb && 2 <= BinIndex(nb) < NBINS
    requires -1 <= k < |bins[BinIndex(nb)]|
    requires forall a {:trigger a in s.size} :: a in s.size ==> s.size[a] >= 0
    requires var l := bins[BinIndex(nb)];
             forall j {:trigger l[j]} :: 0 <= j < |l| && k < j && l[j] in s.size ==> s.size[l[j]] < nb
    requires k >= 0 ==> bins[BinIndex(nb)][k] in s.size && s.size[bins[BinIndex(nb)][k]] >= nb
    ensures k < 0 ==> NoExact(s, bins, nb)
    ensures k >= 0 ==> Least(s, bins, bins[BinIndex(nb)][k], nb)
    ensures k >= 0 && s.size[bins[BinIndex(nb)][k]] > nb ==> NoExact(s, bins, nb)
  {
    LargeMiss(s, bins, nb, k);
    if k < 0 {
      NoneExact(s, bins, BinIndex(nb) + 1, nb);
    } else {
      LeastInBin(s, bins, BinIndex(nb), k, bins[BinIndex(nb)][k], nb);
    }
  }

  /** A chunk of a bin is not in the last-remainder slot. */
  lemma {:induction false} NotInSlot(m: Mem, hdr: word, s: Shape, bins: Lists, i: int, k: int)
    requires ListsOk(m, hdr, s, bins, {}) && 2 <= i < NBINS && 0 <= k < |bins[i]|
    ensures bins[i][k] !in bins[1]
  {
    assert bins[i][k] in bins[i];
    assert AtHome(s, bins, {}, i, bins[i][k]);
  }

  /** The chunk found by the scan is the one the policy asks for: the last remainder, by now in its bin, was too small.
      */
  lemma {:induction false} ScannedChosen(s: Shape, bins: Lists, bins': Lists, v: int, nb: int)
    requires |bins| == NBINS && |bins'| == NBINS && bins'[1] == [] && Free(s, v) && s.size[v] >= nb
    requires Least(s, bins', v, nb) && forall r :: r in bins[1] && r in s.size ==> s.size[r] < nb
    ensures Chosen(s, bins, v, nb)
  {
  }

  /** The large bin of nb has been walked: either nothing there fits, or w does and the bin is scanned again. */
  lemma {:induction false} LargeMiss(s: Shape, bins: Lists, nb: int, k: int)
    requires Stocked(s, bins, {}) && MINSIZE <= nb && -1 <= k < |bins[BinIndex(nb)]| && 2 <= BinIndex(nb) < NBINS
    requires forall a {:trigger a in s.size} :: a in s.size ==> s.size[a] >= 0
    requires var l := bins[BinIndex(nb)];
             forall j {:trigger l[j]} :: 0 <= j < |l| && k < j && l[j] in s.size ==> s.size[l[j]] < nb
    requires k >= 0 ==> bins[BinIndex(nb)][k] in s.size && s.size[bins[BinIndex(nb)][k]] >= nb
    ensures k < 0 ==> NoFitBelow(s, bins, BinIndex(nb) + 1, nb)
    ensures k >= 0 ==>
            NoFitBelow(s, bins, BinIndex(nb), nb) && Promising(s, bins, BinIndex(nb), nb, bins[BinIndex(nb)][k])
  {
    BelowStart(s, bins, nb);
    if k < 0 {
      BinWithoutFit(s, bins, BinIndex(nb), nb);
    } else {
      assert bins[BinIndex(nb)][k] in bins[BinIndex(nb)];
      assert AtHome(s, bins, {}, BinIndex(nb), bins[BinIndex(nb)][k]);
    }
  }

  /** Moving a last remainder that is too small into its bin keeps the search state. */
  lemma {:induction false} RemainderBinned(s: Shape, bins: Lists, bins': Lists, idx: int, nb: int, w: int, v: int)
    requires |bins| == NBINS && |bins'| == NBINS && bins[1] == [v] && bins'[1] == [] && v in s.size && s.size[v] < nb
    requires NoFitBelow(s, bins, idx, nb) && Promising(s, bins, idx, nb, w)
    ensures NoFitBelow(s, bins', idx, nb) && Promising(s, bins', idx, nb, w)
  {
  }
}
