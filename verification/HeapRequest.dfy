/** Size arithmetic of the allocator, in 32-bit unsigned words. */
module HeapRequest {
  import opened Words
  import opened Bits
  import opened HeapShape
  import opened HeapState

  const EFAIL: word := 0xFFFF_FFFF

  lemma {:induction false} ClearThree(x: nat)
    ensures AndNot(x, 7) == x - x % 8 && 0 <= x % 8 <= x
  {
    assert Pow2(3) == 8;
    ClearLow(x, 3);
    AndNotBound(x, 7);
  }

  /** (req + 11) & ~7, or MINSIZE when that is below 16, compared as signed `long`. */
  function Request2Size(req: word): (nb: word)
    ensures nb % 8 == 0 && nb >= MINSIZE
    ensures nb <= 0x7FFF_FFF8 || req >= 0x7FFF_FFF5
  {
    ClearThree(U32(req + 11));
    if S32(U32(req + 11)) < MINSIZE + 7 then MINSIZE else AndNot(U32(req + 11), 7)
  }

  /** A request counts as non-negative `long` below 2^31; its padded size holds the payload and one word
      more exactly up to 0x7FFFFFF4. The last eleven values wrap to a negative number and get MINSIZE. */
  lemma {:induction false} Request2SizeExact(req: word)
    requires req < TWO_31
    ensures Request2Size(req) >= req + 4 <==> req <= 0x7FFF_FFF4
    ensures req <= 0x7FFF_FFF4 ==> Request2Size(req) < req + 12 || Request2Size(req) == MINSIZE
    ensures req > 0x7FFF_FFF4 ==> Request2Size(req) == MINSIZE
  {
    ClearThree(U32(req + 11));
  }

  /** Round up to a page, modulo 2^32. */
  function PageRound(x: word): (r: word)
  {
    AndNotBound(U32(x + 4095), 4095);
    AndNot(U32(x + 4095), 4095)
  }

  /** The least multiple of the page size that is at least x. */
  function PageUp(x: int): (r: int)
    ensures r % PAGE == 0 && x <= r < x + PAGE
  {
    (x + 4095) / 4096 * 4096
  }

  lemma {:induction false} PageRoundIsPageUp(x: word)
    ensures PageRound(x) == U32(PageUp(x))
  {
    PagePower();
    ClearLow(U32(x + 4095), 12);
  }

  lemma {:induction false} PagePower()
    ensures Pow2(12) == 4096
  {
    assert Pow2(4) == 16 && Pow2(8) == 256;
  }

  /** The bytes that take the address x to the next page boundary, computed modulo 2^32. */
  lemma {:induction false} PageGap(x: int)
    requires 0 <= x < TWO_32 + PAGE
    ensures U32(PageRound(U32(x)) - U32(x)) == PageUp(x) - x
  {
    PageRoundIsPageUp(U32(x));
    PageGapRounded(x, if x < TWO_32 then x else x - TWO_32);
  }

  /** Rounding up goes as far from x as from x less 2^32, which is a multiple of the page. */
  lemma {:induction false} PageGapRounded(x: int, y: int)
    requires 0 <= y < TWO_32 && (x == y || x == y + TWO_32)
    ensures PageUp(x) - x == PageUp(y) - y && 0 <= PageUp(y) - y < PAGE
    ensures U32(U32(PageUp(y)) - y) == PageUp(y) - y
  {
    if x != y { assert (y + TWO_32 + 4095) / 4096 == (y + 4095) / 4096 + 0x10_0000; }
    assert PageUp(y) <= TWO_32;
  }

  /** The address of the first chunk made from an sbrk result: payloads become 8-aligned. */
  function AlignUp8(brk: int): (a: int)
    ensures a % 8 == 0 && brk <= a < brk + 8
  {
    (brk + 7) / 8 * 8
  }

  /** Where the first top chunk ends when it starts from an sbrk result brk of sz bytes. */
  ghost function NewEnd(brk: int, sz: int): int {
    PageUp(AlignUp8(brk) + sz)
  }

  /** The bytes that align the first payload, from the misalignment of brk + 8 modulo 2^32. */
  lemma {:induction false} FrontMisalign(brk: word)
    ensures var f := U32(brk + 8) % 8; AlignUp8(brk) == if f > 0 then brk + (8 - f) else brk
  {
    assert U32(brk + 8) % 8 == brk % 8;
  }

  /** The second sbrk request of memlib_extend_top: bytes to align the first payload, plus bytes up to a page. */
  method Correction(brk: word, sz: word) returns (newBrk: word, correction: word, ghost e: int)
    requires MINSIZE <= sz && sz % 8 == 0 && brk + sz < TWO_32
    ensures e == NewEnd(brk, sz)
    ensures newBrk % 8 == 0 && brk <= newBrk < brk + 8 && e % PAGE == 0 && e % 8 == 0
    ensures newBrk + sz <= e < newBrk + sz + PAGE
    ensures correction == e - (brk + sz) && correction <= 0x1_0000
  {
    e := NewEnd(brk, sz);
    PageIsAligned(e, 0);
    var frontMisalign := U32(brk + 8) % 8;
    newBrk, correction := brk, 0;
    if frontMisalign > 0 {
      correction := 8 - frontMisalign;
      newBrk := brk + correction;
    }
    FrontMisalign(brk);
    assert newBrk == AlignUp8(brk) == brk + correction;
    PageGap(newBrk + sz);
    correction := U32(correction + U32(PageRound(U32(newBrk + sz)) - U32(newBrk + sz)));
  }

  lemma {:induction false} PageIsAligned(e: int, a: int)
    requires e % PAGE == 0 && a % 8 == 0
    ensures (e - a) % 8 == 0
  {
    assert e == 8 * (512 * (e / PAGE));
    assert e - a == 8 * (512 * (e / PAGE) - a / 8);
  }

  /** The size of the new top chunk, which ends at e. */
  lemma {:induction false} NewTopSize(brk: word, newBrk: word, sz: word, correction: word, e: int)
    requires newBrk % 8 == 0 && brk <= newBrk && correction == e - (brk + sz) && e % PAGE == 0
             && newBrk + sz <= e < TWO_32
    ensures U32(brk + sz - newBrk + correction) == e - newBrk
    ensures (e - newBrk) % 8 == 0 && e - newBrk + 1 < TWO_32
    ensures WithInUse(e - newBrk) == e - newBrk + 1
  {
    assert brk + sz - newBrk + correction == e - newBrk;
    PageIsAligned(e, newBrk);
    EvenInUse(e - newBrk);
  }

  /** How much memlib_extend_top asks for: whole pages, except before the first extension. */
  function ExtensionSize(nb: word, first: bool): (n: word)
    requires nb % 8 == 0 && nb <= 0x7FFF_FFF8
    ensures n == (if first then nb + MINSIZE else PageUp(nb + MINSIZE))
    ensures n % 8 == 0 && nb + MINSIZE <= n <= 0x8000_1000 && n < nb + MINSIZE + PAGE
  {
    PageRoundIsPageUp(nb + MINSIZE);
    PageIsAligned(PageUp(nb + MINSIZE), 0);
    if first then nb + MINSIZE else PageRound(nb + MINSIZE)
  }

  /** The bounds test of memlib_sbrk, on a sum modulo 2^32. */
  predicate OutOfBounds(pos: word, increment: word, start: word, end: word) {
    U32(pos + increment) < start || U32(pos + increment) > end
  }

  /** The bounds test refuses a forward step exactly if it leaves the region. */
  predicate StepJudged(pos: word, increment: word, start: word, end: word) {
    OutOfBounds(pos, increment, start, end) <==> pos + increment > end
  }

  /** Every step that memlib_extend_top may ask for is judged rightly, wherever pos stands. */
  ghost predicate RegionJudged(start: word, end: word) {
    forall pos: word, increment: word {:trigger StepJudged(pos, increment, start, end)} ::
      start <= pos <= end && increment <= 0x8000_1000 ==> StepJudged(pos, increment, start, end)
  }

  /** In a region shorter than 2 GiB less a page the bounds test is right, also when the sum wraps around. */
  lemma {:induction false} ForwardStep(pos: word, increment: word, start: word, end: word)
    requires start <= pos <= end && end - start < 0x7FFF_F000 && increment <= 0x8000_1000
    ensures StepJudged(pos, increment, start, end)
    ensures pos + increment <= end ==> U32(pos + increment) == pos + increment
  {
  }

  /** The regions in which memlib_sbrk refuses exactly the extensions that do not fit; 0x80001000 is the largest
      extension there is. */
  lemma {:induction false} RegionExact(start: word, end: word)
    requires start <= end
    ensures RegionJudged(start, end) <==> end - start < 0x7FFF_F000
    ensures ExtensionSize(0x7FFF_FFF8, false) == 0x8000_1000
  {
    PageRoundIsPageUp(0x8000_0008);
    if end - start < 0x7FFF_F000 {
      forall pos: word, increment: word | start <= pos <= end && increment <= 0x8000_1000
        ensures StepJudged(pos, increment, start, end)
      {
        ForwardStep(pos, increment, start, end);
      }
    } else {
      var increment: word := 0x8000_1000;
      assert !StepJudged(end, increment, start, end);
    }
  }

  const TRIM_THRESHOLD: int := 131072

  /** Bytes memlib_trim gives back from a top chunk of t bytes (pad 0): whole pages. */
  function TrimExtra(t: int): int {
    ((t - MINSIZE + 4095) / 4096 - 1) * 4096
  }

  /** Trimming a big top chunk leaves more than a minimal chunk and at most a page more than one. */
  lemma {:induction false} TrimLeaves(t: int)
    requires t >= TRIM_THRESHOLD && t % 8 == 0
    ensures TrimExtra(t) >= PAGE && TrimExtra(t) % PAGE == 0
    ensures MINSIZE < t - TrimExtra(t) <= MINSIZE + PAGE && (t - TrimExtra(t)) % 8 == 0
  {
    var c := (t - MINSIZE + 4095) / 4096;
    assert TrimExtra(t) == (c - 1) * PAGE;
    PagesAreAligned(c - 1, t);
  }

  lemma {:induction false} PagesAreAligned(pages: int, t: int)
    requires t % 8 == 0
    ensures (pages * PAGE) % PAGE == 0 && (t - pages * PAGE) % 8 == 0
  {
    assert t - pages * PAGE == 8 * (t / 8 - 512 * pages);
  }

  /** A step backwards inside the region is accepted. */
  lemma {:induction false} BackwardStep(pos: word, extra: int, start: word, end: word)
    requires start <= pos - extra && pos <= end && extra >= 0
    ensures U32(pos + U32(-extra)) == pos - extra
  {
  }

  // ---- Alignment ----

  lemma {:induction false} Pow2Mod16(k: nat)
    requires k >= 4
    ensures Pow2(k) % 16 == 0
  {
    if k == 4 {
      assert Pow2(4) == 16;
    } else {
      Pow2Mod16(k - 1);
    }
  }

  lemma {:induction false} MultipleOfMultiple(x: int, a: int, b: int)
    requires a > 0 && b > 0 && x % a == 0 && a % b == 0
    ensures x % b == 0
  {
    var q, j := x / a, a / b;
    assert a == b * j;
    assert x == a * q;
    assert x == (q * j) * b + 0 by { assert (b * j) * q == (q * j) * b; }
    DivModUnique(x, b, q * j, 0);
  }

  /** (m + a - 1) & -a for a power of two a: the first multiple of a at or past m.
      In two's complement -a is ~(a - 1). */
  function AlignedPoint(m: nat, a: nat): nat
    requires a > 0
  {
    AndNot(m + a - 1, a - 1)
  }

  lemma {:induction false} RoundUpFacts(m: nat, a: nat)
    requires a > 0 && m % a != 0
    ensures var r := m + a - 1 - (m + a - 1) % a; r % a == 0 && m < r < m + a && (r + a) % a == 0
  {
    var x := m + a - 1;
    var q := x / a;
    assert x == q * a + x % a;
    DivModUnique(q * a, a, q, 0);
    DivModUnique(q * a + a, a, q + 1, 0);
  }

  lemma {:induction false} AlignedPointIs(m: nat, a: nat, k: nat)
    requires a == Pow2(k) && m % a != 0
    ensures AlignedPoint(m, a) % a == 0 && (AlignedPoint(m, a) + a) % a == 0
    ensures m < AlignedPoint(m, a) < m + a
  {
    AlignedPointValue(m, a, k);
    RoundUpFacts(m, a);
  }

  lemma {:induction false} AlignedPointValue(m: nat, a: nat, k: nat)
    requires a == Pow2(k)
    ensures AlignedPoint(m, a) == m + a - 1 - (m + a - 1) % a
  {
    ClearLow(m + a - 1, k);
  }

  lemma {:induction false} PowerIsAligned(a: nat, k: nat, r: int)
    requires a == Pow2(k) && a >= 16 && r % a == 0
    ensures a % 8 == 0 && r % 8 == 0
  {
    assert Pow2(3) == 8;
    if k < 4 {
      Pow2Monotone(k, 3);
    } else {
      Pow2Mod16(k);
      MultipleOfMultiple(r, a, 16);
      HalfOf16(a);
      HalfOf16(r);
    }
  }

  lemma {:induction false} HalfOf16(x: int)
    requires x % 16 == 0
    ensures x % 8 == 0
  {
  }

  /** The lead that memalign gives back: up to the first aligned payload, or to the next one when there is too little
      room for a chunk before the first. */
  function Lead(p: nat, a: nat): (lead: int)
    requires a > 0
  {
    var brk := AlignedPoint(p + 8, a) - 8;
    if brk - p < MINSIZE then brk + a - p else brk - p
  }

  lemma {:induction false} LeadOfPoint(p: nat, a: nat, r: int, lead: int)
    requires a % 8 == 0 && a >= 16 && p % 8 == 0 && r % 8 == 0 && p + 8 < r < p + 8 + a
    requires lead == (if r - 8 - p < MINSIZE then r - 8 + a - p else r - 8 - p)
    ensures MINSIZE <= lead <= a + 8 && lead % 8 == 0
  {
    assert r - 8 - p == 8 * (r / 8 - 1 - p / 8);
    assert r - 8 + a - p == 8 * (r / 8 - 1 - p / 8 + a / 8);
  }

  /** The lead is a chunk, no longer than the alignment and 8 bytes, and what follows it has an aligned payload. */
  lemma {:induction false} LeadFits(p: nat, a: nat, k: nat)
    requires a == Pow2(k) && a >= 16 && p % 8 == 0 && (p + 8) % a != 0
    ensures MINSIZE <= Lead(p, a) <= a + 8 && Lead(p, a) % 8 == 0
    ensures (p + Lead(p, a) + 8) % a == 0
  {
    var r := AlignedPoint(p + 8, a);
    AlignedPointIs(p + 8, a, k);
    PowerIsAligned(a, k, r);
    LeadOfPoint(p, a, r, Lead(p, a));
    assert p + Lead(p, a) + 8 == r || p + Lead(p, a) + 8 == r + a;
  }

  /** Which padded requests memalign may pass on: those that neither wrap nor fall in request2size's hole. */
  predicate Padded(alignment: word, bytes: word) {
    var t := Request2Size(bytes) + alignment + MINSIZE;
    t <= 0x7FFF_FFF4 || TWO_31 <= t < TWO_32
  }

  /** Outside that range the chunk asked for is smaller than the request and its padding. */
  lemma {:induction false} PaddedIsNeeded(alignment: word, bytes: word)
    requires alignment <= TWO_31
    requires bytes < TWO_31
    ensures Padded(alignment, bytes) <==>
              (var t := Request2Size(bytes) + alignment + MINSIZE; U32(t) >= TWO_31 || Request2Size(U32(t)) >= t)
  {
    var t := Request2Size(bytes) + alignment + MINSIZE;
    Request2SizeExact(bytes);
    if U32(t) < TWO_31 { Request2SizeExact(U32(t)); }
  }

  /** set_head_size: (size & PREV_INUSE) | sz */
  function HeadWithSize(w: word, sz: word): (r: word)
    requires sz % 2 == 0
    ensures r == sz + w % 2
  {
    assert And(w / 2, 0) == 0;
    assert Or(0, sz / 2) == sz / 2;
    Or(And(w, 1), sz)
  }

  /** The padded request that memalign passes on to malloc: negative as a `long`, or with room for every lead. */
  lemma {:induction false} PaddedRequest(alignment: word, bytes: word, k: nat)
    requires Padded(alignment, bytes) && alignment == Pow2(k) && alignment >= 16 && bytes < TWO_31
    ensures var t := Request2Size(bytes) + alignment + MINSIZE;
            && U32(t) == t
            && (t < TWO_31 ==> Request2Size(t) >= Request2Size(bytes) + alignment + 24)
  {
    var t := Request2Size(bytes) + alignment + MINSIZE;
    if t < TWO_31 {
      Request2SizeExact(t);
      Pow2Mod16Of(alignment, k);
      RoundedUp(Request2Size(t), Request2Size(bytes), alignment);
    }
  }

  lemma {:induction false} Pow2Mod16Of(a: int, k: nat)
    requires a == Pow2(k) && a >= 16
    ensures a % 8 == 0
  {
    PowerIsAligned(a, k, 0);
  }

  lemma {:induction false} RoundedUp(x: int, nb: int, a: int)
    requires x % 8 == 0 && nb % 8 == 0 && a % 8 == 0 && x >= nb + a + 20
    ensures x >= nb + a + 24
  {
    assert x == 8 * (x / 8) && nb + a + 24 == 8 * (nb / 8 + a / 8 + 3);
  }

  lemma {:induction false} SmallAlignment(a: int, k: nat, r: int)
    requires a == Pow2(k) && a <= 8 && (r - 8) % 8 == 0
    ensures r % a == 0
  {
    if k >= 4 { Pow2Monotone(4, k); }
    assert Pow2(0) == 1 && Pow2(1) == 2 && Pow2(2) == 4 && Pow2(3) == 8;
    assert r == 8 * ((r - 8) / 8 + 1);
    assert a == 1 || a == 2 || a == 4 || a == 8;
    Divides8(r);
  }

  lemma {:induction false} Divides8(r: int)
    requires r % 8 == 0
    ensures r % 1 == 0 && r % 2 == 0 && r % 4 == 0
  {
    var q := r / 8;
    DivModUnique(r, 1, 8 * q, 0);
    DivModUnique(r, 2, 4 * q, 0);
    DivModUnique(r, 4, 2 * q, 0);
  }

  lemma {:induction false} Sixteen()
    ensures Pow2(4) == 16
  {
  }

  /** The alignment that memlib_memalign works with: a power of two stays as it is. */
  lemma {:induction false} RaisedAlignment(a: int, k: nat)
    requires 8 < a < 16
    ensures a != Pow2(k)
  {
    if a == Pow2(k) { AboveEight(a, k); }
  }

  lemma {:induction false} AboveEight(a: int, k: nat)
    requires a == Pow2(k) && a > 8
    ensures a >= 16
  {
    if k <= 3 { Pow2Monotone(k, 3); }
    Pow2Monotone(4, k);
    assert Pow2(4) == 16;
  }
}
