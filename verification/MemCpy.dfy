/** The word-merging memcpy, in its little-endian build, against a byte-by-byte copy. */
module MemCpy {
  import opened Words
  import opened Bits
  import opened DivBits

  type byte = x: int | 0 <= x < 256

  // ---------------------------------------------------------------- memory and words

  /** The bytes of a little-endian word, lowest address first. */
  function Unpack(w: word): (b: seq<byte>)
    ensures |b| == 4
  {
    [w % 256, w / 256 % 256, w / 0x1_0000 % 256, w / 0x100_0000]
  }

  function Quad(b0: int, b1: int, b2: int, b3: int): int {
    b0 + 0x100 * b1 + 0x1_0000 * b2 + 0x100_0000 * b3
  }

  function Pack(b: seq<byte>): word
    requires |b| == 4
  {
    Quad(b[0], b[1], b[2], b[3])
  }

  lemma {:induction false} QuadDigits(b0: int, b1: int, b2: int, b3: int)
    requires 0 <= b0 < 256 && 0 <= b1 < 256 && 0 <= b2 < 256 && 0 <= b3 < 256
    ensures var w := Quad(b0, b1, b2, b3);
            && w / 256 == Quad(b1, b2, b3, 0) && w % 256 == b0
            && w / 0x1_0000 == Quad(b2, b3, 0, 0) && w % 0x1_0000 == Quad(b0, b1, 0, 0)
            && w / 0x100_0000 == b3 && w % 0x100_0000 == Quad(b0, b1, b2, 0)
  {
    var w := Quad(b0, b1, b2, b3);
    DivModUnique(w, 256, Quad(b1, b2, b3, 0), b0);
    DivModUnique(w, 0x1_0000, Quad(b2, b3, 0, 0), Quad(b0, b1, 0, 0));
    DivModUnique(w, 0x100_0000, b3, Quad(b0, b1, b2, 0));
  }

  lemma {:induction false} Unpacked(b: seq<byte>)
    requires |b| == 4
    ensures Unpack(Pack(b)) == b
  {
    QuadDigits(b[0], b[1], b[2], b[3]);
    DivModUnique(Quad(b[1], b[2], b[3], 0), 256, Quad(b[2], b[3], 0, 0), b[1]);
    DivModUnique(Quad(b[2], b[3], 0, 0), 256, b[3], b[2]);
  }

  lemma {:induction false} Repacked(w: word)
    ensures Pack(Unpack(w)) == w
  {
    var b1, b2 := w / 256, w / 0x1_0000;
    DivModUnique(w, 0x1_0000, b1 / 256, 256 * (b1 % 256) + w % 256);
    DivModUnique(w, 0x100_0000, b2 / 256, 0x1_0000 * (b2 % 256) + 256 * (b1 % 256) + w % 256);
  }

  function Lsr(w: word, k: nat): word {
    Shrinks(w, Pow2(k));
    w / Pow2(k)
  }

  lemma {:induction false} Shrinks(w: int, p: int)
    requires w >= 0 && p >= 1
    ensures 0 <= w / p <= w
  {
    assert w == (w / p) * p + w % p;
    if w / p >= 0 { AtLeast(w / p, p); }
  }

  lemma {:induction false} AtLeast(q: int, p: int)
    requires q >= 0 && p >= 1
    ensures q * p >= q
  {
  }

  function Lsl(w: word, k: nat): word {
    (w * Pow2(k)) % TWO_32
  }

  /** mov x, x, lsr #8k; orr x, x, y, lsl #(32 - 8k) */
  function Merge(x: word, y: word, k: nat): word
    requires 1 <= k <= 3
  {
    Pow2Of32();
    OrBound(Lsr(x, 8 * k), Lsl(y, 32 - 8 * k), 32);
    Or(Lsr(x, 8 * k), Lsl(y, 32 - 8 * k))
  }

  lemma {:induction false} Powers()
    ensures Pow2(8) == 0x100 && Pow2(16) == 0x1_0000 && Pow2(24) == 0x100_0000
  {
    assert Pow2(4) == 16;
    assert Pow2(12) == 0x1000;
    assert Pow2(20) == 0x10_0000;
  }

  lemma {:induction false} MergedOne(x0: int, x1: int, x2: int, x3: int, y0: int, y1: int, y2: int, y3: int)
    requires 0 <= x0 < 256 && 0 <= x1 < 256 && 0 <= x2 < 256 && 0 <= x3 < 256
    requires 0 <= y0 < 256 && 0 <= y1 < 256 && 0 <= y2 < 256 && 0 <= y3 < 256
    ensures Merge(Quad(x0, x1, x2, x3), Quad(y0, y1, y2, y3), 1) == Quad(x1, x2, x3, y0)
  {
    Powers();
    QuadDigits(x0, x1, x2, x3);
    DivModUnique(Quad(y0, y1, y2, y3) * 0x100_0000, TWO_32, Quad(y1, y2, y3, 0), y0 * 0x100_0000);
    OrDisjoint(y0, Quad(x1, x2, x3, 0), 24);
    OrCommutes(Quad(x1, x2, x3, 0), y0 * 0x100_0000);
  }

  lemma {:induction false} MergedTwo(x0: int, x1: int, x2: int, x3: int, y0: int, y1: int, y2: int, y3: int)
    requires 0 <= x0 < 256 && 0 <= x1 < 256 && 0 <= x2 < 256 && 0 <= x3 < 256
    requires 0 <= y0 < 256 && 0 <= y1 < 256 && 0 <= y2 < 256 && 0 <= y3 < 256
    ensures Merge(Quad(x0, x1, x2, x3), Quad(y0, y1, y2, y3), 2) == Quad(x2, x3, y0, y1)
  {
    Powers();
    QuadDigits(x0, x1, x2, x3);
    DivModUnique(Quad(y0, y1, y2, y3) * 0x1_0000, TWO_32, Quad(y2, y3, 0, 0), Quad(0, 0, y0, y1));
    OrDisjoint(Quad(y0, y1, 0, 0), Quad(x2, x3, 0, 0), 16);
    OrCommutes(Quad(x2, x3, 0, 0), Quad(0, 0, y0, y1));
  }

  lemma {:induction false} MergedThree(x0: int, x1: int, x2: int, x3: int, y0: int, y1: int, y2: int, y3: int)
    requires 0 <= x0 < 256 && 0 <= x1 < 256 && 0 <= x2 < 256 && 0 <= x3 < 256
    requires 0 <= y0 < 256 && 0 <= y1 < 256 && 0 <= y2 < 256 && 0 <= y3 < 256
    ensures Merge(Quad(x0, x1, x2, x3), Quad(y0, y1, y2, y3), 3) == Quad(x3, y0, y1, y2)
  {
    Powers();
    QuadDigits(x0, x1, x2, x3);
    DivModUnique(Quad(y0, y1, y2, y3) * 0x100, TWO_32, y3, Quad(0, y0, y1, y2));
    OrDisjoint(Quad(y0, y1, y2, 0), x3, 8);
    OrCommutes(x3, Quad(0, y0, y1, y2));
  }

  lemma {:induction false} OrCommutes(a: nat, b: nat)
    ensures Or(a, b) == Or(b, a)
  {
    if a != 0 && b != 0 { OrCommutes(a / 2, b / 2); }
  }

  /** Merging reads the bytes from offset k of two adjacent words. */
  lemma {:induction false} MergedBytes(x: word, y: word, k: nat)
    requires 1 <= k <= 3
    ensures Unpack(Merge(x, y, k)) == Unpack(x)[k..] + Unpack(y)[..k]
  {
    Repacked(x);
    Repacked(y);
    var u, v := Unpack(x), Unpack(y);
    var b := u[k..] + v[..k];
    if k == 1 { MergedOne(u[0], u[1], u[2], u[3], v[0], v[1], v[2], v[3]); }
    if k == 2 { MergedTwo(u[0], u[1], u[2], u[3], v[0], v[1], v[2], v[3]); }
    if k == 3 { MergedThree(u[0], u[1], u[2], u[3], v[0], v[1], v[2], v[3]); }
    assert Merge(x, y, k) == Pack(b);
    Unpacked(b);
  }

  /** What memset with zero writes. */
  function Zeros(n: nat): (z: seq<byte>)
    ensures |z| == n && forall i :: 0 <= i < n ==> z[i] == 0
  {
    seq(n, i => 0)
  }

  function Write(m: seq<byte>, a: nat, b: seq<byte>): (r: seq<byte>)
    requires a + |b| <= |m|
    ensures |r| == |m|
  {
    m[..a] + b + m[a + |b|..]
  }

  function LoadWord(m: seq<byte>, a: nat): word
    requires a % 4 == 0 && a + 4 <= |m|
  {
    Pack(m[a..a + 4])
  }

  function StoreWord(m: seq<byte>, a: nat, w: word): (r: seq<byte>)
    requires a % 4 == 0 && a + 4 <= |m|
    ensures |r| == |m|
  {
    Write(m, a, Unpack(w))
  }

  /** ldmia of n registers */
  function LoadWords(m: seq<byte>, a: nat, n: nat): (ws: seq<word>)
    requires a % 4 == 0 && a + 4 * n <= |m|
    ensures |ws| == n
    decreases n
  {
    if n == 0 then [] else [LoadWord(m, a)] + LoadWords(m, a + 4, n - 1)
  }

  /** stmia of the registers ws */
  function StoreWords(m: seq<byte>, a: nat, ws: seq<word>): (r: seq<byte>)
    requires a % 4 == 0 && a + 4 * |ws| <= |m|
    ensures |r| == |m|
    decreases |ws|
  {
    if ws == [] then m else StoreWords(StoreWord(m, a, ws[0]), a + 4, ws[1..])
  }

  function Bytes(ws: seq<word>): (b: seq<byte>)
    ensures |b| == 4 * |ws|
  {
    if ws == [] then [] else Unpack(ws[0]) + Bytes(ws[1..])
  }

  lemma {:induction false} LoadedBytes(m: seq<byte>, a: nat, n: nat)
    requires a % 4 == 0 && a + 4 * n <= |m|
    ensures Bytes(LoadWords(m, a, n)) == m[a..a + 4 * n]
    decreases n
  {
    if n > 0 {
      LoadedBytes(m, a + 4, n - 1);
      Unpacked(m[a..a + 4]);
      assert LoadWords(m, a, n)[1..] == LoadWords(m, a + 4, n - 1);
    }
  }

  lemma {:induction false} WriteTwice(m: seq<byte>, a: nat, b: seq<byte>, c: seq<byte>)
    requires a + |b| + |c| <= |m|
    ensures Write(Write(m, a, b), a + |b|, c) == Write(m, a, b + c)
  {
  }

  lemma {:induction false} StoredBytes(m: seq<byte>, a: nat, ws: seq<word>)
    requires a % 4 == 0 && a + 4 * |ws| <= |m|
    ensures StoreWords(m, a, ws) == Write(m, a, Bytes(ws))
    decreases |ws|
  {
    if ws == [] {
      assert Write(m, a, []) == m;
    } else {
      StoredBytes(StoreWord(m, a, ws[0]), a + 4, ws[1..]);
      WriteTwice(m, a, Unpack(ws[0]), Bytes(ws[1..]));
    }
  }

  // ---------------------------------------------------------------- what a copy means

  /** A call: the memory found, the two addresses and the length. */
  datatype Job = Job(m: seq<byte>, d: nat, s: nat, len: nat)

  /** Where memcpy promises a copy: regions in memory, and either apart or moving down. */
  predicate Fits(j: Job) {
    && |j.m| % 4 == 0 && |j.m| <= TWO_32
    && j.d + j.len <= |j.m| && j.s + j.len <= |j.m|
    && j.len < TWO_31
    && (j.d <= j.s || j.s + j.len <= j.d)
  }

  /** Memory with the first n bytes of the original source at the destination, all else untouched. */
  function Moved(j: Job, n: nat): (r: seq<byte>)
    requires Fits(j) && n <= j.len
    ensures |r| == |j.m|
  {
    Write(j.m, j.d, j.m[j.s..j.s + n])
  }

  /** The part of the source still to be copied has its original bytes, also when the regions overlap. */
  lemma {:induction false} StillThere(j: Job, n: nat, k: nat)
    requires Fits(j) && n <= k <= j.len
    ensures Moved(j, n)[j.s + n..j.s + k] == j.m[j.s + n..j.s + k]
  {
  }

  /** Writing the next original source bytes advances the copy. */
  lemma {:induction false} Advance(j: Job, n: nat, b: seq<byte>)
    requires Fits(j) && n + |b| <= j.len && b == j.m[j.s + n..j.s + n + |b|]
    ensures Write(Moved(j, n), j.d + n, b) == Moved(j, n + |b|)
  {
    WriteTwice(j.m, j.d, j.m[j.s..j.s + n], b);
    assert j.m[j.s..j.s + n] + b == j.m[j.s..j.s + n + |b|];
  }

  lemma {:induction false} WriteOne(m: seq<byte>, a: nat, v: byte)
    requires a < |m|
    ensures m[a := v] == Write(m, a, [v])
  {
  }

  /** Copying one byte from the memory as it now is advances the copy. */
  lemma {:induction false} ByteStep(j: Job, n: nat, m: seq<byte>)
    requires Fits(j) && n < j.len && m == Moved(j, n)
    ensures m[j.d + n := m[j.s + n]] == Moved(j, n + 1)
  {
    StillThere(j, n, n + 1);
    assert m[j.s + n] == m[j.s + n..j.s + n + 1][0];
    Advance(j, n, [j.m[j.s + n]]);
    WriteOne(m, j.d + n, m[j.s + n]);
  }

  /** The reference: one byte after the other, each read from the memory as it then is. */
  function ByteCopy(j: Job, n: nat): (r: seq<byte>)
    requires Fits(j) && n <= j.len
    ensures |r| == |j.m|
  {
    if n == 0 then j.m else var r := ByteCopy(j, n - 1); r[j.d + n - 1 := r[j.s + n - 1]]
  }

  /** The byte copy, too, delivers the original source bytes and nothing else. */
  lemma {:induction false} ByteCopyMoves(j: Job, n: nat)
    requires Fits(j) && n <= j.len
    ensures ByteCopy(j, n) == Moved(j, n)
  {
    if n == 0 {
      assert Write(j.m, j.d, []) == j.m;
    } else {
      ByteCopyMoves(j, n - 1);
      ByteStep(j, n - 1, ByteCopy(j, n - 1));
    }
  }

  // ---------------------------------------------------------------- the routine

  /** n bytes are done. The quantifier keeps the value of Moved out of proofs that only pass this on. */
  ghost predicate Partial(j: Job, n: int, m: seq<byte>) {
    && Fits(j) && 0 <= n <= j.len && |m| == |j.m|
    && forall k: nat :: k == n ==> m == Moved(j, k)
  }

  lemma {:induction false} PartialIsMoved(j: Job, n: int, m: seq<byte>)
    requires Fits(j) && 0 <= n <= j.len
    ensures Partial(j, n, m) <==> m == Moved(j, n)
  {
    var done := Moved(j, n);
  }

  /** n bytes are done, r0 and r1 stand behind them, and r2 is the rest less a bias. */
  ghost predicate At(j: Job, n: int, m: seq<byte>, r0: int, r1: int, r2: int, bias: int) {
    && Partial(j, n, m)
    && r0 == j.d + n && r1 == j.s + n && r2 == j.len - n - bias
  }

  lemma {:induction false} NextByte(j: Job, n: int, m: seq<byte>)
    requires Partial(j, n, m) && n < j.len
    ensures Partial(j, n + 1, m[j.d + n := m[j.s + n]])
  {
    PartialIsMoved(j, n, m);
    ByteStep(j, n, m);
    PartialIsMoved(j, n + 1, m[j.d + n := m[j.s + n]]);
  }

  /** Aligned words loaded behind the copy hold the next source bytes. */
  lemma {:induction false} LoadedNext(j: Job, n: nat, m: seq<byte>, k: nat, a: nat, bytes: nat)
    requires Partial(j, n, m) && a == j.s + n && a % 4 == 0
    requires bytes == 4 * k && n + bytes <= j.len
    ensures Bytes(LoadWords(m, a, k)) == j.m[j.s + n..j.s + n + bytes]
  {
    LoadedBytes(m, a, k);
    StillSlice(j, n, m, n, n + bytes);
  }

  lemma {:induction false} StaysAligned(r: int, k: int)
    requires r % 4 == 0
    ensures (r + 4 * k) % 4 == 0
  {
  }

  lemma {:induction false} Room(a: int, size: int)
    requires a % 4 == 0 && size % 4 == 0 && a < size
    ensures a + 4 <= size
  {
  }

  /** Register x holds the word whose upper bytes, from offset k on, are the next source bytes at offset p. */
  ghost predicate Held(j: Job, p: nat, k: nat, x: word) {
    Fits(j) && 1 <= k <= 3 && (p + 4 <= j.len ==> Unpack(x)[k..] == j.m[j.s + p..j.s + p + 4 - k])
  }

  /** The address of the source word that completes the next four bytes. */
  ghost predicate NextWord(j: Job, p: nat, k: nat, a: int) {
    a == j.s + p - k + 4 && a % 4 == 0
  }

  lemma {:induction false} StillSlice(j: Job, n: int, m: seq<byte>, lo: int, hi: int)
    requires Partial(j, n, m) && n <= lo <= hi <= j.len
    ensures m[j.s + lo..j.s + hi] == j.m[j.s + lo..j.s + hi]
  {
    PartialIsMoved(j, n, m);
    StillThere(j, n, hi);
    assert m[j.s + lo..j.s + hi] == m[j.s + n..j.s + hi][lo - n..];
  }

  lemma {:induction false} WordParts(m: seq<byte>, a: nat, k: nat)
    requires a % 4 == 0 && a + 4 <= |m| && k <= 4
    ensures Unpack(LoadWord(m, a))[..k] == m[a..a + k]
    ensures Unpack(LoadWord(m, a))[k..] == m[a + k..a + 4]
  {
    Unpacked(m[a..a + 4]);
  }

  /** A source word not yet reached by the copy still has the original bytes in it. */
  lemma {:induction false} WordAt(j: Job, n: int, m: seq<byte>, p: nat, k: nat, a: int)
    requires Partial(j, n, m) && n <= p && p + 4 <= j.len && 1 <= k <= 3 && NextWord(j, p, k, a)
    ensures a >= 0 && a + 4 <= |m|
    ensures Unpack(LoadWord(m, a))[..k] == j.m[j.s + p + 4 - k..j.s + p + 4]
    ensures Held(j, p + 4, k, LoadWord(m, a))
  {
    Room(a, |m|);
    WordParts(m, a, k);
    StillSlice(j, n, m, p + 4 - k, p + 4);
    if p + 8 <= j.len { StillSlice(j, n, m, p + 4, p + 8 - k); }
  }

  /** One merged word is the next four source bytes. */
  lemma {:induction false} MergeStep(j: Job, n: int, m: seq<byte>, p: nat, k: nat, x: word, a: int)
    requires Partial(j, n, m) && n <= p && p + 4 <= j.len && Held(j, p, k, x) && NextWord(j, p, k, a)
    ensures a >= 0 && a + 4 <= |m|
    ensures Unpack(Merge(x, LoadWord(m, a), k)) == j.m[j.s + p..j.s + p + 4]
    ensures Held(j, p + 4, k, LoadWord(m, a)) && NextWord(j, p + 4, k, a + 4)
  {
    WordAt(j, n, m, p, k, a);
    MergedBytes(x, LoadWord(m, a), k);
    assert j.m[j.s + p..j.s + p + 4 - k] + j.m[j.s + p + 4 - k..j.s + p + 4] == j.m[j.s + p..j.s + p + 4];
  }

  /** The word first loaded, below the unaligned source address. */
  lemma {:induction false} FirstWord(j: Job, n: int, m: seq<byte>, k: nat, a: int)
    requires Partial(j, n, m) && n + 4 <= j.len && 1 <= k <= 3 && NextWord(j, n, k, a + 4) && a >= 0
    ensures a + 4 <= |m| && Held(j, n, k, LoadWord(m, a))
  {
    Room(a, |m|);
    WordParts(m, a, k);
    StillSlice(j, n, m, n, n + 4 - k);
  }

  /** What sixteen bytes at a time store, from four words loaded in one go and the word held before. */
  function Merged4(x: word, ws: seq<word>, k: nat): (r: seq<word>)
    requires 1 <= k <= 3 && |ws| == 4
  {
    [Merge(x, ws[0], k), Merge(ws[0], ws[1], k), Merge(ws[1], ws[2], k), Merge(ws[2], ws[3], k)]
  }

  lemma {:induction false} FourWords(m: seq<byte>, a: nat)
    requires a % 4 == 0 && a + 16 <= |m|
    ensures LoadWords(m, a, 4) == [LoadWord(m, a), LoadWord(m, a + 4), LoadWord(m, a + 8), LoadWord(m, a + 12)]
  {
    assert LoadWords(m, a + 8, 2) == [LoadWord(m, a + 8)] + LoadWords(m, a + 12, 1);
  }

  lemma {:induction false} BytesOfMore(x: word, ws: seq<word>)
    ensures Bytes([x] + ws) == Unpack(x) + Bytes(ws)
  {
    assert ([x] + ws)[1..] == ws;
  }

  lemma {:induction false} BytesOfOne(x: word)
    ensures Bytes([x]) == Unpack(x)
  {
    BytesOfMore(x, []);
    assert [x] + [] == [x];
  }

  lemma {:induction false} BytesOf4(x: word, y: word, z: word, t: word)
    ensures Bytes([x, y, z, t]) == (Unpack(x) + Unpack(y)) + (Unpack(z) + Unpack(t))
  {
    BytesOfOne(t);
    BytesOfMore(z, [t]);
    BytesOfMore(y, [z] + [t]);
    BytesOfMore(x, [y] + ([z] + [t]));
    assert [x] + ([y] + ([z] + [t])) == [x, y, z, t];
  }

  /** The bytes of two merged words in a row. */
  function Pair(x: word, y: word, z: word, k: nat): (b: seq<byte>)
    requires 1 <= k <= 3
    ensures |b| == 8
  {
    Unpack(Merge(x, y, k)) + Unpack(Merge(y, z, k))
  }

  lemma {:induction false} Steps(a: int)
    requires a % 4 == 0
    ensures (a + 4) % 4 == 0 && (a + 8) % 4 == 0 && (a + 12) % 4 == 0
  {
  }

  lemma {:induction false} Merge8(j: Job, n: int, m: seq<byte>, p: nat, k: nat, x: word, a: int)
    requires Partial(j, n, m) && n <= p && p + 8 <= j.len && Held(j, p, k, x) && NextWord(j, p, k, a)
    ensures a >= 0 && a + 8 <= |m| && a % 4 == 0 && (a + 4) % 4 == 0
    ensures Pair(x, LoadWord(m, a), LoadWord(m, a + 4), k) == j.m[j.s + p..j.s + p + 8]
    ensures Held(j, p + 8, k, LoadWord(m, a + 4)) && NextWord(j, p + 8, k, a + 8)
  {
    Steps(a);
    MergeStep(j, n, m, p, k, x, a);
    MergeStep(j, n, m, p + 4, k, LoadWord(m, a), a + 4);
    Adjacent(j.m, j.s + p, 4, 4);
  }

  lemma {:induction false} Adjacent(m: seq<byte>, a: nat, u: nat, v: nat)
    requires a + u + v <= |m|
    ensures m[a..a + u] + m[a + u..a + u + v] == m[a..a + u + v]
  {
  }

  lemma {:induction false} Merged4Bytes(x: word, ws: seq<word>, k: nat)
    requires 1 <= k <= 3 && |ws| == 4
    ensures Bytes(Merged4(x, ws, k)) == Pair(x, ws[0], ws[1], k) + Pair(ws[1], ws[2], ws[3], k)
  {
    BytesOf4(Merge(x, ws[0], k), Merge(ws[0], ws[1], k), Merge(ws[1], ws[2], k), Merge(ws[2], ws[3], k));
  }

  /** Four merged words, all loaded before any is stored, are the next sixteen source bytes. */
  lemma {:induction false} Merge16(j: Job, n: int, m: seq<byte>, k: nat, x: word, a: int)
    requires Partial(j, n, m) && n + 16 <= j.len && Held(j, n, k, x) && NextWord(j, n, k, a)
    ensures a >= 0 && a + 16 <= |m| && a % 4 == 0
    ensures var ws := LoadWords(m, a, 4);
            && Bytes(Merged4(x, ws, k)) == j.m[j.s + n..j.s + n + 16]
            && Held(j, n + 16, k, ws[3]) && NextWord(j, n + 16, k, a + 16)
  {
    Steps(a);
    Merge8(j, n, m, n, k, x, a);
    Merge8(j, n, m, n + 8, k, LoadWord(m, a + 4), a + 8);
    FourWords(m, a);
    Merged4Bytes(x, LoadWords(m, a, 4), k);
    Adjacent(j.m, j.s + n, 8, 8);
  }

  /** Storing words that hold the next source bytes. */
  lemma {:induction false} StoreNext(j: Job, n: int, m: seq<byte>, xs: seq<word>, d: nat, bytes: nat)
    requires Partial(j, n, m) && d == j.d + n && d % 4 == 0 && bytes == 4 * |xs| && n + bytes <= j.len
    requires Bytes(xs) == j.m[j.s + n..j.s + n + bytes]
    ensures Partial(j, n + bytes, StoreWords(m, d, xs))
  {
    StoredBytes(m, d, xs);
    PartialIsMoved(j, n, m);
    Advance(j, n, Bytes(xs));
    PartialIsMoved(j, n + bytes, StoreWords(m, d, xs));
  }

  /** Progress of the merging loops: r1 has run ahead of the copy, to the next source word. */
  ghost predicate Skewed(j: Job, n: int, m: seq<byte>, r0: int, r1: int, r2: int, bias: int, k: nat, x: word) {
    && Partial(j, n, m) && r0 == j.d + n && r0 % 4 == 0 && r2 == j.len - n - bias
    && Held(j, n, k, x) && NextWord(j, n, k, r1)
  }

  lemma {:induction false} SkewedRoom(j: Job, n: int, m: seq<byte>, r0: int, r1: int, r2: int, bias: int, k: nat,
                                      x: word)
    requires Skewed(j, n, m, r0, r1, r2, bias, k, x) && r2 >= 0 && (bias == 16 || bias == 4)
    ensures r0 >= 0 && r1 >= 0 && r0 + bias <= |m| && r1 + bias <= |m| && r1 % 4 == 0
  {
    if bias == 16 { Merge16(j, n, m, k, x, r1); } else { WordAt(j, n, m, n, k, r1); }
  }

  /** One round of a sixteen-byte loop. */
  lemma {:induction false} Round16Step(j: Job, n: int, m: seq<byte>, r0: nat, r1: nat, r2: int, k: nat, x: word)
    requires Skewed(j, n, m, r0, r1, r2, 16, k, x) && r2 >= 0 && r0 + 16 <= |m| && r1 + 16 <= |m| && r1 % 4 == 0
    ensures var ws := LoadWords(m, r1, 4);
            Skewed(j, n + 16, StoreWords(m, r0, Merged4(x, ws, k)), r0 + 16, r1 + 16, r2 - 16, 16, k, ws[3])
  {
    Merge16(j, n, m, k, x, r1);
    StoreNext(j, n, m, Merged4(x, LoadWords(m, r1, 4), k), r0, 16);
  }

  /** One round of a four-byte loop. */
  lemma {:induction false} Round4Step(j: Job, n: int, m: seq<byte>, r0: nat, r1: nat, r2: int, k: nat, x: word)
    requires Skewed(j, n, m, r0, r1, r2, 4, k, x) && r2 >= 0 && r0 + 4 <= |m| && r1 + 4 <= |m| && r1 % 4 == 0
    ensures var w := LoadWord(m, r1);
            Skewed(j, n + 4, StoreWords(m, r0, [Merge(x, w, k)]), r0 + 4, r1 + 4, r2 - 4, 4, k, w)
  {
    MergeStep(j, n, m, n, k, x, r1);
    BytesOfOne(Merge(x, LoadWord(m, r1), k));
    StoreNext(j, n, m, [Merge(x, LoadWord(m, r1), k)], r0, 4);
  }

  lemma {:induction false} ToNextWord(r: nat)
    ensures r % 4 != 0 ==> 1 <= 4 - r % 4 <= 3 && (r + (4 - r % 4)) % 4 == 0
  {
  }

  /** Memory and the address and length registers while one memcpy runs. */
  class Machine {
    var mem: seq<byte>
    var r0: nat
    var r1: nat
    var r2: int

    constructor (m: seq<byte>, d: nat, s: nat, n: nat)
      ensures mem == m && r0 == d && r1 == s && r2 == n
    {
      mem, r0, r1, r2 := m, d, s, n;
    }

    ghost predicate Is(j: Job, n: int, bias: int)
      reads this
    {
      At(j, n, mem, r0, r1, r2, bias)
    }

    ghost predicate Aligned()
      reads this
    {
      r0 % 4 == 0 && r1 % 4 == 0
    }

    /** ldrb r3, [r1], #1; strb r3, [r0], #1 */
    method CopyByte(ghost j: Job, ghost n: int, ghost bias: int)
      requires Is(j, n, bias) && n < j.len
      modifies this
      ensures Is(j, n + 1, bias - 1) && r0 == old(r0) + 1 && r1 == old(r1) + 1
    {
      NextByte(j, n, mem);
      mem := mem[r0 := mem[r1]];
      r0, r1 := r0 + 1, r1 + 1;
    }

    /** ldmia r1!, {k registers}; stmia r0!, {k registers} */
    method CopyWords(k: nat, ghost j: Job, ghost n: int, ghost bias: int)
      requires Is(j, n, bias) && n + 4 * k <= j.len && Aligned()
      modifies this
      ensures Is(j, n + 4 * k, bias - 4 * k) && Aligned()
    {
      LoadedNext(j, n, mem, k, r1, 4 * k);
      StaysAligned(r0, k);
      StaysAligned(r1, k);
      var ws := LoadWords(mem, r1, k);
      StoreNext(j, n, mem, ws, r0, 4 * k);
      mem := StoreWords(mem, r0, ws);
      r0, r1 := r0 + 4 * k, r1 + 4 * k;
    }

    /** .Lmemcpy_l4: the last zero to three bytes */
    method Tail(ghost j: Job, ghost n: int)
      requires Is(j, n, 4) && j.len - n < 4
      modifies this
      ensures Partial(j, j.len, mem)
    {
      r2 := r2 + 4;
      if r2 == 0 { return; }
      CopyByte(j, n, 0);
      if r2 >= 2 { CopyByte(j, n + 1, -1); }
      if r2 > 2 { CopyByte(j, n + 2, -2); }
      assert r2 == j.len - n;
    }

    /** .Lmemcpy_loop32 and the remaining 16 bytes */
    method Loop32(ghost j: Job, ghost n: int) returns (ghost k: int)
      requires Is(j, n, 32) && Aligned() && r2 >= 0
      modifies this
      ensures Is(j, k, 32) && Aligned() && r2 < 0
    {
      k := n;
      var again := true;
      while again
        invariant Is(j, k, 32) && Aligned() && again == (r2 >= 0)
        decreases j.len - k
      {
        CopyWords(4, j, k, 32);
        CopyWords(4, j, k + 16, 16);
        k := k + 32;
        r2 := r2 - 0x20;
        again := r2 >= 0;
      }
      if r2 + 0x10 >= 0 {
        CopyWords(4, j, k, 32);
        k := k + 16;
        r2 := r2 - 0x10;
      }
    }

    /** .Lmemcpy_loop12 */
    method Loop12(ghost j: Job, ghost n: int) returns (ghost k: int)
      requires Is(j, n, 12) && Aligned()
      modifies this
      ensures Is(j, k, 12) && Aligned() && r2 < 0
    {
      k := n;
      while r2 >= 0
        invariant Is(j, k, 12) && Aligned()
        decreases j.len - k
      {
        CopyWords(3, j, k, 12);
        k := k + 12;
        r2 := r2 - 0x0c;
      }
    }

    /** .Lmemcpy_l12: fewer than twelve bytes are left */
    method L12(ghost j: Job, ghost n: int)
      requires Is(j, n, 12) && Aligned() && r2 < 0
      modifies this
      ensures Partial(j, j.len, mem)
    {
      ghost var k := n;
      r2 := r2 + 8;
      if r2 >= 0 {
        r2 := r2 - 4;
        if r2 < 0 {
          CopyWords(1, j, n, 8);
          k := n + 4;
        } else {
          CopyWords(2, j, n, 8);
          k := n + 8;
          r2 := r2 - 4;
        }
      }
      Tail(j, k);
    }

    /** .Lmemcpy_t8: both addresses are word aligned */
    method AlignedCopy(ghost j: Job, ghost n: int)
      requires Is(j, n, 4) && Aligned() && r2 >= 0
      modifies this
      ensures Partial(j, j.len, mem)
    {
      ghost var k := n;
      r2 := r2 - 8;
      if r2 >= 0 {
        r2 := r2 - 0x14;
        if r2 >= 0 { k := Loop32(j, k); }
        r2 := r2 + 0x14;
        k := Loop12(j, k);
      }
      L12(j, k);
    }

    ghost predicate Merging(j: Job, n: int, bias: int, k: nat, x: word)
      reads this
    {
      Skewed(j, n, mem, r0, r1, r2, bias, k, x)
    }

    /** .Lmemcpy_srcul{1,2,3}loop16, one round */
    method Round16(k: nat, x: word, ghost j: Job, ghost n: int) returns (lr: word)
      requires Merging(j, n, 16, k, x) && r2 >= 0
      modifies this
      ensures Merging(j, n + 16, 16, k, lr)
    {
      SkewedRoom(j, n, mem, r0, r1, r2, 16, k, x);
      Round16Step(j, n, mem, r0, r1, r2, k, x);
      var ws := LoadWords(mem, r1, 4);
      lr := ws[3];
      mem := StoreWords(mem, r0, Merged4(x, ws, k));
      r0, r1, r2 := r0 + 16, r1 + 16, r2 - 0x10;
    }

    /** .Lmemcpy_srcul{1,2,3}loop4, one round */
    method Round4(k: nat, x: word, ghost j: Job, ghost n: int) returns (lr: word)
      requires Merging(j, n, 4, k, x) && r2 >= 0
      modifies this
      ensures Merging(j, n + 4, 4, k, lr)
    {
      SkewedRoom(j, n, mem, r0, r1, r2, 4, k, x);
      Round4Step(j, n, mem, r0, r1, r2, k, x);
      lr := LoadWord(mem, r1);
      mem := StoreWords(mem, r0, [Merge(x, lr, k)]);
      r0, r1, r2 := r0 + 4, r1 + 4, r2 - 4;
    }

    /** .Lmemcpy_srcul{1,2,3}loop16 */
    method Loop16(k: nat, x: word, ghost j: Job, ghost n0: int) returns (lr: word, ghost n: int)
      requires Merging(j, n0, 16, k, x) && r2 >= 0
      modifies this
      ensures Merging(j, n, 16, k, lr) && r2 < 0
    {
      lr, n := x, n0;
      var again := true;
      while again
        invariant Merging(j, n, 16, k, lr) && again == (r2 >= 0)
        decreases j.len - n
      {
        lr := Round16(k, lr, j, n);
        n := n + 16;
        again := r2 >= 0;
      }
    }

    /** .Lmemcpy_srcul{1,2,3}loop4 */
    method Loop4(k: nat, x: word, ghost j: Job, ghost n0: int) returns (lr: word, ghost n: int)
      requires Merging(j, n0, 4, k, x)
      modifies this
      ensures Merging(j, n, 4, k, lr) && r2 < 0
    {
      lr, n := x, n0;
      while r2 >= 0
        invariant Merging(j, n, 4, k, lr)
        decreases j.len - n
      {
        lr := Round4(k, lr, j, n);
        n := n + 4;
      }
    }

    /** .Lmemcpy_srcul1, srcul2 and srcul3: the same code up to its shift counts 8k and 32 - 8k */
    method MergingCopy(k: nat, x: word, ghost j: Job, ghost n0: int)
      requires Merging(j, n0, 4, k, x) && r2 >= 0
      modifies this
      ensures Partial(j, j.len, mem)
    {
      var lr := x;
      ghost var n := n0;
      if r2 >= 0x0c {
        r2 := r2 - 0x0c;
        lr, n := Loop16(k, lr, j, n);
        r2 := r2 + 0x0c;
      }
      lr, n := Loop4(k, lr, j, n);
      r1 := r1 - (4 - k);
      Tail(j, n);
    }

    /** .Lmemcpy_srcul: the source alone is unaligned */
    method UnalignedSource(ghost j: Job, ghost n: int)
      requires Is(j, n, 4) && r2 >= 0 && r0 % 4 == 0 && r1 % 4 != 0
      modifies this
      ensures Partial(j, j.len, mem)
    {
      var k := r1 % 4;
      r1 := r1 - k;
      FirstWord(j, n, mem, k, r1);
      var lr := LoadWord(mem, r1);
      r1 := r1 + 4;
      MergingCopy(k, lr, j, n);
    }

    /** The byte copies of .Lmemcpy_destul, up to the next word of the destination */
    method AlignDestination(ghost j: Job) returns (r12: nat)
      requires Is(j, 0, 4) && r2 >= 0 && r0 % 4 != 0
      modifies this
      ensures 1 <= r12 <= 3 && Is(j, r12, 4) && r0 % 4 == 0
    {
      ToNextWord(r0);
      r12 := 4 - r0 % 4;
      CopyByte(j, 0, 4);
      if r12 >= 2 { CopyByte(j, 1, 3); }
      if r12 > 2 { CopyByte(j, 2, 2); }
      r2 := r2 - r12;
    }

    /** .Lmemcpy_destul */
    method UnalignedDestination(ghost j: Job)
      requires Is(j, 0, 4) && r2 >= 0 && r0 % 4 != 0
      modifies this
      ensures Partial(j, j.len, mem)
    {
      var r12 := AlignDestination(j);
      if r2 < 0 {
        Tail(j, r12);
      } else if r1 % 4 == 0 {
        AlignedCopy(j, r12);
      } else {
        UnalignedSource(j, r12);
      }
    }

    /** memcpy: the routine does what the byte copy does. */
    method MemCpy(ghost j: Job) returns (dest: nat)
      requires Fits(j) && mem == j.m && r0 == j.d && r1 == j.s && r2 == j.len
      modifies this
      ensures mem == ByteCopy(j, j.len) == Moved(j, j.len) && dest == j.d
    {
      dest := r0;
      r2 := r2 - 4;
      if r2 < 0 {
        Tail(j, 0);
      } else if r0 % 4 != 0 {
        UnalignedDestination(j);
      } else if r1 % 4 != 0 {
        UnalignedSource(j, 0);
      } else {
        AlignedCopy(j, 0);
      }
      ByteCopyMoves(j, j.len);
      PartialIsMoved(j, j.len, mem);
    }
  }
}
