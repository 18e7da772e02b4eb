/** Stepped block transfers: a long read or write cut into steps is one flat copy. */
module MmcDev {
  import opened Words
  import opened Bits
  import opened DivBits
  import opened MemCpy
  import opened DmaChain

  const STEP_BLOCKS: nat := 65536
  const EINVAL: int := 22

  /** Bytes that fill the last block. */
  function PadLength(size: nat, blocksize: nat): (p: nat)
    requires blocksize > 0
    ensures p < blocksize && (size + p) % blocksize == 0
  {
    Filled(size, blocksize);
    if size % blocksize == 0 then 0 else blocksize - size % blocksize
  }

  lemma {:induction false} Filled(size: nat, blocksize: nat)
    requires blocksize > 0
    ensures (size + (blocksize - size % blocksize)) % blocksize == 0 && 0 <= size % blocksize < blocksize
  {
    assert size == (size / blocksize) * blocksize + size % blocksize;
    assert size + (blocksize - size % blocksize) == (size / blocksize + 1) * blocksize;
    DivModUnique(size + (blocksize - size % blocksize), blocksize, size / blocksize + 1, 0);
  }

  /** Where a request ends that reaches beyond the device. */
  function Clipped(from: nat, size: nat, total: nat): (r: nat)
    requires from < total
    ensures r <= size && from + r <= total && (r == size || from + r == total)
  {
    if from + size > total then total - from else size
  }

  lemma {:induction false} Times(a: int, b: int, c: int)
    ensures (a + b) * c == a * c + b * c
  {
  }

  lemma {:induction false} TimesMonotone(a: int, b: int, c: int)
    requires a <= b && c >= 0
    ensures a * c <= b * c
  {
  }

  lemma {:induction false} TimesPositive(a: int, c: int)
    requires a > 0 && c > 0
    ensures a * c > 0
  {
  }

  /** A card behind a DMA controller, with the memory both work on and the descriptor table. */
  class Card {
    var disk: seq<byte>
    var ram: seq<byte>
    const des: array<Des>
    const base: nat
    const blocksize: nat
    const capacity: nat
    ghost const shift: nat

    ghost predicate Valid()
      reads this
    {
      && des.Length == MAX_DES && base + DES_BYTES * MAX_DES < TWO_32
      && 0 < blocksize <= 512 && |disk| == capacity && |ram| <= TWO_32
    }

    /** Power-of-two blocks that fill the card, counted in 32 bits. */
    ghost predicate Geometry() {
      blocksize == Pow2(shift) && capacity % blocksize == 0 && capacity / blocksize < TWO_32
    }

    constructor (contents: seq<byte>, memory: seq<byte>, table: array<Des>, at: nat, size: nat, ghost k: nat)
      requires table.Length == MAX_DES && at + DES_BYTES * MAX_DES < TWO_32
      requires size == Pow2(k) <= 512 && |contents| % size == 0 && |contents| / size < TWO_32 && |memory| <= TWO_32
      ensures Valid() && Geometry() && disk == contents && ram == memory && des == table && blocksize == size
    {
      disk, ram, des, base, blocksize, capacity, shift := contents, memory, table, at, size, |contents|, k;
    }

    /** The chain for step blocks at buf: it is accepted, and a controller following it covers the buffer. */
    method Prepare(step: nat, buf: nat) returns (path: seq<nat>)
      requires Valid() && 0 < step <= STEP_BLOCKS && buf + step * blocksize <= |ram|
      modifies des
      ensures |path| == EntryCount(step * blocksize) <= MAX_DES
      ensures Transfers(ram, des[..], path, buf, step * blocksize)
    {
      StepSize(step, blocksize);
      var out := SetupData(des, base, step, blocksize, buf);
      path := Path(des[..], base, 0, MAX_DES);
      ChainTransfers(ram, des[..], step * blocksize, buf, base, MAX_DES);
    }

    /** mmcdev->write, with a transfer that succeeds: n bytes at the card's byte offset at */
    method DevWrite(blk: nat, step: nat, buf: nat, ghost at: nat, ghost n: nat) returns (done: nat)
      requires Valid() && 0 < step <= STEP_BLOCKS && at == blk * blocksize && n == step * blocksize
      requires buf + n <= |ram| && at + n <= |disk|
      modifies this`disk, des
      ensures Valid() && done == step && Copied(disk, old(disk), at, ram, buf, n)
    {
      var path := Prepare(step, buf);
      var from := blk * blocksize;
      ghost var before := disk;
      disk := Write(disk, from, Gather(ram, des[..], path));
      done := step;
      CopiedIs(disk, before, at, ram, buf, n);
    }

    /** mmcdev->read, with a transfer that succeeds */
    method DevRead(blk: nat, step: nat, buf: nat, ghost at: nat, ghost n: nat) returns (done: nat)
      requires Valid() && 0 < step <= STEP_BLOCKS && at == blk * blocksize && n == step * blocksize
      requires buf + n <= |ram| && at + n <= |disk|
      modifies this`ram, des
      ensures Valid() && done == step && Copied(ram, old(ram), buf, disk, at, n)
    {
      var path := Prepare(step, buf);
      var from, length := blk * blocksize, step * blocksize;
      var data := disk[from..from + length];
      ghost var before := ram;
      ram := Scatter(ram, des[..], path, data);
      done := step;
      CopiedIs(ram, before, buf, disk, at, n);
    }

    /** mmcdev_check_align, with the range check in it */
    method CheckAlign(from: nat, length: nat) returns (ret: int, size: nat)
      requires Valid() && Geometry() && from + length < TWO_64
      ensures ret == if from >= |disk| || from % blocksize != 0 then -EINVAL else 0
      ensures from < |disk| ==> size == Clipped(from, length, |disk|)
    {
      AndLow(from, shift);
      size := length;
      if from >= |disk| { return -EINVAL, size; }
      if from + size > |disk| { size := |disk| - from; }
      if And(from, blocksize - 1) != 0 { return -EINVAL, size; }
      return 0, size;
    }

    /** One step of a write behind the done bytes that were written since first. */
    method WriteStep(blk: nat, step: nat, databuf: nat, ghost first: seq<byte>, ghost at: nat, ghost buf: nat,
                     ghost done: nat, ghost more: nat)
      returns (moved: nat)
      requires Valid() && 0 < step <= STEP_BLOCKS && at + done == blk * blocksize && more == step * blocksize
      requires databuf == buf + done && databuf + more <= |ram| && at + done + more <= |disk| == |first|
      requires Copied(disk, first, at, ram, buf, done)
      modifies this`disk, des
      ensures Valid() && moved == step && Copied(disk, first, at, ram, buf, done + more)
    {
      ghost var before := disk;
      moved := DevWrite(blk, step, databuf, at + done, more);
      Round(first, before, disk, ram, at, buf, done, more);
    }

    /** The step loop of mmcdev_write: n bytes at the card's byte offset at. */
    method WriteSteps(blkStart: nat, blkCnt: nat, buf: nat, ghost at: nat, ghost n: nat) returns (bytes: nat)
      requires Valid() && blkCnt < TWO_31 && at == blkStart * blocksize && n == blkCnt * blocksize
      requires at + n <= |disk| && buf + n <= |ram|
      modifies this`disk, des
      ensures Valid() && bytes == n
      ensures Copied(disk, old(disk), at, ram, buf, n)
    {
      var cnt, blkaddr, databuf := blkCnt as int, blkStart, buf;
      bytes := 0;
      ghost var first := disk;
      Nothing(disk, at, ram, buf);
      while cnt > 0
        invariant Valid() && 0 <= cnt && blkaddr + cnt == blkStart + blkCnt
        invariant databuf == buf + bytes && bytes <= n
        invariant at + bytes == blkaddr * blocksize && n - bytes == cnt * blocksize
        invariant Copied(disk, first, at, ram, buf, bytes)
        decreases cnt
      {
        var step := if cnt > STEP_BLOCKS then STEP_BLOCKS else cnt;
        ghost var more := step * blocksize;
        NextStep(cnt, step, blkaddr, blocksize, at + bytes, n - bytes, more);
        cnt := cnt - step;
        step := WriteStep(blkaddr, step, databuf, first, at, buf, bytes, more);
        var moved := blocksize * step;
        bytes := bytes + moved;
        databuf := databuf + moved;
        blkaddr := blkaddr + step;
      }
    }

    /** One step of a read behind the done bytes that were read since first. */
    method ReadStep(blk: nat, step: nat, databuf: nat, ghost first: seq<byte>, ghost at: nat, ghost buf: nat,
                    ghost done: nat, ghost more: nat)
      returns (moved: nat)
      requires Valid() && 0 < step <= STEP_BLOCKS && at + done == blk * blocksize && more == step * blocksize
      requires databuf == buf + done && databuf + more <= |ram| == |first| && at + done + more <= |disk|
      requires Copied(ram, first, buf, disk, at, done)
      modifies this`ram, des
      ensures Valid() && moved == step && Copied(ram, first, buf, disk, at, done + more)
    {
      ghost var before := ram;
      moved := DevRead(blk, step, databuf, at + done, more);
      Round(first, before, ram, disk, buf, at, done, more);
    }

    /** The step loop of mmcdev_read: n bytes at the card's byte offset at. */
    method ReadSteps(blkStart: nat, blkCnt: nat, buf: nat, ghost at: nat, ghost n: nat) returns (bytes: nat)
      requires Valid() && blkCnt < TWO_31 && at == blkStart * blocksize && n == blkCnt * blocksize
      requires at + n <= |disk| && buf + n <= |ram|
      modifies this`ram, des
      ensures Valid() && bytes == n
      ensures Copied(ram, old(ram), buf, disk, at, n)
    {
      var cnt, blkaddr, databuf := blkCnt as int, blkStart, buf;
      bytes := 0;
      ghost var first := ram;
      Nothing(ram, buf, disk, at);
      while cnt > 0
        invariant Valid() && 0 <= cnt && blkaddr + cnt == blkStart + blkCnt
        invariant databuf == buf + bytes && bytes <= n
        invariant at + bytes == blkaddr * blocksize && n - bytes == cnt * blocksize
        invariant Copied(ram, first, buf, disk, at, bytes)
        decreases cnt
      {
        var step := if cnt > STEP_BLOCKS then STEP_BLOCKS else cnt;
        ghost var more := step * blocksize;
        NextStep(cnt, step, blkaddr, blocksize, at + bytes, n - bytes, more);
        cnt := cnt - step;
        step := ReadStep(blkaddr, step, databuf, first, at, buf, bytes, more);
        var moved := blocksize * step;
        bytes := bytes + moved;
        databuf := databuf + moved;
        blkaddr := blkaddr + step;
      }
    }

    /** A request cut into whole blocks and a rest, inside the card, with its buffer and the temporary block in memory.
        */
    ghost predicate Fits(blkStart: nat, blkCnt: nat, last: nat, buf: nat, tmp: nat, from: nat, whole: nat)
      reads this
    {
      && blkCnt < TWO_31 && blkStart * blocksize == from && blkCnt * blocksize == whole == blocksize * blkCnt
      && (blkStart + blkCnt) * blocksize == from + whole && from + whole + last <= capacity && last < blocksize
      && (last > 0 ==> from + whole + blocksize <= capacity)
      && buf + whole + last <= |ram| && tmp + blocksize <= |ram| && Apart(buf, whole + last, tmp, blocksize)
    }

    /** The division of a request into blocks. */
    method Split(from: nat, size: nat, ghost size0: nat, ghost buf: nat, ghost tmp: nat)
      returns (blkStart: nat, blkCnt: nat, last: nat, ghost whole: nat)
      requires Geometry() && blocksize > 0 && from % blocksize == 0 && from < capacity
      requires size == Clipped(from, size0, capacity) && size0 / blocksize < TWO_31
      requires buf + size0 <= |ram| && tmp + blocksize <= |ram| && Apart(buf, size0, tmp, blocksize)
      ensures Fits(blkStart, blkCnt, last, buf, tmp, from, whole) && size == whole + last && last == size % blocksize
    {
      BlockParts(from, size, size0, capacity, blocksize);
      blkStart, blkCnt, last := from / blocksize, size / blocksize, size % blocksize;
      whole := blkCnt * blocksize;
    }

    /** The last, partial block of a write, padded with the zeros of a fresh block at tmp. */
    method WriteTail(blk: nat, lastData: nat, last: nat, tmp: nat, ghost at: nat)
      requires Valid() && 0 < last < blocksize && at == blk * blocksize && at + blocksize <= |disk|
      requires lastData + last <= |ram| && tmp + blocksize <= |ram| && Apart(lastData, last, tmp, blocksize)
      modifies this`disk, this`ram, des
      ensures Valid() && SameOutside(ram, old(ram), tmp, blocksize)
      ensures disk == Write(old(disk), at, old(ram)[lastData..lastData + last] + Zeros(blocksize - last))
    {
      TailBlock(ram, tmp, blocksize, lastData, last);
      ram := Write(ram, tmp, Zeros(blocksize));
      ram := Write(ram, tmp, ram[lastData..lastData + last]);
      assert 1 * blocksize == blocksize;
      ghost var before := disk;
      var done := DevWrite(blk, 1, tmp, at, blocksize);
      CopiedIs(disk, before, at, ram, tmp, blocksize);
    }

    /** Where the rest starts in memory, and its block. */
    method RestPlace(blkStart: nat, blkCnt: nat, ghost last: nat, buf: nat, ghost tmp: nat, ghost from: nat,
                     ghost whole: nat)
      returns (lastData: nat, lastBlk: nat)
      requires Valid() && Fits(blkStart, blkCnt, last, buf, tmp, from, whole)
      ensures lastData == buf + whole && from + whole == lastBlk * blocksize && blkCnt < TWO_31
      ensures from == blkStart * blocksize && whole == blkCnt * blocksize
      ensures from + whole + last <= |disk| && last < blocksize && (last > 0 ==> from + whole + blocksize <= |disk|)
      ensures buf + whole + last <= |ram| && tmp + blocksize <= |ram| && Apart(buf + whole, last, tmp, blocksize)
      ensures Apart(buf, whole, tmp, blocksize)
    {
      lastData, lastBlk := buf + blocksize * blkCnt, blkStart + blkCnt;
    }

    /** What is left of a write behind the whole blocks. */
    method WriteRest(blk: nat, lastData: nat, last: nat, tmp: nat, ghost at: nat) returns (bytes: nat)
      requires Valid() && last < blocksize && at == blk * blocksize && (last > 0 ==> at + blocksize <= |disk|)
      requires lastData + last <= |ram| && tmp + blocksize <= |ram| && Apart(lastData, last, tmp, blocksize)
      modifies this`disk, this`ram, des
      ensures Valid() && SameOutside(ram, old(ram), tmp, blocksize) && bytes == last
      ensures RestWritten(disk, old(disk), old(ram), at, lastData, last, blocksize)
    {
      if last != 0 {
        WriteTail(blk, lastData, last, tmp, at);
      }
      bytes := last;
    }

    /** The transfers of mmcdev_write: whole blocks in steps, then the rest. */
    method WriteParts(blkStart: nat, blkCnt: nat, last: nat, buf: nat, tmp: nat, ghost from: nat, ghost whole: nat)
      returns (bytes: nat)
      requires Valid() && Fits(blkStart, blkCnt, last, buf, tmp, from, whole)
      modifies this`disk, this`ram, des
      ensures Valid() && SameOutside(ram, old(ram), tmp, blocksize) && bytes == whole + last
      ensures WrittenParts(disk, old(disk), old(ram), from, buf, whole, last, blocksize)
    {
      var lastData, lastBlk := RestPlace(blkStart, blkCnt, last, buf, tmp, from, whole);
      ghost var first, memory := disk, ram;
      bytes := WriteSteps(blkStart, blkCnt, buf, from, whole);
      ghost var middle := disk;
      var more := WriteRest(lastBlk, lastData, last, tmp, from + whole);
      bytes := bytes + more;
      PartsWritten(first, middle, disk, memory, from, buf, whole, last, blocksize);
    }

    /** mmcdev_write; tmp is the address of the zeroed block that zmalloc returned. */
    method MmcWrite(from: nat, buf: nat, size0: nat, tmp: nat) returns (ret: int)
      requires Valid() && Geometry() && from + size0 < TWO_64 && size0 / blocksize < TWO_31
      requires buf + size0 <= |ram| && tmp + blocksize <= |ram| && Apart(buf, size0, tmp, blocksize)
      modifies this`disk, this`ram, des
      ensures Valid() && SameOutside(ram, old(ram), tmp, blocksize)
      ensures if from >= capacity || from % blocksize != 0 then ret == -EINVAL && disk == old(disk)
              else ret == Clipped(from, size0, capacity) && Stored(disk, old(disk), old(ram), from, buf, ret, blocksize)
    {
      var size: nat;
      ret, size := CheckAlign(from, size0);
      if ret != 0 { return; }
      var blkStart, blkCnt, last, whole := Split(from, size, size0, buf, tmp);
      ret := WriteParts(blkStart, blkCnt, last, buf, tmp, from, whole);
      AllStored(disk, old(disk), old(ram), from, buf, whole, last, size, blocksize);
    }

    /** The last, partial block of a read, by way of a block at tmp. */
    method ReadTail(blk: nat, lastData: nat, last: nat, tmp: nat, ghost at: nat)
      requires Valid() && 0 < last < blocksize && at == blk * blocksize && at + blocksize <= |disk|
      requires lastData + last <= |ram| && tmp + blocksize <= |ram| && Apart(lastData, last, tmp, blocksize)
      modifies this`ram, des
      ensures Valid() && |ram| == |old(ram)|
              && SameOutside(ram, Write(old(ram), lastData, disk[at..at + last]), tmp, blocksize)
    {
      ghost var before := ram;
      assert 1 * blocksize == blocksize;
      var done := DevRead(blk, 1, tmp, at, blocksize);
      CopiedIs(ram, before, tmp, disk, at, blocksize);
      BlockCopied(before, tmp, disk[at..at + blocksize], lastData, last);
      assert disk[at..at + blocksize][..last] == disk[at..at + last];
      ram := Write(ram, lastData, ram[tmp..tmp + last]);
    }

    /** What is left of a read behind the whole blocks. */
    method ReadRest(blk: nat, lastData: nat, last: nat, tmp: nat, ghost at: nat) returns (bytes: nat)
      requires Valid() && last < blocksize && at == blk * blocksize && at + last <= |disk|
      requires last > 0 ==> at + blocksize <= |disk|
      requires lastData + last <= |ram| && tmp + blocksize <= |ram| && Apart(lastData, last, tmp, blocksize)
      modifies this`ram, des
      ensures Valid() && |ram| == |old(ram)| && bytes == last
      ensures RestRead(ram, old(ram), disk, at, lastData, last, tmp, blocksize)
    {
      if last != 0 {
        ReadTail(blk, lastData, last, tmp, at);
      }
      bytes := last;
    }

    /** The transfers of mmcdev_read. */
    method ReadParts(blkStart: nat, blkCnt: nat, last: nat, buf: nat, tmp: nat, ghost from: nat, ghost whole: nat)
      returns (bytes: nat)
      requires Valid() && Fits(blkStart, blkCnt, last, buf, tmp, from, whole)
      modifies this`ram, des
      ensures Valid() && |ram| == |old(ram)| && bytes == whole + last && from + bytes <= |disk|
      ensures SameOutside(ram, Write(old(ram), buf, disk[from..from + bytes]), tmp, blocksize)
    {
      ghost var first := ram;
      var lastData, lastBlk := RestPlace(blkStart, blkCnt, last, buf, tmp, from, whole);
      bytes := ReadSteps(blkStart, blkCnt, buf, from, whole);
      ghost var middle := ram;
      var more := ReadRest(lastBlk, lastData, last, tmp, from + whole);
      bytes := bytes + more;
      PartsRead(first, middle, ram, disk, buf, from, whole, last, tmp, blocksize);
    }

    /** mmcdev_read; tmp is the address of the block that malloc returned. */
    method MmcRead(from: nat, buf: nat, size0: nat, tmp: nat) returns (ret: int)
      requires Valid() && Geometry() && from + size0 < TWO_64 && size0 / blocksize < TWO_31
      requires buf + size0 <= |ram| && tmp + blocksize <= |ram| && Apart(buf, size0, tmp, blocksize)
      modifies this`ram, des
      ensures Valid() && |ram| == |old(ram)|
      ensures if from >= capacity || from % blocksize != 0 then ret == -EINVAL && ram == old(ram)
              else ret == Clipped(from, size0, capacity) &&
                   SameOutside(ram, Write(old(ram), buf, disk[from..from + ret]), tmp, blocksize)
    {
      var size: nat;
      ret, size := CheckAlign(from, size0);
      if ret != 0 { return; }
      var blkStart, blkCnt, last, whole := Split(from, size, size0, buf, tmp);
      ret := ReadParts(blkStart, blkCnt, last, buf, tmp, from, whole);
    }

    /** What was written is read back: mmcdev_write, then mmcdev_read of the same range into another buffer. */
    method WriteThenRead(from: nat, buf: nat, back: nat, size0: nat, tmp: nat) returns (ret: int)
      requires Valid() && Geometry() && from < capacity && from % blocksize == 0
      requires from + size0 < TWO_64 && size0 / blocksize < TWO_31
      requires buf + size0 <= |ram| && back + size0 <= |ram| && tmp + blocksize <= |ram|
      requires Apart(buf, size0, tmp, blocksize) && Apart(back, size0, tmp, blocksize)
      modifies this`disk, this`ram, des
      ensures 0 <= ret == Clipped(from, size0, capacity) && |ram| == |old(ram)| && |disk| == |old(disk)| == capacity
      ensures ram[back..back + ret] == old(ram)[buf..buf + ret]
      ensures forall i :: 0 <= i < capacity && (i < from || i >= from + ret + PadLength(ret, blocksize)) ==>
                disk[i] == old(disk)[i]
    {
      ghost var before, memory := disk, ram;
      ret := MmcWrite(from, buf, size0, tmp);
      StoredReads(disk, before, memory, from, buf, ret, blocksize);
      ghost var between := ram;
      ret := MmcRead(from, back, size0, tmp);
      ReadBack(ram, between, back, disk[from..from + ret], tmp, blocksize);
    }
  }

  /** n bytes of src were copied to before. The quantifier keeps the value of Write out of proofs that only pass this
      on. */
  ghost predicate Copied(after: seq<byte>, before: seq<byte>, at: nat, src: seq<byte>, from: nat, n: nat) {
    && at + n <= |before| == |after| && from + n <= |src|
    && forall b {:trigger Write(before, at, b)} :: b == src[from..from + n] ==> after == Write(before, at, b)
  }

  lemma {:induction false} CopiedIs(after: seq<byte>, before: seq<byte>, at: nat, src: seq<byte>, from: nat, n: nat)
    requires at + n <= |before| && from + n <= |src|
    ensures Copied(after, before, at, src, from, n) <==> after == Write(before, at, src[from..from + n])
  {
    var w := Write(before, at, src[from..from + n]);
  }

  predicate Apart(a: nat, m: nat, b: nat, n: nat) {
    a + m <= b || b + n <= a
  }

  predicate SameOutside(x: seq<byte>, y: seq<byte>, a: nat, n: nat) {
    |x| == |y| && forall i :: 0 <= i < |x| && !(a <= i < a + n) ==> x[i] == y[i]
  }

  /** The device holds size bytes of memory at from, then zeros up to the end of the block, and is else unchanged. */
  predicate Stored(disk: seq<byte>, before: seq<byte>, ram: seq<byte>, from: nat, buf: nat, size: nat, b: nat)
    requires b > 0
  {
    && buf + size <= |ram| && from + size + PadLength(size, b) <= |before|
    && disk == Write(before, from, ram[buf..buf + size] + Zeros(PadLength(size, b)))
  }

  /** A clipped request, cut into whole blocks and a rest. */
  lemma {:induction false} BlockParts(from: nat, size: nat, size0: nat, total: nat, b: nat)
    requires b > 0 && total % b == 0 && from % b == 0 && from < total && size == Clipped(from, size0, total)
    ensures (from / b) * b == from && size == (size / b) * b + size % b && 0 <= size % b < b
    ensures size / b >= 0 && size / b <= size0 / b && 1 * b == b
    ensures (from / b) * b + (size / b) * b <= from + size <= total
    ensures (from / b + size / b) * b == from + (size / b) * b
    ensures size % b != 0 ==> from + (size / b) * b + b <= total && PadLength(size, b) == b - size % b
  {
    assert from == (from / b) * b + from % b && size == (size / b) * b + size % b;
    Times(from / b, size / b, b);
    DivMonotone(size, size0, b);
    if size % b != 0 { NextBlock(from / b + size / b, total, b); }
  }

  lemma {:induction false} DivMonotone(x: nat, y: nat, b: nat)
    requires x <= y && b > 0
    ensures 0 <= x / b <= y / b
  {
    assert x == (x / b) * b + x % b && y == (y / b) * b + y % b;
    if x / b > y / b { TimesMonotone(y / b + 1, x / b, b); Times(y / b, 1, b); }
  }

  lemma {:induction false} NextBlock(k: nat, total: nat, b: nat)
    requires b > 0 && total % b == 0 && k * b < total
    ensures k * b + b <= total
  {
    assert total == (total / b) * b;
    if total / b <= k { TimesMonotone(total / b, k, b); }
    TimesMonotone(k + 1, total / b, b);
    Times(k, 1, b);
  }

  /** The temporary block: the last bytes, then zeros. */
  lemma {:induction false} TailBlock(ram: seq<byte>, tmp: nat, b: nat, at: nat, last: nat)
    requires tmp + b <= |ram| && at + last <= |ram| && last <= b && Apart(at, last, tmp, b)
    ensures var r := Write(ram, tmp, Zeros(b)); var t := Write(r, tmp, r[at..at + last]);
            && t[tmp..tmp + b] == ram[at..at + last] + Zeros(b - last)
            && SameOutside(t, ram, tmp, b)
  {
    var r := Write(ram, tmp, Zeros(b));
    assert r[at..at + last] == ram[at..at + last];
    var t := Write(r, tmp, r[at..at + last]);
    assert t[tmp..tmp + b] == ram[at..at + last] + Zeros(b)[last..];
    assert Zeros(b)[last..] == Zeros(b - last);
  }

  /** The whole blocks, then the padded tail if there is one. */
  ghost predicate WrittenParts(disk: seq<byte>, first: seq<byte>, ram: seq<byte>, from: nat, buf: nat, whole: nat,
                               last: nat, b: nat) {
    && last < b && buf + whole + last <= |ram| && from + whole <= |first| && (last > 0 ==> from + whole + b <= |first|)
    && RestWritten(disk, Write(first, from, ram[buf..buf + whole]), ram, from + whole, buf + whole, last, b)
  }

  /** The padded tail, if there is one. */
  ghost predicate RestWritten(disk: seq<byte>, before: seq<byte>, ram: seq<byte>, at: nat, data: nat, last: nat,
                              b: nat) {
    && last < b && data + last <= |ram| && (last > 0 ==> at + b <= |before|)
    && disk == if last == 0 then before else Write(before, at, ram[data..data + last] + Zeros(b - last))
  }

  /** The last bytes, if there are any, with the temporary block at tmp free to change. */
  ghost predicate RestRead(ram: seq<byte>, before: seq<byte>, disk: seq<byte>, at: nat, data: nat, last: nat, tmp: nat,
                           b: nat) {
    && data + last <= |before| && at + last <= |disk|
    && if last == 0 then ram == before else SameOutside(ram, Write(before, data, disk[at..at + last]), tmp, b)
  }

  /** The whole blocks and the padded tail together are the padded buffer. */
  lemma {:induction false} AllStored(disk: seq<byte>, first: seq<byte>, ram: seq<byte>, from: nat, buf: nat,
                                     whole: nat, last: nat, size: nat, b: nat)
    requires b > 0 && size == whole + last && size % b == last
    requires WrittenParts(disk, first, ram, from, buf, whole, last, b)
    ensures Stored(disk, first, ram, from, buf, size, b)
  {
    var a, c, z := ram[buf..buf + whole], ram[buf + whole..buf + whole + last], Zeros(PadLength(size, b));
    if last > 0 {
      WriteTwice(first, from, a, c + z);
      assert a + (c + z) == ram[buf..buf + size] + z;
    } else {
      assert a + z == a;
    }
  }

  /** Copying from a block just written beside the target. */
  lemma {:induction false} BlockCopied(ram: seq<byte>, tmp: nat, block: seq<byte>, at: nat, n: nat)
    requires tmp + |block| <= |ram| && n <= |block| && at + n <= |ram| && Apart(at, n, tmp, |block|)
    ensures var r := Write(ram, tmp, block);
            SameOutside(Write(r, at, r[tmp..tmp + n]), Write(ram, at, block[..n]), tmp, |block|)
  {
    var r := Write(ram, tmp, block);
    assert r[tmp..tmp + n] == block[..n];
  }

  lemma {:induction false} StoredReads(disk: seq<byte>, before: seq<byte>, ram: seq<byte>, from: nat, buf: nat,
                                       size: nat, b: nat)
    requires b > 0 && Stored(disk, before, ram, from, buf, size, b)
    ensures from + size <= |disk| == |before| && disk[from..from + size] == ram[buf..buf + size]
    ensures forall i :: 0 <= i < |disk| && (i < from || i >= from + size + PadLength(size, b)) ==> disk[i] == before[i]
  {
    assert disk[from..from + size] == (ram[buf..buf + size] + Zeros(PadLength(size, b)))[..size];
  }

  lemma {:induction false} ReadBack(ram: seq<byte>, between: seq<byte>, at: nat, data: seq<byte>, tmp: nat, b: nat)
    requires at + |data| <= |between| && Apart(at, |data|, tmp, b) && SameOutside(ram, Write(between, at, data), tmp, b)
    ensures ram[at..at + |data|] == data
  {
  }

  /** Advancing by one step, in blocks and in bytes. */
  lemma {:induction false} NextStep(cnt: nat, step: nat, blk: nat, b: nat, at: nat, left: int, more: int)
    requires step <= cnt && at == blk * b && left == cnt * b && more == step * b
    ensures (blk + step) * b == at + more && b * step == more
    ensures (cnt - step) * b == left - more && 0 <= more <= left
  {
    Times(blk, step, b);
    Times(cnt - step, step, b);
    TimesMonotone(step, cnt, b);
    TimesMonotone(0, step, b);
  }

  lemma {:induction false} Nothing(m: seq<byte>, at: nat, src: seq<byte>, from: nat)
    requires at <= |m| && from <= |src|
    ensures Copied(m, m, at, src, from, 0)
  {
    assert m == Write(m, at, src[from..from + 0]);
    CopiedIs(m, m, at, src, from, 0);
  }

  /** The whole blocks, then what RestWritten says. */
  lemma {:induction false} PartsWritten(first: seq<byte>, middle: seq<byte>, disk: seq<byte>, ram: seq<byte>, from: nat,
                                        buf: nat, whole: nat, last: nat, b: nat)
    requires buf + whole + last <= |ram| && from + whole <= |first| && (last > 0 ==> from + whole + b <= |first|)
    requires Copied(middle, first, from, ram, buf, whole)
    requires RestWritten(disk, middle, ram, from + whole, buf + whole, last, b)
    ensures WrittenParts(disk, first, ram, from, buf, whole, last, b)
  {
    CopiedIs(middle, first, from, ram, buf, whole);
  }

  /** The whole blocks and the rest together are the bytes asked for. */
  lemma {:induction false} PartsRead(first: seq<byte>, middle: seq<byte>, ram: seq<byte>, disk: seq<byte>, buf: nat,
                                     from: nat,
                                     whole: nat, last: nat, tmp: nat, b: nat)
    requires buf + whole + last <= |first| && from + whole + last <= |disk|
    requires Copied(middle, first, buf, disk, from, whole)
    requires RestRead(ram, middle, disk, from + whole, buf + whole, last, tmp, b)
    ensures SameOutside(ram, Write(first, buf, disk[from..from + (whole + last)]), tmp, b)
  {
    CopiedIs(middle, first, buf, disk, from, whole);
    WriteSlices(first, buf, disk, from, whole, last);
    assert from + (whole + last) == from + whole + last;
  }

  /** Writing one slice behind another is writing both at once. */
  lemma {:induction false} WriteSlices(m: seq<byte>, at: nat, src: seq<byte>, from: nat, a: nat, b: nat)
    requires at + a + b <= |m| && from + a + b <= |src|
    ensures Write(Write(m, at, src[from..from + a]), at + a, src[from + a..from + a + b])
            == Write(m, at, src[from..from + a + b])
  {
    WriteTwice(m, at, src[from..from + a], src[from + a..from + a + b]);
    assert src[from..from + a] + src[from + a..from + a + b] == src[from..from + a + b];
  }

  /** One step of a copy from src to m: done bytes were copied, and more follow them. */
  lemma {:induction false} Round(m: seq<byte>, before: seq<byte>, after: seq<byte>, src: seq<byte>, at: nat, from: nat,
                                 done: nat, more: nat)
    requires at + done + more <= |m| && from + done + more <= |src|
    requires Copied(before, m, at, src, from, done) && Copied(after, before, at + done, src, from + done, more)
    ensures Copied(after, m, at, src, from, done + more)
  {
    CopiedIs(before, m, at, src, from, done);
    CopiedIs(after, before, at + done, src, from + done, more);
    WriteSlices(m, at, src, from, done, more);
    assert from + done + more == from + (done + more);
    CopiedIs(after, m, at, src, from, done + more);
  }

  /** A step never exceeds the descriptor table. */
  lemma {:induction false} StepSize(step: nat, blocksize: nat)
    requires 0 < step <= STEP_BLOCKS && 0 < blocksize <= 512
    ensures 0 < step * blocksize <= 0x200_0000
    ensures 0 < EntryCount(step * blocksize) <= 8192
  {
    TimesPositive(step, blocksize);
    TimesMonotone(step, STEP_BLOCKS, blocksize);
  }
}
