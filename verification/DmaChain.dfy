/** The descriptor chain of one transfer, and what a controller following it reads or writes. */
module DmaChain {
  import opened Words
  import opened MemCpy

  const BUFFER_SIZE: nat := 0x1000
  const MAX_DES: nat := 20480
  const DES_BYTES: nat := 16

  /** The control bits of a descriptor: owned by the controller, chained, first, last. */
  datatype Ctrl = Ctrl(own: bool, chained: bool, first: bool, last: bool)

  datatype Des = Des(ctrl: Ctrl, size: word, addr: word, next: word)

  /** Entries needed for size bytes. */
  function EntryCount(size: nat): nat {
    (size + BUFFER_SIZE - 1) / BUFFER_SIZE
  }

  lemma {:induction false} EntryBounds(size: nat, k: nat)
    ensures k < EntryCount(size) <==> k * BUFFER_SIZE < size
    ensures k + 1 == EntryCount(size) <==> k * BUFFER_SIZE < size <= (k + 1) * BUFFER_SIZE
  {
    var n := EntryCount(size);
    assert size + BUFFER_SIZE - 1 == n * BUFFER_SIZE + (size + BUFFER_SIZE - 1) % BUFFER_SIZE;
  }

  /** Entry k of the chain for size bytes at src, with the table at base. */
  function Entry(size: nat, src: nat, base: nat, k: nat): Des
    requires k < EntryCount(size) && k < MAX_DES && src + size <= TWO_32 && base + DES_BYTES * MAX_DES < TWO_32
  {
    EntryBounds(size, k);
    var last := k + 1 == EntryCount(size);
    var left := size - k * BUFFER_SIZE;
    Des(Ctrl(true, true, k == 0, last),
        if left < BUFFER_SIZE then left else BUFFER_SIZE,
        src + k * BUFFER_SIZE,
        if last then 0 else base + DES_BYTES * (k + 1))
  }

  /** The table holds the chain. */
  ghost predicate Chain(des: seq<Des>, size: nat, src: nat, base: nat) {
    && 0 < EntryCount(size) <= MAX_DES && src + size <= TWO_32 && base + DES_BYTES * MAX_DES < TWO_32
    && EntryCount(size) <= |des|
    && forall k :: 0 <= k < EntryCount(size) ==> des[k] == Entry(size, src, base, k)
  }

  /** The entry as the loop leaves it, before the first and last marks are set. */
  function Bare(size: nat, src: nat, base: nat, k: nat): Des
    requires k < EntryCount(size) && k < MAX_DES && src + size <= TWO_32 && base + DES_BYTES * MAX_DES < TWO_32
  {
    Entry(size, src, base, k).(ctrl := Ctrl(true, true, false, false), next := base + DES_BYTES * (k + 1))
  }

  /** The limit test of hi_mci_setup_data, which adds modulo 2^32. */
  predicate PastLimit(size: word) {
    U32(size + BUFFER_SIZE - 1) / BUFFER_SIZE > MAX_DES
  }

  /** The limit test says whether the table is too short. */
  ghost predicate Judged(size: word) {
    PastLimit(size) <==> EntryCount(size) > MAX_DES
  }

  /** The limit test is right exactly up to the size for which the sum wraps around. */
  lemma {:induction false} LimitTestExact(size: word)
    ensures Judged(size) <==> size <= TWO_32 - BUFFER_SIZE
    ensures size > TWO_32 - BUFFER_SIZE ==> !PastLimit(size)
  {
    if size > TWO_32 - BUFFER_SIZE { assert U32(size + BUFFER_SIZE - 1) / BUFFER_SIZE == 0; }
  }

  /** Whole blocks reach the sizes that are judged wrongly: 8388601 blocks of 512 bytes. */
  lemma {:induction false} LimitTestWraps()
    ensures 8388601 * 512 == 0xFFFF_F200 && !PastLimit(0xFFFF_F200) && EntryCount(0xFFFF_F200) > MAX_DES
  {
    LimitTestExact(0xFFFF_F200);
  }

  /** A transfer is refused, its chain is ready, or the next write would go to an entry outside the table. */
  datatype Outcome = Refused | Ready | Overrun

  /** The sizes that lead outside the table. Size 0 passes the limit test and makes no entry, and the last marking goes
      to des[-1]; sizes past 2^32 - 4096 pass it although the table is too short. */
  predicate Overruns(size: word) {
    size == 0 || size > TWO_32 - BUFFER_SIZE
  }

  /** hi_mci_setup_data, up to a write outside the table. */
  method SetupData(des: array<Des>, base: nat, blocks: word, blocksize: word, src0: word) returns (out: Outcome)
    requires des.Length == MAX_DES && base + DES_BYTES * MAX_DES < TWO_32
    requires src0 + U32(blocks * blocksize) <= TWO_32
    modifies des
    ensures var size := U32(blocks * blocksize);
            && (out == Overrun <==> Overruns(size))
            && (out == Refused <==> !Overruns(size) && EntryCount(size) > MAX_DES)
            && (out == Ready ==> Chain(des[..], size, src0, base))
            && (out == Refused ==> des[..] == old(des[..]))
  {
    var size := U32(blocks * blocksize);
    LimitTestExact(size);
    var dataSize: nat, src := size, src0;
    if PastLimit(size) {
      return Refused;
    }
    var cnt := 0;
    while dataSize > 0
      invariant 0 <= cnt <= EntryCount(size) && cnt <= MAX_DES
      invariant dataSize == if cnt * BUFFER_SIZE < size then size - cnt * BUFFER_SIZE else 0
      invariant dataSize > 0 ==> src == src0 + cnt * BUFFER_SIZE
      invariant dataSize == 0 ==> cnt == EntryCount(size)
      invariant forall k :: 0 <= k < cnt ==> des[k] == Bare(size, src0, base, k)
      decreases dataSize
    {
      EntryBounds(size, cnt);
      EntryBounds(size, cnt + 1);
      if cnt == MAX_DES { return Overrun; }
      var next := base + DES_BYTES * (cnt + 1);
      if dataSize >= BUFFER_SIZE {
        des[cnt] := Des(Ctrl(true, true, false, false), BUFFER_SIZE, src, next);
        dataSize := dataSize - BUFFER_SIZE;
        src := src + BUFFER_SIZE;
      } else {
        des[cnt] := Des(Ctrl(true, true, false, false), dataSize, src, next);
        dataSize := 0;
      }
      cnt := cnt + 1;
    }
    des[0] := des[0].(ctrl := des[0].ctrl.(first := true));
    if cnt == 0 { return Overrun; }
    des[cnt - 1] := des[cnt - 1].(ctrl := des[cnt - 1].ctrl.(last := true));
    des[cnt - 1] := des[cnt - 1].(next := 0);
    return Ready;
  }

  // ---------------------------------------------------------------- following the chain

  /** The entries a controller visits from entry i on: those it owns, by the next pointers where they count, up to the
      last mark or n entries. */
  function Path(des: seq<Des>, base: nat, i: nat, n: nat): seq<nat>
    decreases n
  {
    if n == 0 || i >= |des| || !des[i].ctrl.own then [] else if des[i].ctrl.last then [i]
    else if !des[i].ctrl.chained || des[i].next < base then [i]
    else [i] + Path(des, base, (des[i].next - base) / DES_BYTES, n - 1)
  }

  /** The entries from i up to n, in order */
  function Range(i: nat, n: nat): (r: seq<nat>)
    requires i <= n
    ensures |r| == n - i
    decreases n - i
  {
    if i == n then [] else [i] + Range(i + 1, n)
  }

  /** The walk visits the entries in order and stops by itself after the last: a longer allowance changes nothing. */
  lemma {:induction false} PathIsRange(des: seq<Des>, size: nat, src: nat, base: nat, i: nat, n: nat)
    requires Chain(des, size, src, base) && i < EntryCount(size) && n >= EntryCount(size) - i
    ensures Path(des, base, i, n) == Range(i, EntryCount(size))
    decreases n
  {
    assert des[i] == Entry(size, src, base, i);
    if i + 1 == EntryCount(size) {
      assert Range(i, EntryCount(size)) == [i] + Range(i + 1, EntryCount(size));
    } else {
      assert (des[i].next - base) / DES_BYTES == i + 1;
      PathIsRange(des, size, src, base, i + 1, n - 1);
    }
  }

  /** The marks and sizes of a chain: the first entry alone is marked first, the last alone is marked last and has no
      next,
      and all before it are full. */
  lemma {:induction false} ChainMarks(des: seq<Des>, size: nat, src: nat, base: nat, k: nat)
    requires Chain(des, size, src, base) && k < EntryCount(size)
    ensures des[k].ctrl.own && des[k].ctrl.chained && (des[k].ctrl.first <==> k == 0)
    ensures des[k].ctrl.last <==> k + 1 == EntryCount(size)
    ensures 0 < des[k].size <= 4096 && (k + 1 < EntryCount(size) ==> des[k].size == 4096)
    ensures k + 1 == EntryCount(size) ==> des[k].next == 0
  {
    assert des[k] == Entry(size, src, base, k);
    EntryBounds(size, k);
    EntryBounds(size, k + 1);
  }

  /** Every entry of a path lies in the table, and its buffer in memory. */
  predicate PathFits(des: seq<Des>, path: seq<nat>, ram: nat) {
    forall i :: 0 <= i < |path| ==> path[i] < |des| && des[path[i]].addr + des[path[i]].size <= ram
  }

  /** What the controller reads from memory along a path. */
  function Gather(ram: seq<byte>, des: seq<Des>, path: seq<nat>): seq<byte>
    requires PathFits(des, path, |ram|)
  {
    if path == [] then [] else
      var d := des[path[0]];
      ram[d.addr..d.addr + d.size] + Gather(ram, des, path[1..])
  }

  /** What the controller makes of memory when the data arrives along a path. */
  function Scatter(ram: seq<byte>, des: seq<Des>, path: seq<nat>, data: seq<byte>): (r: seq<byte>)
    requires PathFits(des, path, |ram|)
    ensures |r| == |ram|
    decreases |path|
  {
    if path == [] || des[path[0]].size > |data| then ram else
      var d := des[path[0]];
      Scatter(Write(ram, d.addr, data[..d.size]), des, path[1..], data[d.size..])
  }

  lemma {:induction false} RangeMembers(des: seq<Des>, size: nat, src: nat, base: nat, ram: nat, i: nat)
    requires Chain(des, size, src, base) && i <= EntryCount(size) && src + size <= ram
    ensures PathFits(des, Range(i, EntryCount(size)), ram)
    decreases EntryCount(size) - i
  {
    if i < EntryCount(size) {
      RangeMembers(des, size, src, base, ram, i + 1);
      assert des[i] == Entry(size, src, base, i);
      EntryBounds(size, i);
    }
  }

  lemma {:induction false} EntrySpan(size: nat, src: nat, base: nat, i: nat)
    requires i < EntryCount(size) <= MAX_DES && src + size <= TWO_32 && base + DES_BYTES * MAX_DES < TWO_32
    ensures var d := Entry(size, src, base, i);
            && d.addr == src + i * BUFFER_SIZE && 0 < d.size <= BUFFER_SIZE
            && d.addr + d.size <= src + size
            && (if i + 1 == EntryCount(size) then d.addr + d.size == src + size else d.size == BUFFER_SIZE)
  {
    EntryBounds(size, i);
    EntryBounds(size, i + 1);
  }

  /** The pieces of a path lie one behind the other, n bytes from a on. */
  ghost predicate Contiguous(des: seq<Des>, path: seq<nat>, a: nat, n: nat)
    decreases |path|
  {
    if path == [] then n == 0
    else path[0] < |des| && des[path[0]].addr == a && des[path[0]].size <= n
         && Contiguous(des, path[1..], a + des[path[0]].size, n - des[path[0]].size)
  }

  /** The chain covers its buffer in order, each byte once. */
  lemma {:induction false} ChainContiguous(des: seq<Des>, size: nat, src: nat, base: nat, i: nat)
    requires Chain(des, size, src, base) && i < EntryCount(size)
    ensures i * BUFFER_SIZE <= size
    ensures Contiguous(des, Range(i, EntryCount(size)), src + i * BUFFER_SIZE, size - i * BUFFER_SIZE)
    decreases EntryCount(size) - i
  {
    EntrySpan(size, src, base, i);
    assert des[i] == Entry(size, src, base, i);
    var r := Range(i, EntryCount(size));
    assert r[0] == i && r[1..] == Range(i + 1, EntryCount(size));
    if i + 1 < EntryCount(size) {
      ChainContiguous(des, size, src, base, i + 1);
    }
  }

  /** Reading contiguous pieces reads the stretch they cover. */
  lemma {:induction false} GatherOn(ram: seq<byte>, des: seq<Des>, path: seq<nat>, a: nat, k: nat, rest: seq<byte>)
    requires PathFits(des, path, |ram|) && path != [] && des[path[0]].addr == a && des[path[0]].size == k
    requires Gather(ram, des, path[1..]) == rest
    ensures Gather(ram, des, path) == ram[a..a + k] + rest
  {
  }

  lemma {:induction false} GatherStretch(ram: seq<byte>, des: seq<Des>, path: seq<nat>, a: nat, n: nat)
    requires Contiguous(des, path, a, n) && a + n <= |ram| && PathFits(des, path, |ram|)
    ensures Gather(ram, des, path) == ram[a..a + n]
    decreases |path|
  {
    if path != [] {
      var k: nat := des[path[0]].size;
      GatherStretch(ram, des, path[1..], a + k, n - k);
      GatherOn(ram, des, path, a, k, ram[a + k..a + k + (n - k)]);
      Adjacent(ram, a, k, n - k);
    }
  }

  lemma {:induction false} PieceWritten(ram: seq<byte>, a: nat, data: seq<byte>, k: nat)
    requires k <= |data| && a + |data| <= |ram|
    ensures Write(Write(ram, a, data[..k]), a + k, data[k..]) == Write(ram, a, data)
  {
    WriteTwice(ram, a, data[..k], data[k..]);
    assert data[..k] + data[k..] == data;
  }

  /** Data arriving in contiguous pieces fills exactly the stretch they cover. */
  lemma {:induction false} ScatterStretch(ram: seq<byte>, des: seq<Des>, path: seq<nat>, a: nat, data: seq<byte>)
    requires Contiguous(des, path, a, |data|) && a + |data| <= |ram| && PathFits(des, path, |ram|)
    ensures Scatter(ram, des, path, data) == Write(ram, a, data)
    decreases |path|
  {
    if path == [] {
      assert Write(ram, a, data) == ram;
    } else {
      var k := des[path[0]].size;
      ScatterStretch(Write(ram, a, data[..k]), des, path[1..], a + k, data[k..]);
      PieceWritten(ram, a, data, k);
    }
  }

  /** A controller following the chain reads its buffer, or fills it, and nothing else. */
  ghost predicate Transfers(ram: seq<byte>, des: seq<Des>, path: seq<nat>, buf: nat, size: nat) {
    && buf + size <= |ram| && PathFits(des, path, |ram|)
    && Gather(ram, des, path) == ram[buf..buf + size]
    && forall data :: |data| == size ==> Scatter(ram, des, path, data) == Write(ram, buf, data)
  }

  /** Contiguous pieces transfer the stretch they cover. */
  lemma {:induction false} StretchTransfers(ram: seq<byte>, des: seq<Des>, path: seq<nat>, buf: nat, size: nat)
    requires Contiguous(des, path, buf, size) && buf + size <= |ram| && PathFits(des, path, |ram|)
    ensures Transfers(ram, des, path, buf, size)
  {
    GatherStretch(ram, des, path, buf, size);
    forall data: seq<byte> | |data| == size
      ensures Scatter(ram, des, path, data) == Write(ram, buf, data)
    {
      ScatterStretch(ram, des, path, buf, data);
    }
  }

  /** A controller started on the chain, and allowed n entries or more than it needs, transfers its buffer exactly. */
  lemma {:induction false} ChainTransfers(ram: seq<byte>, des: seq<Des>, size: nat, buf: nat, base: nat, n: nat)
    requires Chain(des, size, buf, base) && buf + size <= |ram| && n >= EntryCount(size)
    ensures var path := Path(des, base, 0, n);
            |path| == EntryCount(size) <= MAX_DES && Transfers(ram, des, path, buf, size)
  {
    PathIsRange(des, size, buf, base, 0, n);
    RangeTransfers(ram, des, size, buf, base);
  }

  lemma {:induction false} RangeTransfers(ram: seq<byte>, des: seq<Des>, size: nat, buf: nat, base: nat)
    requires Chain(des, size, buf, base) && buf + size <= |ram|
    ensures Transfers(ram, des, Range(0, EntryCount(size)), buf, size)
  {
    RangeMembers(des, size, buf, base, |ram|, 0);
    ChainContiguous(des, size, buf, base, 0);
    StretchTransfers(ram, des, Range(0, EntryCount(size)), buf, size);
  }
}
