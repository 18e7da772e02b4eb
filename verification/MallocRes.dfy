/** Accounting of the reserve allocations: two pairs of counters beside a table of what is in use. */
module MallocRes {
  import opened Options
  import opened Words
  import opened HushTable

  const ENOMEM: int := 12
  const DEPTH: nat := 40

  /** An alloc_t: where the allocation was made, its address and its size */
  datatype Alloc = Alloc(file: string, line: int, ptr: word, bytes: word)

  /** The bytes of the entries at these addresses. */
  function Total(nodes: map<nat, Node<Alloc>>, s: seq<nat>): nat {
    if s == [] then 0 else (if s[0] in nodes then nodes[s[0]].data.bytes else 0) + Total(nodes, s[1..])
  }

  lemma {:induction false} TotalAppend(nodes: map<nat, Node<Alloc>>, a: seq<nat>, b: seq<nat>)
    ensures Total(nodes, a + b) == Total(nodes, a) + Total(nodes, b)
  {
    if a == [] {
      assert a + b == b;
    } else {
      TotalAppend(nodes, a[1..], b);
      assert (a + b)[1..] == a[1..] + b;
    }
  }

  lemma {:induction false} TotalSame(nodes: map<nat, Node<Alloc>>, after: map<nat, Node<Alloc>>, s: seq<nat>)
    requires forall i :: 0 <= i < |s| ==> SameData(nodes, after, s[i])
    ensures Total(after, s) == Total(nodes, s)
  {
    if s != [] {
      assert SameData(nodes, after, s[0]);
      TotalSame(nodes, after, s[1..]);
    }
  }

  lemma {:induction false} TotalOne(nodes: map<nat, Node<Alloc>>, a: nat)
    requires a in nodes
    ensures Total(nodes, [a]) == nodes[a].data.bytes
  {
  }

  /** Splitting a total at one address. */
  lemma {:induction false} TotalAround(nodes: map<nat, Node<Alloc>>, x: seq<nat>, a: nat, y: seq<nat>)
    requires a in nodes
    ensures Total(nodes, x + [a] + y) == Total(nodes, x + y) + nodes[a].data.bytes
  {
    TotalAppend(nodes, x + [a], y);
    TotalAppend(nodes, x, [a]);
    TotalAppend(nodes, x, y);
    TotalOne(nodes, a);
  }

  /** Where a new entry comes in the order of all entries. */
  lemma {:induction false} FlattenAdded(cs: seq<seq<nat>>, p: nat, a: nat) returns (x: seq<nat>, y: seq<nat>)
    requires p < |cs|
    ensures Flatten(cs) == x + y && Flatten(cs[p := Added(cs[p], a)]) == x + [a] + y
  {
    FlattenAt(cs, p);
    FlattenUpdate(cs, p, Added(cs[p], a));
    var h := if cs[p] == [] then 0 else 1;
    x, y := Flatten(cs[..p]) + cs[p][..h], cs[p][h..] + Flatten(cs[p + 1..]);
    assert cs[p] == cs[p][..h] + cs[p][h..];
    assert Added(cs[p], a) == cs[p][..h] + [a] + cs[p][h..];
  }

  lemma {:induction false} FlattenCut(cs: seq<seq<nat>>, p: nat, i: nat) returns (x: seq<nat>, y: seq<nat>)
    requires p < |cs| && i < |cs[p]|
    ensures Flatten(cs) == x + [cs[p][i]] + y && Flatten(cs[p := Cut(cs[p], i)]) == x + y
  {
    FlattenAt(cs, p);
    FlattenUpdate(cs, p, Cut(cs[p], i));
    x, y := Flatten(cs[..p]) + cs[p][..i], cs[p][i + 1..] + Flatten(cs[p + 1..]);
    assert cs[p] == cs[p][..i] + [cs[p][i]] + cs[p][i + 1..];
    assert Cut(cs[p], i) == cs[p][..i] + cs[p][i + 1..];
  }

  /** An entry added anywhere adds its bytes. */
  lemma {:induction false} AddedTotal(nodes: map<nat, Node<Alloc>>, after: map<nat, Node<Alloc>>, cs: seq<seq<nat>>,
                                      p: nat, a: nat)
    requires p < |cs| && a in after && a !in nodes
    requires forall b :: b in nodes ==> SameData(nodes, after, b)
    requires forall b :: b in Flatten(cs) ==> b in nodes
    ensures Total(after, Flatten(cs[p := Added(cs[p], a)])) == Total(nodes, Flatten(cs)) + after[a].data.bytes
  {
    var x, y := FlattenAdded(cs, p, a);
    TotalAround(after, x, a, y);
    TotalSame(nodes, after, x + y);
  }

  /** An entry taken out takes its bytes along. */
  lemma {:induction false} RemovedTotal(nodes: map<nat, Node<Alloc>>, after: map<nat, Node<Alloc>>, cs: seq<seq<nat>>,
                                        p: nat, i: nat)
    requires p < |cs| && i < |cs[p]| && cs[p][i] in nodes
    requires forall b :: b in after ==> SameData(nodes, after, b)
    requires forall b :: b in Flatten(cs[p := Cut(cs[p], i)]) ==> b in after
    ensures Total(nodes, Flatten(cs)) == Total(after, Flatten(cs[p := Cut(cs[p], i)])) + nodes[cs[p][i]].data.bytes
  {
    var x, y := FlattenCut(cs, p, i);
    TotalAround(nodes, x, cs[p][i], y);
    TotalSame(nodes, after, x + y);
  }

  /** Two counters that only go up differ by n, modulo 2^32. */
  ghost predicate Balance(ups: word, downs: word, n: int) {
    U32(ups as int - downs as int) == n % TWO_32
  }

  lemma {:induction false} BalanceUp(ups: word, downs: word, n: int, k: word)
    requires Balance(ups, downs, n)
    ensures Balance(U32(ups as int + k as int), downs, n + k)
  {
    ModAdd(ups as int - downs as int, n, k);
    ModAdd(ups as int + k as int, U32(ups as int + k as int), -(downs as int));
  }

  lemma {:induction false} BalanceDown(ups: word, downs: word, n: int, k: word)
    requires Balance(ups, downs, n)
    ensures Balance(ups, U32(downs as int + k as int), n - k)
  {
    ModAdd(ups as int - downs as int, n, -(k as int));
    ModNeg(downs as int + k as int, U32(downs as int + k as int), ups);
  }

  lemma {:induction false} ModAdd(x: int, y: int, k: int)
    requires x % TWO_32 == y % TWO_32
    ensures (x + k) % TWO_32 == (y + k) % TWO_32
  {
  }

  lemma {:induction false} ModNeg(x: int, y: int, k: int)
    requires x % TWO_32 == y % TWO_32
    ensures (k - x) % TWO_32 == (k - y) % TWO_32
  {
  }

  /** Each entry is filed under the address it accounts for. */
  predicate Filed(nodes: map<nat, Node<Alloc>>) {
    forall a :: a in nodes ==> nodes[a].data.ptr == nodes[a].tag
  }

  /** Some entry accounts for this address. */
  predicate InUse(nodes: map<nat, Node<Alloc>>, ptr: word) {
    exists a :: a in nodes && nodes[a].tag == ptr
  }

  /** The search in the bucket of a tag finds an entry exactly when the whole table has one. */
  lemma {:induction false} LocateExact(nodes: map<nat, Node<Alloc>>, list: seq<nat>, cs: seq<seq<nat>>, tag: word)
    requires Chains(nodes, list, cs)
    ensures var c := cs[Index(tag, |cs|)]; Locate(nodes, c, tag) < |c| <==> InUse(nodes, tag)
  {
    var p := Index(tag, |cs|);
    Bucket(nodes, list, cs, p);
    var i := Locate(nodes, cs[p], tag);
    if i < |cs[p]| {
      assert cs[p][i] in nodes && nodes[cs[p][i]].tag == tag;
    }
    if InUse(nodes, tag) {
      var a :| a in nodes && nodes[a].tag == tag;
      assert a in cs[p];
    }
  }

  /** The counters and the table of one pool. */
  ghost predicate Accounts(nodes: map<nat, Node<Alloc>>, cs: seq<seq<nat>>, nrMalloc: word, nrFree: word,
                           szMalloc: word, szFree: word) {
    && Balance(nrMalloc, nrFree, |Flatten(cs)|)
    && Balance(szMalloc, szFree, Total(nodes, Flatten(cs)))
    && Filed(nodes)
  }

  lemma {:induction false} CountersAdd(n: int, total: int, bytes: word, nrMalloc: word, nrFree: word, szMalloc: word,
                                       szFree: word)
    requires Balance(nrMalloc, nrFree, n) && Balance(szMalloc, szFree, total)
    ensures Balance(U32(nrMalloc as int + 1), nrFree, n + 1)
    ensures Balance(U32(szMalloc as int + bytes as int), szFree, total + bytes)
  {
    BalanceUp(nrMalloc, nrFree, n, 1);
    BalanceUp(szMalloc, szFree, total, bytes);
  }

  lemma {:induction false} CountersRemove(n: int, total: int, bytes: word, nrMalloc: word, nrFree: word,
                                          szMalloc: word, szFree: word)
    requires Balance(nrMalloc, nrFree, n) && Balance(szMalloc, szFree, total)
    ensures Balance(nrMalloc, U32(nrFree as int + 1), n - 1)
    ensures Balance(szMalloc, U32(szFree as int + bytes as int), total - bytes)
  {
    BalanceDown(nrMalloc, nrFree, n, 1);
    BalanceDown(szMalloc, szFree, total, bytes);
  }

  lemma {:induction false} AccountsAdd(nodes: map<nat, Node<Alloc>>, list: seq<nat>, cs: seq<seq<nat>>, after: map<nat,
                                       Node<Alloc>>, p: nat, first: nat,
                    a: nat, data: Alloc, nrMalloc: word, nrFree: word, szMalloc: word, szFree: word)
    requires Chains(nodes, list, cs) && p < |cs| && a !in nodes
    requires Accounts(nodes, cs, nrMalloc, nrFree, szMalloc, szFree)
    requires Extends(nodes, after, first, a, data.ptr, data)
    ensures Accounts(after, cs[p := Added(cs[p], a)], U32(nrMalloc as int + 1), nrFree,
            U32(szMalloc as int + data.bytes as int), szFree)
  {
    AddedSums(nodes, list, cs, after, p, a);
    CountersAdd(|Flatten(cs)|, Total(nodes, Flatten(cs)), data.bytes, nrMalloc, nrFree, szMalloc, szFree);
    FiledAdd(nodes, after, first, a, data);
  }

  lemma {:induction false} AddedSums(nodes: map<nat, Node<Alloc>>, list: seq<nat>, cs: seq<seq<nat>>, after: map<nat,
                                     Node<Alloc>>, p: nat, a: nat)
    requires Chains(nodes, list, cs) && p < |cs| && a !in nodes && a in after
    requires forall b :: b in nodes ==> SameData(nodes, after, b)
    ensures |Flatten(cs[p := Added(cs[p], a)])| == |Flatten(cs)| + 1
    ensures Total(after, Flatten(cs[p := Added(cs[p], a)])) == Total(nodes, Flatten(cs)) + after[a].data.bytes
  {
    FlattenExact(nodes, list, cs);
    AddedTotal(nodes, after, cs, p, a);
    AddedCount(cs, p, a);
  }

  lemma {:induction false} FiledAdd(nodes: map<nat, Node<Alloc>>, after: map<nat, Node<Alloc>>, first: nat, a: nat,
                                    data: Alloc)
    requires Filed(nodes) && Extends(nodes, after, first, a, data.ptr, data)
    ensures Filed(after)
  {
    forall b | b in after
      ensures after[b].data.ptr == after[b].tag
    {
      if b != a { assert SameData(nodes, after, b); }
    }
  }

  /** The accounts after one entry of the given bytes is gone. */
  lemma {:induction false} AccountsRemove(nodes: map<nat, Node<Alloc>>, cs: seq<seq<nat>>, after: map<nat,
                                          Node<Alloc>>, ds: seq<seq<nat>>,
                       bytes: word, nrMalloc: word, nrFree: word, szMalloc: word, szFree: word)
    requires Accounts(nodes, cs, nrMalloc, nrFree, szMalloc, szFree)
    requires |Flatten(ds)| == |Flatten(cs)| - 1 && Total(nodes, Flatten(cs)) == Total(after, Flatten(ds)) + bytes
    requires forall b :: b in after ==> SameData(nodes, after, b)
    ensures Accounts(after, ds, nrMalloc, U32(nrFree as int + 1), szMalloc, U32(szFree as int + bytes as int))
  {
    CountersRemove(|Flatten(cs)|, Total(nodes, Flatten(cs)), bytes, nrMalloc, nrFree, szMalloc, szFree);
    FiledRemove(nodes, after);
  }

  /** What changes in the table when member i of bucket p is removed. */
  lemma {:induction false} RemovedFacts(nodes: map<nat, Node<Alloc>>, list: seq<nat>, cs: seq<seq<nat>>,
                                        after: map<nat, Node<Alloc>>,
                                        heads: seq<nat>, p: nat, i: nat)
    requires Chains(nodes, list, cs) && p < |cs| && i < |cs[p]| && cs[p][i] in nodes
    requires after == Unlinked(nodes, Before(cs[p], i), cs[p][i]) && Chains(after, heads, cs[p := Cut(cs[p], i)])
    ensures forall b :: b in after ==> SameData(nodes, after, b)
    ensures |Flatten(cs[p := Cut(cs[p], i)])| == |Flatten(cs)| - 1
    ensures Total(nodes, Flatten(cs)) == Total(after, Flatten(cs[p := Cut(cs[p], i)])) + nodes[cs[p][i]].data.bytes
  {
    Bucket(nodes, list, cs, p);
    UnlinkedFrame(nodes, cs[p], i);
    RemovedSums(nodes, cs, after, heads, p, i);
  }

  lemma {:induction false} RemovedSums(nodes: map<nat, Node<Alloc>>, cs: seq<seq<nat>>, after: map<nat, Node<Alloc>>,
                                       heads: seq<nat>, p: nat, i: nat)
    requires p < |cs| && i < |cs[p]| && cs[p][i] in nodes && Chains(after, heads, cs[p := Cut(cs[p], i)])
    requires forall b :: b in after ==> SameData(nodes, after, b)
    ensures |Flatten(cs[p := Cut(cs[p], i)])| == |Flatten(cs)| - 1
    ensures Total(nodes, Flatten(cs)) == Total(after, Flatten(cs[p := Cut(cs[p], i)])) + nodes[cs[p][i]].data.bytes
  {
    FlattenExact(after, heads, cs[p := Cut(cs[p], i)]);
    RemovedTotal(nodes, after, cs, p, i);
    RemovedLength(cs, p, i);
  }

  /** One entry cut out of its bucket, and the counters moved with it. */
  lemma {:induction false} RemoveStep(nodes: map<nat, Node<Alloc>>, list: seq<nat>, cs: seq<seq<nat>>, after: map<nat,
                                      Node<Alloc>>,
                                      heads: seq<nat>, p: nat, i: nat, ptr: word, bytes: word,
                                      nrMalloc: word, nrFree: word, szMalloc: word, szFree: word)
    requires Chains(nodes, list, cs) && Accounts(nodes, cs, nrMalloc, nrFree, szMalloc, szFree)
    requires p < |cs| && i < |cs[p]| && cs[p][i] in nodes && nodes[cs[p][i]].tag == ptr
             && nodes[cs[p][i]].data.bytes == bytes
    requires after == Unlinked(nodes, Before(cs[p], i), cs[p][i]) && Chains(after, heads, cs[p := Cut(cs[p], i)])
    ensures Freed(nodes, after, cs[p][i], ptr)
    ensures Accounts(after, cs[p := Cut(cs[p], i)], nrMalloc, U32(nrFree as int + 1), szMalloc,
            U32(szFree as int + bytes as int))
  {
    FreedOne(nodes, list, cs, p, i);
    RemovedFacts(nodes, list, cs, after, heads, p, i);
    AccountsRemove(nodes, cs, after, cs[p := Cut(cs[p], i)], bytes, nrMalloc, nrFree, szMalloc, szFree);
  }

  lemma {:induction false} FiledRemove(nodes: map<nat, Node<Alloc>>, after: map<nat, Node<Alloc>>)
    requires Filed(nodes) && forall b :: b in after ==> SameData(nodes, after, b)
    ensures Filed(after)
  {
    forall b | b in after
      ensures after[b].data.ptr == after[b].tag
    {
      assert SameData(nodes, after, b);
    }
  }

  class MemDbg {
    var nrMalloc: word
    var nrFree: word
    var szMalloc: word
    var szFree: word
    const table: Hush<Alloc>

    /** In use is what was allocated less what was freed, in number and in bytes, modulo 2^32. */
    ghost predicate Valid()
      reads this, table
    {
      && table.Valid() && table.depth == DEPTH
      && Accounts(table.nodes, table.cs, nrMalloc, nrFree, szMalloc, szFree)
    }

    /** resmalloc_init */
    constructor ()
      ensures Valid() && fresh(table) && table.nodes == map[] && nrMalloc == nrFree == szMalloc == szFree == 0
    {
      nrMalloc, nrFree, szMalloc, szFree := 0, 0, 0, 0;
      table := new Hush(DEPTH);
    }

    /** memdbg_insert; a is where hush_add got its node, 0 when memory was out. */
    method Insert(file: string, line: int, ptr: word, bytes: word, a: nat) returns (ret: int)
      requires Valid() && a !in table.nodes
      modifies this, table
      ensures Valid() && ret == if a == 0 then -ENOMEM else 0
      ensures a == 0 ==> table.nodes == old(table.nodes) && nrMalloc == old(nrMalloc) && szMalloc == old(szMalloc)
      ensures a != 0 ==>
              table.nodes.Keys == old(table.nodes).Keys + {a} && table.nodes[a].data == Alloc(file, line, ptr, bytes)
      ensures a != 0 ==>
              nrMalloc == U32(old(nrMalloc) as int + 1) && szMalloc == U32(old(szMalloc) as int + bytes as int)
      ensures nrFree == old(nrFree) && szFree == old(szFree)
    {
      ghost var nodes, list, cs := table.nodes, table.list, table.cs;
      var data := Alloc(file, line, ptr, bytes);
      var ok := table.Add(ptr, data, a);
      if !ok { return -ENOMEM; }
      AccountsAdd(nodes, list, cs, table.nodes, Index(ptr, DEPTH), list[Index(ptr, DEPTH)], a, data, nrMalloc, nrFree,
        szMalloc, szFree);
      nrMalloc := U32(nrMalloc as int + 1);
      szMalloc := U32(szMalloc as int + bytes as int);
      return 0;
    }

    /** hush_remove, and what do_remove_alloc will count. */
    method Unfile(ptr: word) returns (data: Option<Alloc>, ghost a: nat)
      requires Valid()
      modifies table
      ensures table.Valid() && table.depth == DEPTH && (data != None <==> InUse(old(table.nodes), ptr))
      ensures data == None ==> table.nodes == old(table.nodes) && table.cs == old(table.cs)
      ensures data != None ==>
              Freed(old(table.nodes), table.nodes, a, ptr) && old(table.nodes)[a].data.bytes == data.value.bytes
      ensures data != None ==> Accounts(table.nodes, table.cs, nrMalloc, U32(nrFree as int + 1),
                                        szMalloc, U32(szFree as int + data.value.bytes as int))
    {
      ghost var nodes, list, cs := table.nodes, table.list, table.cs;
      ghost var p := Index(ptr, DEPTH);
      ghost var i := Locate(nodes, cs[p], ptr);
      LocateExact(nodes, list, cs, ptr);
      data := table.Remove(ptr);
      if data == None { return None, 0; }
      a := cs[p][i];
      RemoveStep(nodes, list, cs, table.nodes, table.list, p, i, ptr, data.value.bytes, nrMalloc, nrFree, szMalloc,
        szFree);
    }

    /** memdbg_remove, with do_remove_alloc */
    method Remove(ptr: word) returns (ret: int)
      requires Valid()
      modifies this, table
      ensures Valid() && ret == if InUse(old(table.nodes), ptr) then 0 else -1
      ensures ret == 0 ==> nrFree == U32(old(nrFree) as int + 1)
      ensures ret == 0 ==> exists a :: FreedBytes(old(table.nodes), table.nodes, a, ptr, old(szFree), szFree)
      ensures ret != 0 ==> table.nodes == old(table.nodes) && nrFree == old(nrFree) && szFree == old(szFree)
      ensures nrMalloc == old(nrMalloc) && szMalloc == old(szMalloc)
    {
      var data: Option<Alloc>;
      ghost var nodes, sz, a := table.nodes, szFree, 0;
      data, a := Unfile(ptr);
      if data == None { return -1; }
      nrFree, szFree := U32(nrFree as int + 1), U32(szFree as int + data.value.bytes as int);
      assert FreedBytes(nodes, table.nodes, a, ptr, sz, szFree);
      return 0;
    }

    /** __resmalloc and __resmemalign, given what the allocator below and the table's own allocator returned */
    method ResMalloc(file: string, line: int, bytes: word, ptr: word, a: nat) returns (r: word)
      requires Valid() && a !in table.nodes
      modifies this, table
      ensures Valid() && r == ptr && nrFree == old(nrFree) && szFree == old(szFree)
      ensures if ptr == 0 || a == 0
              then table.nodes == old(table.nodes) && nrMalloc == old(nrMalloc) && szMalloc == old(szMalloc)
              else table.nodes.Keys == old(table.nodes).Keys + {a}
                   && table.nodes[a].data == Alloc(file, line, ptr, bytes)
    {
      if ptr != 0 {
        var ret := Insert(file, line, ptr, bytes, a);
      }
      return ptr;
    }

    /** resfree */
    method ResFree(mem: word)
      requires Valid()
      modifies this, table
      ensures Valid() && nrMalloc == old(nrMalloc) && szMalloc == old(szMalloc)
      ensures if mem != 0 && InUse(old(table.nodes), mem)
              then exists a :: FreedBytes(old(table.nodes), table.nodes, a, mem, old(szFree), szFree)
              else table.nodes == old(table.nodes) && nrFree == old(nrFree) && szFree == old(szFree)
    {
      if mem != 0 {
        var ret := Remove(mem);
      }
    }

    /** Any run from any state: the counters and the table agree after every step. */
    method Run(ops: seq<ResOp>)
      requires Valid()
      modifies this, table
      ensures Valid()
      ensures U32(nrMalloc as int - nrFree as int) == |Flatten(table.cs)| % TWO_32
      ensures U32(szMalloc as int - szFree as int) == Total(table.nodes, Flatten(table.cs)) % TWO_32
    {
      for i := 0 to |ops|
        invariant Valid()
      {
        match ops[i] {
          case Obtain(bytes, ptr, node) =>
            var r := ResMalloc("", 0, bytes, ptr, if node in table.nodes then 0 else node);
          case Release(mem) =>
            ResFree(mem);
        }
      }
    }
  }

  /** A call of the pool: an allocation with the addresses it was given, or a free. */
  datatype ResOp = Obtain(bytes: word, ptr: word, node: nat) | Release(mem: word)

  /** The entry at a, for address ptr, is gone, and no other. */
  ghost predicate Freed(nodes: map<nat, Node<Alloc>>, after: map<nat, Node<Alloc>>, a: nat, ptr: word) {
    && a in nodes && nodes[a].tag == ptr == nodes[a].data.ptr
    && after.Keys == nodes.Keys - {a} && forall b :: b in after ==> SameData(nodes, after, b)
  }

  /** The entry freed, and its bytes added to the count. */
  ghost predicate FreedBytes(nodes: map<nat, Node<Alloc>>, after: map<nat, Node<Alloc>>, a: nat, ptr: word, sz: word,
                             szAfter: word) {
    Freed(nodes, after, a, ptr) && szAfter == U32(sz as int + nodes[a].data.bytes as int)
  }

  lemma {:induction false} FreedOne(nodes: map<nat, Node<Alloc>>, list: seq<nat>, cs: seq<seq<nat>>, p: nat, i: nat)
    requires Chains(nodes, list, cs) && p < |cs| && i < |cs[p]| && cs[p][i] in nodes && Filed(nodes)
    ensures Freed(nodes, Unlinked(nodes, Before(cs[p], i), cs[p][i]), cs[p][i], nodes[cs[p][i]].tag)
  {
    Bucket(nodes, list, cs, p);
    UnlinkedFrame(nodes, cs[p], i);
  }
}
