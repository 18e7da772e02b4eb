/** The hash table of linked lists: nodes in memory, chained from one list head a bucket. */
module HushTable {
  import opened Options
  import opened Words

  const HASH: nat := 2654435769

  /** hush_index: the top four bits of the product, reduced to the table. */
  function Index(tag: word, depth: nat): (i: nat)
    requires depth > 0
    ensures i < depth
  {
    (tag * HASH) % TWO_32 / 0x1000_0000 % depth
  }

  /** However deep the table is, at most sixteen of its buckets are ever used. */
  lemma {:induction false} SixteenBuckets(tag: word, depth: nat)
    requires depth > 0
    ensures Index(tag, depth) < 16
  {
    var h := (tag * HASH) % TWO_32;
    assert 0 <= h / 0x1000_0000 < 16;
    if depth >= 16 { SmallMod(h / 0x1000_0000, depth); }
  }

  lemma {:induction false} SmallMod(x: nat, d: nat)
    requires x < d
    ensures x % d == x
  {
  }

  /** A hitem_t with the data behind it: next is the address of the following node, 0 at the end. */
  datatype Node<T> = Node(next: nat, tag: word, data: T)

  /** Memory holds the chain c from address first on, each node once. */
  ghost predicate Chain<T>(nodes: map<nat, Node<T>>, first: nat, c: seq<nat>) {
    && first == At(c, 0)
    && (forall i :: 0 <= i < |c| ==> c[i] != 0 && c[i] in nodes)
    && (forall i :: 0 <= i < |c| ==> Linked(nodes, c, i))
    && Distinct(c)
  }

  /** Member i of c links to the next member, the last one to nothing. */
  predicate Linked<T(==)>(nodes: map<nat, Node<T>>, c: seq<nat>, i: nat)
    requires i < |c|
  {
    c[i] in nodes && nodes[c[i]].next == At(c, i + 1)
  }

  predicate Distinct(s: seq<nat>) {
    forall i, k :: 0 <= i < k < |s| ==> s[i] != s[k]
  }

  /** Every node of the chain belongs to bucket p. */
  ghost predicate Home<T>(nodes: map<nat, Node<T>>, c: seq<nat>, p: nat, depth: nat)
    requires depth > 0
  {
    forall i :: 0 <= i < |c| ==> c[i] in nodes && Index(nodes[c[i]].tag, depth) == p
  }

  /** The i-th address of a chain, 0 behind its end */
  function At(c: seq<nat>, i: nat): nat {
    if i < |c| then c[i] else 0
  }

  /** All chains of a table. */
  ghost predicate Chains<T>(nodes: map<nat, Node<T>>, list: seq<nat>, cs: seq<seq<nat>>) {
    && |list| == |cs| > 0
    && (forall p :: 0 <= p < |cs| ==> Chain(nodes, list[p], cs[p]) && Home(nodes, cs[p], p, |cs|))
    && (forall a :: a in nodes ==> a in cs[Index(nodes[a].tag, |cs|)])
  }

  /** list_add: behind the first node, if there is one. */
  function Added(c: seq<nat>, a: nat): seq<nat> {
    if c == [] then [a] else [c[0], a] + c[1..]
  }

  /** Memory after a new node a is linked in behind the node first. */
  function LinkedBehind<T>(nodes: map<nat, Node<T>>, first: nat, a: nat, tag: word, data: T): map<nat, Node<T>>
    requires first in nodes
  {
    nodes[a := Node(nodes[first].next, tag, data)][first := nodes[first].(next := a)]
  }

  lemma {:induction false} AddChain<T>(nodes: map<nat, Node<T>>, first: nat, c: seq<nat>, a: nat, tag: word, data: T)
    requires Chain(nodes, first, c) && a != 0 && a !in nodes
    ensures c == [] ==> Chain(nodes[a := Node(0, tag, data)], a, Added(c, a))
    ensures c != [] ==> first in nodes
    ensures c != [] ==> Chain(LinkedBehind(nodes, first, a, tag, data), first, Added(c, a))
  {
    var d := Added(c, a);
    if c != [] {
      assert Linked(nodes, c, 0);
      forall i | 0 <= i < |d|
        ensures Linked(LinkedBehind(nodes, first, a, tag, data), d, i)
      {
        if i >= 2 { assert Linked(nodes, c, i - 1); }
      }
    }
  }

  /** Memory that agrees on a chain's nodes holds the chain, in the same bucket. */
  lemma {:induction false} OtherChain<T>(nodes: map<nat, Node<T>>, after: map<nat, Node<T>>, first: nat, c: seq<nat>,
                                         p: nat, depth: nat)
    requires depth > 0 && Chain(nodes, first, c) && Home(nodes, c, p, depth)
    requires forall i :: 0 <= i < |c| ==> c[i] in after && after[c[i]] == nodes[c[i]]
    ensures Chain(after, first, c) && Home(after, c, p, depth)
  {
    forall i | 0 <= i < |c|
      ensures Linked(after, c, i)
    {
      assert Linked(nodes, c, i);
    }
  }

  /** Memory after node cur is unlinked from the node prev, or from the list head for 0, and freed. */
  function Unlinked<T>(nodes: map<nat, Node<T>>, prev: nat, cur: nat): map<nat, Node<T>> {
    if prev == 0 || prev !in nodes || cur !in nodes || prev == cur then nodes - {cur}
    else (nodes - {cur})[prev := nodes[prev].(next := nodes[cur].next)]
  }

  /** The member before member i, 0 before the first */
  function Before(c: seq<nat>, i: nat): nat
    requires i <= |c|
  {
    if i == 0 then 0 else c[i - 1]
  }

  /** A chain without its member i */
  function Cut(c: seq<nat>, i: nat): (d: seq<nat>)
    requires i < |c|
    ensures |d| == |c| - 1 && forall k :: 0 <= k < |d| ==> d[k] == if k < i then c[k] else c[k + 1]
  {
    c[..i] + c[i + 1..]
  }

  lemma {:induction false} CutLinks<T>(nodes: map<nat, Node<T>>, first: nat, c: seq<nat>, i: nat, k: nat)
    requires Chain(nodes, first, c) && i < |c| && k < |c| - 1
    ensures var d := Cut(c, i); d[k] != 0 && Linked(Unlinked(nodes, Before(c, i), c[i]), d, k)
  {
    var j := if k < i then k else k + 1;
    assert c[j] != c[i] && Linked(nodes, c, j);
    if i > 0 { assert c[i - 1] != c[i] && Linked(nodes, c, i); }
  }

  lemma {:induction false} CutDistinct(c: seq<nat>, i: nat)
    requires Distinct(c) && i < |c|
    ensures Distinct(Cut(c, i))
  {
  }

  lemma {:induction false} CutFirst<T>(nodes: map<nat, Node<T>>, first: nat, c: seq<nat>, i: nat)
    requires Chain(nodes, first, c) && i < |c|
    ensures At(Cut(c, i), 0) == if i == 0 then nodes[c[0]].next else first
  {
    assert Linked(nodes, c, 0);
  }

  /** Memory links d from first on. */
  ghost predicate Links<T>(nodes: map<nat, Node<T>>, d: seq<nat>) {
    forall i :: 0 <= i < |d| ==> d[i] != 0 && Linked(nodes, d, i)
  }

  lemma {:induction false} ChainFrom<T>(nodes: map<nat, Node<T>>, first: nat, d: seq<nat>)
    requires first == At(d, 0) && Links(nodes, d) && Distinct(d)
    ensures Chain(nodes, first, d)
  {
    forall i | 0 <= i < |d|
      ensures d[i] != 0 && d[i] in nodes
    {
      assert Linked(nodes, d, i);
    }
  }

  lemma {:induction false} RemoveChain<T>(nodes: map<nat, Node<T>>, first: nat, c: seq<nat>, i: nat)
    requires Chain(nodes, first, c) && i < |c|
    ensures Chain(Unlinked(nodes, Before(c, i), c[i]), if i == 0 then nodes[c[0]].next else first, Cut(c, i))
  {
    var after, d := Unlinked(nodes, Before(c, i), c[i]), Cut(c, i);
    forall k | 0 <= k < |d|
      ensures d[k] != 0 && Linked(after, d, k)
    {
      CutLinks(nodes, first, c, i, k);
    }
    CutDistinct(c, i);
    CutFirst(nodes, first, c, i);
    ChainFrom(after, At(d, 0), d);
  }

  // ---------------------------------------------------------------- all entries

  /** The addresses of all entries, bucket by bucket. */
  function Flatten(cs: seq<seq<nat>>): seq<nat> {
    if cs == [] then [] else cs[0] + Flatten(cs[1..])
  }

  lemma {:induction false} FlattenAppend(a: seq<seq<nat>>, b: seq<seq<nat>>)
    ensures Flatten(a + b) == Flatten(a) + Flatten(b)
  {
    if a == [] {
      assert a + b == b;
    } else {
      FlattenAppend(a[1..], b);
      assert (a + b)[1..] == a[1..] + b;
    }
  }

  lemma {:induction false} FlattenAt(cs: seq<seq<nat>>, p: nat)
    requires p < |cs|
    ensures Flatten(cs) == Flatten(cs[..p]) + cs[p] + Flatten(cs[p + 1..])
    ensures Flatten(cs[p..]) == cs[p] + Flatten(cs[p + 1..])
  {
    assert cs == cs[..p] + cs[p..];
    FlattenAppend(cs[..p], cs[p..]);
    assert cs[p..][1..] == cs[p + 1..];
  }

  lemma {:induction false} FlattenUpdate(cs: seq<seq<nat>>, p: nat, c: seq<nat>)
    requires p < |cs|
    ensures Flatten(cs[p := c]) == Flatten(cs[..p]) + c + Flatten(cs[p + 1..])
  {
    FlattenAt(cs[p := c], p);
    assert cs[p := c][..p] == cs[..p] && cs[p := c][p + 1..] == cs[p + 1..];
  }

  lemma {:induction false} FromFlatten(cs: seq<seq<nat>>, a: nat) returns (p: nat)
    requires a in Flatten(cs)
    ensures p < |cs| && a in cs[p]
  {
    if a in cs[0] {
      p := 0;
    } else {
      var q := FromFlatten(cs[1..], a);
      p := q + 1;
    }
  }

  lemma {:induction false} IntoFlatten(cs: seq<seq<nat>>, p: nat, a: nat)
    requires p < |cs| && a in cs[p]
    ensures a in Flatten(cs)
    decreases p
  {
    if p > 0 { IntoFlatten(cs[1..], p - 1, a); }
  }

  lemma {:induction false} InFlatten(cs: seq<seq<nat>>, a: nat)
    ensures a in Flatten(cs) <==> exists p :: 0 <= p < |cs| && a in cs[p]
  {
    if a in Flatten(cs) { var p := FromFlatten(cs, a); }
    forall p | 0 <= p < |cs| && a in cs[p]
      ensures a in Flatten(cs)
    {
      IntoFlatten(cs, p, a);
    }
  }

  lemma {:induction false} JoinDistinct(a: seq<nat>, b: seq<nat>)
    requires Distinct(a) && Distinct(b) && forall x :: x in a ==> x !in b
    ensures Distinct(a + b)
  {
    forall i, k | 0 <= i < k < |a + b|
      ensures (a + b)[i] != (a + b)[k]
    {
      if i < |a| <= k { assert a[i] in a && b[k - |a|] in b; }
    }
  }

  /** The entries in the buckets from p on, each once. */
  lemma {:induction false} FlattenDistinct<T>(nodes: map<nat, Node<T>>, list: seq<nat>, cs: seq<seq<nat>>, p: nat)
    requires Chains(nodes, list, cs) && p <= |cs|
    ensures Distinct(Flatten(cs[p..]))
    ensures forall a :: a in Flatten(cs[p..]) ==> a in nodes && Index(nodes[a].tag, |cs|) >= p
    decreases |cs| - p
  {
    if p < |cs| {
      FlattenAt(cs, p);
      FlattenDistinct(nodes, list, cs, p + 1);
      JoinDistinct(cs[p], Flatten(cs[p + 1..]));
    }
  }

  /** The flattened table lists every node in memory exactly once. */
  lemma {:induction false} FlattenExact<T>(nodes: map<nat, Node<T>>, list: seq<nat>, cs: seq<seq<nat>>)
    requires Chains(nodes, list, cs)
    ensures Distinct(Flatten(cs)) && forall a :: a in Flatten(cs) <==> a in nodes
  {
    assert cs[0..] == cs;
    FlattenDistinct(nodes, list, cs, 0);
    forall a | a in nodes
      ensures a in Flatten(cs)
    {
      InFlatten(cs, a);
      assert a in cs[Index(nodes[a].tag, |cs|)];
    }
  }

  // ---------------------------------------------------------------- adding and removing

  /** Two memories hold the same tags and data at an address. */
  predicate SameData<T(==)>(m: map<nat, Node<T>>, n: map<nat, Node<T>>, a: nat) {
    a in m && a in n && m[a].tag == n[a].tag && m[a].data == n[a].data
  }

  /** A table after the change of one bucket's chain, when memory changed only at that bucket's nodes. */
  lemma {:induction false} OneBucket<T>(nodes: map<nat, Node<T>>, list: seq<nat>, cs: seq<seq<nat>>, after: map<nat,
                                        Node<T>>, p: nat, first: nat, c: seq<nat>)
    requires Chains(nodes, list, cs) && p < |cs|
    requires Chain(after, first, c) && Home(after, c, p, |cs|)
    requires forall a :: a in nodes && Index(nodes[a].tag, |cs|) != p ==> a in after && after[a] == nodes[a]
    requires forall a :: a in after ==> a in c || (a in nodes && Index(nodes[a].tag, |cs|) != p)
    ensures Chains(after, list[p := first], cs[p := c])
  {
    var ds := cs[p := c];
    forall q | 0 <= q < |ds|
      ensures Chain(after, list[p := first][q], ds[q]) && Home(after, ds[q], q, |ds|)
    {
      if q != p { OtherChain(nodes, after, list[q], cs[q], q, |cs|); }
    }
    forall a | a in after
      ensures a in ds[Index(after[a].tag, |ds|)]
    {
      if a in c {
        var i :| 0 <= i < |c| && c[i] == a;
        assert Index(after[c[i]].tag, |cs|) == p;
      }
    }
  }

  /** Memory after list_add of a new node at the head of a bucket. */
  function AddedNodes<T>(nodes: map<nat, Node<T>>, first: nat, a: nat, tag: word, data: T): map<nat, Node<T>> {
    if first == 0 || first !in nodes then nodes[a := Node(0, tag, data)] else LinkedBehind(nodes, first, a, tag, data)
  }

  /** Only the links of a bucket's first node change when a node is added. */
  ghost predicate Extends<T>(nodes: map<nat, Node<T>>, after: map<nat, Node<T>>, first: nat, a: nat, tag: word,
                             data: T) {
    && after.Keys == nodes.Keys + {a} && after[a].tag == tag && after[a].data == data
    && (forall b :: b in nodes ==> SameData(nodes, after, b))
    && (forall b :: b in nodes && b != first ==> after[b] == nodes[b])
  }

  lemma {:induction false} AddedExtends<T>(nodes: map<nat, Node<T>>, first: nat, a: nat, tag: word, data: T)
    requires a !in nodes
    ensures Extends(nodes, AddedNodes(nodes, first, a, tag, data), first, a, tag, data)
  {
  }

  lemma {:induction false} AddedChain<T>(nodes: map<nat, Node<T>>, first: nat, c: seq<nat>, a: nat, tag: word, data: T)
    requires Chain(nodes, first, c) && a != 0 && a !in nodes
    ensures Chain(AddedNodes(nodes, first, a, tag, data), if first == 0 then a else first, Added(c, a))
    ensures first != 0 <==> c != []
    ensures first != 0 ==> first in nodes && first == c[0]
  {
    AddChain(nodes, first, c, a, tag, data);
  }

  /** Adding a node keeps the table, behind the first node of the bucket of its tag. */
  lemma {:induction false} AddTable<T>(nodes: map<nat, Node<T>>, list: seq<nat>, cs: seq<seq<nat>>, after: map<nat,
                                       Node<T>>, a: nat, tag: word, data: T)
    requires Chains(nodes, list, cs) && a != 0 && a !in nodes
    requires after == AddedNodes(nodes, list[Index(tag, |cs|)], a, tag, data)
    ensures var p := Index(tag, |cs|); Chains(after, list[p := if list[p] == 0 then a else list[p]],
            cs[p := Added(cs[p], a)])
  {
    var p := Index(tag, |cs|);
    AddBucket(nodes, list, cs, after, p, list[p], cs[p], a, tag, data);
  }

  lemma {:induction false} AddBucket<T>(nodes: map<nat, Node<T>>, list: seq<nat>, cs: seq<seq<nat>>, after: map<nat,
                                        Node<T>>,
                     p: nat, first: nat, c: seq<nat>, a: nat, tag: word, data: T)
    requires Chains(nodes, list, cs) && a != 0 && a !in nodes
    requires p == Index(tag, |cs|) && first == list[p] && c == cs[p]
    requires after == AddedNodes(nodes, first, a, tag, data)
    ensures Chains(after, list[p := if first == 0 then a else first], cs[p := Added(c, a)])
  {
    assert Chain(nodes, first, c) && Home(nodes, c, p, |cs|);
    AddedExtends(nodes, first, a, tag, data);
    AddedChain(nodes, first, c, a, tag, data);
    AddedHome(nodes, after, c, a, p, |cs|);
    AddOutside(nodes, list, cs, after, p, first, a, tag, data);
    OneBucket(nodes, list, cs, after, p, if first == 0 then a else first, Added(c, a));
  }

  /** Nodes outside the bucket are untouched, and nothing else is in memory. */
  lemma {:induction false} AddOutside<T>(nodes: map<nat, Node<T>>, list: seq<nat>, cs: seq<seq<nat>>, after: map<nat,
                                         Node<T>>,
                      p: nat, first: nat, a: nat, tag: word, data: T)
    requires Chains(nodes, list, cs) && p < |cs| && first == list[p] && Extends(nodes, after, first, a, tag, data)
    ensures forall b :: b in nodes && Index(nodes[b].tag, |cs|) != p ==> b in after && after[b] == nodes[b]
    ensures forall b :: b in after ==> b in Added(cs[p], a) || (b in nodes && Index(nodes[b].tag, |cs|) != p)
  {
    assert Chain(nodes, first, cs[p]) && Home(nodes, cs[p], p, |cs|);
    forall b | b in nodes && Index(nodes[b].tag, |cs|) != p
      ensures b in after && after[b] == nodes[b]
    {
      if cs[p] != [] { assert Index(nodes[cs[p][0]].tag, |cs|) == p; }
      NoZero(nodes, list, cs, b);
    }
    forall b | b in after && b !in Added(cs[p], a)
      ensures b in nodes && Index(nodes[b].tag, |cs|) != p
    {
      AddedMembers(cs[p], a, b);
      assert b in nodes;
      assert b in cs[Index(nodes[b].tag, |cs|)];
    }
  }

  lemma {:induction false} NoZero<T>(nodes: map<nat, Node<T>>, list: seq<nat>, cs: seq<seq<nat>>, b: nat)
    requires Chains(nodes, list, cs) && b in nodes
    ensures b != 0
  {
    var p := Index(nodes[b].tag, |cs|);
    assert Chain(nodes, list[p], cs[p]);
    var i :| 0 <= i < |cs[p]| && cs[p][i] == b;
  }

  lemma {:induction false} AddedMembers(c: seq<nat>, a: nat, b: nat)
    ensures b in Added(c, a) <==> b in c || b == a
  {
  }

  lemma {:induction false} AddedHome<T>(nodes: map<nat, Node<T>>, after: map<nat, Node<T>>, c: seq<nat>, a: nat,
                                        p: nat, depth: nat)
    requires depth > 0 && Home(nodes, c, p, depth) && a in after && Index(after[a].tag, depth) == p
    requires forall i :: 0 <= i < |c| ==> c[i] in after && after[c[i]].tag == nodes[c[i]].tag
    ensures Home(after, Added(c, a), p, depth)
  {
  }

  /** Memory loses one node and changes at most the link of the one before it. */
  lemma {:induction false} UnlinkedFrame<T>(nodes: map<nat, Node<T>>, c: seq<nat>, i: nat)
    requires i < |c| && Distinct(c) && forall k :: 0 <= k < |c| ==> c[k] in nodes
    ensures var after := Unlinked(nodes, Before(c, i), c[i]);
            && after.Keys == nodes.Keys - {c[i]}
            && (forall b :: b in after ==> SameData(nodes, after, b))
            && (forall b :: b in nodes && b !in c ==> b in after && after[b] == nodes[b])
  {
  }

  lemma {:induction false} CutHome<T>(nodes: map<nat, Node<T>>, after: map<nat, Node<T>>, c: seq<nat>, i: nat, p: nat,
                                      depth: nat)
    requires depth > 0 && Home(nodes, c, p, depth) && i < |c| && Distinct(c)
    requires forall k :: 0 <= k < |c| && k != i ==> SameData(nodes, after, c[k])
    ensures Home(after, Cut(c, i), p, depth)
  {
    var d := Cut(c, i);
    forall k | 0 <= k < |d|
      ensures d[k] in after && Index(after[d[k]].tag, depth) == p
    {
      var j := if k < i then k else k + 1;
      assert SameData(nodes, after, c[j]);
    }
  }

  lemma {:induction false} CutMembers(c: seq<nat>, i: nat, b: nat)
    requires i < |c| && b in c && b != c[i]
    ensures b in Cut(c, i)
  {
    var k :| 0 <= k < |c| && c[k] == b;
    assert Cut(c, i)[if k < i then k else k - 1] == b;
  }

  lemma {:induction false} Bucket<T>(nodes: map<nat, Node<T>>, list: seq<nat>, cs: seq<seq<nat>>, p: nat)
    requires Chains(nodes, list, cs) && p < |cs|
    ensures Chain(nodes, list[p], cs[p]) && Home(nodes, cs[p], p, |cs|)
    ensures forall k :: 0 <= k < |cs[p]| ==> cs[p][k] in nodes && cs[p][k] != 0
    ensures list[p] != 0 ==> list[p] in nodes
  {
  }

  /** Unlinking node i of bucket p keeps the table. */
  lemma {:induction false} RemoveBucket<T>(nodes: map<nat, Node<T>>, list: seq<nat>, cs: seq<seq<nat>>, p: nat,
                                           c: seq<nat>, i: nat,
                        after: map<nat, Node<T>>, first: nat)
    requires Chains(nodes, list, cs) && p < |cs| && c == cs[p] && i < |c|
    requires Distinct(c) && (forall k :: 0 <= k < |c| ==> c[k] in nodes)
    requires Chain(nodes, list[p], c) && Home(nodes, c, p, |cs|)
    requires after == Unlinked(nodes, Before(c, i), c[i]) && first == if i == 0 then nodes[c[0]].next else list[p]
    ensures Chains(after, list[p := first], cs[p := Cut(c, i)])
  {
    UnlinkedFrame(nodes, c, i);
    RemoveChain(nodes, list[p], c, i);
    CutKept(nodes, after, c, i);
    CutHome(nodes, after, c, i, p, |cs|);
    RemoveOutside(nodes, list, cs, p, after, i);
    OneBucket(nodes, list, cs, after, p, first, Cut(c, i));
  }

  lemma {:induction false} CutKept<T>(nodes: map<nat, Node<T>>, after: map<nat, Node<T>>, c: seq<nat>, i: nat)
    requires Distinct(c) && i < |c| && (forall k :: 0 <= k < |c| ==> c[k] in nodes)
    requires after.Keys == nodes.Keys - {c[i]} && forall b :: b in after ==> SameData(nodes, after, b)
    ensures forall k :: 0 <= k < |c| && k != i ==> SameData(nodes, after, c[k])
  {
    forall k | 0 <= k < |c| && k != i
      ensures SameData(nodes, after, c[k])
    {
      assert c[k] != c[i] && c[k] in after;
    }
  }

  lemma {:induction false} RemoveOutside<T>(nodes: map<nat, Node<T>>, list: seq<nat>, cs: seq<seq<nat>>, p: nat,
                                            after: map<nat, Node<T>>, i: nat)
    requires Chains(nodes, list, cs) && p < |cs| && i < |cs[p]|
    requires after.Keys == nodes.Keys - {cs[p][i]}
    requires forall b :: b in nodes && b !in cs[p] ==> b in after && after[b] == nodes[b]
    ensures forall b :: b in nodes && Index(nodes[b].tag, |cs|) != p ==> b in after && after[b] == nodes[b]
    ensures forall b :: b in after ==> b in Cut(cs[p], i) || (b in nodes && Index(nodes[b].tag, |cs|) != p)
  {
    assert Home(nodes, cs[p], p, |cs|);
    forall b | b in after && b !in Cut(cs[p], i)
      ensures b in nodes && Index(nodes[b].tag, |cs|) != p
    {
      assert b in nodes && b in cs[Index(nodes[b].tag, |cs|)];
      if b in cs[p] { CutMembers(cs[p], i, b); }
    }
  }

  // ---------------------------------------------------------------- the table

  /** Position of the first node with this tag in a chain, or its length. */
  function Locate<T>(nodes: map<nat, Node<T>>, c: seq<nat>, tag: word): (i: nat)
    ensures i <= |c|
    ensures i < |c| && c[i] in nodes ==> nodes[c[i]].tag == tag
    ensures forall k :: 0 <= k < i && c[k] in nodes ==> nodes[c[k]].tag != tag
  {
    if c == [] || (c[0] in nodes && nodes[c[0]].tag == tag) then 0 else 1 + Locate(nodes, c[1..], tag)
  }

  lemma {:induction false} LocateFirst<T>(nodes: map<nat, Node<T>>, c: seq<nat>, tag: word, i: nat)
    requires i <= |c| && (i < |c| ==> c[i] in nodes && nodes[c[i]].tag == tag)
    requires forall k :: 0 <= k < i ==> c[k] in nodes && nodes[c[k]].tag != tag
    ensures Locate(nodes, c, tag) == i
    decreases i
  {
    if i > 0 { LocateFirst(nodes, c[1..], tag, i - 1); }
  }

  /** The list heads after node cur is unlinked behind prev in bucket pos. */
  function HeadsWithout<T>(nodes: map<nat, Node<T>>, list: seq<nat>, pos: nat, prev: nat, cur: nat): seq<nat>
    requires pos < |list| && cur in nodes
  {
    if prev == 0 then list[pos := nodes[cur].next] else list
  }

  /** The state of a table of the given depth. */
  ghost predicate Table<T>(nodes: map<nat, Node<T>>, list: seq<nat>, cs: seq<seq<nat>>, nrItem: word, depth: nat) {
    && |list| == |cs| == depth > 0
    && Chains(nodes, list, cs)
    && nrItem == |Flatten(cs)| % TWO_32
  }

  lemma {:induction false} DropChains<T>(nodes: map<nat, Node<T>>, list: seq<nat>, cs: seq<seq<nat>>, nrItem: word,
                                         depth: nat,
                                         pos: nat, prev: nat, cur: nat, i: nat)
    requires Table(nodes, list, cs, nrItem, depth)
    requires pos < depth && i < |cs[pos]| && cur == cs[pos][i] != 0 && prev == Before(cs[pos], i)
    ensures |list| == |cs| == depth && nrItem == |Flatten(cs)| % TWO_32
    ensures cur in nodes && prev != cur && (prev != 0 ==> prev in nodes)
    ensures Chains(Unlinked(nodes, prev, cur), HeadsWithout(nodes, list, pos, prev, cur), cs[pos := Cut(cs[pos], i)])
  {
    RemoveTable(nodes, list, cs, pos, cs[pos], i, prev, cur);
  }

  lemma {:induction false} DropTable<T>(nodes: map<nat, Node<T>>, list: seq<nat>, cs: seq<seq<nat>>, nrItem: word,
                                        depth: nat,
                                        pos: nat, prev: nat, cur: nat, i: nat)
    requires Table(nodes, list, cs, nrItem, depth)
    requires pos < depth && i < |cs[pos]| && cur == cs[pos][i] != 0 && prev == Before(cs[pos], i)
    ensures cur in nodes && prev != cur && (prev != 0 ==> prev in nodes)
    ensures Table(Unlinked(nodes, prev, cur), HeadsWithout(nodes, list, pos, prev, cur), cs[pos := Cut(cs[pos], i)],
                  U32(nrItem as int - 1), depth)
  {
    DropChains(nodes, list, cs, nrItem, depth, pos, prev, cur, i);
    RemovedCount(cs, pos, i, nrItem);
  }

  lemma {:induction false} AddedTable<T>(nodes: map<nat, Node<T>>, list: seq<nat>, cs: seq<seq<nat>>, nrItem: word,
                                         depth: nat,
                                         pos: nat, a: nat, tag: word, data: T)
    requires Table(nodes, list, cs, nrItem, depth) && a != 0 && a !in nodes && pos == Index(tag, depth)
    ensures list[pos] != 0 ==> list[pos] in nodes
    ensures Table(AddedNodes(nodes, list[pos], a, tag, data), list[pos := if list[pos] == 0 then a else list[pos]],
                  cs[pos := Added(cs[pos], a)], U32(nrItem as int + 1), depth)
  {
    Bucket(nodes, list, cs, pos);
    AddTable(nodes, list, cs, AddedNodes(nodes, list[pos], a, tag, data), a, tag, data);
    AddedCount(cs, pos, a);
  }

  class Hush<T> {
    var nodes: map<nat, Node<T>>
    var list: seq<nat>
    var nrItem: word
    var findPos: nat
    var findPrev: nat
    const depth: nat
    ghost var cs: seq<seq<nat>>

    ghost predicate Valid()
      reads this
    {
      Table(nodes, list, cs, nrItem, depth)
    }

    /** hush_init, with the zeroed heads it is given */
    constructor (n: nat)
      requires n > 0
      ensures Valid() && depth == n && nodes == map[] && Flatten(cs) == []
    {
      depth, nodes, list, nrItem, findPos, findPrev := n, map[], seq(n, i => 0), 0, 0, 0;
      cs := seq(n, i => []);
      new;
      AllEmpty(cs);
    }

    /** list_add at the head of bucket pos */
    method ListAdd(pos: nat, a: nat, tag: word, data: T)
      requires pos < |list| && a !in nodes && (list[pos] != 0 ==> list[pos] in nodes)
      modifies this`nodes, this`list
      ensures nodes == AddedNodes(old(nodes), old(list)[pos], a, tag, data)
      ensures list == old(list)[pos := if old(list)[pos] == 0 then a else old(list)[pos]]
    {
      if list[pos] == 0 {
        nodes := nodes[a := Node(0, tag, data)];
        list := list[pos := a];
      } else {
        var first := list[pos];
        nodes := nodes[a := Node(nodes[first].next, tag, data)];
        nodes := nodes[first := nodes[first].(next := a)];
      }
    }

    /** hush_add; a is the address malloc returned, 0 when it failed. */
    method Add(tag: word, data: T, a: nat) returns (ok: bool)
      requires Valid() && a !in nodes
      modifies this`nodes, this`list, this`nrItem, this`cs
      ensures Valid() && ok == (a != 0)
      ensures !ok ==> nodes == old(nodes) && cs == old(cs)
      ensures ok ==> Extends(old(nodes), nodes, old(list)[Index(tag, depth)], a, tag, data)
      ensures ok ==> cs == old(cs)[Index(tag, depth) := Added(old(cs)[Index(tag, depth)], a)]
    {
      if a == 0 { return false; }
      var pos := Index(tag, depth);
      AddedTable(nodes, list, cs, nrItem, depth, pos, a, tag, data);
      AddedExtends(nodes, list[pos], a, tag, data);
      ListAdd(pos, a, tag, data);
      nrItem, cs := U32(nrItem as int + 1), cs[pos := Added(cs[pos], a)];
      return true;
    }

    /** list_remove of node cur behind prev, and free; prev 0 stands for the list head. */
    method Unlink(pos: nat, prev: nat, cur: nat)
      requires pos < |list| && cur in nodes && prev != cur && (prev != 0 ==> prev in nodes)
      modifies this`nodes, this`list
      ensures nodes == Unlinked(old(nodes), prev, cur)
      ensures list == HeadsWithout(old(nodes), old(list), pos, prev, cur)
    {
      if prev == 0 {
        list := list[pos := nodes[cur].next];
      } else {
        nodes := nodes[prev := nodes[prev].(next := nodes[cur].next)];
      }
      nodes := nodes - {cur};
    }

    /** The search of hush_remove: the node with the tag and the link before it. */
    method Search(tag: word) returns (prev: nat, cur: nat, ghost i: nat)
      requires Valid()
      ensures var c := cs[Index(tag, depth)];
              && i == Locate(nodes, c, tag) && cur == At(c, i) && prev == Before(c, i)
    {
      var pos := Index(tag, depth);
      ghost var c := cs[pos];
      Bucket(nodes, list, cs, pos);
      prev, cur, i := 0, list[pos], 0;
      while cur != 0
        invariant i <= |c| && cur == At(c, i) && prev == Before(c, i)
        invariant forall k :: 0 <= k < i ==> nodes[c[k]].tag != tag
        decreases |c| - i
      {
        if nodes[cur].tag == tag { break; }
        assert Linked(nodes, c, i);
        prev := cur;
        cur := nodes[cur].next;
        i := i + 1;
      }
      LocateFirst(nodes, c, tag, i);
    }

    /** The removal once the node is found. */
    method Drop(pos: nat, prev: nat, cur: nat, ghost i: nat)
      requires Valid() && pos < depth && i < |cs[pos]| && cur == cs[pos][i] != 0 && prev == Before(cs[pos], i)
      modifies this`nodes, this`list, this`nrItem, this`cs
      ensures Valid() && nodes == Unlinked(old(nodes), prev, cur)
      ensures cs == old(cs)[pos := Cut(old(cs)[pos], i)]
    {
      DropTable(nodes, list, cs, nrItem, depth, pos, prev, cur, i);
      Unlink(pos, prev, cur);
      nrItem, cs := U32(nrItem as int - 1), cs[pos := Cut(cs[pos], i)];
    }

    /** hush_remove: the data of the removed node, none if the tag is not there */
    method Remove(tag: word) returns (data: Option<T>)
      requires Valid()
      modifies this`nodes, this`list, this`nrItem, this`cs
      ensures Valid()
      ensures var p := Index(tag, depth); var c := old(cs)[p]; var i := Locate(old(nodes), c, tag);
              if i < |c| then
                && c[i] in old(nodes) && data == Some(old(nodes)[c[i]].data)
                && nodes == Unlinked(old(nodes), Before(c, i), c[i]) && cs == old(cs)[p := Cut(c, i)]
              else data == None && nodes == old(nodes) && cs == old(cs)
    {
      var pos := Index(tag, depth);
      ghost var c := cs[pos];
      var prev, cur, i := Search(tag);
      if cur == 0 {
        SearchEnds(nodes, list, cs, pos, i);
        return None;
      }
      RemoveTable(nodes, list, cs, pos, c, i, prev, cur);
      data := Some(nodes[cur].data);
      Drop(pos, prev, cur, i);
    }

    ghost predicate Cursor(rest: seq<nat>)
      reads this
    {
      CursorAt(cs, findPos, findPrev, rest)
    }

    /** hush_find_init */
    method FindInit()
      requires Valid()
      modifies this`findPos, this`findPrev
      ensures Valid() && Cursor(Flatten(cs))
    {
      findPos, findPrev := 0, 0;
      assert cs[0..] == cs;
    }

    /** The loop of find_next: the next non-empty bucket. */
    method Skip(ghost rest: seq<nat>) returns (found: bool)
      requires Valid() && Cursor(rest)
      modifies this`findPos, this`findPrev
      ensures Valid() && Cursor(rest) && found == (rest != []) && (found ==> findPrev != 0)
    {
      while findPos < depth
        invariant Valid() && Cursor(rest)
        decreases depth - findPos
      {
        SkipStep(nodes, list, cs, findPos, findPrev, rest);
        if findPrev == 0 {
          findPrev := list[findPos];
        }
        if findPrev != 0 {
          return true;
        }
        findPos := findPos + 1;
      }
      CursorEnd(cs, findPos, findPrev, rest);
      return false;
    }

    /** find_next, through hush_find_next: the next entry, or 0 when none is left */
    method FindNext(ghost rest: seq<nat>) returns (item: nat)
      requires Valid() && Cursor(rest)
      modifies this`findPos, this`findPrev
      ensures Valid() && if rest == [] then item == 0 && Cursor([]) else item == rest[0] != 0 && Cursor(rest[1..])
    {
      var found := Skip(rest);
      if !found { return 0; }
      StepCursor(nodes, list, cs, findPos, findPrev, rest);
      item := findPrev;
      findPrev := nodes[findPrev].next;
      if findPrev == 0 {
        findPos := findPos + 1;
      }
    }

    /** A client's loop over hush_find_init and hush_find_next: every entry exactly once, then nothing. */
    method VisitAll() returns (seen: seq<nat>)
      requires Valid()
      modifies this`findPos, this`findPrev
      ensures Valid() && seen == Flatten(cs) && nrItem == |seen| % TWO_32
      ensures Distinct(seen) && forall a :: a in seen <==> a in nodes
    {
      seen := Walk();
      FlattenExact(nodes, list, cs);
    }

    method Walk() returns (seen: seq<nat>)
      requires Valid()
      modifies this`findPos, this`findPrev
      ensures Valid() && seen == Flatten(cs)
    {
      FindInit();
      seen := [];
      ghost var rest := Flatten(cs);
      while true
        invariant Valid() && Cursor(rest) && seen + rest == Flatten(cs)
        decreases |rest|
      {
        var item := FindNext(rest);
        if item == 0 { break; }
        MoveOne(seen, rest);
        seen := seen + [item];
        rest := rest[1..];
      }
    }
  }

  lemma {:induction false} MoveOne(seen: seq<nat>, rest: seq<nat>)
    requires rest != []
    ensures (seen + [rest[0]]) + rest[1..] == seen + rest
  {
  }

  /** The cursor stands before the entries rest: at the node prev inside a bucket, or before bucket pos. */
  ghost predicate CursorAt(cs: seq<seq<nat>>, pos: nat, prev: nat, rest: seq<nat>) {
    && pos <= |cs|
    && (prev == 0 ==> rest == Flatten(cs[pos..]))
    && (prev != 0 ==> pos < |cs| && exists i :: StandsAt(cs, pos, i, prev, rest))
  }

  /** Entering a bucket: at its first node, or past it when it is empty. */
  lemma {:induction false} EnterBucket<T>(nodes: map<nat, Node<T>>, list: seq<nat>, cs: seq<seq<nat>>, pos: nat,
                                          rest: seq<nat>)
    requires Chains(nodes, list, cs) && pos < |cs|
    ensures CursorAt(cs, pos, 0, rest) ==> CursorAt(cs, if list[pos] == 0 then pos + 1 else pos, list[pos], rest)
  {
    Bucket(nodes, list, cs, pos);
    FlattenAt(cs, pos);
    if CursorAt(cs, pos, 0, rest) && list[pos] != 0 {
      assert StandsAt(cs, pos, 0, list[pos], rest);
    }
  }

  lemma {:induction false} CursorEntry(cs: seq<seq<nat>>, pos: nat, prev: nat, rest: seq<nat>)
    requires CursorAt(cs, pos, prev, rest) && prev != 0
    ensures rest != [] && rest[0] == prev
  {
    var i :| StandsAt(cs, pos, i, prev, rest);
    StepOn(cs, pos, i, prev, rest);
  }

  /** One turn of the loop that looks for a non-empty bucket. */
  lemma {:induction false} SkipStep<T>(nodes: map<nat, Node<T>>, list: seq<nat>, cs: seq<seq<nat>>, pos: nat,
                                       prev: nat, rest: seq<nat>)
    requires Chains(nodes, list, cs) && CursorAt(cs, pos, prev, rest) && pos < |cs|
    ensures var entry := if prev == 0 then list[pos] else prev;
            if entry == 0 then CursorAt(cs, pos + 1, 0, rest) else CursorAt(cs, pos, entry, rest) && rest != []
  {
    EnterBucket(nodes, list, cs, pos, rest);
    var entry := if prev == 0 then list[pos] else prev;
    if entry != 0 { CursorEntry(cs, pos, entry, rest); }
  }

  lemma {:induction false} CursorEnd(cs: seq<seq<nat>>, pos: nat, prev: nat, rest: seq<nat>)
    requires CursorAt(cs, pos, prev, rest) && pos >= |cs|
    ensures prev == 0 && rest == []
  {
    assert cs[pos..] == [];
  }

  lemma {:induction false} StepInside(cs: seq<seq<nat>>, pos: nat, i: nat, prev: nat, next: nat, rest: seq<nat>)
    requires pos < |cs| && StandsAt(cs, pos, i, prev, rest)
    requires next == At(cs[pos], i + 1) && (next == 0 <==> i + 1 == |cs[pos]|)
    ensures rest != [] && rest[0] == prev && CursorAt(cs, if next == 0 then pos + 1 else pos, next, rest[1..])
  {
    StepOn(cs, pos, i, prev, rest);
    if next != 0 {
      assert StandsAt(cs, pos, i + 1, next, rest[1..]);
    } else {
      assert cs[pos][i + 1..] == [];
    }
  }

  /** Taking the entry under the cursor moves it to the next one. */
  lemma {:induction false} StepCursor<T>(nodes: map<nat, Node<T>>, list: seq<nat>, cs: seq<seq<nat>>, pos: nat,
                                         prev: nat, rest: seq<nat>)
    requires Chains(nodes, list, cs) && CursorAt(cs, pos, prev, rest) && prev != 0
    ensures prev in nodes && rest != [] && rest[0] == prev
    ensures var next := nodes[prev].next; CursorAt(cs, if next == 0 then pos + 1 else pos, next, rest[1..])
  {
    var i :| StandsAt(cs, pos, i, prev, rest);
    NextOf(nodes, list, cs, pos, i);
    StepInside(cs, pos, i, prev, nodes[prev].next, rest);
  }

  lemma {:induction false} NextOf<T>(nodes: map<nat, Node<T>>, list: seq<nat>, cs: seq<seq<nat>>, pos: nat, i: nat)
    requires Chains(nodes, list, cs) && pos < |cs| && i < |cs[pos]|
    ensures cs[pos][i] in nodes && nodes[cs[pos][i]].next == At(cs[pos], i + 1)
    ensures At(cs[pos], i + 1) == 0 <==> i + 1 == |cs[pos]|
  {
    Bucket(nodes, list, cs, pos);
    assert Linked(nodes, cs[pos], i);
    if At(cs[pos], i + 1) == 0 { LastMember(nodes, list[pos], cs[pos], i); }
  }

  lemma {:induction false} LastMember<T>(nodes: map<nat, Node<T>>, first: nat, c: seq<nat>, i: nat)
    requires Chain(nodes, first, c) && i < |c| && At(c, i + 1) == 0
    ensures i + 1 == |c|
  {
  }

  /** Member i of bucket p is the node prev, and from it on come the entries rest. */
  ghost predicate StandsAt(cs: seq<seq<nat>>, p: nat, i: nat, prev: nat, rest: seq<nat>)
    requires p < |cs|
  {
    i < |cs[p]| && cs[p][i] == prev && rest == cs[p][i..] + Flatten(cs[p + 1..])
  }

  /** One entry further: the rest of the bucket, then the later buckets. */
  lemma {:induction false} StepOn(cs: seq<seq<nat>>, p: nat, i: nat, prev: nat, rest: seq<nat>)
    requires p < |cs| && StandsAt(cs, p, i, prev, rest)
    ensures rest != [] && rest[0] == prev && rest[1..] == cs[p][i + 1..] + Flatten(cs[p + 1..])
  {
  }

  lemma {:induction false} SearchEnds<T>(nodes: map<nat, Node<T>>, list: seq<nat>, cs: seq<seq<nat>>, p: nat, i: nat)
    requires Chains(nodes, list, cs) && p < |cs| && At(cs[p], i) == 0
    ensures i >= |cs[p]|
  {
    Bucket(nodes, list, cs, p);
  }

  /** The state that unlinking leaves. */
  lemma {:induction false} RemoveTable<T>(nodes: map<nat, Node<T>>, list: seq<nat>, cs: seq<seq<nat>>, p: nat,
                                          c: seq<nat>, i: nat, prev: nat, cur: nat)
    requires Chains(nodes, list, cs) && p < |cs| && c == cs[p] && i <= |c| && cur == At(c, i) != 0
             && prev == Before(c, i)
    ensures i < |c| && cur in nodes && prev != cur && (prev != 0 ==> prev in nodes)
    ensures Chains(Unlinked(nodes, prev, cur), HeadsWithout(nodes, list, p, prev, cur), cs[p := Cut(c, i)])
  {
    Bucket(nodes, list, cs, p);
    var first := if i == 0 then nodes[c[0]].next else list[p];
    RemoveBucket(nodes, list, cs, p, c, i, Unlinked(nodes, prev, cur), first);
    assert list[p := list[p]] == list;
  }

  lemma {:induction false} RemovedLength(cs: seq<seq<nat>>, p: nat, i: nat)
    requires p < |cs| && i < |cs[p]|
    ensures |Flatten(cs[p := Cut(cs[p], i)])| == |Flatten(cs)| - 1
  {
    FlattenAt(cs, p);
    FlattenUpdate(cs, p, Cut(cs[p], i));
  }

  lemma {:induction false} RemovedCount(cs: seq<seq<nat>>, p: nat, i: nat, nrItem: word)
    requires p < |cs| && i < |cs[p]| && nrItem == |Flatten(cs)| % TWO_32
    ensures U32(nrItem as int - 1) == |Flatten(cs[p := Cut(cs[p], i)])| % TWO_32
  {
    RemovedLength(cs, p, i);
    OneLess(|Flatten(cs)|);
  }

  lemma {:induction false} OneLess(n: nat)
    requires n > 0
    ensures U32(n % TWO_32 - 1) == (n - 1) % TWO_32
  {
  }

  lemma {:induction false} AllEmpty(cs: seq<seq<nat>>)
    requires forall p :: 0 <= p < |cs| ==> cs[p] == []
    ensures Flatten(cs) == []
  {
    if cs != [] { AllEmpty(cs[1..]); }
  }

  lemma {:induction false} AddedCount(cs: seq<seq<nat>>, p: nat, a: nat)
    requires p < |cs|
    ensures |Flatten(cs[p := Added(cs[p], a)])| == |Flatten(cs)| + 1
    ensures U32(|Flatten(cs)| % TWO_32 + 1) == (|Flatten(cs)| + 1) % TWO_32
  {
    FlattenAt(cs, p);
    FlattenUpdate(cs, p, Added(cs[p], a));
  }
}
