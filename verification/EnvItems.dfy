/** The environment area as a list of entries: layout, lookup and the finite map it stands for. */
module EnvItems {
  import opened Options
  import opened MemCpy
  import opened CStrings

  const EQUALS: byte := 61

  datatype Entry = Entry(key: seq<byte>, value: seq<byte>)

  predicate Key(s: seq<byte>) {
    s != [] && Chars(s) && EQUALS !in s
  }

  predicate Proper(e: Entry) {
    Key(e.key) && e.value != [] && Chars(e.value)
  }

  predicate AllProper(es: seq<Entry>) {
    forall i :: 0 <= i < |es| ==> Proper(es[i])
  }

  /** key=value */
  function Text(e: Entry): (t: seq<byte>) {
    e.key + [EQUALS] + e.value
  }

  /** The entries one after the other, each closed by a zero byte. */
  function Packed(es: seq<Entry>): seq<byte> {
    if es == [] then [] else Text(es[0]) + [0] + Packed(es[1..])
  }

  /** Where entry i starts. */
  function Start(es: seq<Entry>, i: nat): nat
    requires i <= |es|
  {
    |Packed(es[..i])|
  }

  /** The area holds the entries and is zero from the tail on. */
  ghost predicate Layout(data: seq<byte>, es: seq<Entry>, tail: nat) {
    && AllProper(es)
    && tail == |Packed(es)| <= |data|
    && data[..tail] == Packed(es)
    && forall i :: tail <= i < |data| ==> data[i] == 0
  }

  lemma {:induction false} Regroup(x: seq<byte>, y: seq<byte>, z: seq<byte>)
    ensures (x + y) + z == x + (y + z)
  {
  }

  lemma {:induction false} PackedMore(es: seq<Entry>, e: Entry, rest: seq<Entry>, t: seq<byte>)
    requires es != [] && es[0] == e && es[1..] == rest && t == Text(e) + [0]
    ensures Packed(es) == t + Packed(rest)
  {
  }

  lemma {:induction false} PackedAppend(a: seq<Entry>, b: seq<Entry>)
    ensures Packed(a + b) == Packed(a) + Packed(b)
  {
    if a == [] {
      assert a + b == b;
    } else {
      var t := Text(a[0]) + [0];
      PackedAppend(a[1..], b);
      PackedMore(a, a[0], a[1..], t);
      PackedMore(a + b, a[0], a[1..] + b, t);
      Regroup(t, Packed(a[1..]), Packed(b));
    }
  }

  lemma {:induction false} PackedOne(e: Entry)
    ensures Packed([e]) == Text(e) + [0]
  {
    assert [e][1..] == [];
  }

  /** Entry i, with its terminator, is the slice between its start and the next one. */
  lemma {:induction false} EntryAt(es: seq<Entry>, i: nat)
    requires i < |es|
    ensures Start(es, i + 1) == Start(es, i) + |Text(es[i])| + 1 <= |Packed(es)|
    ensures Packed(es)[Start(es, i)..Start(es, i + 1)] == Text(es[i]) + [0]
  {
    assert es[..i + 1] == es[..i] + [es[i]];
    PackedAppend(es[..i], [es[i]]);
    PackedOne(es[i]);
    assert es == es[..i + 1] + es[i + 1..];
    PackedAppend(es[..i + 1], es[i + 1..]);
  }

  lemma {:induction false} StartEnds(es: seq<Entry>)
    ensures Start(es, 0) == 0 && Start(es, |es|) == |Packed(es)|
  {
    assert es[..|es|] == es;
  }

  /** Position p is in the middle of entry i exactly up to its terminator. */
  lemma {:induction false} InEntry(es: seq<Entry>, i: nat, k: nat)
    requires i < |es| && AllProper(es) && k <= |Text(es[i])|
    ensures Start(es, i) + k < |Packed(es)|
    ensures Packed(es)[Start(es, i) + k] == if k < |Text(es[i])| then Text(es[i])[k] else 0
    ensures Packed(es)[Start(es, i) + k] == 0 <==> k == |Text(es[i])|
  {
    EntryAt(es, i);
    var s := Packed(es)[Start(es, i)..Start(es, i + 1)];
    assert Packed(es)[Start(es, i) + k] == s[k];
    assert Proper(es[i]);
    TextChars(es[i]);
  }

  lemma {:induction false} TextChars(e: Entry)
    requires Proper(e)
    ensures Chars(Text(e)) && |Text(e)| >= 3
  {
  }

  /** Two zero bytes in a row occur nowhere before the tail, and the last byte before it is zero. */
  lemma {:induction false} NoDoubleZero(es: seq<Entry>)
    requires AllProper(es)
    ensures var p := Packed(es);
            && (p != [] ==> |p| >= 4 && p[0] != 0 && p[|p| - 1] == 0)
            && forall i :: 0 <= i && i + 1 < |p| ==> p[i] != 0 || p[i + 1] != 0
  {
    if es != [] {
      assert Proper(es[0]);
      NoDoubleZero(es[1..]);
      TextChars(es[0]);
    }
  }

  /** The test the binary search makes at position i. */
  predicate TwoZeros(data: seq<byte>, i: nat)
    requires i + 1 < |data|
  {
    data[i] == 0 && data[i + 1] == 0
  }

  /** The test is monotone: it holds exactly from the last terminator on. */
  lemma {:induction false} TwoZerosFromTail(data: seq<byte>, es: seq<Entry>, tail: nat, i: nat)
    requires Layout(data, es, tail) && i + 1 < |data|
    ensures TwoZeros(data, i) <==> i + 1 >= tail
  {
    NoDoubleZero(es);
    if i + 1 < tail {
      assert data[..tail][i] == data[i] && data[..tail][i + 1] == data[i + 1];
    } else if i + 1 == tail {
      assert data[..tail][i] == data[i];
    }
  }

  /** strncmp and the '=' test together single out the entry's own key. */
  lemma {:induction false} KeyMatch(e: Entry, key: seq<byte>)
    requires Proper(e) && Key(key)
    ensures |key| < |Text(e)| && Text(e)[..|key|] == key && Text(e)[|key|] == EQUALS <==> key == e.key
  {
    var t := Text(e);
    assert t[..|e.key|] == e.key;
    assert |key| < |e.key| ==> t[|key|] == e.key[|key|];
    assert |e.key| < |key| < |t| ==> t[..|key|][|e.key|] == EQUALS;
  }

  /** Index of the entry with this key, or the number of entries. */
  function Find(es: seq<Entry>, key: seq<byte>): (i: nat)
    ensures i <= |es|
    ensures i < |es| ==> es[i].key == key
    ensures forall k :: 0 <= k < i ==> es[k].key != key
  {
    if es == [] then 0 else if es[0].key == key then 0 else 1 + Find(es[1..], key)
  }

  predicate Unique(es: seq<Entry>) {
    forall i, k :: 0 <= i < k < |es| ==> es[i].key != es[k].key
  }

  /** The list without the entry of this key. */
  function Without(es: seq<Entry>, key: seq<byte>): seq<Entry> {
    var i := Find(es, key);
    if i < |es| then es[..i] + es[i + 1..] else es
  }

  /** What a lookup finds. */
  function Lookup(es: seq<Entry>, key: seq<byte>): Option<seq<byte>> {
    var i := Find(es, key);
    if i < |es| then Some(es[i].value) else None
  }

  /** The finite map the area stands for. */
  function AsMap(es: seq<Entry>): map<seq<byte>, seq<byte>> {
    if es == [] then map[] else AsMap(es[..|es| - 1])[es[|es| - 1].key := es[|es| - 1].value]
  }

  lemma {:induction false} MapKeys(es: seq<Entry>, key: seq<byte>)
    requires Unique(es)
    ensures key in AsMap(es) <==> Find(es, key) < |es|
    ensures Find(es, key) < |es| ==> AsMap(es)[key] == es[Find(es, key)].value
  {
    if es != [] {
      var n := |es| - 1;
      MapKeys(es[..n], key);
      var i := Find(es[..n], key);
      if i < n { FindOnly(es, key, i); } else if es[n].key == key { FindOnly(es, key, n); }
    }
  }

  lemma {:induction false} FindOnly(es: seq<Entry>, key: seq<byte>, i: nat)
    requires Unique(es) && i < |es| && es[i].key == key
    ensures Find(es, key) == i
  {
  }

  lemma {:induction false} WithoutKeys(es: seq<Entry>, key: seq<byte>)
    requires Unique(es)
    ensures Unique(Without(es, key))
    ensures forall k :: 0 <= k < |Without(es, key)| ==> Without(es, key)[k].key != key
  {
    var i := Find(es, key);
    var ws := Without(es, key);
    forall k | 0 <= k < |ws|
      ensures ws[k].key != key
    {
      if i < |es| && k >= i { assert ws[k] == es[k + 1]; }
    }
  }

  lemma {:induction false} Kept(es: seq<Entry>, key: seq<byte>, g: nat)
    requires g < |es| && es[g].key != key
    ensures Find(Without(es, key), es[g].key) < |Without(es, key)|
  {
    var i := Find(es, key);
    var h := if i < |es| && g > i then g - 1 else g;
    assert Without(es, key)[h] == es[g];
  }

  /** Removing one key leaves the lookups of all others alone. */
  lemma {:induction false} LookupWithout(es: seq<Entry>, key: seq<byte>, q: seq<byte>)
    requires Unique(es)
    ensures Lookup(Without(es, key), q) == if q == key then None else Lookup(es, q)
  {
    WithoutKeys(es, key);
    var i := Find(es, key);
    var ws := Without(es, key);
    var f := Find(ws, q);
    if f < |ws| {
      var g := if i < |es| && f >= i then f + 1 else f;
      assert ws[f] == es[g];
      FindOnly(es, q, g);
    } else if q != key && Find(es, q) < |es| {
      Kept(es, key, Find(es, q));
    }
  }

  lemma {:induction false} LookupMap(es: seq<Entry>, q: seq<byte>)
    requires Unique(es)
    ensures Lookup(es, q) == if q in AsMap(es) then Some(AsMap(es)[q]) else None
  {
    MapKeys(es, q);
  }

  lemma {:induction false} SameLookups(a: seq<Entry>, m: map<seq<byte>, seq<byte>>)
    requires Unique(a)
    requires forall q :: Lookup(a, q) == if q in m then Some(m[q]) else None
    ensures AsMap(a) == m
  {
    forall q
      ensures q in AsMap(a) <==> q in m
      ensures q in m ==> AsMap(a)[q] == m[q]
    {
      LookupMap(a, q);
      assert Lookup(a, q) == if q in m then Some(m[q]) else None;
    }
  }

  /** env_clear is removal from the map. */
  lemma {:induction false} ClearedMap(es: seq<Entry>, key: seq<byte>)
    requires Unique(es)
    ensures Unique(Without(es, key))
    ensures AsMap(Without(es, key)) == AsMap(es) - {key}
  {
    WithoutKeys(es, key);
    forall q
      ensures Lookup(Without(es, key), q) == if q in AsMap(es) - {key} then Some((AsMap(es) - {key})[q]) else None
    {
      LookupWithout(es, key, q);
      LookupMap(es, q);
    }
    SameLookups(Without(es, key), AsMap(es) - {key});
  }

  /** The list after env_set: the old entry of the key is gone, the new one comes last. */
  function Updated(es: seq<Entry>, e: Entry): seq<Entry> {
    Without(es, e.key) + [e]
  }

  /** env_set is update of the map. */
  lemma {:induction false} UpdatedMap(es: seq<Entry>, e: Entry)
    requires Unique(es)
    ensures Unique(Updated(es, e))
    ensures AsMap(Updated(es, e)) == AsMap(es)[e.key := e.value]
  {
    ClearedMap(es, e.key);
    WithoutKeys(es, e.key);
    AppendedMap(Without(es, e.key), e);
  }

  lemma {:induction false} AppendedMap(ws: seq<Entry>, e: Entry)
    requires Unique(ws) && forall k :: 0 <= k < |ws| ==> ws[k].key != e.key
    ensures Unique(ws + [e]) && AsMap(ws + [e]) == AsMap(ws)[e.key := e.value]
  {
    assert (ws + [e])[..|ws|] == ws;
  }

  /** Removing entry i closes the gap in the packed form. */
  lemma {:induction false} PackedWithout(es: seq<Entry>, i: nat)
    requires i < |es|
    ensures Start(es, i) <= Start(es, i + 1) <= |Packed(es)|
    ensures Packed(es[..i] + es[i + 1..]) == Packed(es)[..Start(es, i)] + Packed(es)[Start(es, i + 1)..]
  {
    EntryAt(es, i);
    PackedAppend(es[..i], es[i + 1..]);
    PackedSplit(es, i);
    PackedSplit(es, i + 1);
  }

  lemma {:induction false} PackedSplit(es: seq<Entry>, i: nat)
    requires i <= |es|
    ensures Start(es, i) <= |Packed(es)|
    ensures Packed(es)[..Start(es, i)] == Packed(es[..i]) && Packed(es)[Start(es, i)..] == Packed(es[i..])
  {
    assert es == es[..i] + es[i..];
    PackedAppend(es[..i], es[i..]);
  }
}
