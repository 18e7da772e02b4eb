/** The environment store: a packed byte area searched and edited in place. */
module EnvSet {
  import opened Options
  import opened Words
  import opened MemCpy
  import opened CStrings
  import opened EnvItems
  import Printf

  /** What an area of this size must satisfy between operations. */
  ghost predicate Stored(data: seq<byte>, es: seq<Entry>, tail: nat) {
    && |data| % 4 == 0 && |data| < TWO_31
    && Layout(data, es, tail) && tail < |data|
    && Unique(es)
  }

  lemma {:induction false} AtByte(data: seq<byte>, es: seq<Entry>, tail: nat, i: nat, k: nat)
    requires Layout(data, es, tail) && i < |es| && k <= |Text(es[i])|
    ensures Start(es, i) + k < tail
    ensures data[Start(es, i) + k] == 0 <==> k == |Text(es[i])|
    ensures k < |Text(es[i])| ==> data[Start(es, i) + k] == Text(es[i])[k]
  {
    InEntry(es, i, k);
    assert data[..tail][Start(es, i) + k] == data[Start(es, i) + k];
  }

  /** The bytes of entry i in the area, terminator included. */
  lemma {:induction false} EntryBytes(data: seq<byte>, es: seq<Entry>, tail: nat, i: nat)
    requires Layout(data, es, tail) && i < |es|
    ensures Start(es, i) + |Text(es[i])| + 1 == Start(es, i + 1) <= tail
    ensures data[Start(es, i)..Start(es, i) + |Text(es[i])|] == Text(es[i])
    ensures data[Start(es, i) + |Text(es[i])|] == 0
  {
    EntryAt(es, i);
    Within(data, tail, Start(es, i), Text(es[i]));
  }

  /** Bytes found in the beginning of the area are found in the area. */
  lemma {:induction false} Within(data: seq<byte>, tail: nat, p: nat, t: seq<byte>)
    requires p + |t| + 1 <= tail <= |data| && data[..tail][p..p + |t| + 1] == t + [0]
    ensures data[p..p + |t|] == t && data[p + |t|] == 0
  {
    var s := data[p..p + |t| + 1];
    assert data[..tail][p..p + |t| + 1] == s;
    assert s == t + [0];
    assert s[|t|] == 0 && s[..|t|] == t;
  }

  /** What follows an entry: the next one, or two zero bytes in a row. */
  lemma {:induction false} AfterEntry(data: seq<byte>, es: seq<Entry>, tail: nat, i: nat)
    requires Layout(data, es, tail) && tail < |data| && i < |es|
    ensures Start(es, i + 1) <= tail
    ensures data[Start(es, i + 1)] == 0 <==> i + 1 == |es|
    ensures i + 1 == |es| ==> Start(es, i + 1) == tail
  {
    EntryBytes(data, es, tail, i);
    StartEnds(es);
    if i + 1 < |es| {
      TextChars(es[i + 1]);
      AtByte(data, es, tail, i + 1, 0);
    }
  }

  /** The string at p ends at position e. */
  ghost predicate Terminated(data: seq<byte>, p: nat, e: nat) {
    p <= e < |data| && data[e] == 0 && forall i :: p <= i < e ==> data[i] != 0
  }

  lemma {:induction false} EntryTerminated(data: seq<byte>, es: seq<Entry>, tail: nat, i: nat)
    requires Layout(data, es, tail) && i < |es|
    ensures Terminated(data, Start(es, i), Start(es, i) + |Text(es[i])|)
  {
    var p := Start(es, i);
    AtByte(data, es, tail, i, |Text(es[i])|);
    forall k | p <= k < p + |Text(es[i])|
      ensures data[k] != 0
    {
      AtByte(data, es, tail, i, k - p);
    }
  }

  /** Where find_env_item ends up. */
  ghost predicate FoundAt(es: seq<Entry>, key: seq<byte>, item: Option<nat>, value: Option<nat>) {
    var i := Find(es, key);
    if i < |es| then item == Some(Start(es, i)) && value == Some(Start(es, i) + |key| + 1)
    else item == None && value == None
  }

  /** The comparison made at entry i succeeds exactly for its own key. */
  lemma {:induction false} MatchAt(data: seq<byte>, es: seq<Entry>, tail: nat, i: nat, key: seq<byte>)
    requires Layout(data, es, tail) && i < |es| && Key(key)
    ensures var p := Start(es, i); var e := p + |Text(es[i])|;
            && e < |data|
            && (p + |key| <= e && data[p..p + |key|] == key && data[p + |key|] == EQUALS <==> key == es[i].key)
  {
    EntryBytes(data, es, tail, i);
    KeyMatch(es[i], key);
    var p := Start(es, i);
    var t := data[p..p + |Text(es[i])|];
    if |key| <= |t| {
      assert t[..|key|] == data[p..p + |key|];
      if |key| == |t| { assert data[p + |key|] == 0; } else { assert t[|key|] == data[p + |key|]; }
    }
  }

  /** The same at the item under inspection, which in an empty area is an empty string. */
  lemma {:induction false} Probe(data: seq<byte>, es: seq<Entry>, tail: nat, i: nat, key: seq<byte>) returns (e: nat)
    requires Layout(data, es, tail) && tail < |data| && Key(key) && i <= |es| && (i < |es| || i == 0)
    ensures var p := Start(es, i);
            && Terminated(data, p, e)
            && (p + |key| <= e && data[p..p + |key|] == key && data[p + |key|] == EQUALS <==>
                i < |es| && key == es[i].key)
  {
    if i < |es| {
      EntryTerminated(data, es, tail, i);
      MatchAt(data, es, tail, i, key);
      e := Start(es, i) + |Text(es[i])|;
    } else {
      e := 0;
    }
  }

  /** Moving what follows entry i down over it leaves the packed form of the other entries. */
  lemma {:induction false} CloseGap(data: seq<byte>, es: seq<Entry>, tail: nat, i: nat)
    requires Layout(data, es, tail) && i < |es|
    ensures var p, q := Start(es, i), Start(es, i + 1);
            && p <= q <= tail
            && tail - (q - p) == |Packed(es[..i] + es[i + 1..])|
            && (data[..p] + data[q..tail])[..tail - (q - p)] == Packed(es[..i] + es[i + 1..])
  {
    PackedWithout(es, i);
    var p, q := Start(es, i), Start(es, i + 1);
    assert data[..tail][..p] == data[..p] && data[..tail][q..] == data[q..tail];
    var r := data[..p] + data[q..tail];
    assert r[..tail - (q - p)] == r;
  }

  /** The entries end at t, and the area is zero from end on; what lies between is left over. */
  ghost predicate Gap(data: seq<byte>, es: seq<Entry>, t: int, end: int) {
    && AllProper(es) && Unique(es)
    && 0 <= t == |Packed(es)| <= end < |data|
    && data[..t] == Packed(es)
    && forall i :: end <= i < |data| ==> data[i] == 0
  }

  /** The bytes from q to the tail moved down to p. */
  function Closed(data: seq<byte>, p: nat, q: nat, tail: nat): (r: seq<byte>)
    requires p <= q <= tail <= |data|
    ensures |r| == |data| && r[..tail - (q - p)] == data[..p] + data[q..tail] && r[tail..] == data[tail..]
  {
    data[..p] + data[q..tail] + data[p + (tail - q)..]
  }

  /** Where entry i ends: its terminator before q, its successor or the tail at q. */
  lemma {:induction false} EntryEnds(data: seq<byte>, es: seq<Entry>, tail: nat, i: nat, p: nat, q: nat)
    requires Layout(data, es, tail) && tail < |data| && i < |es| && p == Start(es, i) && q == Start(es, i + 1)
    ensures p < q <= tail && Terminated(data, p, q - 1) && (i + 1 == |es| ==> q == tail)
  {
    EntryAt(es, i);
    EntryTerminated(data, es, tail, i);
    AfterEntry(data, es, tail, i);
  }

  /** The entries without the i-th one. */
  ghost predicate Dropped(es: seq<Entry>, i: nat, rest: seq<Entry>) {
    i < |es| && rest == es[..i] + es[i + 1..]
  }

  /** Taking out the last entry moves nothing; taking out another closes up. */
  lemma {:induction false} TakenOut(data: seq<byte>, es: seq<Entry>, tail: nat, i: nat, rest: seq<Entry>,
                                    after: seq<byte>, p: nat, q: nat)
    requires Stored(data, es, tail) && Dropped(es, i, rest)
    requires p == Start(es, i) && q == Start(es, i + 1) && p < q <= tail
    requires after == if q == tail then data else Closed(data, p, q, tail)
    ensures Gap(after, rest, tail - (q - p), tail)
  {
    CloseGap(data, es, tail, i);
    if q == tail {
      assert data[..p] + data[q..tail] == data[..p];
    } else {
      SameEnd(data, after, tail);
    }
  }

  lemma {:induction false} SameEnd(data: seq<byte>, after: seq<byte>, tail: nat)
    requires tail <= |data| == |after| && after[tail..] == data[tail..]
    ensures forall i :: tail <= i < |data| ==> after[i] == data[i]
  {
    forall i | tail <= i < |data|
      ensures after[i] == data[i]
    {
      assert after[tail..][i - tail] == data[tail..][i - tail];
    }
  }

  /** Appending an entry over the left-over bytes. */
  function Appended(data: seq<byte>, t: nat, text: seq<byte>, end: nat): (r: seq<byte>)
    requires t + |text| + 1 < |data| && t <= end < |data|
    ensures |r| == |data|
  {
    var n := t + |text| + 1;
    var d := Write(data, t, text + [0])[n := 0];
    if n < end then Write(d, n, Zeros(end - n)) else d
  }

  /** The writes of env_set when the text is not cut. */
  lemma {:induction false} AppendSteps(data: seq<byte>, t: nat, text: seq<byte>, orglen: nat)
    requires t + |text| + 1 < |data| && t + orglen < |data|
    ensures var n := t + |text| + 1;
            var d := Write(data, t, Printf.Bounded(text, |data| - t - 1) + [0])[n := 0];
            Appended(data, t, text, t + orglen)
            == if |text| + 1 < orglen then Write(d, n, Zeros(orglen - (|text| + 1))) else d
  {
    assert Printf.Bounded(text, |data| - t - 1) == text;
    assert t + orglen - (t + |text| + 1) == orglen - (|text| + 1);
  }

  lemma {:induction false} AppendedBytes(data: seq<byte>, t: nat, text: seq<byte>, end: nat)
    requires t + |text| + 1 < |data| && t <= end < |data|
    requires forall i :: end <= i < |data| ==> data[i] == 0
    ensures var n := t + |text| + 1; var r := Appended(data, t, text, end);
            && r[..n] == data[..t] + (text + [0])
            && forall i :: n <= i < |r| ==> r[i] == 0
  {
  }

  lemma {:induction false} AppendedLayout(data: seq<byte>, es: seq<Entry>, t: nat, end: nat, e: Entry)
    requires Gap(data, es, t, end) && Proper(e) && t + |Text(e)| + 1 < |data|
    ensures Layout(Appended(data, t, Text(e), end), es + [e], t + |Text(e)| + 1)
  {
    AppendedBytes(data, t, Text(e), end);
    PackedAppend(es, [e]);
    PackedOne(e);
  }

  /** Clearing the left-over bytes. */
  lemma {:induction false} ClearedLayout(data: seq<byte>, es: seq<Entry>, t: nat, end: nat)
    requires Gap(data, es, t, end)
    ensures Layout(Write(data, t, Zeros(end - t)), es, t)
  {
    var r := Write(data, t, Zeros(end - t));
    assert r[..t] == data[..t];
  }

  /** The size of the packed list after an update. */
  lemma {:induction false} UpdatedSize(es: seq<Entry>, e: Entry)
    ensures |Packed(Updated(es, e))| == |Packed(Without(es, e.key))| + |Text(e)| + 1
  {
    PackedAppend(Without(es, e.key), [e]);
    PackedOne(e);
  }

  lemma {:induction false} NotThere(data: seq<byte>, es: seq<Entry>, tail: nat, key: seq<byte>)
    requires Stored(data, es, tail) && Find(es, key) == |es|
    ensures Gap(data, Without(es, key), tail, tail)
  {
  }

  lemma {:induction false} FullHasNoRoom(es: seq<Entry>, key: seq<byte>, value: seq<byte>, size: nat)
    requires Lookup(es, key) == None && |Packed(es)| + 1 == size
    ensures |Packed(Updated(es, Entry(key, value)))| >= size
  {
    UpdatedSize(es, Entry(key, value));
  }

  lemma {:induction false} UpdatedLookup(es: seq<Entry>, e: Entry)
    requires Unique(es)
    ensures Lookup(Updated(es, e), e.key) == Some(e.value)
  {
    UpdatedMap(es, e);
    LookupMap(Updated(es, e), e.key);
  }

  lemma {:induction false} SetLayout(data: seq<byte>, es: seq<Entry>, t: nat, end: nat, e: Entry)
    requires |data| % 4 == 0 && |data| < TWO_31 && Unique(es) && Proper(e)
    requires Gap(data, Without(es, e.key), t, end) && t + |Text(e)| + 1 < |data|
    ensures Stored(Appended(data, t, Text(e), end), Updated(es, e), t + |Text(e)| + 1)
  {
    AppendedLayout(data, Without(es, e.key), t, end, e);
    UpdatedMap(es, e);
  }

  lemma {:induction false} NoEmptyKey(es: seq<Entry>)
    requires AllProper(es)
    ensures Find(es, []) == |es| && Without(es, []) == es
  {
    var i := Find(es, []);
    assert i < |es| ==> Proper(es[i]);
  }

  /** The zero-terminated string at p is v. */
  predicate HoldsString(data: seq<byte>, p: nat, v: seq<byte>) {
    p + |v| < |data| && data[p..p + |v|] == v && Chars(v) && data[p + |v|] == 0
  }

  lemma {:induction false} ValueAt(data: seq<byte>, es: seq<Entry>, tail: nat, i: nat)
    requires Layout(data, es, tail) && tail < |data| && i < |es|
    ensures HoldsString(data, Start(es, i) + |es[i].key| + 1, es[i].value)
  {
    EntryBytes(data, es, tail, i);
    var p, t := Start(es, i), Text(es[i]);
    var k := |es[i].key| + 1;
    assert t[k..] == es[i].value;
    assert data[p..p + |t|][k..] == data[p + k..p + |t|];
    assert Proper(es[i]);
  }

  // ---------------------------------------------------------------- finding the tail again

  /** (p0 >> 1) + (p1 >> 1) lies strictly between, whatever the addresses. */
  lemma {:induction false} HalvedBetween(p0: nat, p1: nat)
    requires p1 > p0 + 2
    ensures p0 < p0 / 2 + p1 / 2 < p1
  {
  }

  /** find_env_tail: the tail the writers kept, from the bytes alone; str is the address of the area. */
  method FindEnvTail(str: nat, data: seq<byte>, ghost es: seq<Entry>, ghost tail: nat) returns (end: nat)
    requires Layout(data, es, tail) && |data| >= 2
    ensures end == str + tail
  {
    var n := |data|;
    var ptr0, ptr1 := str, str + n - 1;
    NoDoubleZero(es);
    if TwoZeros(data, 0) {
      TwoZerosFromTail(data, es, tail, 0);
      return ptr0;
    }
    TwoZerosFromTail(data, es, tail, 0);
    TwoZerosFromTail(data, es, tail, n - 2);
    if data[n - 1] != 0 || data[n - 2] != 0 {
      return ptr1 + 1;
    }
    while ptr1 > ptr0 + 2
      invariant str <= ptr0 < str + tail - 1 <= ptr1 <= str + n - 1
      decreases ptr1 - ptr0
    {
      HalvedBetween(ptr0, ptr1);
      var ptr := ptr0 / 2 + ptr1 / 2;
      TwoZerosFromTail(data, es, tail, ptr - str);
      if TwoZeros(data, ptr - str) {
        ptr1 := ptr;
      } else {
        ptr0 := ptr;
      }
    }
    var ptr := ptr0;
    while ptr < ptr1
      invariant ptr0 <= ptr <= ptr1 && ptr <= str + tail - 1
    {
      TwoZerosFromTail(data, es, tail, ptr - str);
      if TwoZeros(data, ptr - str) {
        return ptr + 1;
      }
      ptr := ptr + 1;
    }
    return ptr1 + 1;
  }

  // ---------------------------------------------------------------- whole runs

  datatype Op = SetOp(key: seq<byte>, value: seq<byte>) | ClearOp(key: seq<byte>) | ReloadOp(address: nat)

  /** C strings, and no new entry that is cut short: one that has room, or comes to a full area and is refused. */
  predicate Fitting(es: seq<Entry>, op: Op, size: nat) {
    match op
    case SetOp(key, value) =>
      && Chars(key) && Chars(value) && EQUALS !in key
      && (key == [] || value == [] || |Packed(Updated(es, Entry(key, value)))| < size
          || (Lookup(es, key) == None && |Packed(es)| + 1 == size))
    case ClearOp(key) => Chars(key) && EQUALS !in key
    case ReloadOp(_) => true
  }

  function Next(es: seq<Entry>, op: Op, size: nat): seq<Entry> {
    match op
    case SetOp(key, value) =>
      if key == [] || value == [] || |Packed(Updated(es, Entry(key, value)))| >= size then es
      else Updated(es, Entry(key, value))
    case ClearOp(key) => Without(es, key)
    case ReloadOp(_) => es
  }

  predicate AllFit(es: seq<Entry>, ops: seq<Op>, size: nat)
    decreases |ops|
  {
    ops == [] || (Fitting(es, ops[0], size) && AllFit(Next(es, ops[0], size), ops[1..], size))
  }

  function After(es: seq<Entry>, ops: seq<Op>, size: nat): seq<Entry>
    decreases |ops|
  {
    if ops == [] then es else After(Next(es, ops[0], size), ops[1..], size)
  }

  /** The same run on the map; es only tells which calls have no room. */
  function MapAfter(m: map<seq<byte>, seq<byte>>, es: seq<Entry>, ops: seq<Op>, size: nat): map<seq<byte>, seq<byte>>
    decreases |ops|
  {
    if ops == [] then m else
      var next := match ops[0]
        case SetOp(key, value) =>
          if key == [] || value == [] || |Packed(Updated(es, Entry(key, value)))| >= size then m else m[key := value]
        case ClearOp(key) => m - {key}
        case ReloadOp(_) => m;
      MapAfter(next, Next(es, ops[0], size), ops[1..], size)
  }

  /** What the calls ask for, with a map that has room for everything: sets of a key to a value, and removals. */
  function Fold(m: map<seq<byte>, seq<byte>>, ops: seq<Op>): map<seq<byte>, seq<byte>>
    decreases |ops|
  {
    if ops == [] then m else
      match ops[0]
      case SetOp(key, value) => Fold(if key == [] || value == [] then m else m[key := value], ops[1..])
      case ClearOp(key) => Fold(m - {key}, ops[1..])
      case ReloadOp(_) => Fold(m, ops[1..])
  }

  /** Every set of the run that says something has room. */
  predicate AllHaveRoom(es: seq<Entry>, ops: seq<Op>, size: nat)
    decreases |ops|
  {
    ops == [] || (
      && (ops[0].SetOp? && ops[0].key != [] && ops[0].value != [] ==>
            |Packed(Updated(es, Entry(ops[0].key, ops[0].value)))| < size)
      && AllHaveRoom(Next(es, ops[0], size), ops[1..], size))
  }

  /** Nothing but room decides: while there is room, the map is the fold of what was asked for. */
  lemma {:induction false} AfterFold(m: map<seq<byte>, seq<byte>>, es: seq<Entry>, ops: seq<Op>, size: nat)
    requires AllHaveRoom(es, ops, size)
    ensures MapAfter(m, es, ops, size) == Fold(m, ops)
    decreases |ops|
  {
    if ops != [] {
      var next := Next(es, ops[0], size);
      match ops[0] {
        case SetOp(key, value) => AfterFold(if key == []
          || value == [] then m else m[key := value], next, ops[1..], size);
        case ClearOp(key) => AfterFold(m - {key}, next, ops[1..], size);
        case ReloadOp(_) => AfterFold(m, next, ops[1..], size);
      }
    }
  }

  lemma {:induction false} AfterMap(es: seq<Entry>, ops: seq<Op>, size: nat)
    requires Unique(es)
    ensures Unique(After(es, ops, size))
    ensures AsMap(After(es, ops, size)) == MapAfter(AsMap(es), es, ops, size)
    decreases |ops|
  {
    if ops != [] {
      match ops[0] {
        case SetOp(key, value) => UpdatedMap(es, Entry(key, value));
        case ClearOp(key) => ClearedMap(es, key);
        case ReloadOp(_) =>
      }
      AfterMap(Next(es, ops[0], size), ops[1..], size);
    }
  }

  lemma {:induction false} RunMap(es: seq<Entry>, ops: seq<Op>, size: nat)
    requires Unique(es)
    ensures AsMap(After(es, ops, size)) == MapAfter(AsMap(es), es, ops, size)
    ensures AllHaveRoom(es, ops, size) ==> AsMap(After(es, ops, size)) == Fold(AsMap(es), ops)
  {
    AfterMap(es, ops, size);
    if AllHaveRoom(es, ops, size) { AfterFold(AsMap(es), es, ops, size); }
  }

  /** snprintf returns the length of the whole text, so the last byte env_set writes, at the new tail, lies in the area
      exactly when the whole updated list does. */
  lemma {:induction false} LastWriteInside(es: seq<Entry>, e: Entry, size: nat)
    ensures var t := |Packed(Without(es, e.key))|;
            t + |e.key| + |e.value| + 2 < size <==> |Packed(Updated(es, e))| < size
  {
    UpdatedSize(es, e);
  }

  /** What env_set leaves of an entry that does not fit: the others, and its text cut at the end of the area. */
  ghost predicate CutShort(data: seq<byte>, es: seq<Entry>, e: Entry) {
    var t := |Packed(Without(es, e.key))|;
    && t + 2 <= |data| && |data| - t - 2 <= |Text(e)| && data[..t] == Packed(Without(es, e.key))
    && data[t..|data| - 2] == Text(e)[..|data| - t - 2] && data[|data| - 2] == 0 && data[|data| - 1] == 0
  }

  lemma {:induction false} CutText(data: seq<byte>, es: seq<Entry>, e: Entry, t: nat, end: nat)
    requires Gap(data, Without(es, e.key), t, end) && t + 1 < |data| && t + |Text(e)| + 1 >= |data|
    ensures CutShort(Write(data, t, Printf.Bounded(Text(e), |data| - t - 1) + [0]), es, e)
  {
    var kept := Printf.Bounded(Text(e), |data| - t - 1);
    var r := Write(data, t, kept + [0]);
    assert |kept| == |data| - t - 2;
    assert r[..t] == data[..t] && r[t..|data| - 2] == kept && r[|data| - 2] == 0 && r[|data| - 1] == data[|data| - 1];
  }

  /** What Append leaves is the updated list, or a text cut short. */
  lemma {:induction false} AppendDone(data: seq<byte>, after: seq<byte>, es: seq<Entry>, t: nat, end: nat, e: Entry,
                                      inside: bool)
    requires |data| % 4 == 0 && |data| < TWO_31 && Unique(es) && Proper(e)
    requires Gap(data, Without(es, e.key), t, end) && t + 1 < |data| && (inside <==> t + |Text(e)| + 1 < |data|)
    requires after == if inside then Appended(data, t, Text(e), end)
                      else Write(data, t, Printf.Bounded(Text(e), |data| - t - 1) + [0])
    ensures if inside then Stored(after, Updated(es, e), t + |Text(e)| + 1) else CutShort(after, es, e)
  {
    if inside { SetLayout(data, es, t, end, e); } else { CutText(data, es, e, t, end); }
  }

  /** An empty store accepts an entry that has no room exactly if the area is no longer than its text and two bytes. */
  lemma {:induction false} OverlongEntry(e: Entry, size: nat)
    requires Proper(e) && size > 0
    ensures size != 1 && |Packed(Updated([], e))| >= size <==> 1 < size <= |e.key| + |e.value| + 2
  {
    UpdatedSize([], e);
  }

  lemma {:induction false} MovedDown(data: seq<byte>, d: nat, s: nat, n: nat)
    requires Fits(Job(data, d, s, n))
    ensures Moved(Job(data, d, s, n), n) == data[..d] + data[s..s + n] + data[d + n..]
  {
  }

  /** One more character is kept while there is room for it and a terminator. */
  lemma {:induction false} BoundedMore(text: seq<byte>, n: nat, size: nat)
    requires n < |text| && size > 0
    ensures Printf.Bounded(text[..n + 1], size)
            == if n + 1 < size then Printf.Bounded(text[..n], size) + [text[n]] else Printf.Bounded(text[..n], size)
  {
    assert text[..n + 1] == text[..n] + [text[n]];
  }

  lemma {:induction false} OneMoreByte(data: seq<byte>, at: nat, t: seq<byte>, c: byte)
    requires at + |t| < |data|
    ensures Write(data, at, t)[at + |t| := c] == Write(data, at, t + [c])
  {
  }

  class Env {
    var data: seq<byte>
    var tail: nat
    ghost var entries: seq<Entry>

    ghost predicate Valid()
      reads this
    {
      Stored(data, entries, tail)
    }

    /** The cleared area that load_default starts from. */
    constructor (size: nat)
      requires 0 < size < TWO_31 && size % 4 == 0
      ensures Valid() && |data| == size && entries == []
    {
      data, tail, entries := Zeros(size), 0, [];
    }

    /** get_next_item for an item of the area; at the end there is none. */
    method NextItem(item: nat, ghost i: nat) returns (next: Option<nat>)
      requires Valid() && i <= |entries| && (i < |entries| || i == 0) && item == Start(entries, i)
      ensures next == if i + 1 < |entries| then Some(Start(entries, i + 1)) else None
    {
      if item >= tail || data[item] == 0 {
        if i < |entries| { AtByte(data, entries, tail, i, 0); TextChars(entries[i]); }
        return None;
      }
      EntryBytes(data, entries, tail, i);
      EntryTerminated(data, entries, tail, i);
      AfterEntry(data, entries, tail, i);
      ghost var e := item + |Text(entries[i])|;
      var p := item;
      while p < tail
        invariant item <= p <= e
      {
        p := p + 1;
        if data[p - 1] == 0 {
          return if data[p] == 0 then None else Some(p);
        }
      }
      return None;
    }

    /** strncmp with the length of the key: the string at p begins with the key. */
    method BeginsWith(p: nat, key: seq<byte>, ghost e: nat) returns (same: bool)
      requires Terminated(data, p, e) && Chars(key)
      ensures same <==> p + |key| <= e && data[p..p + |key|] == key
    {
      var i := 0;
      while i < |key| && data[p + i] == key[i]
        invariant i <= |key| && p + i <= e
        invariant data[p..p + i] == key[..i]
      {
        assert data[p..p + i + 1] == data[p..p + i] + [data[p + i]] && key[..i + 1] == key[..i] + [key[i]];
        i := i + 1;
      }
      same := i == |key|;
      if !same && p + |key| <= e {
        assert data[p..p + |key|][i] == data[p + i];
      }
    }

    /** The condition of find_env_item at one item. */
    method HasKey(p: nat, key: seq<byte>, ghost e: nat) returns (found: bool)
      requires Terminated(data, p, e) && Chars(key)
      ensures found <==> p + |key| <= e && data[p..p + |key|] == key && data[p + |key|] == EQUALS
    {
      var same := BeginsWith(p, key, e);
      found := same && data[p + |key|] == EQUALS;
    }

    method StrLen(p: nat, ghost e: nat) returns (n: nat)
      requires Terminated(data, p, e)
      ensures p + n == e
    {
      n := 0;
      while data[p + n] != 0
        invariant p + n <= e
        decreases e - n
      {
        n := n + 1;
      }
    }

    /** find_env_item */
    method FindItem(key: seq<byte>) returns (item: Option<nat>, value: Option<nat>)
      requires Valid() && Key(key)
      ensures FoundAt(entries, key, item, value)
    {
      ghost var i, n := 0, Find(entries, key);
      item := Some(0);
      StartEnds(entries);
      while item != None
        invariant i <= n || (i == 1 && entries == [])
        invariant item == if i < |entries| || i == 0 then Some(Start(entries, i)) else None
        decreases |entries| + 1 - i
      {
        var p := item.value;
        ghost var e := Probe(data, entries, tail, i, key);
        var found := HasKey(p, key, e);
        if found {
          assert i == n;
          return Some(p), Some(p + |key| + 1);
        }
        item := NextItem(p, i);
        i := i + 1;
      }
      return None, None;
    }

    /** memcpy of n bytes from s down to d within the area, by the word-merging routine */
    method CopyDown(d: nat, s: nat, n: nat)
      requires |data| % 4 == 0 && |data| < TWO_31 && d <= s && s + n <= |data|
      modifies this`data
      ensures data == old(data[..d] + data[s..s + n] + data[d + n..])
    {
      ghost var job := Job(data, d, s, n);
      var machine := new Machine(data, d, s, n);
      var dest := machine.MemCpy(job);
      MovedDown(data, d, s, n);
      data := machine.mem;
    }

    /** snprintf(str, size, "%s=%s", ...): what kvprintf sends to snprintf_func, character by character */
    method SnPrintF(str: nat, size: nat, text: seq<byte>) returns (n: nat)
      requires size > 0 && str + size <= |data|
      modifies this`data
      ensures n == |text|
      ensures data == Write(old(data), str, Printf.Bounded(text, size) + [0])
    {
      ghost var before, t := data, [];
      var p, remain := str, size;
      n := 0;
      assert Write(before, str, t) == data;
      while n < |text|
        invariant n <= |text| && remain >= 1 && |t| == p - str && remain == size - |t|
        invariant t == Printf.Bounded(text[..n], size) && data == Write(before, str, t)
      {
        BoundedMore(text, n, size);
        if remain >= 2 {
          OneMoreByte(before, str, t, text[n]);
          data := data[p := text[n]];
          t := t + [text[n]];
          p, remain := p + 1, remain - 1;
        }
        n := n + 1;
      }
      assert text[..n] == text;
      OneMoreByte(before, str, t, 0);
      data := data[p := 0];
    }

    /** memset(p, 0, n) */
    method FillZero(p: nat, n: nat)
      requires p + n <= |data|
      modifies this`data
      ensures data == Write(old(data), p, Zeros(n))
    {
      data := Write(data, p, Zeros(n));
    }

    /** What stands from the next item to the tail, if there is a next item, is moved down to this one. */
    method CloseUp(item: nat, next: Option<nat>)
      requires |data| % 4 == 0 && |data| < TWO_31 && tail <= |data| && (next != None ==> item <= next.value <= tail)
      modifies this`data
      ensures data == if next == None then old(data) else Closed(old(data), item, next.value, tail)
    {
      if next != None {
        CopyDown(item, next.value, tail - next.value);
      }
    }

    /** The removal that env_set and env_clear share: the length of the entry, and what follows it moved down. */
    method TakeOut(item: nat, ghost i: nat, ghost rest: seq<Entry>) returns (orglen: nat)
      requires Valid() && Dropped(entries, i, rest) && item == Start(entries, i)
      modifies this`data
      ensures |data| == |old(data)| && 0 < orglen <= tail
      ensures Gap(data, rest, tail - orglen, tail)
    {
      ghost var q := Start(entries, i + 1);
      EntryEnds(data, entries, tail, i, item, q);
      var length := StrLen(item, q - 1);
      orglen := length + 1;
      var next := NextItem(item, i);
      ghost var before := data;
      CloseUp(item, next);
      TakenOut(before, entries, tail, i, rest, data, item, q);
    }

    /** The second half of env_set: the text, its two zero bytes, and zeros over what is left of an old entry.
        inside says that the second zero byte, which goes where the length that snprintf returns puts it, stays in
        the area. */
    method Append(key: seq<byte>, value: seq<byte>, envTail: nat, orglen: nat) returns (newTail: nat, inside: bool)
      requires envTail + 1 < |data| && envTail + orglen < |data|
      modifies this`data
      ensures |data| == |old(data)| && newTail == envTail + |key| + |value| + 2 && (inside <==> newTail < |data|)
      ensures var text := key + [EQUALS] + value;
              data == if inside then Appended(old(data), envTail, text, envTail + orglen)
                      else Write(old(data), envTail, Printf.Bounded(text, |data| - envTail - 1) + [0])
    {
      var leaveLen := |data| - envTail - 1;
      var text := key + [EQUALS] + value;
      var n := SnPrintF(envTail, leaveLen, text);
      var newlen := n + 1;
      newTail := envTail + newlen;
      if newTail >= |data| { return newTail, false; }
      AppendSteps(old(data), envTail, text, orglen);
      data := data[newTail := 0];
      if newlen < orglen {
        FillZero(newTail, orglen - newlen);
      }
      inside := true;
    }

    /** The end of env_set, once the old entry is out and the area is known not to be full. */
    method Put(key: seq<byte>, value: seq<byte>, envTail: nat, orglen: nat) returns (inside: bool)
      requires |data| % 4 == 0 && |data| < TWO_31 && Unique(entries) && Proper(Entry(key, value))
      requires envTail + orglen == tail && Gap(data, Without(entries, key), envTail, tail) && envTail + 1 < |data|
      modifies this
      ensures |data| == |old(data)| && (inside <==> |Packed(Updated(old(entries), Entry(key, value)))| < |data|)
      ensures inside ==> Valid() && entries == Updated(old(entries), Entry(key, value))
      ensures inside ==> Lookup(entries, key) == Some(value)
      ensures !inside ==> entries == old(entries) && tail == old(tail) && CutShort(data, entries, Entry(key, value))
    {
      ghost var e := Entry(key, value);
      LastWriteInside(entries, e, |data|);
      ghost var before := data;
      var newTail: nat;
      newTail, inside := Append(key, value, envTail, orglen);
      AppendDone(before, data, entries, envTail, tail, e, inside);
      if !inside { return; }
      tail := newTail;
      UpdatedLookup(entries, e);
      entries := Updated(entries, e);
    }

    /** env_set, up to a write outside the area; inside says that there is none. An empty key or value changes nothing.
        Otherwise the value is stored if it has room. If it has not, a new key is refused when only the last byte of
        the area is left, and else the text is cut short and the last write goes outside. */
    method Set(key: seq<byte>, value: seq<byte>) returns (inside: bool)
      requires Valid() && Chars(key) && Chars(value) && EQUALS !in key
      modifies this
      ensures |data| == |old(data)| && (inside ==> Valid())
      ensures key == [] || value == [] ==> inside && entries == old(entries) && data == old(data)
      ensures key != [] && value != [] && |Packed(Updated(old(entries), Entry(key, value)))| < |data| ==>
              inside && entries == Updated(old(entries), Entry(key, value)) && Lookup(entries, key) == Some(value)
      ensures key != [] && value != [] && |Packed(Updated(old(entries), Entry(key, value)))| >= |data| ==>
              && entries == old(entries) && tail == old(tail)
              && (inside <==> Lookup(old(entries), key) == None && old(tail) == |data| - 1)
              && if inside then data == old(data) else CutShort(data, entries, Entry(key, value))
    {
      if key == [] { return true; }
      if value == [] { return true; }
      if Lookup(entries, key) == None && tail == |data| - 1 { FullHasNoRoom(entries, key, value, |data|); }
      var envTail, orglen := tail, 0;
      var item, at := FindItem(key);
      if item != None {
        orglen := TakeOut(item.value, Find(entries, key), Without(entries, key));
        envTail := envTail - orglen;
      } else {
        NotThere(data, entries, tail, key);
      }
      if envTail >= |data| - 1 { return true; }
      inside := Put(key, value, envTail, orglen);
    }

    /** env_clear */
    method Clear(key: seq<byte>)
      requires Valid() && Chars(key) && EQUALS !in key
      modifies this
      ensures Valid() && |data| == |old(data)|
      ensures entries == Without(old(entries), key)
    {
      if key == [] {
        NoEmptyKey(entries);
        return;
      }
      var item, at := FindItem(key);
      if item == None { return; }
      var orglen := TakeOut(item.value, Find(entries, key), Without(entries, key));
      ghost var before := data;
      var envTail := tail - orglen;
      FillZero(envTail, orglen);
      ClearedLayout(before, Without(entries, key), envTail, tail);
      tail := envTail;
      entries := Without(entries, key);
    }

    /** env_get: where the value starts */
    method Get(key: seq<byte>) returns (value: Option<nat>)
      requires Valid() && Chars(key) && EQUALS !in key
      ensures match Lookup(entries, key)
              case None => value == None
              case Some(v) => value != None && HoldsString(data, value.value, v)
    {
      if key == [] {
        NoEmptyKey(entries);
        return None;
      }
      var item: Option<nat>;
      item, value := FindItem(key);
      if Find(entries, key) < |entries| {
        ValueAt(data, entries, tail, Find(entries, key));
      }
    }

    /** Reading the area back: the tail is found again from the bytes, at any address. */
    method Reload(address: nat)
      requires Valid()
      modifies this`tail
      ensures tail == old(tail)
    {
      var end := FindEnvTail(address, data, entries, tail);
      tail := end - address;
    }

    method Apply(op: Op)
      requires Valid() && Fitting(entries, op, |data|)
      modifies this
      ensures Valid() && |data| == |old(data)| && entries == Next(old(entries), op, |data|)
    {
      match op {
        case SetOp(key, value) => var inside := Set(key, value);
        case ClearOp(key) => Clear(key);
        case ReloadOp(address) => Reload(address);
      }
    }

    /** Any run of sets, clears and reloads: the area follows the map, and every lookup agrees with it. */
    method Run(ops: seq<Op>)
      requires Valid() && AllFit(entries, ops, |data|)
      modifies this
      ensures Valid() && |data| == |old(data)|
      ensures entries == After(old(entries), ops, |data|)
      ensures AsMap(entries) == MapAfter(AsMap(old(entries)), old(entries), ops, |data|)
      ensures AllHaveRoom(old(entries), ops, |data|) ==> AsMap(entries) == Fold(AsMap(old(entries)), ops)
    {
      var i := 0;
      ghost var first := entries;
      ghost var n := |data|;
      assert ops[0..] == ops;
      while i < |ops|
        invariant i <= |ops| && Valid() && |data| == n
        invariant AllFit(entries, ops[i..], n)
        invariant After(entries, ops[i..], n) == After(first, ops, n)
      {
        assert ops[i..][0] == ops[i] && ops[i..][1..] == ops[i + 1..];
        Apply(ops[i]);
        i := i + 1;
      }
      assert ops[i..] == [];
      RunMap(first, ops, n);
    }
  }
}
