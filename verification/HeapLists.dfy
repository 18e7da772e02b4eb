/** Circular doubly linked lists threaded through memory words. */
module HeapLists {
  import opened Words
  import opened HeapWords

  function Fd(m: Mem, x: int): word {
    Rd(m, x + 8)
  }

  function Bk(m: Mem, x: int): word {
    Rd(m, x + 12)
  }

  /** The nodes of a list with its sentinel h at both ends. */
  ghost function Cycle(h: word, s: seq<word>): seq<word> {
    [h] + s + [h]
  }

  ghost predicate Forward(m: Mem, c: seq<word>) {
    forall j {:trigger Fd(m, c[j])} :: 0 <= j < |c| - 1 ==> Fd(m, c[j]) == c[j + 1]
  }

  ghost predicate Backward(m: Mem, c: seq<word>) {
    forall j {:trigger Bk(m, c[j])} :: 1 <= j < |c| ==> Bk(m, c[j]) == c[j - 1]
  }

  /** Links along c run forward through fd and backward through bk. */
  ghost predicate Ring(m: Mem, c: seq<word>) {
    Forward(m, c) && Backward(m, c)
  }

  ghost predicate Clear(a: int, b: int) {
    a + 8 <= b || b + 8 <= a
  }

  /** c is a cycle whose nodes do not overlap each other. */
  ghost predicate Spread(c: seq<word>) {
    && |c| >= 2 && c[0] == c[|c| - 1]
    && forall j, k {:trigger c[j], c[k]} :: 0 <= j < k < |c| - 1 ==> Clear(c[j], c[k])
  }

  function Unlinked(m: Mem, bk: word, fd: word): Mem {
    m[fd + 12 := bk][bk + 8 := fd]
  }

  function Linked(m: Mem, p: word, bk: word, fd: word): Mem {
    m[p + 12 := bk][p + 8 := fd][bk + 8 := p][fd + 12 := p]
  }

  lemma {:induction false} RemoveForward(m: Mem, c: seq<word>, k: int)
    requires Forward(m, c) && Spread(c) && 1 <= k < |c| - 1
    ensures Forward(Unlinked(m, c[k - 1], c[k + 1]), c[..k] + c[k + 1..])
  {
    var m', d := Unlinked(m, c[k - 1], c[k + 1]), c[..k] + c[k + 1..];
    forall j | 0 <= j < |d| - 1
      ensures Fd(m', d[j]) == d[j + 1]
    {
      var i := if j < k then j else j + 1;
      assert Fd(m, c[i]) == c[i + 1];
      assert i != k - 1 ==> Clear(c[i], c[k - 1]);
      assert k + 1 < |c| - 1 ==> Clear(c[i], c[k + 1]) || i == k + 1;
      assert k + 1 == |c| - 1 ==> Clear(c[i], c[0]) || i == 0;
    }
  }

  lemma {:induction false} RemoveBackward(m: Mem, c: seq<word>, k: int)
    requires Backward(m, c) && Spread(c) && 1 <= k < |c| - 1
    ensures Backward(Unlinked(m, c[k - 1], c[k + 1]), c[..k] + c[k + 1..])
  {
    var m', d := Unlinked(m, c[k - 1], c[k + 1]), c[..k] + c[k + 1..];
    forall j | 1 <= j < |d|
      ensures Bk(m', d[j]) == d[j - 1]
    {
      var i := if j < k then j else j + 1;
      assert Bk(m, c[i]) == c[i - 1];
    }
  }

  lemma {:induction false} RemoveRing(m: Mem, c: seq<word>, k: int)
    requires Ring(m, c) && Spread(c) && 1 <= k < |c| - 1
    ensures Ring(Unlinked(m, c[k - 1], c[k + 1]), c[..k] + c[k + 1..])
  {
    RemoveForward(m, c, k);
    RemoveBackward(m, c, k);
  }

  lemma {:induction false} InsertForward(m: Mem, c: seq<word>, k: int, p: word)
    requires Forward(m, c) && Spread(c) && 1 <= k < |c|
    requires forall i {:trigger c[i]} :: 0 <= i < |c| ==> Clear(p, c[i])
    ensures Forward(Linked(m, p, c[k - 1], c[k]), c[..k] + [p] + c[k..])
  {
    var m', d := Linked(m, p, c[k - 1], c[k]), c[..k] + [p] + c[k..];
    forall j | 0 <= j < |d| - 1
      ensures Fd(m', d[j]) == d[j + 1]
    {
      if j != k {
        var i := if j < k then j else j - 1;
        assert Fd(m, c[i]) == c[i + 1];
      }
    }
  }

  lemma {:induction false} InsertBackward(m: Mem, c: seq<word>, k: int, p: word)
    requires Backward(m, c) && Spread(c) && 1 <= k < |c|
    requires forall i {:trigger c[i]} :: 0 <= i < |c| ==> Clear(p, c[i])
    ensures Backward(Linked(m, p, c[k - 1], c[k]), c[..k] + [p] + c[k..])
  {
    var m', d := Linked(m, p, c[k - 1], c[k]), c[..k] + [p] + c[k..];
    forall j | 1 <= j < |d|
      ensures Bk(m', d[j]) == d[j - 1]
    {
      if j != k {
        var i := if j < k then j else j - 1;
        assert Bk(m, c[i]) == c[i - 1];
      }
    }
  }

  lemma {:induction false} InsertRing(m: Mem, c: seq<word>, k: int, p: word)
    requires Ring(m, c) && Spread(c) && 1 <= k < |c|
    requires forall i {:trigger c[i]} :: 0 <= i < |c| ==> Clear(p, c[i])
    ensures Ring(Linked(m, p, c[k - 1], c[k]), c[..k] + [p] + c[k..])
  {
    InsertForward(m, c, k, p);
    InsertBackward(m, c, k, p);
  }

  /** Memories that agree on the links of every node of c agree on the ring. */
  lemma {:induction false} RingFrame(m: Mem, m': Mem, c: seq<word>)
    requires Ring(m, c)
    requires forall x {:trigger x in c} :: x in c ==> Fd(m', x) == Fd(m, x) && Bk(m', x) == Bk(m, x)
    ensures Ring(m', c)
  {
    forall j | 0 <= j < |c| - 1 ensures Fd(m', c[j]) == c[j + 1] {
      assert Fd(m, c[j]) == c[j + 1];
      assert c[j] in c;
    }
    forall j | 1 <= j < |c| ensures Bk(m', c[j]) == c[j - 1] {
      assert Bk(m, c[j]) == c[j - 1];
      assert c[j] in c;
    }
  }
}
