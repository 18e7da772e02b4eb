/** Periodic tasks driven by a fixed tick. */
module Task {
  import opened Words
  import opened Bits

  const CYCLE: nat := 10
  const EINVAL: int := 22

  datatype Entry = Entry(msec: word, elapse: word, count: word)

  /** What one call of task_loop does to a task; the call of its handler is the step of count. */
  function Tick(t: Entry): Entry {
    var elapse := U32(t.elapse as int + CYCLE);
    if elapse >= t.msec then t.(elapse := 0, count := U32(t.count as int + 1)) else t.(elapse := elapse)
  }

  function Ticks(t: Entry, n: nat): Entry {
    if n == 0 then t else Tick(Ticks(t, n - 1))
  }

  /** Ticks between two runs of a task: its period, rounded up to whole cycles, and at least one. */
  function Period(msec: word): (p: nat)
    ensures p >= 1
  {
    if msec == 0 then 1 else (msec as int + CYCLE - 1) / CYCLE
  }

  /** A task connected with this period. */
  function Connected(msec: word): Entry {
    Entry(msec, 0, 0)
  }

  lemma {:induction false} PeriodBounds(msec: word)
    ensures (Period(msec) - 1) * CYCLE < msec || Period(msec) == 1
    ensures Period(msec) * CYCLE >= msec
  {
  }

  /** Quotient and remainder of a tick count by a period. */
  ghost predicate Parts(n: nat, p: nat, q: nat, r: nat) {
    p >= 1 && n / p == q && n % p == r < p
  }

  lemma {:induction false} NextParts(n: nat, p: nat, q: nat, r: nat)
    requires Parts(n, p, q, r)
    ensures if r + 1 == p then Parts(n + 1, p, q + 1, 0) else Parts(n + 1, p, q, r + 1)
  {
    assert n == q * p + r;
    if r + 1 == p {
      assert (q + 1) * p == q * p + p;
      DivModUnique(n + 1, p, q + 1, 0);
    } else {
      DivModUnique(n + 1, p, q, r + 1);
    }
  }

  lemma {:induction false} PartsOf(n: nat, p: nat) returns (q: nat, r: nat)
    requires p >= 1
    ensures Parts(n, p, q, r)
  {
    assert n == (n / p) * p + n % p;
    q, r := n / p, n % p;
  }

  /** A task that has run q times and waited for r cycles since. */
  predicate Waiting(t: Entry, msec: word, q: nat, r: nat) {
    t.msec == msec && t.elapse == r * CYCLE && t.count == q % TWO_32
  }

  lemma {:induction false} TickOnce(t: Entry, p: nat, q: nat, r: nat)
    requires t.msec <= TWO_32 - 6 && p == Period(t.msec) && r < p && Waiting(t, t.msec, q, r)
    ensures if r + 1 == p then Waiting(Tick(t), t.msec, q + 1, 0) else Waiting(Tick(t), t.msec, q, r + 1)
  {
    PeriodBounds(t.msec);
  }

  /** After n ticks a task has run n / Period times, modulo 2^32, and waits for the rest of its period. */
  lemma {:induction false} RunsInTime(msec: word, n: nat)
    requires msec <= TWO_32 - 6
    ensures Waiting(Ticks(Connected(msec), n), msec, n / Period(msec), n % Period(msec))
    ensures Ticks(Connected(msec), n).count == (if msec <= 10 then n else n / ((msec as int + 9) / 10)) % 0x1_0000_0000
  {
    var p := Period(msec);
    if n == 0 {
      DivModUnique(0, p, 0, 0);
    } else {
      RunsInTime(msec, n - 1);
      var q, r := PartsOf(n - 1, p);
      NextParts(n - 1, p, q, r);
      TickOnce(Ticks(Connected(msec), n - 1), p, q, r);
    }
  }

  /** Before the first wrap of elapse a task of a longer period only waits. */
  lemma {:induction false} WaitsOn(msec: word, n: nat)
    requires msec > TWO_32 - 6 && n * CYCLE <= TWO_32 - 6
    ensures Waiting(Ticks(Connected(msec), n), msec, 0, n)
  {
    if n > 0 { WaitsOn(msec, n - 1); }
  }

  /** After n ticks the task has run as often as its period fits. */
  predicate OnTime(msec: word, n: nat) {
    Ticks(Connected(msec), n).count == (n / Period(msec)) % TWO_32
  }

  lemma {:induction false} TooLong(msec: word)
    requires msec > TWO_32 - 6
    ensures !OnTime(msec, Period(msec))
  {
    var n := Period(msec);
    LongPeriod(msec);
    WaitsOn(msec, n - 1);
    assert Ticks(Connected(msec), n) == Tick(Ticks(Connected(msec), n - 1));
    DivModUnique(n, n, 1, 0);
  }

  lemma {:induction false} LongPeriod(msec: word)
    requires msec > TWO_32 - 6
    ensures Period(msec) == 429496730
  {
  }

  /** Every run comes in time exactly when the period leaves room for the last cycle in 32 bits. */
  lemma {:induction false} TimelyExactly(msec: word)
    ensures (forall n: nat :: OnTime(msec, n)) <==> msec <= TWO_32 - 6
  {
    if msec <= TWO_32 - 6 {
      forall n: nat
        ensures OnTime(msec, n)
      {
        RunsInTime(msec, n);
      }
    } else {
      TooLong(msec);
    }
  }

  class TaskCtrl {
    const task: array<Entry>
    var nrTask: nat

    ghost predicate Valid()
      reads this
    {
      nrTask <= task.Length
    }

    /** task_init, with the table it allocates */
    constructor (count: nat)
      ensures Valid() && fresh(task) && task.Length == count && nrTask == 0
    {
      task := new Entry[count](i => Entry(0, 0, 0));
      nrTask := 0;
    }

    /** task_connect */
    method Connect(msec: word) returns (ret: int)
      requires Valid()
      modifies this, task
      ensures Valid()
      ensures ret == if old(nrTask) == task.Length then -EINVAL else 0
      ensures ret == 0 ==> nrTask == old(nrTask) + 1 && task[..nrTask] == old(task[..nrTask]) + [Connected(msec)]
      ensures ret != 0 ==> nrTask == old(nrTask) && task[..] == old(task[..])
    {
      if nrTask >= task.Length { return -EINVAL; }
      task[nrTask] := Connected(msec);
      nrTask := nrTask + 1;
      return 0;
    }

    /** task_loop: one tick for every task, from the last one down */
    method Loop()
      requires Valid()
      modifies task
      ensures forall i :: 0 <= i < nrTask ==> task[i] == Tick(old(task[i]))
      ensures forall i :: nrTask <= i < task.Length ==> task[i] == old(task[i])
    {
      var n: int := nrTask;
      while n > 0
        invariant 0 <= n <= nrTask
        invariant forall i :: n <= i < nrTask ==> task[i] == Tick(old(task[i]))
        invariant forall i :: 0 <= i < n || nrTask <= i < task.Length ==> task[i] == old(task[i])
      {
        n := n - 1;
        var t := task[n];
        t := t.(elapse := U32(t.elapse as int + CYCLE));
        if t.elapse >= t.msec {
          t := t.(elapse := 0, count := U32(t.count as int + 1));
        }
        task[n] := t;
      }
    }

    /** n ticks in a row: a task that was just connected has run n / Period times. */
    method Run(n: nat)
      requires Valid()
      modifies task
      ensures forall i :: 0 <= i < nrTask ==> task[i] == Ticks(old(task[i]), n)
    {
      for k := 0 to n
        invariant forall i :: 0 <= i < nrTask ==> task[i] == Ticks(old(task[i]), k)
      {
        Loop();
      }
    }
  }
}
