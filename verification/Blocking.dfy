/**
 Blocking reads, src/objects/BlockInputDevice.cpp: a queue of processes whose
 read found no data, rescanned after every system call.  The wrapped device is
 a parameter; all that is asked of it is the contract of
 inc/objects/InputDevice.hpp.
 */
module Blocking {
  import opened KernelConstants

  datatype RunState = Runnable | Sleeping

  datatype PendingRead = PendingRead(proc: nat, buffer: int, size: nat)

  /** The process table: who is current, who may run, and each process's return value. */
  datatype Table = Table(current: nat, state: seq<RunState>, ret: seq<int>)

  ghost predicate ValidTable(t: Table)
  {
    |t.state| == MAX_PROCESS_NUM && |t.ret| == MAX_PROCESS_NUM && t.current < MAX_PROCESS_NUM
  }

  /**
   A device.  `read` takes its state, the current process, a buffer and a size to a new
   state and a result; `removed` is what it does when a process lets go of it.
   */
  datatype Device<!D> = Device(read: (D, nat, int, nat) -> (D, int), removed: (D, nat) -> D)

  /** `read(nullptr, 0)`: is there data for the current process? */
  function Probe<D>(dev: Device<D>, d: D, current: nat): (D, int) { dev.read(d, current, 0, 0) }

  /** A process just told to try again is told so by a probe; a probe may change the device. */
  ghost predicate Contract<D(!new)>(dev: Device<D>)
  {
    forall d, c, b, n :: dev.read(d, c, b, n).1 == AGAIN ==> Probe(dev, dev.read(d, c, b, n).0, c).1 == AGAIN
  }

  // ----- the queue

  ghost function ProcSet(q: seq<PendingRead>): set<nat>
  {
    if q == [] then {} else {q[0].proc} + ProcSet(q[1..])
  }

  /** No process is queued twice. */
  ghost predicate Distinct(q: seq<PendingRead>)
  {
    q == [] || (q[0].proc !in ProcSet(q[1..]) && Distinct(q[1..]))
  }

  /** Every queued process is a process, is queued once, and sleeps. */
  ghost predicate ValidQueue(q: seq<PendingRead>, t: Table)
    requires ValidTable(t)
  {
    Distinct(q) && forall p | p in ProcSet(q) :: p < MAX_PROCESS_NUM && t.state[p] == Sleeping
  }

  lemma {:induction false} ProcSetConcat(a: seq<PendingRead>, b: seq<PendingRead>)
    ensures ProcSet(a + b) == ProcSet(a) + ProcSet(b)
    ensures Distinct(a + b) <==> Distinct(a) && Distinct(b) && ProcSet(a) !! ProcSet(b)
  {
    if a == [] {
      assert a + b == b;
    } else {
      assert (a + b)[1..] == a[1..] + b;
      ProcSetConcat(a[1..], b);
    }
  }

  lemma ProcSetOne(p: PendingRead)
    ensures ProcSet([p]) == {p.proc} && Distinct([p])
  {
  }

  ghost function Below(n: nat): (s: set<nat>)
    ensures |s| == n
    ensures forall x: nat :: x in s <==> x < n
  {
    if n == 0 then {}
    else
      var b := Below(n - 1);
      assert n - 1 !in b;
      b + {n - 1}
  }

  lemma {:induction false} ProcSetSize(q: seq<PendingRead>)
    requires Distinct(q)
    ensures |ProcSet(q)| == |q|
  {
    if q != [] {
      ProcSetSize(q[1..]);
    }
  }

  lemma {:induction false} SubsetSize(a: set<nat>, b: set<nat>)
    requires a <= b
    ensures |a| <= |b|
  {
    if a != {} {
      var x :| x in a;
      SubsetSize(a - {x}, b - {x});
    }
  }

  /** The queue array is large enough, and a queue that leaves a process out has room for one more. */
  lemma QueueFits(q: seq<PendingRead>, t: Table, p: nat)
    requires ValidTable(t) && ValidQueue(q, t)
    ensures |q| <= MAX_PROCESS_NUM
    ensures p < MAX_PROCESS_NUM && p !in ProcSet(q) ==> |q| < MAX_PROCESS_NUM
  {
    hide Below, ProcSet, Distinct;
    ProcSetSize(q);
    SubsetSize(ProcSet(q), Below(MAX_PROCESS_NUM));
    if p < MAX_PROCESS_NUM && p !in ProcSet(q) {
      SubsetSize(ProcSet(q), Below(MAX_PROCESS_NUM) - {p});
    }
  }

  // ----- what a scan of the queue does

  datatype Scan<!D> = Scan(dev: D, table: Table, woken: seq<PendingRead>, rest: seq<PendingRead>)

  /** Serving one pending read as its own process. */
  ghost function Serve<D>(dev: Device<D>, d: D, t: Table, p: PendingRead): (D, Table, int)
    requires ValidTable(t) && p.proc < MAX_PROCESS_NUM
  {
    var (d', r) := dev.read(d, p.proc, p.buffer, p.size);
    (d', Table(p.proc, t.state[p.proc := if r == AGAIN then Sleeping else Runnable], t.ret[p.proc := r]), r)
  }

  ghost predicate KnownProcs(q: seq<PendingRead>) { forall p | p in ProcSet(q) :: p < MAX_PROCESS_NUM }

  /**
   The scan stops at the first probe that finds nothing, or when a process goes back to
   sleep; then the one probe more that stops the loop has still been made.
   */
  ghost function Drain<D>(dev: Device<D>, d: D, t: Table, q: seq<PendingRead>): Scan<D>
    requires ValidTable(t) && KnownProcs(q)
    decreases |q|
  {
    if q == [] then Scan(d, t, [], q)
    else
      var (d0, found) := Probe(dev, d, t.current);
      if found == AGAIN then Scan(d0, t, [], q)
      else
        assert ProcSet(q) == {q[0].proc} + ProcSet(q[1..]);
        assert q[0].proc in ProcSet(q);
        var (d', t', r) := Serve(dev, d0, t, q[0]);
        if r == AGAIN then Scan(Probe(dev, d', q[0].proc).0, t', [], q[1..] + [q[0]])
        else
          var s := Drain(dev, d', t', q[1..]);
          s.(woken := [q[0]] + s.woken)
  }

  /** The old queue is split, in order, into a woken prefix and the processes that still wait. */
  ghost predicate SplitsQueue(q: seq<PendingRead>, woken: seq<PendingRead>, rest: seq<PendingRead>)
  {
    var n := |woken|;
    && n <= |q| && woken == q[..n]
    && (rest == q[n..] || (n < |q| && rest == q[n + 1..] + [q[n]]))
  }

  /** Processes outside `ps` keep state and return value. */
  ghost predicate KeepsOthers(t: Table, t': Table, ps: set<nat>)
    requires ValidTable(t) && ValidTable(t')
  {
    forall p: nat | p < MAX_PROCESS_NUM && p !in ps :: t'.state[p] == t.state[p] && t'.ret[p] == t.ret[p]
  }

  /** Processes in `ps` have the same state and return value in both tables. */
  ghost predicate Agree(t: Table, t': Table, ps: set<nat>)
    requires ValidTable(t) && ValidTable(t')
  {
    forall p: nat | p < MAX_PROCESS_NUM && p in ps :: t'.state[p] == t.state[p] && t'.ret[p] == t.ret[p]
  }

  ghost predicate AllIn(t: Table, ps: set<nat>, r: RunState)
    requires ValidTable(t)
  {
    forall p: nat | p < MAX_PROCESS_NUM && p in ps :: t.state[p] == r
  }

  ghost predicate Answered(t: Table, ps: set<nat>)
    requires ValidTable(t)
  {
    forall p: nat | p < MAX_PROCESS_NUM && p in ps :: t.ret[p] != AGAIN
  }

  ghost predicate ScanMeaning<D>(t: Table, q: seq<PendingRead>, s: Scan<D>)
    requires ValidTable(t)
  {
    && ValidTable(s.table) && SplitsQueue(q, s.woken, s.rest)
    && AllIn(s.table, ProcSet(s.woken), Runnable) && Answered(s.table, ProcSet(s.woken))
    && ValidQueue(s.rest, s.table) && ProcSet(s.woken) !! ProcSet(s.rest)
    && ProcSet(s.woken) + ProcSet(s.rest) == ProcSet(q)
    && KeepsOthers(t, s.table, ProcSet(q))
  }

  /** What a scan means: who is woken, who still sleeps, and that nobody else is touched. */
  lemma {:induction false} DrainMeaning<D>(dev: Device<D>, d: D, t: Table, q: seq<PendingRead>)
    requires ValidTable(t) && ValidQueue(q, t)
    ensures ScanMeaning(t, q, Drain(dev, d, t, q))
    decreases |q|
  {
    if q == [] || Probe(dev, d, t.current).1 == AGAIN {
      assert q[0..] == q && q[..0] == [];
    } else {
      QueueHead(q, t);
      var (d', t', r) := Serve(dev, Probe(dev, d, t.current).0, t, q[0]);
      hide ProcSet, Distinct;
      if r == AGAIN {
        BlockedMeaning(t, q, Scan(Probe(dev, d', q[0].proc).0, t', [], q[1..] + [q[0]]), r);
      } else {
        DrainMeaning(dev, d', t', q[1..]);
        WokenMeaning(t, q, t', Drain(dev, d', t', q[1..]), r);
      }
    }
  }

  lemma QueueHead(q: seq<PendingRead>, t: Table)
    requires ValidTable(t) && ValidQueue(q, t) && q != []
    ensures q[0].proc < MAX_PROCESS_NUM && ValidQueue(q[1..], t) && KnownProcs(q)
    ensures ProcSet(q) == {q[0].proc} + ProcSet(q[1..]) && q[0].proc !in ProcSet(q[1..]) && t.state[q[0].proc] == Sleeping
  {
    assert q[0].proc in ProcSet(q);
  }

  lemma BlockedMeaning<D>(t: Table, q: seq<PendingRead>, s: Scan<D>, r: int)
    requires ValidTable(t) && ValidQueue(q, t) && q != [] && q[0].proc < MAX_PROCESS_NUM
    requires s.table == Table(q[0].proc, t.state[q[0].proc := Sleeping], t.ret[q[0].proc := r])
    requires s.woken == [] && s.rest == q[1..] + [q[0]]
    ensures ScanMeaning(t, q, s)
  {
    QueueHead(q, t);
    ProcSetOne(q[0]);
    ProcSetConcat(q[1..], [q[0]]);
    assert ProcSet([]) == {};
    hide ProcSet, Distinct;
    assert q[0 + 1..] == q[1..] && q[..0] == [];
  }

  lemma WokenMeaning<D>(t: Table, q: seq<PendingRead>, t': Table, s: Scan<D>, r: int)
    requires ValidTable(t) && ValidQueue(q, t) && q != [] && q[0].proc < MAX_PROCESS_NUM && r != AGAIN
    requires t' == Table(q[0].proc, t.state[q[0].proc := Runnable], t.ret[q[0].proc := r])
    requires ScanMeaning(t', q[1..], s)
    ensures ScanMeaning(t, q, s.(woken := [q[0]] + s.woken))
  {
    QueueHead(q, t);
    ProcSetOne(q[0]);
    ProcSetConcat([q[0]], s.woken);
    hide ProcSet, Distinct;
    SplitGrows(q, s.woken, s.rest);
  }

  lemma SplitGrows(q: seq<PendingRead>, woken: seq<PendingRead>, rest: seq<PendingRead>)
    requires q != [] && SplitsQueue(q[1..], woken, rest)
    ensures SplitsQueue(q, [q[0]] + woken, rest)
  {
    var tail, n := q[1..], |woken|;
    assert q[..n + 1] == [q[0]] + tail[..n];
    assert q[n + 1..] == tail[n..];
  }

  /** The entries from `at` up to `pos` have moved down by one. */
  ghost function Shifted(q: seq<PendingRead>, at: nat, pos: nat): seq<PendingRead>
    requires at <= pos < |q|
  {
    seq(|q|, j requires 0 <= j < |q| => if at <= j < pos then q[j + 1] else q[j])
  }

  lemma ShiftStep(q: seq<PendingRead>, at: nat, pos: nat)
    requires at <= pos < |q| - 1
    ensures Shifted(q, at, at) == q && |Shifted(q, at, pos)| == |q| && Shifted(q, at, pos)[pos + 1] == q[pos + 1]
    ensures Shifted(q, at, pos)[pos := q[pos + 1]] == Shifted(q, at, pos + 1)
  {
  }

  lemma ShiftDone(q: seq<PendingRead>, at: nat)
    requires at < |q|
    ensures Shifted(q, at, at) == q && |Shifted(q, at, |q| - 1)| == |q|
    ensures Shifted(q, at, |q| - 1)[..|q| - 1] == q[..at] + q[at + 1..]
  {
  }

  /** The first `n` entries from `ind` on have moved to the front. */
  ghost function Moved(s: seq<PendingRead>, ind: nat, n: nat): seq<PendingRead>
    requires n + ind <= |s|
  {
    s[ind..ind + n] + s[n..]
  }

  lemma MovedNone(s: seq<PendingRead>, ind: nat)
    requires ind <= |s|
    ensures Moved(s, ind, 0) == s
  {
  }

  lemma MovedStep(s: seq<PendingRead>, ind: nat, n: nat)
    requires n + ind < |s|
    ensures |Moved(s, ind, n)| == |s| && Moved(s, ind, n)[n + ind] == s[n + ind]
    ensures Moved(s, ind, n)[n := s[n + ind]] == Moved(s, ind, n + 1)
  {
  }

  lemma MovedAll(s: seq<PendingRead>, ind: nat, n: nat)
    requires n + ind <= |s|
    ensures |Moved(s, ind, n)| == |s| && Moved(s, ind, n)[..n] == s[ind..ind + n]
  {
  }

  // ----- devices of different kinds

  datatype Either<A, B> = Left(left: A) | Right(right: B)

  /** Devices of two kinds as one: the state says which. */
  function SumOf<A, B>(a: Device<A>, b: Device<B>): Device<Either<A, B>>
  {
    Device(
      (s: Either<A, B>, current: nat, buffer: int, size: nat) =>
        match s
        case Left(d) => (var (d', r) := a.read(d, current, buffer, size); (Left(d'), r))
        case Right(d) => (var (d', r) := b.read(d, current, buffer, size); (Right(d'), r)),
      (s: Either<A, B>, owner: nat) =>
        match s
        case Left(d) => Left(a.removed(d, owner))
        case Right(d) => Right(b.removed(d, owner)))
  }

  lemma SumMeetsContract<A(!new), B(!new)>(a: Device<A>, b: Device<B>)
    requires Contract(a) && Contract(b)
    ensures Contract(SumOf(a, b))
  {
    var sum := SumOf(a, b);
    forall s: Either<A, B>, c, buffer, n | sum.read(s, c, buffer, n).1 == AGAIN
      ensures Probe(sum, sum.read(s, c, buffer, n).0, c).1 == AGAIN
    {
      match s {
        case Left(d) => assert Probe(a, a.read(d, c, buffer, n).0, c).1 == AGAIN;
        case Right(d) => assert Probe(b, b.read(d, c, buffer, n).0, c).1 == AGAIN;
      }
    }
  }

  /** `into` carries the states of one device over to another that reads alike. */
  ghost predicate ReadsAlike<A(!new), B>(a: Device<A>, b: Device<B>, into: A -> B)
  {
    forall d: A, c, buffer, n ::
      b.read(into(d), c, buffer, n) == (into(a.read(d, c, buffer, n).0), a.read(d, c, buffer, n).1)
  }

  /** A scan of the one is then a scan of the other. */
  lemma {:induction false} ScansAlike<A(!new), B>(a: Device<A>, b: Device<B>, into: A -> B, d: A, t: Table, q: seq<PendingRead>)
    requires ValidTable(t) && KnownProcs(q) && ReadsAlike(a, b, into)
    ensures var s := Drain(a, d, t, q); Drain(b, into(d), t, q) == Scan(into(s.dev), s.table, s.woken, s.rest)
    decreases |q|
  {
    if q == [] || Probe(a, d, t.current).1 == AGAIN {
      DrainStops(a, d, t, q);
      DrainStops(b, into(d), t, q);
    } else {
      DrainStep(a, d, t, q);
      DrainStep(b, into(d), t, q);
      var (d', t', r) := Serve(a, Probe(a, d, t.current).0, t, q[0]);
      if r != AGAIN {
        ScansAlike(a, b, into, d', t', q[1..]);
      }
    }
  }

  /** Among devices of two kinds each is scanned as its own kind. */
  lemma SumScans<A(!new), B(!new)>(a: Device<A>, b: Device<B>, d: A, e: B, t: Table, q: seq<PendingRead>)
    requires ValidTable(t) && KnownProcs(q)
    ensures var s := Drain(a, d, t, q);
            Drain(SumOf(a, b), Left(d), t, q) == Scan(Left(s.dev), s.table, s.woken, s.rest)
    ensures var s := Drain(b, e, t, q);
            Drain(SumOf(a, b), Right(e), t, q) == Scan(Right(s.dev), s.table, s.woken, s.rest)
  {
    var left: A -> Either<A, B>, right: B -> Either<A, B> := x => Left(x), x => Right(x);
    assert ReadsAlike(a, SumOf(a, b), left);
    assert ReadsAlike(b, SumOf(a, b), right);
    ScansAlike(a, SumOf(a, b), left, d, t, q);
    ScansAlike(b, SumOf(a, b), right, e, t, q);
  }

  // ----- the wrapper

  /** The kernel's process table, shared by all devices. */
  class Kernel {
    var table: Table

    constructor (t: Table)
      ensures table == t
    {
      table := t;
    }
  }

  class BlockInputDeviceWrapper<D(!new)> {
    const dev: Device<D>
    const kernel: Kernel
    const pending: array<PendingRead>
    var end: nat
    var input: D

    /** Space is allocated for every process, and the table is in order. */
    ghost predicate Sound()
      reads this, kernel
    {
      pending.Length == MAX_PROCESS_NUM && end <= MAX_PROCESS_NUM && ValidTable(kernel.table)
    }

    ghost function Queue(): seq<PendingRead>
      reads this, pending
      requires end <= pending.Length
    {
      pending[..end]
    }

    ghost predicate Valid()
      reads this, pending, kernel
    {
      Sound() && ValidQueue(Queue(), kernel.table)
    }

    constructor (dev: Device<D>, kernel: Kernel, input: D)
      requires ValidTable(kernel.table)
      ensures Valid() && Queue() == [] && this.dev == dev && this.kernel == kernel && this.input == input
      ensures fresh(pending)
    {
      this.dev, this.kernel, this.input := dev, kernel, input;
      pending := new PendingRead[MAX_PROCESS_NUM];
      end := 0;
    }

    /** `do_read`: a read that finds nothing queues the process and puts it to sleep. */
    method DoRead(proc: nat, buffer: int, size: nat) returns (ret: int)
      requires Sound() && end < MAX_PROCESS_NUM && proc < MAX_PROCESS_NUM
      modifies this, pending, kernel
      ensures Sound()
      ensures (input, ret) == dev.read(old(input), old(kernel.table).current, buffer, size)
      ensures ret != AGAIN ==> Queue() == old(Queue()) && kernel.table == old(kernel.table)
      ensures ret == AGAIN ==>
                && Queue() == old(Queue()) + [PendingRead(proc, buffer, size)]
                && kernel.table == old(kernel.table).(state := old(kernel.table).state[proc := Sleeping])
    {
      var (d, r) := dev.read(input, kernel.table.current, buffer, size);
      input := d;
      if r == AGAIN {
        pending[end] := PendingRead(proc, buffer, size);
        end := end + 1;
        kernel.table := kernel.table.(state := kernel.table.state[proc := Sleeping]);
      }
      ret := r;
    }

    /** `read`: the current process reads, and joins the end of the queue if it must wait. */
    method Read(buffer: int, size: nat) returns (ret: int)
      requires Valid() && kernel.table.current !in ProcSet(Queue())
      modifies this, pending, kernel
      ensures Valid() && kernel.table.current == old(kernel.table.current)
      ensures (input, ret) == dev.read(old(input), old(kernel.table).current, buffer, size)
      ensures var t := old(kernel.table);
              if ret == AGAIN then
                && Queue() == old(Queue()) + [PendingRead(t.current, buffer, size)]
                && kernel.table == t.(state := t.state[t.current := Sleeping])
              else
                Queue() == old(Queue()) && kernel.table == t
    {
      ghost var q, t := Queue(), kernel.table;
      QueueFits(q, t, t.current);
      ret := DoRead(kernel.table.current, buffer, size);
      if ret == AGAIN {
        ProcSetOne(PendingRead(t.current, buffer, size));
        ProcSetConcat(q, [PendingRead(t.current, buffer, size)]);
        hide ProcSet, Distinct;
      }
    }

    /** `onRemovedByOwner`: a dying process leaves the queue, the others keep their order, and the device is told. */
    method OnRemovedByOwner(owner: nat)
      requires Valid()
      modifies this`end, this`input, pending
      ensures Valid() && Queue() == Without(old(Queue()), owner)
      ensures input == dev.removed(old(input), owner)
      ensures owner !in ProcSet(Queue())
    {
      ghost var q := Queue();
      WithoutMeaning(q, owner);
      hide ProcSet, Distinct, Without;
      var pos := 0;
      while pos < end && pending[pos].proc != owner
        invariant 0 <= pos <= end && forall j | 0 <= j < pos :: pending[j].proc != owner
      {
        pos := pos + 1;
      }
      WithoutAt(q, owner, pos);
      if pos < end {
        RemoveAt(pos);
      }
      input := dev.removed(input, owner);
    }

    /** Shifting the rest of the queue down over one entry. */
    method RemoveAt(at: nat)
      requires at < end <= pending.Length
      modifies this`end, pending
      ensures end == old(end) - 1 && Queue() == old(Queue())[..at] + old(Queue())[at + 1..]
    {
      hide Shifted;
      ghost var q := Queue();
      ShiftDone(q, at);
      var pos := at;
      while pos + 1 < end
        invariant at <= pos < end == |q| <= pending.Length && Queue() == Shifted(q, at, pos)
      {
        ShiftStep(q, at, pos);
        ghost var was := Queue();
        assert pending[pos + 1] == was[pos + 1];
        pending[pos] := pending[pos + 1];
        assert Queue() == was[pos := q[pos + 1]];
        pos := pos + 1;
      }
      ShiftDone(q, at);
      end := end - 1;
      assert Queue() == Shifted(q, at, pos)[..pos];
    }

    /** The tail of `check`: move what is left to the front of the array. */
    method CloseGap(ind: nat)
      requires ind <= end <= pending.Length
      modifies this`end, pending
      ensures end == old(end) - ind && Queue() == old(pending[ind..end])
    {
      hide Moved;
      ghost var all := pending[..];
      MovedNone(all, ind);
      end := end - ind;
      var i := 0;
      while i < end
        invariant 0 <= i <= end == old(end) - ind && end + ind <= |all| == pending.Length
        invariant pending[..] == Moved(all, ind, i)
      {
        MovedStep(all, ind, i);
        ghost var was := pending[..];
        assert pending[i + ind] == was[i + ind];
        pending[i] := pending[i + ind];
        assert pending[..] == was[i := all[i + ind]];
        i := i + 1;
      }
      MovedAll(all, ind, end);
      assert Queue() == pending[..][..end];
    }

    /** One turn of `check`: the reader at `ind` reads as the running process, and goes to the end if it must wait again. */
    method ServeAt(ind: nat) returns (ret: int)
      requires Sound() && Contract(dev) && ind < end < MAX_PROCESS_NUM && pending[ind].proc < MAX_PROCESS_NUM
      modifies this, pending, kernel
      ensures Sound() && kernel.table.current == old(pending[ind]).proc
      ensures (input, kernel.table, ret) == Serve(dev, old(input), old(kernel.table), old(pending[ind]))
      ensures ret == AGAIN ==> Probe(dev, input, kernel.table.current).1 == AGAIN
      ensures var now, q := old(pending[ind]), old(pending[ind..end]);
              if ret == AGAIN then end == old(end) + 1 && pending[ind + 1..end] == q[1..] + [now]
              else end == old(end) && pending[ind + 1..end] == q[1..]
    {
      var now := pending[ind];
      ghost var q, t, d := pending[ind..end], kernel.table, input;
      ghost var all := Queue();
      kernel.table := Table(now.proc, kernel.table.state[now.proc := Runnable], kernel.table.ret);
      ret := DoRead(now.proc, now.buffer, now.size);
      kernel.table := kernel.table.(ret := kernel.table.ret[now.proc := ret]);
      ServeTable(dev, d, t, now, kernel.table, input, ret);
      assert q[1..] == all[ind + 1..];
      assert pending[ind + 1..end] == Queue()[ind + 1..];
    }

    /**
     `check`: serve the queue from the front for as long as probes find data, then close
     the gap.  The running process must either not be queued here, or have just been told
     to try again.
     */
    method Check()
      requires Valid() && Contract(dev)
      requires kernel.table.current in ProcSet(Queue()) ==> Probe(dev, input, kernel.table.current).1 == AGAIN
      modifies this, pending, kernel
      ensures var s := Drain(dev, old(input), old(kernel.table), old(Queue()));
              && Valid() && input == s.dev && Queue() == s.rest
              && kernel.table == s.table.(current := old(kernel.table).current)
    {
      hide ProcSet, Distinct, Drain, Contract, Serve, AddWoken, Probe, ValidQueue, KnownProcs;
      var running := kernel.table.current;
      ghost var q0, t0, d0 := Queue(), kernel.table, input;
      QueueKnown(q0, t0);
      ghost var whole := Drain(dev, d0, t0, q0);
      DrainRest(dev, d0, t0, q0);
      QueueFits(q0, t0, running);
      ghost var woken: seq<PendingRead> := [];
      ghost var blocked := false;
      var ind, found := 0, true;
      assert pending[0..end] == q0;
      AddNone(whole);
      while ind < end && found
        invariant Sound() && ind <= end && KnownProcs(pending[ind..end])
        invariant found ==> AddWoken(woken, Drain(dev, input, kernel.table, pending[ind..end])) == whole
        invariant !found ==> Scan(input, kernel.table, woken, pending[ind..end]) == whole
        invariant !blocked ==> end == |q0| && (ind > 0 ==> end < MAX_PROCESS_NUM)
        invariant blocked && found ==> Probe(dev, input, kernel.table.current).1 == AGAIN
        invariant ind == 0 && found ==> kernel.table == t0 && input == d0
        decreases found, end - ind, !blocked
      {
        ghost var q, t, d := pending[ind..end], kernel.table, input;
        var (probed, look) := Probe(dev, input, kernel.table.current);
        input := probed;
        if look == AGAIN {
          DrainStops(dev, d, t, q);
          AddLast(woken, Scan(input, t, [], q));
          found := false;
        } else {
          DrainStep(dev, d, t, q);
          assert q[0] == pending[ind];
          var ret := ServeAt(ind);
          ind := ind + 1;
          if ret == AGAIN {
            blocked := true;
            DrainStops(dev, input, kernel.table, q[1..] + [q[0]]);
          } else {
            AddTwice(woken, q[0], Drain(dev, input, kernel.table, q[1..]));
            woken := woken + [q[0]];
          }
        }
      }
      if found {
        DrainStops(dev, input, kernel.table, pending[ind..end]);
        AddLast(woken, Scan(input, kernel.table, [], pending[ind..end]));
      }
      CloseGap(ind);
      CurrentIrrelevant(Queue(), kernel.table, running);
      kernel.table := kernel.table.(current := running);
    }
  }

  /** The queue with the process `p` taken out, order kept. */
  ghost function Without(q: seq<PendingRead>, p: nat): seq<PendingRead>
  {
    if q == [] then [] else if q[0].proc == p then q[1..] else [q[0]] + Without(q[1..], p)
  }

  lemma {:induction false} WithoutAt(q: seq<PendingRead>, p: nat, i: nat)
    requires i <= |q| && (forall j | 0 <= j < i :: q[j].proc != p) && (i < |q| ==> q[i].proc == p)
    ensures Without(q, p) == if i < |q| then q[..i] + q[i + 1..] else q
  {
    if i > 0 {
      assert q == [q[0]] + q[1..];
      assert forall j | 0 <= j < i - 1 :: q[1..][j] == q[j + 1];
      WithoutAt(q[1..], p, i - 1);
      if i < |q| {
        assert [q[0]] + (q[1..][..i - 1] + q[1..][i..]) == q[..i] + q[i + 1..];
      }
    }
  }

  /** Taking a process out leaves the others queued, once each. */
  lemma {:induction false} WithoutMeaning(q: seq<PendingRead>, p: nat)
    requires Distinct(q)
    ensures ProcSet(Without(q, p)) == ProcSet(q) - {p} && Distinct(Without(q, p))
  {
    if q != [] && q[0].proc != p {
      WithoutMeaning(q[1..], p);
      assert ([q[0]] + Without(q[1..], p))[1..] == Without(q[1..], p);
    }
  }

  lemma QueueKnown(q: seq<PendingRead>, t: Table)
    requires ValidTable(t) && ValidQueue(q, t)
    ensures KnownProcs(q)
  {
  }

  /** A queue is in order whoever runs. */
  lemma CurrentIrrelevant(q: seq<PendingRead>, t: Table, running: nat)
    requires ValidTable(t) && ValidQueue(q, t) && running < MAX_PROCESS_NUM
    ensures ValidQueue(q, t.(current := running))
  {
  }

  lemma DrainRest<D>(dev: Device<D>, d: D, t: Table, q: seq<PendingRead>)
    requires ValidTable(t) && ValidQueue(q, t)
    ensures var s := Drain(dev, d, t, q); ValidTable(s.table) && ValidQueue(s.rest, s.table)
  {
    DrainMeaning(dev, d, t, q);
  }

  ghost function AddWoken<D>(woken: seq<PendingRead>, s: Scan<D>): Scan<D>
  {
    s.(woken := woken + s.woken)
  }

  lemma AddNone<D>(s: Scan<D>)
    ensures AddWoken([], s) == s
  {
    assert [] + s.woken == s.woken;
  }

  lemma AddLast<D>(woken: seq<PendingRead>, s: Scan<D>)
    requires s.woken == []
    ensures AddWoken(woken, s) == s.(woken := woken)
  {
    assert woken + [] == woken;
  }

  lemma AddTwice<D>(woken: seq<PendingRead>, p: PendingRead, s: Scan<D>)
    ensures AddWoken(woken, AddWoken([p], s)) == AddWoken(woken + [p], s)
  {
    assert woken + ([p] + s.woken) == woken + [p] + s.woken;
  }

  lemma DrainStep<D>(dev: Device<D>, d: D, t: Table, q: seq<PendingRead>)
    requires ValidTable(t) && KnownProcs(q) && q != [] && Probe(dev, d, t.current).1 != AGAIN
    ensures q[0].proc < MAX_PROCESS_NUM && KnownProcs(q[1..]) && KnownProcs(q[1..] + [q[0]])
    ensures var (d', t', r) := Serve(dev, Probe(dev, d, t.current).0, t, q[0]);
            Drain(dev, d, t, q) ==
              if r == AGAIN then Scan(Probe(dev, d', q[0].proc).0, t', [], q[1..] + [q[0]])
              else AddWoken([q[0]], Drain(dev, d', t', q[1..]))
  {
    assert q[0].proc in ProcSet(q);
    ProcSetOne(q[0]);
    ProcSetConcat(q[1..], [q[0]]);
  }

  lemma DrainStops<D>(dev: Device<D>, d: D, t: Table, q: seq<PendingRead>)
    requires ValidTable(t) && KnownProcs(q) && (q == [] || Probe(dev, d, t.current).1 == AGAIN)
    ensures Drain(dev, d, t, q) == Scan(if q == [] then d else Probe(dev, d, t.current).0, t, [], q)
  {
  }

  lemma ServeTable<D>(dev: Device<D>, d: D, t: Table, p: PendingRead, t': Table, d': D, r: int)
    requires ValidTable(t) && p.proc < MAX_PROCESS_NUM && (d', r) == dev.read(d, p.proc, p.buffer, p.size)
    requires t' == Table(p.proc,
                         if r == AGAIN then t.state[p.proc := Runnable][p.proc := Sleeping]
                         else t.state[p.proc := Runnable],
                         t.ret[p.proc := r])
    ensures Serve(dev, d, t, p) == (d', t', r)
  {
    assert t.state[p.proc := Runnable][p.proc := Sleeping] == t.state[p.proc := Sleeping];
  }

  // ----- all devices

  /** What one scan may do to the process table, seen from outside. */
  ghost predicate ScannedTable(t: Table, t': Table, q: seq<PendingRead>)
  {
    ValidTable(t) && ValidTable(t') && t'.current == t.current && KeepsOthers(t, t', ProcSet(q))
  }

  lemma OtherQueueKept(t: Table, t': Table, q: seq<PendingRead>, other: seq<PendingRead>)
    requires ScannedTable(t, t', q) && ValidQueue(other, t) && ProcSet(q) !! ProcSet(other)
    ensures ValidQueue(other, t')
  {
    hide ProcSet, Distinct;
  }

  lemma ScanOutside<D>(dev: Device<D>, d: D, t: Table, q: seq<PendingRead>)
    requires ValidTable(t) && ValidQueue(q, t)
    ensures var s := Drain(dev, d, t, q);
            ScannedTable(t, s.table.(current := t.current), q) && ProcSet(s.rest) <= ProcSet(q)
  {
    DrainMeaning(dev, d, t, q);
  }

  /** The scan of one device: what becomes of it, of its queue and of the processes that were queued. */
  ghost predicate Scanned<D>(dev: Device<D>, d: D, t: Table, q: seq<PendingRead>,
                             d': D, t': Table, q': seq<PendingRead>)
  {
    && ValidTable(t) && ValidQueue(q, t) && ValidTable(t')
    && var s := Drain(dev, d, t, q);
    && d' == s.dev && q' == s.rest && ValidTable(s.table) && Agree(s.table, t', ProcSet(q))
  }

  /**
   A scan sees of the table only who runs.  Whatever else is in it, the device, the woken
   and the waiting come out the same, and what two tables agreed on they still agree on.
   */
  lemma {:induction false} DrainLocal<D>(dev: Device<D>, d: D, t: Table, t1: Table, q: seq<PendingRead>, ps: set<nat>)
    requires ValidTable(t) && ValidTable(t1) && t.current == t1.current && Agree(t, t1, ps) && KnownProcs(q)
    ensures var s, s1 := Drain(dev, d, t, q), Drain(dev, d, t1, q);
            && s1.dev == s.dev && s1.woken == s.woken && s1.rest == s.rest
            && ValidTable(s.table) && ValidTable(s1.table) && Agree(s.table, s1.table, ps)
    decreases |q|
  {
    if q == [] || Probe(dev, d, t.current).1 == AGAIN {
      DrainStops(dev, d, t, q);
      DrainStops(dev, d, t1, q);
    } else {
      DrainStep(dev, d, t, q);
      DrainStep(dev, d, t1, q);
      var d0 := Probe(dev, d, t.current).0;
      var (d', t', r) := Serve(dev, d0, t, q[0]);
      var t1' := Serve(dev, d0, t1, q[0]).1;
      hide Drain, ProcSet;
      if r != AGAIN {
        DrainLocal(dev, d', t', t1', q[1..], ps);
      }
    }
  }

  /** Who runs fixes what becomes of the device and its queue; the queued processes' entries fix the new ones. */
  lemma ScanDetermined<D>(dev: Device<D>, d: D, q: seq<PendingRead>,
                          t: Table, d1: D, t1: Table, q1: seq<PendingRead>,
                          u: Table, d2: D, u2: Table, q2: seq<PendingRead>)
    requires Scanned(dev, d, t, q, d1, t1, q1) && Scanned(dev, d, u, q, d2, u2, q2) && t.current == u.current
    ensures d1 == d2 && q1 == q2
    ensures Agree(t, u, ProcSet(q)) ==> Agree(t1, u2, ProcSet(q))
  {
    hide Drain, ProcSet, Distinct;
    DrainLocal(dev, d, t, u, q, {});
    if Agree(t, u, ProcSet(q)) {
      DrainLocal(dev, d, t, u, q, ProcSet(q));
    }
  }

  /** A scan leaves each process that was queued either awake and answered, or asleep in the queue. */
  lemma ScannedServes<D>(dev: Device<D>, d: D, t: Table, q: seq<PendingRead>, d': D, t': Table, q': seq<PendingRead>)
    requires Scanned(dev, d, t, q, d', t', q')
    ensures ProcSet(q') <= ProcSet(q) && AllIn(t', ProcSet(q'), Sleeping)
    ensures AllIn(t', ProcSet(q) - ProcSet(q'), Runnable) && Answered(t', ProcSet(q) - ProcSet(q'))
  {
    hide Drain, ProcSet, Distinct;
    DrainMeaning(dev, d, t, q);
  }

  /** The processes queued here were left alone before the scan. */
  lemma ScannedSince<D>(dev: Device<D>, d: D, t0: Table, t: Table, q: seq<PendingRead>, d': D, t': Table, q': seq<PendingRead>)
    requires Scanned(dev, d, t, q, d', t', q')
    requires ValidTable(t0) && ValidQueue(q, t0) && t0.current == t.current && Agree(t0, t, ProcSet(q))
    ensures Scanned(dev, d, t0, q, d', t', q')
  {
    hide Drain, ProcSet, Distinct;
    DrainLocal(dev, d, t0, t, q, ProcSet(q));
  }

  /** The processes queued here are left alone after the scan. */
  lemma ScannedStill<D>(dev: Device<D>, d: D, t: Table, q: seq<PendingRead>, d': D, t': Table, q': seq<PendingRead>,
                        t2: Table, others: set<nat>)
    requires Scanned(dev, d, t, q, d', t', q')
    requires ValidTable(t2) && KeepsOthers(t', t2, others) && ProcSet(q) !! others
    ensures Scanned(dev, d, t, q, d', t2, q')
  {
    hide Drain, ProcSet, Distinct;
  }

  lemma AgreeStill(t: Table, t1: Table, t2: Table, ps: set<nat>, others: set<nat>)
    requires ValidTable(t) && ValidTable(t1) && ValidTable(t2) && ps !! others
    requires Agree(t, t1, ps) && KeepsOthers(t1, t2, others)
    ensures Agree(t, t2, ps)
  {
  }

  /** The devices of the kernel: each in order, none listed twice, no array shared. */
  ghost predicate Registered<D(!new)>(devices: seq<BlockInputDeviceWrapper<D>>, kernel: Kernel)
    reads kernel, devices, set w | w in devices :: w.pending
  {
    && ValidTable(kernel.table)
    && (forall i | 0 <= i < |devices| :: devices[i].kernel == kernel && devices[i].Valid())
    && (forall i, j | 0 <= i < j < |devices| :: devices[i] != devices[j] && devices[i].pending != devices[j].pending)
  }

  /** No process waits at two devices. */
  ghost predicate OneQueueEach<D(!new)>(devices: seq<BlockInputDeviceWrapper<D>>, kernel: Kernel)
    requires Registered(devices, kernel)
    reads kernel, devices, set w | w in devices :: w.pending
  {
    forall i, j | 0 <= i < j < |devices| :: ProcSet(devices[i].Queue()) !! ProcSet(devices[j].Queue())
  }

  /** The processes that wait somewhere. */
  ghost function Waiting<D(!new)>(devices: seq<BlockInputDeviceWrapper<D>>, kernel: Kernel): set<nat>
    requires Registered(devices, kernel)
    reads kernel, devices, set w | w in devices :: w.pending
  {
    set i, p | 0 <= i < |devices| && p in ProcSet(devices[i].Queue()) :: p
  }

  /** The running process is queued nowhere except where it has just been told to try again. */
  ghost predicate RunningSettled<D(!new)>(devices: seq<BlockInputDeviceWrapper<D>>, kernel: Kernel)
    requires Registered(devices, kernel)
    reads kernel, devices, set w | w in devices :: w.pending
  {
    forall i | 0 <= i < |devices| ::
      kernel.table.current in ProcSet(devices[i].Queue())
      ==> Probe(devices[i].dev, devices[i].input, kernel.table.current).1 == AGAIN
  }

  /** Scanning one device leaves the others as they are. */
  method CheckOne<D(!new)>(devices: seq<BlockInputDeviceWrapper<D>>, kernel: Kernel, i: nat)
    requires Registered(devices, kernel) && OneQueueEach(devices, kernel) && i < |devices| && Contract(devices[i].dev)
    requires kernel.table.current in ProcSet(devices[i].Queue()) ==>
               Probe(devices[i].dev, devices[i].input, kernel.table.current).1 == AGAIN
    modifies kernel, devices[i], devices[i].pending
    ensures Registered(devices, kernel) && OneQueueEach(devices, kernel)
    ensures forall j | 0 <= j < |devices| && j != i ::
              devices[j].Queue() == old(devices[j].Queue()) && devices[j].input == old(devices[j].input)
    ensures ProcSet(devices[i].Queue()) <= old(ProcSet(devices[i].Queue()))
    ensures kernel.table.current == old(kernel.table.current)
    ensures KeepsOthers(old(kernel.table), kernel.table, old(ProcSet(devices[i].Queue())))
    ensures Scanned(devices[i].dev, old(devices[i].input), old(kernel.table), old(devices[i].Queue()),
                    devices[i].input, kernel.table, devices[i].Queue())
  {
    hide ProcSet, Distinct, Drain, Contract, KeepsOthers, Probe, Scanned, Agree;
    var w := devices[i];
    ghost var t, q := kernel.table, w.Queue();
    ScannedBy(w.dev, w.input, t, q);
    ScanOutside(w.dev, w.input, t, q);
    w.Check();
    assert ScannedTable(t, kernel.table, q);
    forall j | 0 <= j < |devices| && j != i
      ensures devices[j].Queue() == old(devices[j].Queue()) && devices[j].input == old(devices[j].input)
      ensures devices[j].Valid()
    {
      OtherQueueKept(t, kernel.table, q, devices[j].Queue());
    }
  }

  /**
   `checkAll` over the devices that are registered: each device, its queue and the
   processes queued there come out as if it were scanned alone, each process still waits
   at one device at most, and no process that waits nowhere is touched.
   */
  method CheckAll<D(!new)>(devices: seq<BlockInputDeviceWrapper<D>>, kernel: Kernel)
    requires Registered(devices, kernel) && OneQueueEach(devices, kernel) && RunningSettled(devices, kernel)
    requires forall i | 0 <= i < |devices| :: Contract(devices[i].dev)
    modifies kernel, devices, set w | w in devices :: w.pending
    ensures Registered(devices, kernel) && OneQueueEach(devices, kernel)
    ensures kernel.table.current == old(kernel.table.current)
    ensures forall i | 0 <= i < |devices| :: ProcSet(devices[i].Queue()) <= old(ProcSet(devices[i].Queue()))
    ensures forall i | 0 <= i < |devices| ::
              Scanned(devices[i].dev, old(devices[i].input), old(kernel.table), old(devices[i].Queue()),
                      devices[i].input, kernel.table, devices[i].Queue())
    ensures KeepsOthers(old(kernel.table), kernel.table, old(Waiting(devices, kernel)))
  {
    hide ProcSet, Distinct, Drain, Contract, Waiting, KeepsOthers, Probe, Scanned, Agree, OneQueueEach, Apart;
    ghost var waiting, t0 := Waiting(devices, kernel), kernel.table;
    ghost var ds, qs := Inputs(devices), Queues(devices, kernel);
    QueuesApart(devices, kernel);
    AgreesItself(t0);
    InWaiting(devices, kernel);
    KeepsItself(t0, waiting);
    var i := 0;
    while i < |devices|
      invariant 0 <= i <= |devices|
      invariant Registered(devices, kernel) && OneQueueEach(devices, kernel)
      invariant kernel.table.current == t0.current
      invariant forall j | 0 <= j < |devices| :: ProcSet(devices[j].Queue()) <= ProcSet(qs[j])
      invariant forall j | i <= j < |devices| ::
                  && devices[j].Queue() == qs[j] && devices[j].input == ds[j]
                  && ValidQueue(qs[j], t0) && Agree(t0, kernel.table, ProcSet(qs[j]))
      invariant KeepsOthers(t0, kernel.table, waiting)
      invariant forall j | 0 <= j < i ::
                  Scanned(devices[j].dev, ds[j], t0, qs[j], devices[j].input, kernel.table, devices[j].Queue())
    {
      ghost var t := kernel.table;
      CheckOne(devices, kernel, i);
      ScannedSince(devices[i].dev, ds[i], t0, t, qs[i], devices[i].input, kernel.table, devices[i].Queue());
      forall j | 0 <= j < i
        ensures Scanned(devices[j].dev, ds[j], t0, qs[j], devices[j].input, kernel.table, devices[j].Queue())
      {
        ApartAt(qs, j, i);
        ScannedStill(devices[j].dev, ds[j], t0, qs[j], devices[j].input, t, devices[j].Queue(), kernel.table, ProcSet(qs[i]));
      }
      forall j | i < j < |devices| ensures Agree(t0, kernel.table, ProcSet(qs[j])) {
        ApartAt(qs, j, i);
        AgreeStill(t0, t, kernel.table, ProcSet(qs[j]), ProcSet(qs[i]));
      }
      KeepsTrans(t0, t, kernel.table, waiting, ProcSet(qs[i]));
      i := i + 1;
    }
  }

  ghost predicate Apart(qs: seq<seq<PendingRead>>)
  {
    forall i, j | 0 <= i < j < |qs| :: ProcSet(qs[i]) !! ProcSet(qs[j])
  }

  lemma ApartAt(qs: seq<seq<PendingRead>>, i: nat, j: nat)
    requires Apart(qs) && i < |qs| && j < |qs| && i != j
    ensures ProcSet(qs[i]) !! ProcSet(qs[j])
  {
  }

  lemma QueuesApart<D(!new)>(devices: seq<BlockInputDeviceWrapper<D>>, kernel: Kernel)
    requires Registered(devices, kernel) && OneQueueEach(devices, kernel)
    ensures Apart(Queues(devices, kernel))
  {
    hide ProcSet;
  }

  /** The devices' states. */
  ghost function Inputs<D(!new)>(devices: seq<BlockInputDeviceWrapper<D>>): (ds: seq<D>)
    reads devices
    ensures |ds| == |devices| && forall i | 0 <= i < |devices| :: ds[i] == devices[i].input
  {
    seq(|devices|, i requires 0 <= i < |devices| reads devices => devices[i].input)
  }

  /** The devices' queues. */
  ghost function Queues<D(!new)>(devices: seq<BlockInputDeviceWrapper<D>>, kernel: Kernel): (qs: seq<seq<PendingRead>>)
    requires Registered(devices, kernel)
    reads kernel, devices, set w | w in devices :: w.pending
    ensures |qs| == |devices| && forall i | 0 <= i < |devices| :: qs[i] == devices[i].Queue()
  {
    seq(|devices|, i requires 0 <= i < |devices| && Registered(devices, kernel)
      reads kernel, devices, set w | w in devices :: w.pending => devices[i].Queue())
  }

  lemma ScannedBy<D>(dev: Device<D>, d: D, t: Table, q: seq<PendingRead>)
    requires ValidTable(t) && ValidQueue(q, t)
    ensures var s := Drain(dev, d, t, q); Scanned(dev, d, t, q, s.dev, s.table.(current := t.current), s.rest)
  {
    DrainMeaning(dev, d, t, q);
  }

  lemma InWaiting<D(!new)>(devices: seq<BlockInputDeviceWrapper<D>>, kernel: Kernel)
    requires Registered(devices, kernel)
    ensures forall i | 0 <= i < |devices| :: ProcSet(devices[i].Queue()) <= Waiting(devices, kernel)
  {
  }

  lemma AgreesItself(t: Table)
    requires ValidTable(t)
    ensures forall ps: set<nat> :: Agree(t, t, ps)
  {
  }

  lemma KeepsItself(t: Table, ps: set<nat>)
    requires ValidTable(t)
    ensures KeepsOthers(t, t, ps)
  {
  }

  lemma KeepsTrans(t: Table, t1: Table, t2: Table, ps: set<nat>, qs: set<nat>)
    requires ValidTable(t) && ValidTable(t1) && ValidTable(t2) && qs <= ps
    requires KeepsOthers(t, t1, ps) && KeepsOthers(t1, t2, qs)
    ensures KeepsOthers(t, t2, ps)
  {
  }
}
