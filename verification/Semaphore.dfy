/**
 Semaphores on top of blocking reads: src/objects/Semaphore.cpp driven by the
 system-call handler of src/syscall/syscall_handler.cpp.  A run is any sequence
 of system calls by processes that are not asleep in the semaphore's queue.
 */
module Semaphore {
  import opened Blocking
  import opened KernelConstants

  /** `Semaphore::read`: a zero-size read only looks. */
  function SemRead(cnt: int, current: nat, buffer: int, size: nat): (int, int)
  {
    if cnt <= 0 then (cnt, AGAIN) else (if size != 0 then cnt - 1 else cnt, 0)
  }

  const SEMAPHORE: Device<int> := Device(SemRead, (cnt: int, owner: nat) => cnt)

  lemma SemaphoreMeetsContract()
    ensures Contract(SEMAPHORE)
  {
  }

  /** How many of these reads take a unit. */
  ghost function Sized(q: seq<PendingRead>): nat
  {
    if q == [] then 0 else (if q[0].size != 0 then 1 else 0) + Sized(q[1..])
  }

  lemma {:induction false} SizedConcat(a: seq<PendingRead>, b: seq<PendingRead>)
    ensures Sized(a + b) == Sized(a) + Sized(b)
  {
    if a == [] {
      assert a + b == b;
    } else {
      assert (a + b)[1..] == a[1..] + b;
      SizedConcat(a[1..], b);
    }
  }

  /** A scan of a semaphore's queue goes on until the count is used up or nobody waits. */
  lemma {:induction false} SemDrain(cnt: int, t: Table, q: seq<PendingRead>)
    requires ValidTable(t) && KnownProcs(q)
    ensures var s := Drain(SEMAPHORE, cnt, t, q);
            && q == s.woken + s.rest && (s.dev <= 0 || s.rest == [])
            && s.dev == cnt - Sized(s.woken) && (cnt >= 0 ==> s.dev >= 0) && (cnt <= 0 ==> s.woken == [])
            && (s.woken != [] && s.dev <= 0 ==> s.woken[|s.woken| - 1].size != 0)
    decreases |q|
  {
    hide Drain, Sized, KnownProcs;
    if q != [] && cnt > 0 {
      var d, t' := SemServe(cnt, t, q);
      SemDrain(d, t', q[1..]);
      var s := Drain(SEMAPHORE, d, t', q[1..]);
      WokenFirst(q, s.woken, s.rest);
    } else {
      DrainStops(SEMAPHORE, cnt, t, q);
      SizedNone();
    }
  }

  lemma SizedNone()
    ensures Sized([]) == 0
  {
  }

  /** With units left the first reader is served. */
  lemma SemServe(cnt: int, t: Table, q: seq<PendingRead>) returns (d: int, t': Table)
    requires ValidTable(t) && KnownProcs(q) && q != [] && cnt > 0
    ensures ValidTable(t') && KnownProcs(q[1..]) && d == (if q[0].size != 0 then cnt - 1 else cnt)
    ensures Drain(SEMAPHORE, cnt, t, q) == AddWoken([q[0]], Drain(SEMAPHORE, d, t', q[1..]))
  {
    hide Drain;
    DrainStep(SEMAPHORE, cnt, t, q);
    var s := Serve(SEMAPHORE, Probe(SEMAPHORE, cnt, t.current).0, t, q[0]);
    d, t' := s.0, s.1;
  }

  lemma WokenFirst(q: seq<PendingRead>, woken: seq<PendingRead>, rest: seq<PendingRead>)
    requires q != [] && q[1..] == woken + rest
    ensures q == [q[0]] + woken + rest
    ensures Sized([q[0]] + woken) == (if q[0].size != 0 then 1 else 0) + Sized(woken)
    ensures woken == [] ==> Sized(woken) == 0
  {
    assert q == [q[0]] + q[1..];
    assert ([q[0]] + woken)[1..] == woken;
  }

  /** Runnable, and told that the wait is over. */
  ghost predicate Passed(t: Table, ps: set<nat>)
    requires ValidTable(t)
  {
    forall p: nat | p < MAX_PROCESS_NUM && p in ps :: t.state[p] == Runnable && t.ret[p] == 0
  }

  /** Whoever a scan wakes may run, and its wait returned 0. */
  lemma {:induction false} SemAnswers(cnt: int, t: Table, q: seq<PendingRead>)
    requires ValidTable(t) && ValidQueue(q, t)
    ensures var s := Drain(SEMAPHORE, cnt, t, q); ScanMeaning(t, q, s) && Passed(s.table, ProcSet(s.woken))
    decreases |q|
  {
    DrainMeaning(SEMAPHORE, cnt, t, q);
    if q != [] && cnt > 0 {
      QueueHead(q, t);
      DrainStep(SEMAPHORE, cnt, t, q);
      var (d, t', r) := Serve(SEMAPHORE, Probe(SEMAPHORE, cnt, t.current).0, t, q[0]);
      hide Drain, Distinct;
      SemAnswers(d, t', q[1..]);
      var s := Drain(SEMAPHORE, d, t', q[1..]);
      ProcSetOne(q[0]);
      ProcSetConcat([q[0]], s.woken);
      hide ProcSet;
    }
  }

  // ----- system calls

  /** A call on the semaphore, a call that ends the caller, or any other. */
  datatype Call = Wait(buffer: int, size: nat) | Signal | Exit | Other

  /** One semaphore seen by the kernel. */
  datatype Core = Core(cnt: int, table: Table, queue: seq<PendingRead>)

  ghost predicate ValidCore(c: Core)
  {
    ValidTable(c.table) && ValidQueue(c.queue, c.table)
  }

  /** The call itself, before the queue is scanned, with its return value. */
  ghost function Perform(c: Core, pid: nat, call: Call): (Core, int)
    requires ValidCore(c) && pid < MAX_PROCESS_NUM
  {
    var t := c.table.(current := pid);
    match call
    case Wait(buffer, size) =>
      var (d, r) := SemRead(c.cnt, pid, buffer, size);
      if r == AGAIN then
        (Core(d, t.(state := t.state[pid := Sleeping]), c.queue + [PendingRead(pid, buffer, size)]), r)
      else (Core(d, t, c.queue), r)
    case Signal => (Core(c.cnt + 1, t, c.queue), 0)
    case _ => (Core(c.cnt, t, c.queue), 0)
  }

  /** The caller's return value, set unless the caller is gone. */
  function Returned(t: Table, pid: nat, call: Call, r: int): Table
    requires pid < |t.ret|
  {
    t.(current := pid, ret := if call.Exit? then t.ret else t.ret[pid := r])
  }

  /** The whole system call: perform, scan the queue, set the caller's return value. */
  ghost function Syscall(c: Core, pid: nat, call: Call): (Core, seq<PendingRead>)
    requires ValidCore(c) && pid < MAX_PROCESS_NUM && pid !in ProcSet(c.queue)
  {
    PerformValid(c, pid, call);
    var (c1, r) := Perform(c, pid, call);
    var s := Drain(SEMAPHORE, c1.cnt, c1.table, c1.queue);
    DrainMeaning(SEMAPHORE, c1.cnt, c1.table, c1.queue);
    assert ScanMeaning(c1.table, c1.queue, s);
    (Core(s.dev, Returned(s.table, pid, call, r), s.rest), s.woken)
  }

  lemma PerformValid(c: Core, pid: nat, call: Call)
    requires ValidCore(c) && pid < MAX_PROCESS_NUM && pid !in ProcSet(c.queue)
    ensures ValidCore(Perform(c, pid, call).0)
  {
    if call.Wait? {
      var p := PendingRead(pid, call.buffer, call.size);
      ProcSetOne(p);
      ProcSetConcat(c.queue, [p]);
      hide ProcSet, Distinct;
    }
  }

  // ----- runs with their history

  /** The kernel's view together with what has happened so far. */
  datatype History = History(core: Core, arrivals: seq<PendingRead>, completed: seq<PendingRead>, signals: nat)

  ghost function Arrival(pid: nat, call: Call): seq<PendingRead>
  {
    match call
    case Wait(buffer, size) => [PendingRead(pid, buffer, size)]
    case _ => []
  }

  ghost predicate LegalCall(h: History, pid: nat)
  {
    ValidCore(h.core) && pid < MAX_PROCESS_NUM && pid !in ProcSet(h.core.queue)
  }

  ghost function Next(h: History, pid: nat, call: Call): History
    requires LegalCall(h, pid)
  {
    var (c, woken) := Syscall(h.core, pid, call);
    var here := if call.Wait? && Perform(h.core, pid, call).1 != AGAIN then Arrival(pid, call) else [];
    History(c, h.arrivals + Arrival(pid, call), h.completed + here + woken, h.signals + (if call.Signal? then 1 else 0))
  }

  /** What holds between system calls. */
  ghost predicate Settled(initial: int, h: History)
  {
    && ValidCore(h.core)
    && (h.core.cnt > 0 ==> h.core.queue == [])
    && h.arrivals == h.completed + h.core.queue
    && initial + h.signals == h.core.cnt + Sized(h.completed)
  }

  /** Arrivals, completions and the queue stay in step. */
  lemma OrderKept(done: seq<PendingRead>, q: seq<PendingRead>, here: seq<PendingRead>, waits: seq<PendingRead>,
                  woken: seq<PendingRead>, rest: seq<PendingRead>)
    requires q + waits == woken + rest && (here == [] || (waits == [] && q == []))
    ensures (done + q) + (here + waits) == (done + here + woken) + rest
  {
    if here == [] {
      assert (done + q) + (here + waits) == done + (q + waits);
      assert (done + here + woken) + rest == done + (woken + rest);
    } else {
      assert woken == [] && rest == [];
    }
  }

  /** Units are conserved by the call and the scan together. */
  lemma UnitsKept(done: seq<PendingRead>, here: seq<PendingRead>, woken: seq<PendingRead>)
    ensures Sized(done + here + woken) == Sized(done) + Sized(here) + Sized(woken)
  {
    SizedConcat(done + here, woken);
    SizedConcat(done, here);
  }

  lemma PerformUnits(c: Core, pid: nat, call: Call)
    requires ValidCore(c) && pid < MAX_PROCESS_NUM
    requires c.cnt > 0 ==> c.queue == []
    ensures var (c1, r) := Perform(c, pid, call);
            var here := if call.Wait? && r != AGAIN then Arrival(pid, call) else [];
            var waits := if call.Wait? && r == AGAIN then Arrival(pid, call) else [];
            && c1.queue == c.queue + waits && here + waits == Arrival(pid, call)
            && (here == [] || (waits == [] && c.queue == []))
            && c1.cnt == c.cnt + (if call.Signal? then 1 else 0) - Sized(here)
  {
    if call.Wait? {
      var p := PendingRead(pid, call.buffer, call.size);
      assert [p][1..] == [];
      assert Sized([p]) == if call.size != 0 then 1 else 0;
    }
  }

  lemma ScannedValid(c: Core, s: Scan<int>, pid: nat, call: Call, r: int)
    requires ValidCore(c) && pid < MAX_PROCESS_NUM && ScanMeaning(c.table, c.queue, s)
    ensures ValidCore(Core(s.dev, Returned(s.table, pid, call, r), s.rest))
  {
  }

  lemma SettledIs(initial: int, h: History)
    ensures Settled(initial, h) <==>
              && ValidCore(h.core)
              && (h.core.cnt > 0 ==> h.core.queue == [])
              && h.arrivals == h.completed + h.core.queue
              && initial + h.signals == h.core.cnt + Sized(h.completed)
  {
  }

  lemma KnownIfValid(c: Core)
    requires ValidCore(c)
    ensures ValidTable(c.table) && KnownProcs(c.queue)
  {
  }

  lemma NextIs(h: History, pid: nat, call: Call)
    requires LegalCall(h, pid)
    ensures var (c1, r) := Perform(h.core, pid, call);
            var here := if call.Wait? && r != AGAIN then Arrival(pid, call) else [];
            && ValidCore(c1)
            && var s := Drain(SEMAPHORE, c1.cnt, c1.table, c1.queue);
            && ScanMeaning(c1.table, c1.queue, s)
            && Next(h, pid, call) ==
                 History(Core(s.dev, Returned(s.table, pid, call, r), s.rest),
                         h.arrivals + Arrival(pid, call), h.completed + here + s.woken,
                         h.signals + (if call.Signal? then 1 else 0))
  {
    PerformValid(h.core, pid, call);
    var (c1, r) := Perform(h.core, pid, call);
    DrainMeaning(SEMAPHORE, c1.cnt, c1.table, c1.queue);
  }

  lemma SettledNext(initial: int, h: History, pid: nat, call: Call)
    requires Settled(initial, h) && LegalCall(h, pid)
    ensures Settled(initial, Next(h, pid, call))
  {
    SettledIs(initial, h);
    PerformUnits(h.core, pid, call);
    hide *;
    var (c1, r) := Perform(h.core, pid, call);
    NextIs(h, pid, call);
    KnownIfValid(c1);
    SemDrain(c1.cnt, c1.table, c1.queue);
    var s := Drain(SEMAPHORE, c1.cnt, c1.table, c1.queue);
    ScannedValid(c1, s, pid, call, r);
    var here := if call.Wait? && r != AGAIN then Arrival(pid, call) else [];
    var waits := if call.Wait? && r == AGAIN then Arrival(pid, call) else [];
    OrderKept(h.completed, h.core.queue, here, waits, s.woken, s.rest);
    UnitsKept(h.completed, here, s.woken);
    SettledIs(initial, h);
    SettledIs(initial, Next(h, pid, call));
  }

  ghost predicate LegalRun(h: History, run: seq<(nat, Call)>)
    decreases |run|
  {
    run == [] || (LegalCall(h, run[0].0) && LegalRun(Next(h, run[0].0, run[0].1), run[1..]))
  }

  ghost function After(h: History, run: seq<(nat, Call)>): History
    requires LegalRun(h, run)
    decreases |run|
  {
    if run == [] then h else After(Next(h, run[0].0, run[0].1), run[1..])
  }

  lemma {:induction false} SettledAfter(initial: int, h: History, run: seq<(nat, Call)>)
    requires Settled(initial, h) && LegalRun(h, run)
    ensures Settled(initial, After(h, run))
    decreases |run|
  {
    if run != [] {
      SettledNext(initial, h, run[0].0, run[0].1);
      SettledAfter(initial, Next(h, run[0].0, run[0].1), run[1..]);
    }
  }

  /**
   After every system call of every run of a semaphore created with `initial` units:
   waiting and available units exclude each other, units are conserved, and waits
   complete in the order in which they were made.
   */
  lemma SemaphoreRuns(initial: int, t: Table, run: seq<(nat, Call)>)
    requires ValidTable(t) && LegalRun(History(Core(initial, t, []), [], [], 0), run)
    ensures var h := After(History(Core(initial, t, []), [], [], 0), run);
            && (h.core.cnt > 0 ==> h.core.queue == [])
            && initial + h.signals == h.core.cnt + Sized(h.completed)
            && h.completed <= h.arrivals && h.arrivals[|h.completed|..] == h.core.queue
  {
    var start := History(Core(initial, t, []), [], [], 0);
    assert Settled(initial, start);
    SettledAfter(initial, start, run);
  }

  /** A caller that must wait goes behind everybody else and is not woken by its own call. */
  lemma BlockedCallerStays(initial: int, h: History, pid: nat, buffer: int, size: nat)
    requires Settled(initial, h) && LegalCall(h, pid)
    ensures var c := Syscall(h.core, pid, Wait(buffer, size)).0;
            if h.core.cnt <= 0 then
              && c.queue == h.core.queue + [PendingRead(pid, buffer, size)]
              && c.table.state[pid] == Sleeping && c.table.ret[pid] == AGAIN && c.cnt == h.core.cnt
            else
              h.core.queue == [] && c.queue == [] && c.table.state[pid] == h.core.table.state[pid] && c.table.ret[pid] == 0
  {
    var call := Wait(buffer, size);
    PerformValid(h.core, pid, call);
    var (c1, r) := Perform(h.core, pid, call);
    DrainMeaning(SEMAPHORE, c1.cnt, c1.table, c1.queue);
    DrainStops(SEMAPHORE, c1.cnt, c1.table, c1.queue);
  }

  /** A signal wakes exactly the first waiter that takes the unit, with the lookers ahead of it. */
  lemma SignalWakes(initial: int, h: History, pid: nat)
    requires Settled(initial, h) && LegalCall(h, pid) && h.core.cnt == 0
    ensures var (c, woken) := Syscall(h.core, pid, Signal);
            && h.core.queue == woken + c.queue && Sized(woken) == 1 - c.cnt && 0 <= c.cnt <= 1
            && (c.queue != [] ==> c.cnt == 0 && Sized(woken) == 1)
            && (c.cnt == 0 ==> woken != [] && woken[|woken| - 1].size != 0)
  {
    PerformValid(h.core, pid, Signal);
    var (c1, r) := Perform(h.core, pid, Signal);
    SemDrain(c1.cnt, c1.table, c1.queue);
  }

  // ----- the code

  /** `Semaphore::write`. */
  method SemWrite(w: BlockInputDeviceWrapper<int>)
    modifies w`input
    ensures w.input == old(w.input) + 1
  {
    w.input := w.input + 1;
  }

  ghost function CoreOf(w: BlockInputDeviceWrapper<int>): Core
    requires w.end <= w.pending.Length
    reads w, w.pending, w.kernel
  {
    Core(w.input, w.kernel.table, w.Queue())
  }

  /** The call itself, with its return value. */
  method PerformCall(w: BlockInputDeviceWrapper<int>, pid: nat, call: Call) returns (ret: int)
    requires w.Valid() && w.dev == SEMAPHORE && pid < MAX_PROCESS_NUM && pid !in ProcSet(w.Queue())
    requires w.kernel.table.current == pid
    modifies w, w.pending, w.kernel
    ensures w.Valid() && (CoreOf(w), ret) == Perform(old(CoreOf(w)), pid, call)
  {
    hide ProcSet, Distinct;
    ret := 0;
    match call {
      case Wait(buffer, size) =>
        ret := w.Read(buffer, size);
      case Signal =>
        SemWrite(w);
      case _ =>
    }
    assert old(w.kernel.table).(current := pid) == old(w.kernel.table);
  }

  /** `real_syscall_handler` for one call on the semaphore, up to rescheduling. */
  method HandleSyscall(w: BlockInputDeviceWrapper<int>, pid: nat, call: Call)
    requires w.Valid() && w.dev == SEMAPHORE && pid < MAX_PROCESS_NUM && pid !in ProcSet(w.Queue())
    requires w.kernel.table.current == pid
    modifies w, w.pending, w.kernel
    ensures w.Valid() && w.kernel.table.current == pid
    ensures CoreOf(w) == Syscall(old(CoreOf(w)), pid, call).0
  {
    hide ProcSet, Distinct, Drain, Contract, Perform;
    ghost var c := CoreOf(w);
    PerformValid(c, pid, call);
    SemaphoreMeetsContract();
    PerformedCaller(c, pid, call);
    var ret := PerformCall(w, pid, call);
    ghost var c1 := CoreOf(w);
    DrainMeaning(SEMAPHORE, c1.cnt, c1.table, c1.queue);
    w.Check();
    if !call.Exit? {
      w.kernel.table := w.kernel.table.(ret := w.kernel.table.ret[pid := ret]);
    }
  }

  /** The caller runs on, and if it waits now, there is nothing for it. */
  lemma PerformedCaller(c: Core, pid: nat, call: Call)
    requires ValidCore(c) && pid < MAX_PROCESS_NUM && pid !in ProcSet(c.queue)
    ensures var c1 := Perform(c, pid, call).0;
            && c1.table.current == pid
            && (pid in ProcSet(c1.queue) ==> Probe(SEMAPHORE, c1.cnt, pid).1 == AGAIN)
  {
  }
}
