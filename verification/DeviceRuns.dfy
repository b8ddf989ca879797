/**
 Runs of system calls over all devices: src/syscall/syscall_handler.cpp and `checkAll` of
 src/objects/BlockInputDevice.cpp.  Only a process that may run makes a call.
 */
module DeviceRuns {
  import opened Blocking
  import opened KernelConstants
  import opened Semaphore
  import ProcessWait
  import Terminal

  /** A call that is no read returns a value, unless its caller is gone by then. */
  datatype Answer = Value(value: int) | CallerGone

  /** A read of a device, a call that leaves a device in another state, or any other call. */
  datatype DeviceCall<!D> =
    | ReadAt(device: nat, buffer: int, size: nat)
    | Becomes(device: nat, state: D, answer: Answer)
    | Elsewhere(answer: Answer)

  ghost predicate Reachable<D(!new)>(call: DeviceCall<D>, devices: seq<BlockInputDeviceWrapper<D>>)
  {
    call.Elsewhere? || call.device < |devices|
  }

  /** What runs rely on and keep: a process is queued once, at one device, and asleep while it is. */
  ghost predicate InOrder<D(!new)>(devices: seq<BlockInputDeviceWrapper<D>>, kernel: Kernel)
    reads kernel, devices, set w | w in devices :: w.pending
  {
    Registered(devices, kernel) && OneQueueEach(devices, kernel)
  }

  ghost predicate AllContracts<D(!new)>(devices: seq<BlockInputDeviceWrapper<D>>)
    reads devices
  {
    forall i | 0 <= i < |devices| :: Contract(devices[i].dev)
  }

  lemma RunnableWaitsNowhere<D(!new)>(devices: seq<BlockInputDeviceWrapper<D>>, kernel: Kernel, pid: nat)
    requires InOrder(devices, kernel) && pid < MAX_PROCESS_NUM && kernel.table.state[pid] == Runnable
    ensures forall i | 0 <= i < |devices| :: pid !in ProcSet(devices[i].Queue())
  {
  }

  /** What the call itself does to device `i` and its queue. */
  ghost function Performed<D>(dev: Device<D>, d: D, q: seq<PendingRead>, i: nat, pid: nat, call: DeviceCall<D>)
    : (D, seq<PendingRead>)
  {
    match call
    case ReadAt(k, buffer, size) =>
      if k != i then (d, q)
      else
        var (d', r) := dev.read(d, pid, buffer, size);
        (d', if r == AGAIN then q + [PendingRead(pid, buffer, size)] else q)
    case Becomes(k, state, _) => (if k == i then state else d, q)
    case Elsewhere(_) => (d, q)
  }

  /** What the call returns to its caller. */
  ghost function Returned<D(!new)>(devices: seq<BlockInputDeviceWrapper<D>>, pid: nat, call: DeviceCall<D>): Answer
    requires Reachable(call, devices)
    reads devices
  {
    match call
    case ReadAt(k, buffer, size) => Value(devices[k].dev.read(devices[k].input, pid, buffer, size).1)
    case Becomes(_, _, answer) => answer
    case Elsewhere(answer) => answer
  }

  ghost predicate MustWait<D>(call: DeviceCall<D>, answer: Answer) { call.ReadAt? && answer == Value(AGAIN) }

  /** The table when the call is over: its caller asleep if it must wait, and answered unless it is gone. */
  ghost function AfterCall(t: Table, pid: nat, waits: bool, answer: Answer): Table
    requires ValidTable(t) && pid < MAX_PROCESS_NUM
  {
    Table(pid, if waits then t.state[pid := Sleeping] else t.state,
          if answer.Value? then t.ret[pid := answer.value] else t.ret)
  }

  /** A read of device `k`: the caller joins the end of its queue if it must wait. */
  method PerformRead<D(!new)>(devices: seq<BlockInputDeviceWrapper<D>>, kernel: Kernel, pid: nat,
                              k: nat, buffer: int, size: nat) returns (ret: int)
    requires InOrder(devices, kernel) && AllContracts(devices) && k < |devices|
    requires pid < MAX_PROCESS_NUM && kernel.table.current == pid && kernel.table.state[pid] == Runnable
    modifies kernel, devices, set w | w in devices :: w.pending
    ensures InOrder(devices, kernel) && RunningSettled(devices, kernel) && kernel.table.current == pid
    ensures forall i | 0 <= i < |devices| ::
              (devices[i].input, devices[i].Queue()) ==
              Performed(devices[i].dev, old(devices[i].input), old(devices[i].Queue()), i, pid, ReadAt(k, buffer, size))
    ensures ret == devices[k].dev.read(old(devices[k].input), pid, buffer, size).1
    ensures kernel.table == AfterCall(old(kernel.table), pid, ret == AGAIN, CallerGone)
  {
    hide ProcSet, Distinct, Contract;
    RunnableWaitsNowhere(devices, kernel, pid);
    var w := devices[k];
    ghost var t, q := kernel.table, w.Queue();
    ghost var p := PendingRead(pid, buffer, size);
    ret := w.Read(buffer, size);
    ProcSetOne(p);
    ProcSetConcat(q, [p]);
    ToldAgain(w.dev, old(w.input), pid, buffer, size);
    forall j | 0 <= j < |devices| && j != k
      ensures devices[j].Queue() == old(devices[j].Queue()) && devices[j].input == old(devices[j].input)
      ensures devices[j].Valid()
    {
      StillAsleep(devices[j].Queue(), t, pid, if ret == AGAIN then Sleeping else t.state[pid]);
    }
  }

  /** The call before the scan: afterwards the caller waits at most where it has been told to try again. */
  method Perform<D(!new)>(devices: seq<BlockInputDeviceWrapper<D>>, kernel: Kernel, pid: nat, call: DeviceCall<D>)
    returns (answer: Answer)
    requires InOrder(devices, kernel) && AllContracts(devices) && Reachable(call, devices)
    requires pid < MAX_PROCESS_NUM && kernel.table.current == pid && kernel.table.state[pid] == Runnable
    modifies kernel, devices, set w | w in devices :: w.pending
    ensures InOrder(devices, kernel) && RunningSettled(devices, kernel) && kernel.table.current == pid
    ensures forall i | 0 <= i < |devices| ::
              (devices[i].input, devices[i].Queue()) ==
              Performed(devices[i].dev, old(devices[i].input), old(devices[i].Queue()), i, pid, call)
    ensures answer == old(Returned(devices, pid, call))
    ensures kernel.table == AfterCall(old(kernel.table), pid, MustWait(call, answer), CallerGone)
  {
    hide ProcSet, Distinct, Contract;
    match call {
      case ReadAt(k, buffer, size) =>
        var ret := PerformRead(devices, kernel, pid, k, buffer, size);
        answer := Value(ret);
      case Becomes(k, state, given) =>
        RunnableWaitsNowhere(devices, kernel, pid);
        devices[k].input := state;
        answer := given;
      case Elsewhere(given) =>
        RunnableWaitsNowhere(devices, kernel, pid);
        answer := given;
    }
  }

  lemma ToldAgain<D(!new)>(dev: Device<D>, d: D, pid: nat, buffer: int, size: nat)
    requires Contract(dev)
    ensures dev.read(d, pid, buffer, size).1 == AGAIN ==> Probe(dev, dev.read(d, pid, buffer, size).0, pid).1 == AGAIN
  {
  }

  /** Putting a process to sleep that does not wait in a queue leaves that queue in order. */
  lemma StillAsleep(q: seq<PendingRead>, t: Table, pid: nat, state: RunState)
    requires ValidTable(t) && ValidQueue(q, t) && pid < MAX_PROCESS_NUM && pid !in ProcSet(q)
    ensures ValidQueue(q, t.(state := t.state[pid := state]))
  {
  }

  /** Who runs, and what a call returned, are of no concern to the queues. */
  method SetCurrent<D(!new)>(devices: seq<BlockInputDeviceWrapper<D>>, kernel: Kernel, pid: nat)
    requires InOrder(devices, kernel) && pid < MAX_PROCESS_NUM
    modifies kernel
    ensures InOrder(devices, kernel) && kernel.table == old(kernel.table).(current := pid)
  {
    hide ProcSet, Distinct;
    kernel.table := kernel.table.(current := pid);
  }

  method SetReturn<D(!new)>(devices: seq<BlockInputDeviceWrapper<D>>, kernel: Kernel, pid: nat, answer: Answer)
    requires InOrder(devices, kernel) && pid < MAX_PROCESS_NUM && kernel.table.current == pid
    modifies kernel
    ensures InOrder(devices, kernel) && kernel.table == AfterCall(old(kernel.table), pid, false, answer)
  {
    hide ProcSet, Distinct;
    if answer.Value? {
      kernel.table := kernel.table.(ret := kernel.table.ret[pid := answer.value]);
    }
  }

  /**
   Setting the return value before the scan would come to the same: a scan does not touch
   the caller, which waits at most where a probe tells it to try again.
   */
  lemma AnswerCommutes<D>(dev: Device<D>, d: D, t: Table, q: seq<PendingRead>, d': D, t': Table, q': seq<PendingRead>,
                          pid: nat, answer: Answer)
    requires Scanned(dev, d, t, q, d', t', q') && pid == t.current
    requires pid in ProcSet(q) ==> Probe(dev, d, pid).1 == AGAIN
    ensures Scanned(dev, d, AfterCall(t, pid, false, answer), q, d', AfterCall(t', pid, false, answer), q')
    ensures pid in ProcSet(q) ==> q' == q
  {
    hide Drain, ProcSet, Distinct, Probe;
    var t1 := AfterCall(t, pid, false, answer);
    if pid in ProcSet(q) {
      DrainStops(dev, d, t, q);
      DrainStops(dev, d, t1, q);
    } else {
      DrainLocal(dev, d, t, t1, q, ProcSet(q));
    }
  }

  lemma PerformedGrows<D>(dev: Device<D>, d: D, q: seq<PendingRead>, i: nat, pid: nat, call: DeviceCall<D>)
    ensures ProcSet(q) <= ProcSet(Performed(dev, d, q, i, pid, call).1)
  {
    if call.ReadAt? {
      ProcSetConcat(q, [PendingRead(pid, call.buffer, call.size)]);
    }
  }

  /** A call queues nobody but a caller that must wait, and that one at the device it reads. */
  lemma PerformedQueue<D>(dev: Device<D>, d: D, q: seq<PendingRead>, i: nat, pid: nat, call: DeviceCall<D>, answer: Answer)
    requires call.ReadAt? && call.device == i ==> answer == Value(dev.read(d, pid, call.buffer, call.size).1)
    ensures var q1 := Performed(dev, d, q, i, pid, call).1;
            && ProcSet(q) <= ProcSet(q1) <= ProcSet(q) + (if MustWait(call, answer) then {pid} else {})
            && (MustWait(call, answer) && call.device == i ==> pid in ProcSet(q1))
  {
    if call.ReadAt? {
      var p := PendingRead(pid, call.buffer, call.size);
      ProcSetOne(p);
      ProcSetConcat(q, [p]);
    }
  }

  /** Nobody is touched but those that waited before the call. */
  lemma OthersAfterCall(t: Table, t': Table, waiting: set<nat>, queued: set<nat>, pid: nat, waits: bool, answer: Answer)
    requires ValidTable(t) && ValidTable(t') && pid < MAX_PROCESS_NUM && KeepsOthers(t, t', queued)
    requires queued <= waiting + (if waits then {pid} else {})
    requires waits ==> answer.Value? && t'.state[pid] == t.state[pid]
    ensures KeepsOthers(AfterCall(t, pid, false, answer), AfterCall(t', pid, false, answer), waiting)
  {
  }

  /** The readers that have left a queue may run and have an answer that is not to try again. */
  ghost predicate Woken(t: Table, q: seq<PendingRead>, q': seq<PendingRead>)
    requires ValidTable(t)
  {
    AllIn(t, ProcSet(q) - ProcSet(q'), Runnable) && Answered(t, ProcSet(q) - ProcSet(q'))
  }

  /** One device after the scan and the caller's answer. */
  lemma DeviceAnswered<D>(dev: Device<D>, d: D, t: Table, q: seq<PendingRead>, d': D, t': Table, q': seq<PendingRead>,
                          pid: nat, answer: Answer)
    requires Scanned(dev, d, t, q, d', t', q') && pid == t.current
    requires pid in ProcSet(q) ==> Probe(dev, d, pid).1 == AGAIN
    ensures Scanned(dev, d, AfterCall(t, pid, false, answer), q, d', AfterCall(t', pid, false, answer), q')
    ensures Woken(AfterCall(t', pid, false, answer), q, q')
    ensures pid in ProcSet(q) ==> t'.state[pid] == Sleeping
  {
    AnswerCommutes(dev, d, t, q, d', t', q', pid, answer);
    hide Scanned, ProcSet, Probe;
    ScannedServes(dev, d, t, q, d', t', q');
    ScannedServes(dev, d, AfterCall(t, pid, false, answer), q, d', AfterCall(t', pid, false, answer), q');
  }

  /**
   One system call: perform, scan all devices, set the return value.  Every device is
   scanned as if alone, every process that waits nowhere is left as the call leaves it, the
   caller waits exactly if its read found nothing, and who is woken is answered.
   */
  method Syscall<D(!new)>(devices: seq<BlockInputDeviceWrapper<D>>, kernel: Kernel, pid: nat, call: DeviceCall<D>)
    requires InOrder(devices, kernel) && AllContracts(devices) && Reachable(call, devices)
    requires pid < MAX_PROCESS_NUM && kernel.table.state[pid] == Runnable
    modifies kernel, devices, set w | w in devices :: w.pending
    ensures InOrder(devices, kernel)
    ensures var answer := old(Returned(devices, pid, call));
            var t := AfterCall(old(kernel.table), pid, MustWait(call, answer), answer);
            && KeepsOthers(t, kernel.table, old(Waiting(devices, kernel)))
            && (forall i | 0 <= i < |devices| ::
                  var (d, q) := Performed(devices[i].dev, old(devices[i].input), old(devices[i].Queue()), i, pid, call);
                  Scanned(devices[i].dev, d, t, q, devices[i].input, kernel.table, devices[i].Queue()))
    ensures var answer := old(Returned(devices, pid, call));
            && kernel.table.current == pid
            && kernel.table.state[pid] == (if MustWait(call, answer) then Sleeping else Runnable)
            && kernel.table.ret[pid] == (if answer.Value? then answer.value else old(kernel.table.ret[pid]))
    ensures forall i | 0 <= i < |devices| :: Woken(kernel.table, old(devices[i].Queue()), devices[i].Queue())
  {
    hide ProcSet, Distinct, Contract, Probe, Scanned, OneQueueEach, Performed, KeepsOthers, AllIn, Answered;
    RunnableWaitsNowhere(devices, kernel, pid);
    ghost var waiting := Waiting(devices, kernel);
    SetCurrent(devices, kernel, pid);
    var answer := Perform(devices, kernel, pid, call);
    ghost var t, queued, waits := kernel.table, Waiting(devices, kernel), MustWait(call, answer);
    forall i | 0 <= i < |devices|
      ensures ProcSet(devices[i].Queue()) <= old(ProcSet(devices[i].Queue())) + (if waits then {pid} else {})
      ensures old(ProcSet(devices[i].Queue())) <= ProcSet(devices[i].Queue())
      ensures waits && call.device == i ==> pid in ProcSet(devices[i].Queue())
    {
      PerformedQueue(devices[i].dev, old(devices[i].input), old(devices[i].Queue()), i, pid, call, answer);
    }
    assert queued <= waiting + (if waits then {pid} else {});
    label Performed:
    ghost var t' := ScanAndAnswer(devices, kernel, pid, answer);
    forall i | 0 <= i < |devices| ensures Woken(kernel.table, old(devices[i].Queue()), devices[i].Queue()) {
      WokenAmong(kernel.table, old(devices[i].Queue()), old@Performed(devices[i].Queue()), devices[i].Queue());
    }
    OthersAfterCall(t, t', waiting, queued, pid, waits, answer);
  }

  /** The end of a system call: scan all devices, set the return value. */
  method ScanAndAnswer<D(!new)>(devices: seq<BlockInputDeviceWrapper<D>>, kernel: Kernel, pid: nat, answer: Answer)
    returns (ghost t': Table)
    requires InOrder(devices, kernel) && RunningSettled(devices, kernel) && AllContracts(devices)
    requires kernel.table.current == pid
    modifies kernel, devices, set w | w in devices :: w.pending
    ensures InOrder(devices, kernel) && ValidTable(t') && kernel.table == AfterCall(t', pid, false, answer)
    ensures KeepsOthers(old(kernel.table), t', old(Waiting(devices, kernel)))
    ensures forall i | 0 <= i < |devices| ::
              && Scanned(devices[i].dev, old(devices[i].input), AfterCall(old(kernel.table), pid, false, answer),
                         old(devices[i].Queue()), devices[i].input, kernel.table, devices[i].Queue())
              && Woken(kernel.table, old(devices[i].Queue()), devices[i].Queue())
              && (pid in old(ProcSet(devices[i].Queue())) ==> t'.state[pid] == Sleeping)
  {
    hide ProcSet, Distinct, Contract, Probe, Scanned, OneQueueEach, KeepsOthers, AllIn, Answered, Waiting;
    CheckAll(devices, kernel);
    t' := kernel.table;
    SetReturn(devices, kernel, pid, answer);
    forall i | 0 <= i < |devices|
      ensures Scanned(devices[i].dev, old(devices[i].input), AfterCall(old(kernel.table), pid, false, answer),
                      old(devices[i].Queue()), devices[i].input, kernel.table, devices[i].Queue())
      ensures Woken(kernel.table, old(devices[i].Queue()), devices[i].Queue())
      ensures pid in old(ProcSet(devices[i].Queue())) ==> t'.state[pid] == Sleeping
    {
      DeviceAnswered(devices[i].dev, old(devices[i].input), old(kernel.table), old(devices[i].Queue()),
                     devices[i].input, t', devices[i].Queue(), pid, answer);
    }
  }

  lemma WokenAmong(t: Table, q0: seq<PendingRead>, q: seq<PendingRead>, q': seq<PendingRead>)
    requires ValidTable(t) && Woken(t, q, q') && ProcSet(q0) <= ProcSet(q)
    ensures Woken(t, q0, q')
  {
  }

  /**
   Any run: after every system call each process is queued at one device at most, once,
   and sleeps while it is queued.
   */
  method Run<D(!new)>(devices: seq<BlockInputDeviceWrapper<D>>, kernel: Kernel, calls: seq<(nat, DeviceCall<D>)>)
    requires InOrder(devices, kernel) && AllContracts(devices)
    requires forall c | c in calls :: c.0 < MAX_PROCESS_NUM && Reachable(c.1, devices)
    modifies kernel, devices, set w | w in devices :: w.pending
    ensures InOrder(devices, kernel)
  {
    hide ProcSet, Distinct, Contract, OneQueueEach;
    for i := 0 to |calls|
      invariant InOrder(devices, kernel)
    {
      if kernel.table.state[calls[i].0] == Runnable {
        assert calls[i] in calls;
        Syscall(devices, kernel, calls[i].0, calls[i].1);
      }
    }
  }

  /** The kernel's semaphores, terminals and process waits as devices of one type. */
  const KERNEL_DEVICE: Device<Either<int, Either<Terminal.Terminal, ProcessWait.WaitState>>> :=
    SumOf(SEMAPHORE, SumOf(Terminal.TERMINAL, ProcessWait.PROCESS_WAIT))

  /** So runs may mix them. */
  lemma KernelMeetsContract()
    ensures Contract(KERNEL_DEVICE)
  {
    SemaphoreMeetsContract();
    Terminal.TerminalMeetsContract();
    ProcessWait.ProcessWaitMeetsContract();
    hide Contract;
    SumMeetsContract(Terminal.TERMINAL, ProcessWait.PROCESS_WAIT);
    SumMeetsContract(SEMAPHORE, SumOf(Terminal.TERMINAL, ProcessWait.PROCESS_WAIT));
  }

  // ----- several semaphores

  /** What has happened at one semaphore. */
  datatype Track = Track(initial: int, arrivals: seq<PendingRead>, completed: seq<PendingRead>, signals: nat)

  /** Units or waiters; waits complete in the order they were made; no unit is lost. */
  ghost predicate Balanced(k: Track, cnt: int, q: seq<PendingRead>)
  {
    && (cnt > 0 ==> q == [])
    && k.arrivals == k.completed + q
    && k.initial + k.signals == cnt + Sized(k.completed)
  }

  /** The call on a semaphore as the device sees it. */
  function AsDeviceCall(k: nat, call: Call, cnt: int): DeviceCall<int>
  {
    match call
    case Wait(buffer, size) => ReadAt(k, buffer, size)
    case Signal => Becomes(k, cnt + 1, Value(0))
    case Exit => Elsewhere(CallerGone)
    case Other => Elsewhere(Value(0))
  }

  /** A scan of a semaphore serves a prefix of the queue, whose last reader takes the last unit if none is left. */
  lemma SemaphoreScanned(cnt: int, t: Table, q: seq<PendingRead>, cnt': int, t': Table, q': seq<PendingRead>)
    requires Scanned(SEMAPHORE, cnt, t, q, cnt', t', q')
    ensures ValidTable(t') && |q'| <= |q| && q' == q[|q| - |q'|..] && (cnt' <= 0 || q' == [])
    ensures var served := q[..|q| - |q'|];
            && cnt' == cnt - Sized(served) && (cnt >= 0 ==> cnt' >= 0) && (cnt <= 0 ==> served == [])
            && (served != [] && cnt' <= 0 ==> served[|served| - 1].size != 0)
    ensures Passed(t', ProcSet(q) - ProcSet(q'))
  {
    hide Drain, ProcSet, Distinct;
    SemDrain(cnt, t, q);
    SemAnswers(cnt, t, q);
    assert q[..|q| - |q'|] == Drain(SEMAPHORE, cnt, t, q).woken;
  }

  /** The history after a call: waits that pass at once and waiters that the scan serves are completed. */
  ghost function Tracked(k: Track, here: seq<PendingRead>, waits: seq<PendingRead>, served: seq<PendingRead>,
                         signalled: nat): Track
  {
    Track(k.initial, k.arrivals + (here + waits), k.completed + here + served, k.signals + signalled)
  }

  lemma BalanceKept(k: Track, cnt: int, q: seq<PendingRead>, here: seq<PendingRead>, waits: seq<PendingRead>,
                    signalled: nat, t: Table, cnt': int, t': Table, q': seq<PendingRead>)
    requires Balanced(k, cnt, q) && (here == [] || (waits == [] && q == []))
    requires Scanned(SEMAPHORE, cnt + signalled - Sized(here), t, q + waits, cnt', t', q')
    ensures |q'| <= |q + waits|
    ensures Balanced(Tracked(k, here, waits, (q + waits)[..|q + waits| - |q'|], signalled), cnt', q')
  {
    var q1 := q + waits;
    hide Scanned, Passed, ProcSet;
    SemaphoreScanned(cnt + signalled - Sized(here), t, q1, cnt', t', q');
    var served := q1[..|q1| - |q'|];
    assert q1 == served + q';
    OrderKept(k.completed, q, here, waits, served, q');
    UnitsKept(k.completed, here, served);
  }

  /** What a system call about semaphore `k` adds to the history of semaphore `i`. */
  ghost predicate TrackStep(track: Track, track': Track, mine: bool, pid: nat, call: Call)
  {
    && track'.initial == track.initial && track.completed <= track'.completed
    && track'.arrivals == track.arrivals + (if mine then Arrival(pid, call) else [])
    && track'.signals == track.signals + (if mine && call.Signal? then 1 else 0)
  }

  /** A system call about semaphore `k`, which had `before` units, takes semaphore `i` from one state to the other. */
  ghost predicate SemaphoreStep(cnt: int, t: Table, q: seq<PendingRead>, cnt': int, t': Table, q': seq<PendingRead>,
                                i: nat, k: nat, pid: nat, call: Call, before: int)
  {
    var (d, q1) := Performed(SEMAPHORE, cnt, q, i, pid, AsDeviceCall(k, call, before));
    Scanned(SEMAPHORE, d, t, q1, cnt', t', q')
  }

  /** A signal serves nobody while units are owed; else the first reader that takes the unit and the lookers ahead of it. */
  ghost predicate SignalServes(cnt: int, q: seq<PendingRead>, cnt': int, q': seq<PendingRead>)
  {
    if cnt < 0 then cnt' == cnt + 1 && q' == q
    else
      && |q'| <= |q|
      && var served := q[..|q| - |q'|];
      && q == served + q'
      && if cnt' == cnt then served != [] && served[|served| - 1].size != 0 && Sized(served) == 1
         else cnt' == cnt + 1 && q' == [] && Sized(q) == 0
  }

  /** What a call on a semaphore does to it: a caller that must wait goes last, and nobody is served. */
  ghost predicate CallServes(cnt: int, q: seq<PendingRead>, cnt': int, q': seq<PendingRead>, pid: nat, call: Call)
  {
    match call
    case Wait(buffer, size) =>
      if cnt <= 0 then cnt' == cnt && q' == q + [PendingRead(pid, buffer, size)]
      else cnt' == (if size != 0 then cnt - 1 else cnt) && q == q' == []
    case Signal => SignalServes(cnt, q, cnt', q')
    case _ => cnt' == cnt && q' == q
  }

  /** One semaphore serves as the call says, and a call about another one does nothing to it. */
  lemma StepServes(cnt: int, t: Table, q: seq<PendingRead>, cnt': int, t': Table, q': seq<PendingRead>,
                   i: nat, k: nat, pid: nat, call: Call, before: int)
    requires (cnt > 0 ==> q == []) && (i == k ==> before == cnt)
    requires SemaphoreStep(cnt, t, q, cnt', t', q', i, k, pid, call, before)
    ensures CallServes(cnt, q, cnt', q', pid, if i == k then call else Other)
    ensures Passed(t', ProcSet(q) - ProcSet(q'))
  {
    hide Scanned, ProcSet, Passed, Sized;
    var (d, q1) := Performed(SEMAPHORE, cnt, q, i, pid, AsDeviceCall(k, call, before));
    SemaphoreScanned(d, t, q1, cnt', t', q');
    var served := q1[..|q1| - |q'|];
    Halves(q1, q');
    PerformedGrows(SEMAPHORE, cnt, q, i, pid, AsDeviceCall(k, call, before));
    PassedAmong(t', q, q1, q');
  }

  /** A queue, what has been served of it, and what is left. */
  lemma Halves(q: seq<PendingRead>, q': seq<PendingRead>)
    requires |q'| <= |q| && q' == q[|q| - |q'|..]
    ensures var served := q[..|q| - |q'|];
            q == served + q' && (served == [] ==> q' == q && Sized(served) == 0) && (q' == [] ==> served == q)
  {
  }

  lemma PassedAmong(t: Table, q0: seq<PendingRead>, q: seq<PendingRead>, q': seq<PendingRead>)
    requires ValidTable(t) && Passed(t, ProcSet(q) - ProcSet(q')) && ProcSet(q0) <= ProcSet(q)
    ensures Passed(t, ProcSet(q0) - ProcSet(q'))
  {
  }

  lemma OneStep(track: Track, cnt: int, t: Table, q: seq<PendingRead>, cnt': int, t': Table, q': seq<PendingRead>,
                i: nat, k: nat, pid: nat, call: Call, before: int) returns (track': Track)
    requires Balanced(track, cnt, q) && (i == k ==> before == cnt)
    requires SemaphoreStep(cnt, t, q, cnt', t', q', i, k, pid, call, before)
    ensures Balanced(track', cnt', q') && TrackStep(track, track', i == k, pid, call)
  {
    hide Scanned, Balanced;
    var here: seq<PendingRead>, waits: seq<PendingRead> := [], [];
    if i == k && call.Wait? {
      var p := PendingRead(pid, call.buffer, call.size);
      SizedOne(p);
      if cnt > 0 {
        here := [p];
      } else {
        waits := [p];
      }
      assert here + waits == Arrival(pid, call);
    }
    var signalled := if i == k && call.Signal? then 1 else 0;
    var none: seq<PendingRead> := [];
    assert q + none == q && none + none == none;
    FreeMeansEmpty(track, cnt, q);
    BalanceKept(track, cnt, q, here, waits, signalled, t, cnt', t', q');
    track' := Tracked(track, here, waits, (q + waits)[..|q + waits| - |q'|], signalled);
  }

  ghost predicate AllBalanced(tracks: seq<Track>, cs: seq<int>, qs: seq<seq<PendingRead>>)
  {
    |tracks| == |cs| == |qs| && forall i | 0 <= i < |tracks| :: Balanced(tracks[i], cs[i], qs[i])
  }

  ghost predicate AllTrackStep(tracks: seq<Track>, tracks': seq<Track>, k: nat, pid: nat, call: Call)
  {
    |tracks'| == |tracks| && forall i | 0 <= i < |tracks| :: TrackStep(tracks[i], tracks'[i], i == k, pid, call)
  }

  lemma AllSteps(tracks: seq<Track>, cs: seq<int>, qs: seq<seq<PendingRead>>, cs': seq<int>, qs': seq<seq<PendingRead>>,
                 before: Table, after: Table, k: nat, pid: nat, call: Call) returns (tracks': seq<Track>)
    requires AllBalanced(tracks, cs, qs) && |cs'| == |qs'| == |cs| && k < |cs|
    requires forall i | 0 <= i < |cs| ::
               SemaphoreStep(cs[i], before, qs[i], cs'[i], after, qs'[i], i, k, pid, call, cs[k])
    ensures AllBalanced(tracks', cs', qs') && AllTrackStep(tracks, tracks', k, pid, call)
  {
    hide Balanced, SemaphoreStep, TrackStep;
    tracks' := [];
    var i := 0;
    while i < |cs|
      invariant 0 <= i == |tracks'| <= |cs|
      invariant forall j | 0 <= j < i :: Balanced(tracks'[j], cs'[j], qs'[j])
      invariant forall j | 0 <= j < i :: TrackStep(tracks[j], tracks'[j], j == k, pid, call)
    {
      var track := OneStep(tracks[i], cs[i], before, qs[i], cs'[i], after, qs'[i], i, k, pid, call, cs[k]);
      tracks' := tracks' + [track];
      i := i + 1;
    }
  }

  lemma SizedOne(p: PendingRead)
    ensures Sized([p]) == if p.size != 0 then 1 else 0
  {
    assert [p][1..] == [];
  }

  lemma FreeMeansEmpty(k: Track, cnt: int, q: seq<PendingRead>)
    requires Balanced(k, cnt, q)
    ensures cnt > 0 ==> q == []
  {
  }

  lemma FreeIfBalanced(tracks: seq<Track>, cs: seq<int>, qs: seq<seq<PendingRead>>, i: nat)
    requires AllBalanced(tracks, cs, qs) && i < |cs|
    ensures cs[i] > 0 ==> qs[i] == []
  {
  }

  /**
   A system call with any number of semaphores keeps every one of them balanced, whichever
   it is about; the others see neither an arrival nor a signal.
   */
  method SemaphoreCall(devices: seq<BlockInputDeviceWrapper<int>>, kernel: Kernel, pid: nat, k: nat, call: Call,
                       ghost tracks: seq<Track>) returns (ghost tracks': seq<Track>)
    requires InOrder(devices, kernel) && k < |devices|
    requires pid < MAX_PROCESS_NUM && kernel.table.state[pid] == Runnable
    requires forall i | 0 <= i < |devices| :: devices[i].dev == SEMAPHORE
    requires AllBalanced(tracks, Inputs(devices), Queues(devices, kernel))
    modifies kernel, devices, set w | w in devices :: w.pending
    ensures InOrder(devices, kernel) && AllTrackStep(tracks, tracks', k, pid, call)
    ensures AllBalanced(tracks', Inputs(devices), Queues(devices, kernel))
    ensures forall i | 0 <= i < |devices| ::
              && CallServes(old(devices[i].input), old(devices[i].Queue()), devices[i].input, devices[i].Queue(),
                            pid, if i == k then call else Other)
              && Passed(kernel.table, old(ProcSet(devices[i].Queue())) - ProcSet(devices[i].Queue()))
    ensures var waits := call.Wait? && old(devices[k].input) <= 0;
            && kernel.table.state[pid] == (if waits then Sleeping else Runnable)
            && kernel.table.ret[pid] == (if call.Exit? then old(kernel.table.ret[pid]) else if waits then AGAIN else 0)
    ensures KeepsOthers(old(kernel.table), kernel.table, old(Waiting(devices, kernel)) + {pid})
  {
    hide ProcSet, Distinct, Contract, Scanned, Performed, OneQueueEach, AllBalanced, Inputs, Queues, CallServes, Waiting;
    SemaphoreMeetsContract();
    ghost var cs, qs := Inputs(devices), Queues(devices, kernel);
    var asked := AsDeviceCall(k, call, devices[k].input);
    ghost var answer := Returned(devices, pid, asked);
    ghost var t := AfterCall(kernel.table, pid, MustWait(asked, answer), answer);
    Syscall(devices, kernel, pid, asked);
    ghost var cs', qs' := Inputs(devices), Queues(devices, kernel);
    forall i | 0 <= i < |cs|
      ensures SemaphoreStep(cs[i], t, qs[i], cs'[i], kernel.table, qs'[i], i, k, pid, call, cs[k])
      ensures CallServes(cs[i], qs[i], cs'[i], qs'[i], pid, if i == k then call else Other)
      ensures Passed(kernel.table, ProcSet(qs[i]) - ProcSet(qs'[i]))
    {
      assert devices[i].dev == SEMAPHORE;
      FreeIfBalanced(tracks, cs, qs, i);
      StepServes(cs[i], t, qs[i], cs'[i], kernel.table, qs'[i], i, k, pid, call, cs[k]);
    }
    tracks' := AllSteps(tracks, cs, qs, cs', qs', t, kernel.table, k, pid, call);
  }

  /** A call of a process on one of the semaphores. */
  datatype SemaphoreUse = SemaphoreUse(pid: nat, k: nat, call: Call)

  /** After every system call of any run each semaphore is balanced: free or waited for, first come first served. */
  method SemaphoreUses(devices: seq<BlockInputDeviceWrapper<int>>, kernel: Kernel, uses: seq<SemaphoreUse>,
                       ghost tracks: seq<Track>) returns (ghost tracks': seq<Track>)
    requires InOrder(devices, kernel)
    requires forall u | u in uses :: u.pid < MAX_PROCESS_NUM && u.k < |devices|
    requires forall i | 0 <= i < |devices| :: devices[i].dev == SEMAPHORE
    requires AllBalanced(tracks, Inputs(devices), Queues(devices, kernel))
    modifies kernel, devices, set w | w in devices :: w.pending
    ensures InOrder(devices, kernel) && AllBalanced(tracks', Inputs(devices), Queues(devices, kernel))
    ensures |tracks'| == |tracks| && forall i | 0 <= i < |tracks| :: tracks'[i].initial == tracks[i].initial
  {
    hide ProcSet, Distinct, OneQueueEach, AllBalanced, Inputs, Queues;
    tracks' := tracks;
    for n := 0 to |uses|
      invariant InOrder(devices, kernel) && AllBalanced(tracks', Inputs(devices), Queues(devices, kernel))
      invariant |tracks'| == |tracks| && forall i | 0 <= i < |tracks| :: tracks'[i].initial == tracks[i].initial
    {
      var u := uses[n];
      assert u in uses;
      if kernel.table.state[u.pid] == Runnable {
        tracks' := SemaphoreCall(devices, kernel, u.pid, u.k, u.call, tracks');
      }
    }
  }

  /** Sound semaphores with these counts, at which nobody waits. */
  ghost predicate AllNew(devices: seq<BlockInputDeviceWrapper<int>>, kernel: Kernel, initials: seq<int>)
    reads devices, kernel, set w | w in devices :: w.pending
  {
    && |devices| <= |initials| && ValidTable(kernel.table)
    && (forall i | 0 <= i < |devices| ::
          && devices[i].dev == SEMAPHORE && devices[i].kernel == kernel && devices[i].input == initials[i]
          && devices[i].Valid() && devices[i].Queue() == [])
    && (forall i, j | 0 <= i < j < |devices| ::
          devices[i] != devices[j] && devices[i].pending != devices[j].pending)
  }

  lemma NoneYet(kernel: Kernel, initials: seq<int>)
    requires ValidTable(kernel.table)
    ensures AllNew([], kernel, initials)
  {
  }

  lemma OneMore(devices: seq<BlockInputDeviceWrapper<int>>, w: BlockInputDeviceWrapper<int>, kernel: Kernel,
                initials: seq<int>)
    requires AllNew(devices, kernel, initials) && |devices| < |initials|
    requires w.dev == SEMAPHORE && w.kernel == kernel && w.input == initials[|devices|] && w.Valid() && w.Queue() == []
    requires forall i | 0 <= i < |devices| :: devices[i] != w && devices[i].pending != w.pending
    ensures AllNew(devices + [w], kernel, initials)
  {
    hide ValidQueue, ValidTable;
  }

  lemma NewOnes(devices: seq<BlockInputDeviceWrapper<int>>, kernel: Kernel, initials: seq<int>, tracks: seq<Track>)
    requires AllNew(devices, kernel, initials) && |devices| == |initials| == |tracks|
    requires forall i | 0 <= i < |tracks| :: tracks[i] == Track(initials[i], [], [], 0)
    ensures InOrder(devices, kernel) && AllBalanced(tracks, Inputs(devices), Queues(devices, kernel))
  {
    assert Registered(devices, kernel);
    assert ProcSet([]) == {};
    hide ProcSet, Distinct;
    var cs, qs := Inputs(devices), Queues(devices, kernel);
    forall i | 0 <= i < |tracks| ensures Balanced(tracks[i], cs[i], qs[i]) {
      assert cs[i] == initials[i] && qs[i] == [];
    }
  }

  /** Semaphores as they are created: nobody waits, nothing has happened. */
  method NewSemaphores(kernel: Kernel, initials: seq<int>)
    returns (devices: seq<BlockInputDeviceWrapper<int>>, ghost tracks: seq<Track>)
    requires ValidTable(kernel.table)
    ensures |devices| == |initials| && forall i | 0 <= i < |devices| ::
              devices[i].dev == SEMAPHORE && fresh(devices[i]) && fresh(devices[i].pending)
    ensures InOrder(devices, kernel) && AllBalanced(tracks, Inputs(devices), Queues(devices, kernel))
    ensures forall i | 0 <= i < |tracks| :: tracks[i] == Track(initials[i], [], [], 0)
  {
    hide AllNew, OneQueueEach, Registered, AllBalanced, Inputs, Queues, InOrder, ValidTable, ValidQueue, ProcSet, Distinct;
    devices := [];
    NoneYet(kernel, initials);
    for i := 0 to |initials|
      invariant |devices| == i && AllNew(devices, kernel, initials)
      invariant forall j | 0 <= j < i ::
                  devices[j].dev == SEMAPHORE && fresh(devices[j]) && fresh(devices[j].pending)
    {
      var w := new BlockInputDeviceWrapper(SEMAPHORE, kernel, initials[i]);
      OneMore(devices, w, kernel, initials);
      devices := devices + [w];
    }
    tracks := seq(|initials|, i requires 0 <= i < |initials| => Track(initials[i], [], [], 0));
    NewOnes(devices, kernel, initials, tracks);
  }

  /** From the creation of any number of semaphores, through any run. */
  method SemaphoresFromStart(kernel: Kernel, initials: seq<int>, uses: seq<SemaphoreUse>)
    returns (devices: seq<BlockInputDeviceWrapper<int>>, ghost tracks: seq<Track>)
    requires ValidTable(kernel.table)
    requires forall u | u in uses :: u.pid < MAX_PROCESS_NUM && u.k < |initials|
    modifies kernel
    ensures InOrder(devices, kernel) && AllBalanced(tracks, Inputs(devices), Queues(devices, kernel))
    ensures |tracks| == |initials| && forall i | 0 <= i < |tracks| :: tracks[i].initial == initials[i]
  {
    hide ProcSet, Distinct, OneQueueEach, AllBalanced, Inputs, Queues;
    devices, tracks := NewSemaphores(kernel, initials);
    BalancedLength(tracks, Inputs(devices), Queues(devices, kernel));
    tracks := SemaphoreUses(devices, kernel, uses, tracks);
  }

  lemma BalancedLength(tracks: seq<Track>, cs: seq<int>, qs: seq<seq<PendingRead>>)
    requires AllBalanced(tracks, cs, qs)
    ensures |tracks| == |cs|
  {
  }
}
