/**
 A whole system call, src/syscall/syscall_handler.cpp: the call, the scan of the waiting
 processes, and the scheduler when the caller cannot go on.
 */
module Dispatch {
  import opened KernelConstants
  import B = Blocking
  import S = Semaphore
  import R = Scheduler

  /** The process list: which slots are taken, and which of them are of the idle class. */
  datatype Classes = Classes(present: seq<bool>, idle: seq<bool>)

  ghost predicate ValidClasses(k: Classes) { |k.present| == MAX_PROCESS_NUM && |k.idle| == MAX_PROCESS_NUM }

  function Slots(t: B.Table, k: Classes): R.Processes
    requires |t.state| == |k.present| == |k.idle| == MAX_PROCESS_NUM
  {
    seq(MAX_PROCESS_NUM, i requires 0 <= i < MAX_PROCESS_NUM =>
      if k.present[i] then R.Process(t.state[i] == B.Runnable, k.idle[i]) else R.Empty)
  }

  function Gone(k: Classes, pid: nat, call: S.Call): Classes
    requires pid < |k.present|
  {
    if call.Exit? then k.(present := k.present[pid := false]) else k
  }

  /** The caller of `call` may go on. */
  predicate GoesOn(t: B.Table, k: Classes, pid: nat)
    requires |t.state| == |k.present| == |k.idle| == MAX_PROCESS_NUM && pid < MAX_PROCESS_NUM
  {
    k.present[pid] && t.state[pid] == B.Runnable
  }

  /**
   Whom the scheduler picks is in the list and may run, and is of the idle class only if
   all that may run are; it picks nobody only if nobody may run.
   */
  lemma ChoiceMeans(t: B.Table, k: Classes, c: nat, found: bool, next: nat)
    requires B.ValidTable(t) && ValidClasses(k) && c < MAX_PROCESS_NUM && R.Decision(Slots(t, k), c, found, next)
    ensures found ==>
              && next < MAX_PROCESS_NUM && GoesOn(t, k, next)
              && (k.idle[next] ==> forall p: nat | p < MAX_PROCESS_NUM && GoesOn(t, k, p) :: k.idle[p])
    ensures found <==> exists p: nat :: p < MAX_PROCESS_NUM && GoesOn(t, k, p)
  {
    var ps := Slots(t, k);
    forall p: nat | p < MAX_PROCESS_NUM
      ensures R.Runnable(ps[p]) <==> GoesOn(t, k, p)
      ensures R.Normal(ps[p]) <==> GoesOn(t, k, p) && !k.idle[p]
    {
    }
  }

  /** A process that exits cannot be picked any more, and nobody else's place changes. */
  lemma ExitLeaves(t: B.Table, k: Classes, pid: nat, call: S.Call)
    requires B.ValidTable(t) && ValidClasses(k) && pid < MAX_PROCESS_NUM
    ensures var k' := Gone(k, pid, call);
            && ValidClasses(k') && (call.Exit? ==> !GoesOn(t, k', pid)) && (!call.Exit? ==> k' == k)
            && forall p: nat | p < MAX_PROCESS_NUM && p != pid :: Slots(t, k')[p] == Slots(t, k)[p]
  {
  }

  /**
   `real_syscall_handler`: what the call does to the semaphore, and who runs then: the
   caller if it is still there, runnable and within its time slice, and otherwise whom the
   scheduler picks; with nobody to pick, control goes back to the kernel.
   */
  method RealSyscallHandler(w: B.BlockInputDeviceWrapper<int>, cpu: R.Cpu, k: Classes, pid: nat, call: S.Call)
    returns (k': Classes, found: bool)
    requires w.Valid() && w.dev == S.SEMAPHORE && pid < MAX_PROCESS_NUM && pid !in B.ProcSet(w.Queue())
    requires w.kernel.table.current == pid == cpu.current && ValidClasses(k)
    modifies w, w.pending, w.kernel, cpu
    ensures w.Valid() && ValidClasses(k') && k' == Gone(k, pid, call)
    ensures var c := S.Syscall(old(S.CoreOf(w)), pid, call).0;
            && w.input == c.cnt && w.Queue() == c.queue && w.kernel.table == c.table.(current := cpu.current)
            && if GoesOn(c.table, k', pid) && old(cpu.counter) != 0 then found && cpu.current == pid
               else
                 && R.Decision(Slots(c.table, k'), pid, found, cpu.current)
                 && (found ==> cpu.counter == R.PROCESS_TICKS) && (!found ==> cpu.current == pid)
                 && (found <==> GoesOn(c.table, k', pid) || cpu.current != pid)
  {
    hide B.ProcSet, B.Distinct, B.Drain, S.Syscall;
    S.HandleSyscall(w, pid, call);
    k' := Gone(k, pid, call);
    ghost var t := w.kernel.table;
    assert GoesOn(t, k', pid) <==> R.Runnable(Slots(t, k')[pid]);
    found := true;
    if !GoesOn(w.kernel.table, k', pid) {
      found := cpu.Resche(Slots(w.kernel.table, k'));
    }
    if found {
      found := cpu.LeaveKernelModeHook(Slots(w.kernel.table, k'));
    }
    w.kernel.table := w.kernel.table.(current := cpu.current);
  }
}
