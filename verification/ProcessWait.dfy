/**
 Waiting for another process to exit, src/objects/ProcessWait.cpp, as a second
 device behind the blocking queue.  Unlike a semaphore it answers each process
 differently, and `check` probes it as whoever is current.
 */
module ProcessWait {
  import opened Blocking
  import opened KernelConstants

  /** `pid == 0` means that there is nothing to wait for. */
  datatype Request = Request(pid: nat, status: int)

  /** `memory` is where readers asked for the status to be put. */
  datatype WaitState = WaitState(reqs: seq<Request>, lastExit: seq<int>, memory: map<int, int>)

  ghost predicate ValidState(w: WaitState) { |w.reqs| == MAX_PROCESS_NUM && |w.lastExit| == MAX_PROCESS_NUM }

  function WaitRead(w: WaitState, current: nat, buffer: int, size: nat): (WaitState, int)
  {
    if current >= |w.reqs| then (w, INVALID)
    else if w.reqs[current].pid != 0 then (w, AGAIN)
    else if size == 4 then (w.(memory := w.memory[buffer := w.reqs[current].status]), 4)
    else (w, INVALID)
  }

  const PROCESS_WAIT: Device<WaitState> := Device(WaitRead, (w: WaitState, owner: nat) => w)

  lemma ProcessWaitMeetsContract()
    ensures Contract(PROCESS_WAIT)
  {
  }

  /** A write names the process to wait for; one that has already gone answers at once. */
  ghost function Written(w: WaitState, current: nat, target: nat, alive: bool): WaitState
    requires ValidState(w) && current < MAX_PROCESS_NUM && target < MAX_PROCESS_NUM
  {
    w.(reqs := w.reqs[current := if alive then Request(target, 0) else Request(0, w.lastExit[target])])
  }

  ghost function Answer(r: Request, pid: nat, status: int): Request
  {
    if r.pid == pid then Request(0, status) else r
  }

  ghost function Exited(w: WaitState, pid: nat, status: int): WaitState
    requires ValidState(w) && pid < MAX_PROCESS_NUM
  {
    w.(reqs := seq(|w.reqs|, i requires 0 <= i < |w.reqs| => Answer(w.reqs[i], pid, status)),
       lastExit := w.lastExit[pid := status])
  }

  class Waits {
    const reqs: array<Request>
    const lastExit: array<int>
    var memory: map<int, int>

    ghost predicate Valid()
      reads this
    {
      reqs.Length == MAX_PROCESS_NUM && lastExit.Length == MAX_PROCESS_NUM
    }

    ghost function State(): WaitState
      reads this, reqs, lastExit
    {
      WaitState(reqs[..], lastExit[..], memory)
    }

    constructor ()
      ensures Valid() && forall i | 0 <= i < MAX_PROCESS_NUM :: reqs[i] == Request(0, 0)
    {
      reqs := new Request[MAX_PROCESS_NUM](_ => Request(0, 0));
      lastExit := new int[MAX_PROCESS_NUM];
      memory := map[];
    }

    method Write(current: nat, target: nat, alive: bool, size: nat) returns (ret: int)
      requires Valid() && current < MAX_PROCESS_NUM && target < MAX_PROCESS_NUM
      modifies reqs
      ensures if size != 4 then ret == INVALID && State() == old(State())
              else ret == 4 && State() == Written(old(State()), current, target, alive)
    {
      if size != 4 {
        return INVALID;
      }
      if alive {
        reqs[current] := Request(target, 0);
      } else {
        reqs[current] := Request(0, lastExit[target]);
      }
      ret := 4;
    }

    method Read(current: nat, buffer: int, size: nat) returns (ret: int)
      requires Valid() && current < MAX_PROCESS_NUM
      modifies this
      ensures (State(), ret) == WaitRead(old(State()), current, buffer, size)
    {
      if reqs[current].pid != 0 {
        return AGAIN;
      }
      if size == 4 {
        memory := memory[buffer := reqs[current].status];
        return 4;
      }
      ret := INVALID;
    }

    /** `processExit`: everybody waiting for `pid` gets its status. */
    method ProcessExit(pid: nat, status: int)
      requires Valid() && pid < MAX_PROCESS_NUM
      modifies reqs, lastExit
      ensures State() == Exited(old(State()), pid, status)
    {
      lastExit[pid] := status;
      for i := 0 to reqs.Length
        invariant forall j | 0 <= j < i :: reqs[j] == Answer(old(reqs[j]), pid, status)
        invariant forall j | i <= j < reqs.Length :: reqs[j] == old(reqs[j])
        invariant lastExit[..] == old(lastExit[..])[pid := status]
      {
        if reqs[i].pid == pid {
          reqs[i] := Request(0, status);
        }
      }
    }
  }

  // ----- what a waiter learns

  datatype Op = Wrote(writer: nat, target: nat, alive: bool) | Exit(pid: nat, status: int)

  ghost predicate KnownOp(op: Op)
  {
    match op
    case Wrote(c, target, _) => c < MAX_PROCESS_NUM && target < MAX_PROCESS_NUM
    case Exit(pid, _) => pid < MAX_PROCESS_NUM
  }

  ghost function Apply(w: WaitState, op: Op): (w': WaitState)
    requires ValidState(w) && KnownOp(op)
    ensures ValidState(w')
  {
    match op
    case Wrote(c, target, alive) => Written(w, c, target, alive)
    case Exit(pid, status) => Exited(w, pid, status)
  }

  ghost function ApplyAll(w: WaitState, ops: seq<Op>): (w': WaitState)
    requires ValidState(w) && forall op | op in ops :: KnownOp(op)
    ensures ValidState(w')
    decreases |ops|
  {
    if ops == [] then w else ApplyAll(Apply(w, ops[0]), ops[1..])
  }

  lemma ThreeOps(w: WaitState, a: Op, b: Op, c: Op)
    requires ValidState(w) && KnownOp(a) && KnownOp(b) && KnownOp(c)
    ensures forall op | op in [a, b, c] :: KnownOp(op)
    ensures ApplyAll(w, [a, b, c]) == Apply(Apply(Apply(w, a), b), c)
  {
    assert [a, b, c][1..] == [b, c] && [b, c][1..] == [c] && [c][1..] == [];
    var w1, w2 := Apply(w, a), Apply(Apply(w, a), b);
    assert ApplyAll(w, [a, b, c]) == ApplyAll(w1, [b, c]);
    assert ApplyAll(w1, [b, c]) == ApplyAll(w2, [c]);
    assert ApplyAll(w2, [c]) == ApplyAll(Apply(w2, c), []);
  }

  /** While `c` writes nothing, its request only changes when its target exits. */
  lemma {:induction false} RequestKept(w: WaitState, ops: seq<Op>, c: nat)
    requires ValidState(w) && c < MAX_PROCESS_NUM && forall op | op in ops :: KnownOp(op)
    requires forall op | op in ops :: !(op.Wrote? && op.writer == c)
    requires forall op | op in ops :: !(op.Exit? && op.pid == w.reqs[c].pid)
    ensures ApplyAll(w, ops).reqs[c] == w.reqs[c]
    decreases |ops|
  {
    if ops != [] {
      assert ops[0] in ops;
      var w' := Apply(w, ops[0]);
      assert w'.reqs[c] == w.reqs[c];
      assert forall op | op in ops[1..] :: op in ops;
      RequestKept(w', ops[1..], c);
    }
  }

  /**
   What an answered request holds in the end: a status is overwritten whenever process 0
   exits, because its number also marks requests that wait for nobody.
   */
  ghost function Heard(ops: seq<Op>, status: int): int
  {
    if ops == [] then status
    else Heard(ops[1..], if ZeroExits(ops[0]) then ops[0].status else status)
  }

  ghost predicate ZeroExits(op: Op) { op.Exit? && op.pid == 0 }

  /** The last exit of process 0, if there is one, gives this status. */
  ghost predicate LastZeroExitGives(ops: seq<Op>, status: int)
  {
    forall i | 0 <= i < |ops| && ZeroExits(ops[i]) && (forall j | i < j < |ops| :: !ZeroExits(ops[j])) ::
      ops[i].status == status
  }

  lemma HeardLast(ops: seq<Op>, status: int, i: nat)
    requires i < |ops| && ZeroExits(ops[i]) && forall j | i < j < |ops| :: !ZeroExits(ops[j])
    ensures Heard(ops, status) == ops[i].status
    decreases |ops|
  {
    var next := if ZeroExits(ops[0]) then ops[0].status else status;
    assert forall j | i < j < |ops| :: ops[1..][j - 1] == ops[j];
    if i == 0 {
      assert forall op | op in ops[1..] :: !ZeroExits(op);
      HeardUnlessZeroExits(ops[1..], next);
    } else {
      HeardLast(ops[1..], next, i - 1);
    }
  }

  lemma {:induction false} LastZeroExit(ops: seq<Op>) returns (i: int)
    ensures -1 <= i < |ops| && forall j | i < j < |ops| :: !ZeroExits(ops[j])
    ensures i >= 0 ==> ZeroExits(ops[i])
  {
    i := |ops| - 1;
    while i >= 0 && !ZeroExits(ops[i])
      invariant -1 <= i < |ops| && forall j | i < j < |ops| :: !ZeroExits(ops[j])
    {
      i := i - 1;
    }
  }

  /** The status heard is the one answered if and only if the last exit of process 0, if any, gave the same. */
  lemma HeardExactly(ops: seq<Op>, status: int)
    ensures Heard(ops, status) == status <==> LastZeroExitGives(ops, status)
  {
    var i := LastZeroExit(ops);
    if i >= 0 {
      HeardLast(ops, status, i);
    } else {
      assert forall op | op in ops :: !ZeroExits(op);
      HeardUnlessZeroExits(ops, status);
    }
  }

  lemma {:induction false} HeardUnlessZeroExits(ops: seq<Op>, status: int)
    requires forall op | op in ops :: !ZeroExits(op)
    ensures Heard(ops, status) == status
  {
    if ops != [] {
      assert ops[0] in ops && forall op | op in ops[1..] :: op in ops;
      HeardUnlessZeroExits(ops[1..], status);
    }
  }

  lemma {:induction false} AnswerKept(w: WaitState, ops: seq<Op>, c: nat)
    requires ValidState(w) && c < MAX_PROCESS_NUM && forall op | op in ops :: KnownOp(op)
    requires forall op | op in ops :: !(op.Wrote? && op.writer == c)
    requires w.reqs[c].pid == 0
    ensures ApplyAll(w, ops).reqs[c] == Request(0, Heard(ops, w.reqs[c].status))
    decreases |ops|
  {
    if ops != [] {
      assert ops[0] in ops && forall op | op in ops[1..] :: op in ops;
      AnswerKept(Apply(w, ops[0]), ops[1..], c);
    }
  }

  /**
   Process `c` asks for the exit of a live process other than 0.  Whatever happens in
   between, it is blocked until that process exits; when it reads afterwards it gets the
   status of the last exit of process 0 since then, and so the status it asked for if and
   only if that is the one heard last.
   */
  lemma WaiterLearnsStatus(w: WaitState, c: nat, target: nat, before: seq<Op>, status: int, after: seq<Op>, buffer: int)
    requires ValidState(w) && c < MAX_PROCESS_NUM && 0 < target < MAX_PROCESS_NUM
    requires forall op | op in before || op in after :: KnownOp(op) && !(op.Wrote? && op.writer == c)
    requires forall op | op in before :: !(op.Exit? && op.pid == target)
    ensures var w1 := ApplyAll(Written(w, c, target, true), before);
            && WaitRead(w1, c, buffer, 4).1 == AGAIN
            && var w2 := ApplyAll(Exited(w1, target, status), after);
               var (w3, n) := WaitRead(w2, c, buffer, 4);
               && n == 4 && w3 == w2.(memory := w2.memory[buffer := Heard(after, status)])
               && (w3.memory[buffer] == status <==> LastZeroExitGives(after, status))
  {
    var w0 := Written(w, c, target, true);
    RequestKept(w0, before, c);
    var w1 := ApplyAll(w0, before);
    AnswerKept(Exited(w1, target, status), after, c);
    HeardExactly(after, status);
  }

  /** While nobody of that number exits again, its last status is kept. */
  lemma {:induction false} LastExitKept(w: WaitState, ops: seq<Op>, target: nat)
    requires ValidState(w) && target < MAX_PROCESS_NUM && forall op | op in ops :: KnownOp(op)
    requires forall op | op in ops :: !(op.Exit? && op.pid == target)
    ensures ApplyAll(w, ops).lastExit[target] == w.lastExit[target]
    decreases |ops|
  {
    if ops != [] {
      assert ops[0] in ops && forall op | op in ops[1..] :: op in ops;
      LastExitKept(Apply(w, ops[0]), ops[1..], target);
    }
  }

  /**
   A process that asks for one already gone is not blocked: it reads the status of the
   target's last exit, or what process 0 has exited with since it asked.
   */
  lemma GoneTargetAnswers(w: WaitState, target: nat, status: int, between: seq<Op>, c: nat, after: seq<Op>, buffer: int)
    requires ValidState(w) && c < MAX_PROCESS_NUM && target < MAX_PROCESS_NUM
    requires forall op | op in between || op in after :: KnownOp(op)
    requires forall op | op in between :: !(op.Exit? && op.pid == target)
    requires forall op | op in after :: !(op.Wrote? && op.writer == c)
    ensures var asked := Written(ApplyAll(Exited(w, target, status), between), c, target, false);
            var w2 := ApplyAll(asked, after);
            && WaitRead(w2, c, buffer, 4) == (w2.(memory := w2.memory[buffer := Heard(after, status)]), 4)
            && (Heard(after, status) == status <==> LastZeroExitGives(after, status))
  {
    var w0 := Exited(w, target, status);
    LastExitKept(w0, between, target);
    AnswerKept(Written(ApplyAll(w0, between), c, target, false), after, c);
    HeardExactly(after, status);
  }

  /** Waiting for process 0 is not waiting: the read answers at once, with what was heard since the request. */
  lemma NobodyWaitsForZero(w: WaitState, c: nat, before: seq<Op>, buffer: int)
    requires ValidState(w) && c < MAX_PROCESS_NUM
    requires forall op | op in before :: KnownOp(op) && !(op.Wrote? && op.writer == c)
    ensures var w1 := ApplyAll(Written(w, c, 0, true), before);
            WaitRead(w1, c, buffer, 4) == (w1.(memory := w1.memory[buffer := Heard(before, 0)]), 4)
  {
    AnswerKept(Written(w, c, 0, true), before, c);
  }

  /** A status lost: 1 waits for 2, which exits with 7, and process 0 exits with 9 before 1 reads. */
  lemma StatusOverwritten(w: WaitState)
    requires ValidState(w)
    ensures var w2 := ApplyAll(w, [Wrote(1, 2, true), Exit(2, 7), Exit(0, 9)]);
            WaitRead(w2, 1, 0, 4) == (w2.(memory := w2.memory[0 := 9]), 4)
  {
    ThreeOps(w, Wrote(1, 2, true), Exit(2, 7), Exit(0, 9));
  }

  // ----- who wakes up

  /** The processes at the front of the queue that have their answer. */
  ghost function ReadyPrefix(w: WaitState, q: seq<PendingRead>): seq<PendingRead>
    requires ValidState(w) && KnownProcs(q)
  {
    if q == [] then []
    else
      assert q[0].proc in ProcSet(q) && ProcSet(q[1..]) <= ProcSet(q);
      if w.reqs[q[0].proc].pid != 0 then [] else [q[0]] + ReadyPrefix(w, q[1..])
  }

  /**
   A scan wakes the waiters at the front that have their answer, but only if the running
   process has no unanswered request of its own: `check` probes as the running process.
   */
  lemma {:induction false} WakesReadyPrefix(w: WaitState, t: Table, q: seq<PendingRead>)
    requires ValidState(w) && ValidTable(t) && KnownProcs(q)
    ensures Drain(PROCESS_WAIT, w, t, q).woken == if w.reqs[t.current].pid != 0 then [] else ReadyPrefix(w, q)
    decreases |q|
  {
    if q != [] && w.reqs[t.current].pid == 0 {
      DrainStep(PROCESS_WAIT, w, t, q);
      var (w', t', r) := Serve(PROCESS_WAIT, Probe(PROCESS_WAIT, w, t.current).0, t, q[0]);
      if r != AGAIN {
        WakesReadyPrefix(w', t', q[1..]);
        SameRequests(w, w', q[1..]);
      }
    }
  }

  lemma {:induction false} SameRequests(w: WaitState, w': WaitState, q: seq<PendingRead>)
    requires ValidState(w) && ValidState(w') && w.reqs == w'.reqs && KnownProcs(q)
    ensures ReadyPrefix(w, q) == ReadyPrefix(w', q)
  {
    if q != [] {
      assert q[0].proc in ProcSet(q) && ProcSet(q[1..]) <= ProcSet(q);
      SameRequests(w, w', q[1..]);
    }
  }

  /**
   Starting with nobody waiting: 1 asks for the exit of 5, 2 asks for the exit of 1 and
   blocks, 1 exits.  The scan that follows probes as process 1, whose own request is still
   open, and leaves 2 asleep although its answer is there.
   */
  lemma AnsweredButNotWoken(lastExit: seq<int>, t: Table)
    requires |lastExit| == MAX_PROCESS_NUM && ValidTable(t) && t.current == 1 && t.state[2] == Sleeping
    ensures var start := WaitState(seq(MAX_PROCESS_NUM, i => Request(0, 0)), lastExit, map[]);
            var asked := Written(Written(start, 1, 5, true), 2, 1, true);
            var w := ApplyAll(start, [Wrote(1, 5, true), Wrote(2, 1, true), Exit(1, 0)]);
            var q := [PendingRead(2, 0, 4)];
            && w == Exited(asked, 1, 0) && WaitRead(asked, 2, 0, 4).1 == AGAIN && WaitRead(w, 2, 0, 4).1 == 4
            && ValidQueue(q, t) && KnownProcs(q) && ReadyPrefix(w, q) == q
            && Drain(PROCESS_WAIT, w, t, q) == Scan(w, t, [], q)
  {
    var start := WaitState(seq(MAX_PROCESS_NUM, i => Request(0, 0)), lastExit, map[]);
    ThreeOps(start, Wrote(1, 5, true), Wrote(2, 1, true), Exit(1, 0));
    var w := Exited(Written(Written(start, 1, 5, true), 2, 1, true), 1, 0);
    var q := [PendingRead(2, 0, 4)];
    ProcSetOne(q[0]);
    assert q[1..] == [] && ReadyPrefix(w, q) == [q[0]] + ReadyPrefix(w, []) == q;
    DrainStops(PROCESS_WAIT, w, t, q);
  }
}
