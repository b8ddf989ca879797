/**
 Thread-safe static initialisation, src/libcxxrt/guard.cc: the two-word guard
 used on i386.  Threads interleave at the granularity of one atomic access to
 `init_word` or `lock_word`, in a sequentially consistent memory.
 */
module Guard {

  type Tid = nat

  const LOCKED: int := 0x8000_0000
  const INITIALISED: int := 1

  /** Where a thread is, named after the atomic access it performs next. */
  datatype Pc =
    | Idle
    | FirstLoad              // acquire: load init_word
    | TryLock                // compare-exchange lock_word 0 -> locked, in the spin loop
    | RecheckInit            // lock taken: load init_word again
    | MarkLock               // store `initialised` in lock_word, then return 0
    | Holding                // acquire has returned 1; the initialiser is running
    | StoreInit(done: bool)  // unlock: store init_word
    | StoreLock(done: bool)  // unlock: store lock_word = 0

  datatype State = State(init: int, lock: int, pc: map<Tid, Pc>)

  const START: State := State(0, 0, map[])

  function At(s: State, t: Tid): Pc { if t in s.pc then s.pc[t] else Idle }

  /** A thread enters the guard, finishes or abandons the initialiser, or takes one atomic step. */
  datatype Action = Acquire(t: Tid) | Release(t: Tid) | Abort(t: Tid) | Advance(t: Tid)

  /** What a caller can see. */
  datatype Event = Returned1(t: Tid) | Returned0(t: Tid) | CalledRelease(t: Tid) | CalledAbort(t: Tid) | Silent

  /** Callers acquire when outside, and release or abort only what they hold. */
  ghost predicate Enabled(s: State, a: Action)
  {
    match a
    case Acquire(t) => At(s, t) == Idle
    case Release(t) => At(s, t) == Holding
    case Abort(t) => At(s, t) == Holding
    case Advance(t) => At(s, t) != Idle && At(s, t) != Holding
  }

  function Goto(s: State, t: Tid, p: Pc): State { s.(pc := s.pc[t := p]) }

  function Exec(s: State, a: Action): (State, Event)
  {
    match a
    case Acquire(t) => (Goto(s, t, FirstLoad), Silent)
    case Release(t) => (Goto(s, t, StoreInit(true)), CalledRelease(t))
    case Abort(t) => (Goto(s, t, StoreInit(false)), CalledAbort(t))
    case Advance(t) =>
      match At(s, t)
      case FirstLoad =>
        if s.init == INITIALISED then (Goto(s, t, Idle), Returned0(t)) else (Goto(s, t, TryLock), Silent)
      case TryLock =>
        if s.lock == 0 then (Goto(s.(lock := LOCKED), t, RecheckInit), Silent) else (s, Silent)
      case RecheckInit =>
        if s.init == INITIALISED then (Goto(s, t, MarkLock), Silent) else (Goto(s, t, Holding), Returned1(t))
      case MarkLock => (Goto(s.(lock := INITIALISED), t, Idle), Returned0(t))
      case StoreInit(done) => (Goto(s.(init := if done then INITIALISED else 0), t, StoreLock(done)), Silent)
      case StoreLock(done) => (Goto(s.(lock := 0), t, Idle), Silent)
      case _ => (s, Silent)
  }

  ghost predicate LegalRun(s: State, run: seq<Action>)
    decreases |run|
  {
    run == [] || (Enabled(s, run[0]) && LegalRun(Exec(s, run[0]).0, run[1..]))
  }

  function Final(s: State, run: seq<Action>): State
    decreases |run|
  {
    if run == [] then s else Final(Exec(s, run[0]).0, run[1..])
  }

  function Log(s: State, run: seq<Action>): seq<Event>
    decreases |run|
  {
    if run == [] then [] else [Exec(s, run[0]).1] + Log(Exec(s, run[0]).0, run[1..])
  }

  // ----- the one-time initialisation contract

  datatype Phase = NotStarted | Running(owner: Tid) | Completed

  /** The moves the contract allows. */
  ghost predicate Allowed(p: Phase, e: Event)
  {
    match e
    case Returned1(t) => p == NotStarted
    case Returned0(t) => p == Completed
    case CalledRelease(t) => p == Running(t)
    case CalledAbort(t) => p == Running(t)
    case Silent => true
  }

  ghost function After(p: Phase, e: Event): Phase
  {
    match e
    case Returned1(t) => Running(t)
    case Returned0(t) => p
    case CalledRelease(t) => Completed
    case CalledAbort(t) => NotStarted
    case Silent => p
  }

  ghost predicate Accepts(p: Phase, log: seq<Event>)
    decreases |log|
  {
    log == [] || (Allowed(p, log[0]) && Accepts(After(p, log[0]), log[1..]))
  }

  ghost function PhaseAfter(p: Phase, log: seq<Event>): Phase
    decreases |log|
  {
    if log == [] then p else PhaseAfter(After(p, log[0]), log[1..])
  }

  // ----- the invariant

  predicate InLock(p: Pc)
  {
    p.RecheckInit? || p.MarkLock? || p.Holding? || p.StoreInit? || p.StoreLock?
  }

  /** What a thread inside the lock knows. */
  ghost predicate OwnerKnows(p: Pc, init: int, phase: Phase, t: Tid)
  {
    match p
    case RecheckInit => if init == INITIALISED then phase == Completed else phase == NotStarted
    case MarkLock => phase == Completed && init == INITIALISED
    case Holding => phase == Running(t) && init == 0
    case StoreInit(done) => init == 0 && phase == (if done then Completed else NotStarted)
    case StoreLock(done) => if done then phase == Completed && init == INITIALISED else phase == NotStarted && init == 0
    case _ => true
  }

  ghost predicate Inv(s: State, phase: Phase)
  {
    && (s.init == 0 || s.init == INITIALISED)
    && (s.init == INITIALISED ==> phase == Completed)
    && (forall t, u :: InLock(At(s, t)) && InLock(At(s, u)) ==> t == u)
    && (forall t :: InLock(At(s, t)) ==> s.lock == LOCKED && OwnerKnows(At(s, t), s.init, phase, t))
    && (s.lock == LOCKED ==> exists t :: InLock(At(s, t)))
    && (s.lock != LOCKED ==> s.lock == 0 || (s.lock == INITIALISED && s.init == INITIALISED))
    && (s.lock == 0 ==> if s.init == INITIALISED then phase == Completed else phase == NotStarted)
  }

  lemma StepKeepsInv(s: State, phase: Phase, a: Action)
    requires Inv(s, phase) && Enabled(s, a)
    ensures var (s', e) := Exec(s, a); Allowed(phase, e) && Inv(s', After(phase, e))
  {
    var (s', e) := Exec(s, a);
    var t := a.t;
    assert forall u | u != t :: At(s', u) == At(s, u);
    assert InLock(At(s, t)) ==> OwnerKnows(At(s, t), s.init, phase, t);
    if InLock(At(s', t)) {
      assert s'.lock == LOCKED;
    }
    if s.lock == LOCKED {
      var o :| InLock(At(s, o));
      assert o != t ==> InLock(At(s', o));
    }
  }

  /** Every interleaving of every number of threads produces a log the contract accepts. */
  lemma {:induction false} RunsRefineContract(s: State, phase: Phase, run: seq<Action>)
    requires Inv(s, phase) && LegalRun(s, run)
    ensures Accepts(phase, Log(s, run))
    ensures Inv(Final(s, run), PhaseAfter(phase, Log(s, run)))
    decreases |run|
  {
    if run != [] {
      var (s', e) := Exec(s, run[0]);
      StepKeepsInv(s, phase, run[0]);
      RunsRefineContract(s', After(phase, e), run[1..]);
      assert Log(s, run)[1..] == Log(s', run[1..]);
    }
  }

  // ----- what acceptance means for the log

  lemma {:induction false} CompletedForever(log: seq<Event>, j: nat)
    requires Accepts(Completed, log) && j < |log|
    ensures !log[j].Returned1? && !log[j].CalledRelease? && !log[j].CalledAbort?
    decreases |log|
  {
    if j > 0 {
      CompletedForever(log[1..], j - 1);
    }
  }

  lemma {:induction false} NeverAgain(p: Phase, log: seq<Event>, i: nat, j: nat)
    requires Accepts(p, log) && i < j < |log| && log[i].CalledRelease?
    ensures !log[j].Returned1?
    decreases |log|
  {
    if i == 0 {
      CompletedForever(log[1..], j - 1);
    } else {
      NeverAgain(After(p, log[0]), log[1..], i - 1, j - 1);
    }
  }

  lemma {:induction false} SkipNeedsRelease(p: Phase, log: seq<Event>, i: nat) returns (j: nat)
    requires Accepts(p, log) && p != Completed && i < |log| && log[i].Returned0?
    ensures j < i && log[j].CalledRelease?
    decreases |log|
  {
    if log[0].CalledRelease? {
      j := 0;
    } else {
      var k := SkipNeedsRelease(After(p, log[0]), log[1..], i - 1);
      j := k + 1;
    }
  }

  /** While `t` runs the initialiser, the next acquire to return 1 comes after `t` has aborted. */
  lemma {:induction false} RunningUntil(t: Tid, log: seq<Event>, j: nat) returns (k: nat)
    requires Accepts(Running(t), log) && j < |log| && log[j].Returned1?
    ensures k < j && log[k] == CalledAbort(t)
    decreases |log|
  {
    if log[0] == CalledAbort(t) {
      k := 0;
    } else if log[0].CalledRelease? {
      CompletedForever(log[1..], j - 1);
    } else {
      var m := RunningUntil(t, log[1..], j - 1);
      k := m + 1;
    }
  }

  lemma {:induction false} OneAtATime(p: Phase, log: seq<Event>, i: nat, j: nat) returns (k: nat)
    requires Accepts(p, log) && i < j < |log| && log[i].Returned1? && log[j].Returned1?
    ensures i < k < j && log[k] == CalledAbort(log[i].t)
    decreases |log|
  {
    if i == 0 {
      var m := RunningUntil(log[0].t, log[1..], j - 1);
      k := m + 1;
    } else {
      var m := OneAtATime(After(p, log[0]), log[1..], i - 1, j - 1);
      k := m + 1;
    }
  }

  /**
   Safety of the guard, over every run from the zeroed guard: no acquire returns 1
   after a release; an acquire returns 0 only after a release; two acquires return
   1 only with an abort by the first in between; and at no time do two threads hold it.
   */
  lemma GuardSafety(run: seq<Action>)
    requires LegalRun(START, run)
    ensures var log := Log(START, run);
            && (forall i, j | 0 <= i < j < |log| && log[i].CalledRelease? :: !log[j].Returned1?)
            && (forall i | 0 <= i < |log| && log[i].Returned0? :: exists j :: 0 <= j < i && log[j].CalledRelease?)
            && (forall i, j | 0 <= i < j < |log| && log[i].Returned1? && log[j].Returned1? ::
                  exists k :: i < k < j && log[k] == CalledAbort(log[i].t))
    ensures forall t, u :: At(Final(START, run), t) == Holding && At(Final(START, run), u) == Holding ==> t == u
  {
    assert Inv(START, NotStarted);
    RunsRefineContract(START, NotStarted, run);
    var log := Log(START, run);
    forall i, j | 0 <= i < j < |log| && log[i].CalledRelease? ensures !log[j].Returned1? {
      NeverAgain(NotStarted, log, i, j);
    }
    forall i | 0 <= i < |log| && log[i].Returned0? ensures exists j :: 0 <= j < i && log[j].CalledRelease? {
      var j := SkipNeedsRelease(NotStarted, log, i);
    }
    forall i, j | 0 <= i < j < |log| && log[i].Returned1? && log[j].Returned1?
      ensures exists k :: i < k < j && log[k] == CalledAbort(log[i].t)
    {
      var k := OneAtATime(NotStarted, log, i, j);
    }
    var s := Final(START, run);
    assert forall t | At(s, t) == Holding :: InLock(At(s, t));
  }

  // ----- acquires that come back

  /** An acquire of an initialised guard returns 0 after one load, whoever else is inside, and changes nothing. */
  lemma InitialisedReturns(s: State, t: Tid)
    requires s.init == INITIALISED && At(s, t) == Idle
    ensures var run := [Acquire(t), Advance(t)]; var s' := Final(s, run);
            && LegalRun(s, run) && Log(s, run) == [Silent, Returned0(t)]
            && s'.init == s.init && s'.lock == s.lock && At(s', t) == Idle && forall u | u != t :: At(s', u) == At(s, u)
  {
    var s1 := Exec(s, Acquire(t)).0;
    TwoSteps(s, Acquire(t), Advance(t));
    assert At(s1, t) == FirstLoad;
  }

  lemma TwoSteps(s: State, a: Action, b: Action)
    ensures var s1 := Exec(s, a).0;
            && (LegalRun(s, [a, b]) <==> Enabled(s, a) && Enabled(s1, b))
            && Final(s, [a, b]) == Exec(s1, b).0 && Log(s, [a, b]) == [Exec(s, a).1, Exec(s1, b).1]
  {
    var s1 := Exec(s, a).0;
    assert [a, b][1..] == [b] && [b][1..] == [];
    assert Log(Exec(s1, b).0, []) == [];
    assert Log(s1, [b]) == [Exec(s1, b).1] + [];
    assert Final(s1, [b]) == Exec(s1, b).0;
    assert LegalRun(s1, [b]) <==> Enabled(s1, b);
  }

  /** What a guard is like that only `t` has used. */
  ghost predicate Lone(s: State, t: Tid, released: bool)
  {
    && (forall u | u != t :: At(s, u) == Idle)
    && match At(s, t)
       case Idle => s.lock == 0 && s.init == (if released then INITIALISED else 0)
       case FirstLoad => s.lock == 0 && s.init == (if released then INITIALISED else 0)
       case TryLock => s.lock == 0 && s.init == 0 && !released
       case RecheckInit => s.lock == LOCKED && s.init == 0 && !released
       case Holding => s.lock == LOCKED && s.init == 0 && !released
       case StoreInit(done) => s.lock == LOCKED && s.init == 0 && released == done
       case StoreLock(done) => s.lock == LOCKED && released == done && s.init == (if done then INITIALISED else 0)
       case MarkLock => false
  }

  ghost predicate OnlyBy(run: seq<Action>, t: Tid) { forall a | a in run :: a.t == t }

  ghost predicate HasRelease(log: seq<Event>) { exists e :: e in log && e.CalledRelease? }

  lemma LoneStep(s: State, t: Tid, released: bool, a: Action)
    requires Lone(s, t, released) && Enabled(s, a) && a.t == t
    ensures Lone(Exec(s, a).0, t, released || Exec(s, a).1.CalledRelease?)
  {
    assert forall u | u != t :: At(Exec(s, a).0, u) == At(s, u);
  }

  lemma {:induction false} LoneRun(s: State, t: Tid, released: bool, run: seq<Action>)
    requires Lone(s, t, released) && LegalRun(s, run) && OnlyBy(run, t)
    ensures Lone(Final(s, run), t, released || HasRelease(Log(s, run)))
    decreases |run|
  {
    if run != [] {
      var (s', e) := Exec(s, run[0]);
      assert run[0] in run && forall a | a in run[1..] :: a in run;
      LoneStep(s, t, released, run[0]);
      LoneRun(s', t, released || e.CalledRelease?, run[1..]);
      hide Exec, Lone;
      assert Log(s, run) == [e] + Log(s', run[1..]);
      assert HasRelease(Log(s, run)) <==> e.CalledRelease? || HasRelease(Log(s', run[1..])) by {
        assert forall x :: x in [e] + Log(s', run[1..]) <==> x == e || x in Log(s', run[1..]);
      }
    }
  }

  /** With nobody inside and the object not initialised, an acquire gets the guard in four steps. */
  lemma FreeGuardAcquired(s: State, t: Tid)
    requires s.init == 0 && s.lock == 0 && At(s, t) == Idle
    ensures var run := [Acquire(t), Advance(t)] + [Advance(t), Advance(t)];
            && LegalRun(s, run) && Log(s, run) == [Silent, Silent] + [Silent, Returned1(t)]
            && At(Final(s, run), t) == Holding
  {
    var first, second := [Acquire(t), Advance(t)], [Advance(t), Advance(t)];
    TwoSteps(s, Acquire(t), Advance(t));
    var s1 := Exec(s, Acquire(t)).0;
    var s2 := Exec(s1, Advance(t)).0;
    assert At(s1, t) == FirstLoad && At(s2, t) == TryLock && s2.init == 0 && s2.lock == 0;
    TwoSteps(s2, Advance(t), Advance(t));
    var s3 := Exec(s2, Advance(t)).0;
    assert At(s3, t) == RecheckInit && s3.init == 0;
    RunTogether(s, first, second);
  }

  lemma {:induction false} RunTogether(s: State, a: seq<Action>, b: seq<Action>)
    ensures LegalRun(s, a + b) <==> LegalRun(s, a) && LegalRun(Final(s, a), b)
    ensures Final(s, a + b) == Final(Final(s, a), b) && Log(s, a + b) == Log(s, a) + Log(Final(s, a), b)
    decreases |a|
  {
    if a == [] {
      assert a + b == b;
    } else {
      assert (a + b)[0] == a[0] && (a + b)[1..] == a[1..] + b;
      RunTogether(Exec(s, a[0]).0, a[1..], b);
    }
  }

  /**
   A thread that is alone with the guard, after whatever it has done: the guard is not
   jammed, and when it is outside its next acquire comes back, with 0 at once if it has
   ever released, and with 1 if it has not.
   */
  lemma LoneAcquire(run: seq<Action>, t: Tid)
    requires LegalRun(START, run) && OnlyBy(run, t)
    ensures var s, log := Final(START, run), Log(START, run);
            && !Jammed(s)
            && (At(s, t) == Idle && HasRelease(log) ==>
                  LegalRun(s, [Acquire(t), Advance(t)]) && Log(s, [Acquire(t), Advance(t)]) == [Silent, Returned0(t)])
            && (At(s, t) == Idle && !HasRelease(log) ==>
                  var more := [Acquire(t), Advance(t)] + [Advance(t), Advance(t)];
                  LegalRun(s, more) && Log(s, more) == [Silent, Silent] + [Silent, Returned1(t)])
  {
    LoneRun(START, t, false, run);
    var s := Final(START, run);
    assert forall u | u != t :: At(s, u) == Idle;
    if At(s, t) == Idle {
      if HasRelease(Log(START, run)) {
        InitialisedReturns(s, t);
      } else {
        FreeGuardAcquired(s, t);
      }
    }
  }

  // ----- spinning threads

  /** The lock word holds `initialised`, or the thread in the lock is about to put it there. */
  ghost predicate Jammed(s: State)
  {
    || s.lock == INITIALISED
    || exists u :: At(s, u) == MarkLock || (At(s, u) == RecheckInit && s.init == INITIALISED)
  }

  lemma JammedStays(s: State, phase: Phase, a: Action, t: Tid)
    requires Inv(s, phase) && Enabled(s, a) && Jammed(s) && At(s, t) == TryLock
    ensures Jammed(Exec(s, a).0) && At(Exec(s, a).0, t) == TryLock
  {
    var s' := Exec(s, a).0;
    assert forall u | u != a.t :: At(s', u) == At(s, u);
    if s.lock == INITIALISED {
      assert !InLock(At(s, a.t));
    } else {
      var u :| At(s, u) == MarkLock || (At(s, u) == RecheckInit && s.init == INITIALISED);
      assert InLock(At(s, u)) && s.lock == LOCKED;
      if a.t == u {
        assert s'.lock == INITIALISED || At(s', u) == MarkLock;
      } else {
        assert !InLock(At(s, a.t));
        assert s'.init == s.init && At(s', u) == At(s, u);
      }
    }
  }

  /** A thread spinning on a jammed guard never gets out, whatever the others do. */
  lemma {:induction false} JammedForever(s: State, phase: Phase, run: seq<Action>, t: Tid)
    requires Inv(s, phase) && LegalRun(s, run) && Jammed(s) && At(s, t) == TryLock
    ensures At(Final(s, run), t) == TryLock
    decreases |run|
  {
    if run != [] {
      StepKeepsInv(s, phase, run[0]);
      JammedStays(s, phase, run[0], t);
      JammedForever(Exec(s, run[0]).0, After(phase, Exec(s, run[0]).1), run[1..], t);
    }
  }

  lemma StepThen(s: State, a: Action, rest: seq<Action>)
    ensures LegalRun(s, [a] + rest) <==> Enabled(s, a) && LegalRun(Exec(s, a).0, rest)
    ensures Final(s, [a] + rest) == Final(Exec(s, a).0, rest)
  {
    assert ([a] + rest)[1..] == rest;
  }

  /** From a free lock the spinner gets through in at most three steps. */
  lemma FreeLockEscapes(s: State, t: Tid) returns (run: seq<Action>)
    requires At(s, t) == TryLock && s.lock == 0
    ensures LegalRun(s, run) && (At(Final(s, run), t) == Holding || At(Final(s, run), t) == Idle)
  {
    var s1 := Exec(s, Advance(t)).0;
    var s2 := Exec(s1, Advance(t)).0;
    run := [Advance(t)];
    if s1.init == INITIALISED {
      StepThen(s2, Advance(t), []);
      StepThen(s1, Advance(t), run);
      run := [Advance(t)] + run;
    } else {
      StepThen(s1, Advance(t), []);
    }
    StepThen(s, Advance(t), run);
    run := [Advance(t)] + run;
  }

  /** From a lock in use the owner can let go, and then the spinner gets through. */
  lemma UsedLockEscapes(s: State, phase: Phase, t: Tid, u: Tid) returns (run: seq<Action>)
    requires Inv(s, phase) && At(s, t) == TryLock && !Jammed(s) && InLock(At(s, u))
    ensures LegalRun(s, run) && (At(Final(s, run), t) == Holding || At(Final(s, run), t) == Idle)
    decreases match At(s, u) case RecheckInit => 3 case Holding => 2 case StoreInit(_) => 1 case _ => 0
  {
    var a := if At(s, u) == Holding then Abort(u) else Advance(u);
    var s' := Exec(s, a).0;
    StepKeepsInv(s, phase, a);
    assert forall v | v != u :: At(s', v) == At(s, v);
    assert OwnerKnows(At(s, u), s.init, phase, u);
    var rest;
    if At(s, u).StoreLock? {
      rest := FreeLockEscapes(s', t);
    } else {
      assert !Jammed(s') by {
        forall v | v != u ensures !InLock(At(s', v)) {
          assert InLock(At(s', u));
        }
      }
      rest := UsedLockEscapes(s', After(phase, Exec(s, a).1), t, u);
    }
    StepThen(s, a, rest);
    run := [a] + rest;
  }

  /** A spinning thread can still leave the loop exactly when the guard is not jammed. */
  lemma SpinnerCanLeave(s: State, phase: Phase, t: Tid)
    requires Inv(s, phase) && At(s, t) == TryLock
    ensures !Jammed(s) <==> exists run :: LegalRun(s, run) && At(Final(s, run), t) != TryLock
  {
    if Jammed(s) {
      forall run | LegalRun(s, run) ensures At(Final(s, run), t) == TryLock {
        JammedForever(s, phase, run, t);
      }
    } else if s.lock == 0 {
      var run := FreeLockEscapes(s, t);
    } else {
      assert s.lock == LOCKED;
      var u :| InLock(At(s, u));
      var run := UsedLockEscapes(s, phase, t, u);
    }
  }

  /** Once three threads spin on a fresh guard, the second can jam it for the third. */
  lemma JamFrom(s: State, a: Tid, b: Tid, c: Tid) returns (run: seq<Action>)
    requires s.init == 0 && s.lock == 0 && a != b && b != c && a != c
    requires At(s, a) == TryLock && At(s, b) == TryLock && At(s, c) == TryLock
    ensures LegalRun(s, run) && Jammed(Final(s, run)) && At(Final(s, run), c) == TryLock
  {
    var s1 := Exec(s, Advance(a)).0;
    var s2 := Exec(s1, Advance(a)).0;
    var s3 := Exec(s2, Release(a)).0;
    var s4 := Exec(s3, Advance(a)).0;
    var s5 := Exec(s4, Advance(a)).0;
    var s6 := Exec(s5, Advance(b)).0;
    assert s5.init == INITIALISED && s5.lock == 0 && At(s5, b) == TryLock;
    assert At(s6, b) == RecheckInit && s6.init == INITIALISED && At(s6, c) == TryLock;
    assert Enabled(s, Advance(a)) && Enabled(s1, Advance(a)) && Enabled(s2, Release(a));
    assert Enabled(s3, Advance(a)) && Enabled(s4, Advance(a)) && Enabled(s5, Advance(b));
    assert LegalRun(s6, []) && Final(s6, []) == s6;
    hide Exec, LegalRun, Final, Enabled;
    run := [];
    StepThen(s5, Advance(b), run);
    run := [Advance(b)] + run;
    StepThen(s4, Advance(a), run);
    run := [Advance(a)] + run;
    StepThen(s3, Advance(a), run);
    run := [Advance(a)] + run;
    StepThen(s2, Release(a), run);
    run := [Release(a)] + run;
    StepThen(s1, Advance(a), run);
    run := [Advance(a)] + run;
    StepThen(s, Advance(a), run);
    run := [Advance(a)] + run;
  }

  /** A thread outside an uninitialised guard can come to spin on it, and nothing else changes. */
  lemma Enter(s: State, t: Tid, rest: seq<Action>)
    requires s.init == 0 && At(s, t) == Idle
    ensures LegalRun(s, [Acquire(t)] + ([Advance(t)] + rest)) <==> LegalRun(Goto(s, t, TryLock), rest)
    ensures Final(s, [Acquire(t)] + ([Advance(t)] + rest)) == Final(Goto(s, t, TryLock), rest)
  {
    var s1 := Exec(s, Acquire(t)).0;
    assert Exec(s1, Advance(t)).0.pc == Goto(s, t, TryLock).pc;
    assert Exec(s1, Advance(t)).0 == Goto(s, t, TryLock);
    assert Enabled(s, Acquire(t)) && Enabled(s1, Advance(t));
    hide LegalRun, Final, Enabled, Exec;
    StepThen(s, Acquire(t), [Advance(t)] + rest);
    StepThen(s1, Advance(t), rest);
  }

  /** Three threads that enter together are enough to leave one of them spinning for ever. */
  lemma SpinnerTrapped()
    ensures exists run :: LegalRun(START, run) && Jammed(Final(START, run)) && At(Final(START, run), 2) == TryLock
  {
    var s1 := Goto(START, 0, TryLock);
    var s2 := Goto(s1, 1, TryLock);
    var s3 := Goto(s2, 2, TryLock);
    var r3 := JamFrom(s3, 0, 1, 2);
    var r2 := [Acquire(2)] + ([Advance(2)] + r3);
    var r1 := [Acquire(1)] + ([Advance(1)] + r2);
    var r0 := [Acquire(0)] + ([Advance(0)] + r1);
    Enter(START, 0, r1);
    Enter(s1, 1, r2);
    Enter(s2, 2, r3);
    hide *;
    assert LegalRun(START, r0) && Final(START, r0) == Final(s3, r3);
  }
}
