/**
 The two-pass round-robin scheduler, src/resche.cpp.
 */
module Scheduler {
  import opened KernelConstants

  const PROCESS_TICKS: int := 30

  /** A slot of the process list. */
  datatype Slot = Empty | Process(runnable: bool, idle: bool)

  type Processes = ps: seq<Slot> | |ps| == MAX_PROCESS_NUM
    witness seq(32, i => Empty)

  predicate Runnable(s: Slot) { s.Process? && s.runnable }

  predicate Normal(s: Slot) { s.Process? && s.runnable && !s.idle }

  /** How many slots after `c` the slot `p` comes, counting round: 1 for the next, 32 for `c` itself. */
  function Distance(c: nat, p: nat): (d: nat)
    requires c < MAX_PROCESS_NUM && p < MAX_PROCESS_NUM
    ensures 1 <= d <= MAX_PROCESS_NUM && (c + d) % MAX_PROCESS_NUM == p
  {
    if p > c then p - c else p + MAX_PROCESS_NUM - c
  }

  lemma DistanceUnique(c: nat, i: nat)
    requires c < MAX_PROCESS_NUM && 1 <= i <= MAX_PROCESS_NUM
    ensures Distance(c, (c + i) % MAX_PROCESS_NUM) == i
  {
  }

  /** `p` satisfies `want` and no slot before it, counting round from `c`, does. */
  ghost predicate FirstAfter(ps: Processes, c: nat, p: nat, want: Slot -> bool)
    requires c < MAX_PROCESS_NUM
  {
    && p < MAX_PROCESS_NUM && want(ps[p])
    && forall q: nat | q < MAX_PROCESS_NUM && want(ps[q]) :: Distance(c, p) <= Distance(c, q)
  }

  ghost predicate NoneSuch(ps: Processes, want: Slot -> bool)
  {
    forall q: nat | q < MAX_PROCESS_NUM :: !want(ps[q])
  }

  /** What one call decides. */
  ghost predicate Decision(ps: Processes, c: nat, found: bool, next: nat)
    requires c < MAX_PROCESS_NUM
  {
    if !NoneSuch(ps, Normal) then found && FirstAfter(ps, c, next, Normal)
    else if !NoneSuch(ps, Runnable) then found && FirstAfter(ps, c, next, Runnable)
    else !found
  }

  /** The slot visited at the `j`-th turn of a search from `c`. */
  function Nth(c: nat, j: nat): (p: nat)
    ensures p < MAX_PROCESS_NUM
  {
    (c + j) % MAX_PROCESS_NUM
  }

  ghost predicate Missed(ps: Processes, c: nat, n: nat, want: Slot -> bool)
  {
    forall j: nat | 1 <= j < n :: !want(ps[Nth(c, j)])
  }

  lemma SearchedAll(ps: Processes, c: nat, want: Slot -> bool)
    requires c < MAX_PROCESS_NUM && Missed(ps, c, MAX_PROCESS_NUM + 1, want)
    ensures NoneSuch(ps, want)
  {
    forall q: nat | q < MAX_PROCESS_NUM ensures !want(ps[q]) {
      assert Nth(c, Distance(c, q)) == q;
    }
  }

  lemma FoundFirst(ps: Processes, c: nat, i: nat, want: Slot -> bool)
    requires c < MAX_PROCESS_NUM && 1 <= i <= MAX_PROCESS_NUM && want(ps[Nth(c, i)]) && Missed(ps, c, i, want)
    ensures FirstAfter(ps, c, Nth(c, i), want) && !NoneSuch(ps, want)
  {
    DistanceUnique(c, i);
    forall q: nat | q < MAX_PROCESS_NUM && want(ps[q]) ensures i <= Distance(c, q) {
      assert Nth(c, Distance(c, q)) == q;
    }
  }

  /** One pass over the process list, counting round from `c`. */
  method Pass(ps: Processes, c: nat, idleToo: bool) returns (found: bool, p: nat)
    requires c < MAX_PROCESS_NUM
    ensures var want := if idleToo then Runnable else Normal;
            if NoneSuch(ps, want) then !found else found && FirstAfter(ps, c, p, want)
  {
    hide Nth;
    var want := if idleToo then Runnable else Normal;
    p := 0;
    for i := 1 to MAX_PROCESS_NUM + 1
      invariant Missed(ps, c, i, want)
    {
      p := Nth(c, i);
      if want(ps[p]) {
        FoundFirst(ps, c, i, want);
        return true, p;
      }
    }
    SearchedAll(ps, c, want);
    found := false;
  }

  class Cpu {
    var current: nat
    var counter: int

    constructor (pid: nat)
      ensures current == pid && counter == PROCESS_TICKS
    {
      current, counter := pid, PROCESS_TICKS;
    }

    /**
     `resche`: the next runnable process that is not of the idle class, counting round
     from the current one; failing that the next runnable one; failing that none, and
     control goes back to the kernel.
     */
    method Resche(ps: Processes) returns (found: bool)
      requires current < MAX_PROCESS_NUM
      modifies this
      ensures current < MAX_PROCESS_NUM
      ensures Decision(ps, old(current), found, current)
      ensures if found then counter == PROCESS_TICKS else counter == old(counter) && current == old(current)
    {
      var p;
      found, p := Pass(ps, current, false);
      if !found {
        found, p := Pass(ps, current, true);
      }
      if found {
        current, counter := p, PROCESS_TICKS;
      }
    }

    /** `resche_leave_kernel_mode_hook`: on the way out a used-up time slice moves the processor on. */
    method LeaveKernelModeHook(ps: Processes) returns (found: bool)
      requires current < MAX_PROCESS_NUM
      modifies this
      ensures current < MAX_PROCESS_NUM
      ensures if old(counter) != 0 then found && current == old(current) && counter == old(counter)
              else Decision(ps, old(current), found, current) && (found ==> counter == PROCESS_TICKS)
                   && (!found ==> current == old(current) && counter == 0)
    {
      found := true;
      if counter == 0 {
        found := Resche(ps);
      }
    }

    /** `resche_tick`: a tick uses up the slice, and a used-up slice in user mode asks for a yield. */
    method Tick(kernelMode: bool) returns (yielding: bool)
      modifies this`counter
      ensures counter == (if old(counter) > 0 then old(counter) - 1 else old(counter))
      ensures yielding <==> counter == 0 && !kernelMode
    {
      if counter > 0 {
        counter := counter - 1;
      }
      yielding := counter == 0 && !kernelMode;
    }
  }

  // ----- fairness

  /** A run in which only the scheduler moves the current process; the tables may be anything. */
  ghost predicate SchedulerRun(tables: seq<Processes>, currents: seq<nat>)
  {
    && |currents| == |tables| + 1
    && (forall i | 0 <= i < |currents| :: currents[i] < MAX_PROCESS_NUM)
    && (forall i | 0 <= i < |tables| :: Turn(tables[i], currents[i], currents[i + 1]))
  }

  ghost predicate Turn(ps: Processes, c: nat, next: nat)
    requires c < MAX_PROCESS_NUM
  {
    exists found :: Decision(ps, c, found, next) && (!found ==> next == c)
  }

  /** While `p` stays runnable and normal, it is picked or comes strictly closer. */
  lemma CloserOrPicked(ps: Processes, c: nat, next: nat, p: nat)
    requires c < MAX_PROCESS_NUM && p < MAX_PROCESS_NUM && Normal(ps[p]) && Turn(ps, c, next)
    ensures next < MAX_PROCESS_NUM && (next == p || Distance(next, p) < Distance(c, p))
  {
    assert !NoneSuch(ps, Normal);
  }

  /** A normal process that stays runnable is picked within one round, whatever the others do. */
  lemma {:induction false} PickedWithinOneRound(tables: seq<Processes>, currents: seq<nat>, p: nat) returns (k: nat)
    requires SchedulerRun(tables, currents) && p < MAX_PROCESS_NUM
    requires forall i | 0 <= i < |tables| :: Normal(tables[i][p])
    requires |tables| >= Distance(currents[0], p)
    ensures 1 <= k <= Distance(currents[0], p) <= MAX_PROCESS_NUM && k < |currents| && currents[k] == p
    decreases |tables|
  {
    CloserOrPicked(tables[0], currents[0], currents[1], p);
    if currents[1] == p {
      k := 1;
    } else {
      var tables', currents' := tables[1..], currents[1..];
      assert SchedulerRun(tables', currents') by {
        forall i | 0 <= i < |tables'| ensures Turn(tables'[i], currents'[i], currents'[i + 1]) {
          assert Turn(tables[i + 1], currents[i + 1], currents[i + 1 + 1]);
        }
      }
      var m := PickedWithinOneRound(tables', currents', p);
      k := m + 1;
    }
  }

  /** An idle-class process runs only when no normal one can. */
  lemma IdleOnlyWhenNothingElse(ps: Processes, c: nat, next: nat)
    requires c < MAX_PROCESS_NUM && next < MAX_PROCESS_NUM && Decision(ps, c, true, next)
    ensures ps[next].Process? && ps[next].runnable && (ps[next].idle ==> NoneSuch(ps, Normal))
  {
    assert Normal(ps[next]) ==> !ps[next].idle;
  }
}
