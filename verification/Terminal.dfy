/**
 The kernel's terminals: the line discipline behind the blocking queue, as
 src/objects/VGATextIODevice.cpp and src/objects/SerialIODevice.cpp put them together.
 */
module Terminal {
  import opened Blocking
  import opened KernelConstants
  import opened LineDiscipline
  import opened Words

  type Terminal = s: Session | Fits(s.line) witness Session(Line([], [], false, []), [], [])

  function TerminalRead(s: Terminal, current: nat, buffer: int, size: nat): (Terminal, int)
  {
    var o := ReadLine(s.line, s.input, size);
    (Session(o.line, o.input, s.delivered + o.data), o.ret)
  }

  const TERMINAL: Device<Terminal> := Device(TerminalRead, (s: Terminal, owner: nat) => s)

  /** A reader told to try again has left no input and nothing committed, so a probe says the same. */
  lemma TerminalMeetsContract()
    ensures Contract(TERMINAL)
  {
    forall d: Terminal, c, b, n | TERMINAL.read(d, c, b, n).1 == AGAIN
      ensures Probe(TERMINAL, TERMINAL.read(d, c, b, n).0, c).1 == AGAIN
    {
      ReleasedIsNonempty(d.line, d.input);
      TakeInConsumes(d.line, d.input);
    }
  }

  /** A probe is not without effect here: it takes the typed bytes in. */
  lemma ProbeTakesBytesIn()
    ensures exists d: Terminal :: Probe(TERMINAL, d, 0).0 != d
  {
    var d: Terminal := Session(Line([], [], false, []), [97], []);
    assert [97][1..] == [];
    assert TakeIn(d.line, d.input).1 == [];
    assert Probe(TERMINAL, d, 0).0.input == [] != d.input;
  }

  /** Whatever a scan does, what was committed stays committed, and readers get it in order. */
  lemma {:induction false} ScanKeepsLog(d: Terminal, t: Table, q: seq<PendingRead>)
    requires ValidTable(t) && KnownProcs(q)
    ensures Log(d) <= Log(Drain(TERMINAL, d, t, q).dev) && d.delivered <= Drain(TERMINAL, d, t, q).dev.delivered
    decreases |q|
  {
    ReadKeepsLog(d, t.current, 0, 0);
    if q == [] || Probe(TERMINAL, d, t.current).1 == AGAIN {
      DrainStops(TERMINAL, d, t, q);
    } else {
      DrainStep(TERMINAL, d, t, q);
      var d0 := Probe(TERMINAL, d, t.current).0;
      var (d', t', r) := Serve(TERMINAL, d0, t, q[0]);
      ReadKeepsLog(d0, q[0].proc, q[0].buffer, q[0].size);
      hide Drain, TerminalRead;
      if r == AGAIN {
        ReadKeepsLog(d', q[0].proc, 0, 0);
      } else {
        ScanKeepsLog(d', t', q[1..]);
      }
    }
  }

  lemma ReadKeepsLog(d: Terminal, current: nat, buffer: int, size: nat)
    ensures var d' := TERMINAL.read(d, current, buffer, size).0; Log(d) <= Log(d') && d.delivered <= d'.delivered
  {
    LogGrows(d, ReadCall(size));
  }

  /**
   The scan's own probe can cost a reader the end of file: one reader waits, a letter and
   two ends of transmission arrive, the scan wakes it with the letter, and the next read
   waits again where a read without the probe leaves the end of file to be seen.
   */
  lemma ScanLosesEndOfFile(t: Table)
    requires ValidTable(t) && t.state[1] == Sleeping
    ensures var d: Terminal := Session(Line([], [], false, []), [97, END_OF_TRANSMISSION, END_OF_TRANSMISSION], []);
            var q := [PendingRead(1, 0, 10)];
            && ValidQueue(q, t) && KnownProcs(q)
            && (var s := Drain(TERMINAL, d, t, q);
                s.woken == q && s.dev.delivered == [97] && TERMINAL.read(s.dev, 1, 0, 10).1 == AGAIN)
            && (var (d', r) := TERMINAL.read(d, 1, 0, 10);
                d'.delivered == [97] && TERMINAL.read(d', 1, 0, 10).1 == 0)
  {
    var d: Terminal := Session(Line([], [], false, []), [97, END_OF_TRANSMISSION, END_OF_TRANSMISSION], []);
    var p := PendingRead(1, 0, 10);
    ProcSetOne(p);
    ProbeLosesEndOfFile();
    var d0 := Probe(TERMINAL, d, t.current).0;
    DrainStep(TERMINAL, d, t, [p]);
    var (d', t', r) := Serve(TERMINAL, d0, t, p);
    assert [p][1..] == [];
    DrainStops(TERMINAL, d', t', []);
  }
}
