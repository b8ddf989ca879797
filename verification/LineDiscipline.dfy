/**
 The line discipline of inc/objects/LineBufferedIOMixin.hpp: a ring for the line
 being typed and a ring for committed bytes, over a base device that delivers
 single bytes.
 */
module LineDiscipline {
  import opened KernelConstants
  import opened Words

  const BUFFER_SIZE: nat := 256
  const CAPACITY: nat := 255

  const END_OF_TRANSMISSION: nat := 4
  const BACKSPACE: nat := 8
  const NEWLINE: nat := 10

  datatype Echo = Shown(ch: Byte) | Erased

  // ----- the plain model: sequences of at most 255 bytes

  /** `eof` is the pending end-of-file flag; `echo` is what the terminal has been told. */
  datatype Line = Line(line: seq<Byte>, committed: seq<Byte>, eof: bool, echo: seq<Echo>)

  /** The line moves over as far as there is room; the rest of it is dropped. */
  function Commit(l: Line): Line
    requires |l.committed| <= CAPACITY
  {
    l.(committed := l.committed + l.line[..Min(|l.line|, CAPACITY - |l.committed|)], line := [])
  }

  /** One byte other than end of transmission. */
  function Feed(l: Line, ch: Byte): (l': Line)
    requires |l.committed| <= CAPACITY && |l.line| <= CAPACITY
    ensures |l'.committed| <= CAPACITY && |l'.line| <= CAPACITY && l.committed <= l'.committed
  {
    if ch >= 128 then l
    else if ch == BACKSPACE then
      if l.line == [] then l else l.(line := l.line[..|l.line| - 1], echo := l.echo + [Erased])
    else if |l.line| == CAPACITY then l
    else
      var typed := l.(line := l.line + [ch]);
      var l' := if ch == NEWLINE then Commit(typed) else typed;
      l'.(echo := l'.echo + [Shown(ch)])
  }

  datatype Intake = Drained | Ended | Released

  /** Bytes are taken in until there are none, or an end of transmission is met. */
  function TakeIn(l: Line, input: seq<Byte>): (r: (Line, seq<Byte>, Intake))
    requires |l.committed| <= CAPACITY && |l.line| <= CAPACITY
    ensures |r.0.committed| <= CAPACITY && |r.0.line| <= CAPACITY && l.committed <= r.0.committed && r.0.eof == l.eof
    ensures |r.1| <= |input|
    decreases |input|
  {
    if input == [] then (l, [], Drained)
    else if input[0] == END_OF_TRANSMISSION then
      if l.line == [] && l.committed == [] then (l, input[1..], Ended) else (Commit(l), input[1..], Released)
    else TakeIn(Feed(l, input[0]), input[1..])
  }

  /** What a read does: the new state, the input left over, the bytes delivered and the result. */
  datatype Outcome = Outcome(line: Line, input: seq<Byte>, data: seq<Byte>, ret: int)

  function ReadLine(l: Line, input: seq<Byte>, size: nat): Outcome
    requires |l.committed| <= CAPACITY && |l.line| <= CAPACITY
  {
    if l.eof then Outcome(l.(eof := size == 0), input, [], 0)
    else
      var (l1, rest, how) := TakeIn(l, input);
      if how == Ended then Outcome(l1.(eof := size == 0), rest, [], 0)
      else if l1.committed == [] then Outcome(l1, rest, [], AGAIN)
      else
        var n := Min(size, |l1.committed|);
        Outcome(l1.(committed := l1.committed[n..]), rest, l1.committed[..n], n)
  }

  // ----- rings

  ghost predicate InRange(a: seq<Byte>, start: nat, end: nat)
  {
    |a| == BUFFER_SIZE && start < BUFFER_SIZE && end < BUFFER_SIZE
  }

  /** The bytes of a ring from `start` round to `end`. */
  ghost function Ring(a: seq<Byte>, start: nat, end: nat): (s: seq<Byte>)
    requires InRange(a, start, end)
    ensures |s| <= CAPACITY
    ensures s == [] <==> start == end
  {
    if start <= end then a[start..end] else a[start..] + a[..end]
  }

  function Succ(i: nat): nat { (i + 1) % BUFFER_SIZE }

  lemma RingPush(a: seq<Byte>, start: nat, end: nat, x: Byte)
    requires InRange(a, start, end)
    ensures Succ(end) == start <==> |Ring(a, start, end)| == CAPACITY
    ensures Succ(end) != start ==> Ring(a[end := x], start, Succ(end)) == Ring(a, start, end) + [x]
  {
  }

  lemma RingPop(a: seq<Byte>, start: nat, end: nat)
    requires InRange(a, start, end) && start != end
    ensures Ring(a, start, end) == [a[start]] + Ring(a, Succ(start), end)
  {
    SuccIs(start);
    hide Succ;
    if start == BUFFER_SIZE - 1 {
      assert a[start..] == [a[start]];
    } else if start < end {
      assert a[start..end] == [a[start]] + a[start + 1..end];
    } else {
      Rejoin(a[start..], a[..end]);
    }
  }

  lemma SuccIs(i: nat)
    requires i < BUFFER_SIZE
    ensures Succ(i) == if i == BUFFER_SIZE - 1 then 0 else i + 1
  {
  }

  lemma Rejoin(s: seq<Byte>, t: seq<Byte>)
    requires s != []
    ensures s + t == [s[0]] + (s[1..] + t)
  {
  }

  lemma RingUnpush(a: seq<Byte>, start: nat, end: nat)
    requires InRange(a, start, end) && start != end
    ensures var s := Ring(a, start, end); Ring(a, start, (end + BUFFER_SIZE - 1) % BUFFER_SIZE) == s[..|s| - 1]
  {
    var e := (end + BUFFER_SIZE - 1) % BUFFER_SIZE;
    PredIs(end);
    if end == 0 {
      assert a[start..] == a[start..e] + [a[e]];
    } else if start < end {
      assert a[start..end] == a[start..e] + [a[e]];
    } else {
      assert a[..end] == a[..e] + [a[e]];
      DropLastOf(a[start..], a[..end]);
    }
  }

  lemma PredIs(i: nat)
    requires i < BUFFER_SIZE
    ensures (i + BUFFER_SIZE - 1) % BUFFER_SIZE == if i == 0 then BUFFER_SIZE - 1 else i - 1
  {
  }

  lemma DropLastOf(s: seq<Byte>, t: seq<Byte>)
    requires t != []
    ensures (s + t)[..|s + t| - 1] == s + t[..|t| - 1]
  {
  }

  // ----- the code

  class LineBufferedDevice {
    var eof: bool
    const buffer: array<Byte>
    var start: nat
    var end: nat
    const committed: array<Byte>
    var committedStart: nat
    var committedEnd: nat
    /** Bytes the base device has ready, and what it has been asked to show. */
    var input: seq<Byte>
    var echo: seq<Echo>

    ghost predicate Valid()
      reads this, buffer, committed
    {
      && buffer != committed
      && InRange(buffer[..], start, end) && InRange(committed[..], committedStart, committedEnd)
    }

    ghost function Model(): (l: Line)
      reads this, buffer, committed
      requires Valid()
      ensures |l.committed| <= CAPACITY && |l.line| <= CAPACITY
    {
      Line(Ring(buffer[..], start, end), Ring(committed[..], committedStart, committedEnd), eof, echo)
    }

    constructor ()
      ensures Valid() && Model() == Line([], [], false, []) && input == []
    {
      eof, start, end, committedStart, committedEnd := false, 0, 0, 0, 0;
      input, echo := [], [];
      buffer := new Byte[BUFFER_SIZE];
      committed := new Byte[BUFFER_SIZE];
    }

    /** `commit`. */
    method DoCommit()
      requires Valid()
      modifies this`start, this`end, this`committedEnd, committed
      ensures Valid() && Model() == Commit(old(Model()))
    {
      hide Ring;
      ghost var l := Model();
      ghost var n := 0;
      while start != end && Succ(committedEnd) != committedStart
        invariant Valid() && end == old(end) && n <= |l.line|
        invariant Ring(buffer[..], start, end) == l.line[n..]
        invariant |l.committed| + n <= CAPACITY
        invariant Ring(committed[..], committedStart, committedEnd) == l.committed + l.line[..n]
        decreases |l.line| - n
      {
        RingPop(buffer[..], start, end);
        RingPush(committed[..], committedStart, committedEnd, buffer[start]);
        ghost var c := committed[..];
        committed[committedEnd] := buffer[start];
        assert committed[..] == c[committedEnd := buffer[start]];
        committedEnd := Succ(committedEnd);
        start := Succ(start);
        assert l.line[n..][0] == l.line[n] && l.line[n..][1..] == l.line[n + 1..];
        assert l.line[..n + 1] == l.line[..n] + [l.line[n]];
        n := n + 1;
      }
      RingPush(committed[..], committedStart, committedEnd, 0);
      assert n == Min(|l.line|, CAPACITY - |l.committed|);
      start, end := 0, 0;
    }

    /** One byte inside the loop of `read`. */
    method TakeByte(ch: Byte)
      requires Valid() && ch != END_OF_TRANSMISSION
      modifies this`start, this`end, this`committedEnd, this`echo, buffer, committed
      ensures Valid() && Model() == Feed(old(Model()), ch)
    {
      hide Ring;
      ghost var l := Model();
      if ch >= 128 {
        return;
      }
      if ch == BACKSPACE {
        if start != end {
          RingUnpush(buffer[..], start, end);
          echo := echo + [Erased];
          end := (end + BUFFER_SIZE - 1) % BUFFER_SIZE;
        }
        return;
      }
      RingPush(buffer[..], start, end, ch);
      if Succ(end) != start {
        ghost var b := buffer[..];
        buffer[end] := ch;
        assert buffer[..] == b[end := ch];
        end := Succ(end);
        if ch == NEWLINE {
          DoCommit();
        }
        echo := echo + [Shown(ch)];
      }
    }

    /** The first half of `read`: fill the line from the base device. */
    method FillBuffer() returns (how: Intake)
      requires Valid()
      modifies this`start, this`end, this`committedEnd, this`echo, this`input, buffer, committed
      ensures Valid() && (Model(), input, how) == TakeIn(old(Model()), old(input))
    {
      hide Ring, Feed, Commit;
      ghost var l0, input0 := Model(), input;
      while input != []
        invariant Valid() && TakeIn(l0, input0) == TakeIn(Model(), input)
        decreases |input|
      {
        var ch := input[0];
        input := input[1..];
        if ch == END_OF_TRANSMISSION {
          if start == end && committedStart == committedEnd {
            return Ended;
          }
          DoCommit();
          return Released;
        }
        TakeByte(ch);
      }
      how := Drained;
    }

    /** The second half: hand over committed bytes. */
    method Deliver(size: nat) returns (data: seq<Byte>)
      requires Valid()
      modifies this`committedStart
      ensures Valid()
      ensures var l := old(Model()); var n := Min(size, |l.committed|);
              data == l.committed[..n] && Model() == l.(committed := l.committed[n..])
    {
      hide Ring;
      ghost var l := Model();
      data := [];
      var i := 0;
      while i < size && committedStart != committedEnd
        invariant Valid() && |data| == i <= size && i <= |l.committed|
        invariant data == l.committed[..i]
        invariant Ring(committed[..], committedStart, committedEnd) == l.committed[i..]
        decreases size - i
      {
        RingPop(committed[..], committedStart, committedEnd);
        data := data + [committed[committedStart]];
        committedStart := Succ(committedStart);
        assert l.committed[i..][0] == l.committed[i] && l.committed[i..][1..] == l.committed[i + 1..];
        i := i + 1;
      }
      assert Ring(committed[..], committedStart, committedEnd) == l.committed[i..];
    }

    /** `read`. */
    method Read(size: nat) returns (data: seq<Byte>, ret: int)
      requires Valid()
      modifies this, buffer, committed
      ensures Valid()
      ensures Outcome(Model(), input, data, ret) == ReadLine(old(Model()), old(input), size)
    {
      hide Ring, TakeIn;
      if eof {
        eof := size == 0;
        return [], 0;
      }
      var how := FillBuffer();
      if how == Ended {
        eof := size == 0;
        return [], 0;
      }
      if committedStart == committedEnd {
        return [], AGAIN;
      }
      data := Deliver(size);
      ret := |data|;
    }
  }

  // ----- runs

  /** Bytes arrive at the base device, and readers read. */
  datatype Event = Arrive(bytes: seq<Byte>) | ReadCall(size: nat)

  /** The discipline, the bytes still at the base device, and all that readers have been given. */
  datatype Session = Session(line: Line, input: seq<Byte>, delivered: seq<Byte>)

  predicate Fits(l: Line) { |l.line| <= CAPACITY && |l.committed| <= CAPACITY }

  ghost function StepSession(s: Session, e: Event): (s': Session)
    requires Fits(s.line)
    ensures Fits(s'.line)
  {
    match e
    case Arrive(bytes) => s.(input := s.input + bytes)
    case ReadCall(size) =>
      var o := ReadLine(s.line, s.input, size);
      Session(o.line, o.input, s.delivered + o.data)
  }

  ghost function RunSession(s: Session, events: seq<Event>): (s': Session)
    requires Fits(s.line)
    ensures Fits(s'.line)
    decreases |events|
  {
    if events == [] then s else RunSession(StepSession(s, events[0]), events[1..])
  }

  /** Everything ever committed: what has been delivered, then what is waiting. */
  ghost function Log(s: Session): seq<Byte> { s.delivered + s.line.committed }

  /** A step only ever adds to the end of what has been committed. */
  lemma LogGrows(s: Session, e: Event)
    requires Fits(s.line)
    ensures Log(s) <= Log(StepSession(s, e)) && s.delivered <= StepSession(s, e).delivered
  {
    if e.ReadCall? && !s.line.eof {
      var (l1, rest, how) := TakeIn(s.line, s.input);
      var n := Min(e.size, |l1.committed|);
      assert l1.committed == l1.committed[..n] + l1.committed[n..];
      assert (s.delivered + l1.committed[..n]) + l1.committed[n..] == s.delivered + l1.committed;
    }
  }

  /**
   Over any run, what readers have been given is a prefix of what was committed, in the
   order of commitment, and nothing committed earlier is ever taken back: neither a
   backspace nor an overflow reaches behind a commit.
   */
  lemma {:induction false} CommitsAreFinal(s: Session, events: seq<Event>)
    requires Fits(s.line)
    ensures var s' := RunSession(s, events); Log(s) <= Log(s') && s'.delivered <= Log(s')
    decreases |events|
  {
    if events != [] {
      LogGrows(s, events[0]);
      CommitsAreFinal(StepSession(s, events[0]), events[1..]);
    }
  }

  // ----- what is committed, when nothing overflows

  /** Line editing without rings or limits: the text released so far and the line being typed. */
  datatype Text = Text(released: seq<Byte>, typing: seq<Byte>)

  ghost function Type(t: Text, ch: Byte): Text
  {
    if ch >= 128 then t
    else if ch == END_OF_TRANSMISSION then Text(t.released + t.typing, [])
    else if ch == BACKSPACE then (if t.typing == [] then t else t.(typing := t.typing[..|t.typing| - 1]))
    else if ch == NEWLINE then Text(t.released + t.typing + [ch], [])
    else t.(typing := t.typing + [ch])
  }

  ghost function TypeAll(t: Text, input: seq<Byte>): Text
    decreases |input|
  {
    if input == [] then t else TypeAll(Type(t, input[0]), input[1..])
  }

  /** Room for the next byte: the line is not full, and committing it would not drop anything. */
  ghost predicate Roomy(l: Line, ch: Byte)
  {
    && (ch < 128 && ch != BACKSPACE && ch != END_OF_TRANSMISSION ==> |l.line| < CAPACITY)
    && (ch == NEWLINE ==> |l.line| + 1 + |l.committed| <= CAPACITY)
    && (ch == END_OF_TRANSMISSION ==> |l.line| + |l.committed| <= CAPACITY)
  }

  /** No byte taken in by the next read meets a full ring. */
  ghost predicate RoomyInput(l: Line, input: seq<Byte>)
    requires Fits(l)
    decreases |input|
  {
    input == [] || (
      && Roomy(l, input[0])
      && (input[0] != END_OF_TRANSMISSION ==> RoomyInput(Feed(l, input[0]), input[1..])))
  }

  ghost predicate Agrees(t: Text, before: seq<Byte>, l: Line)
  {
    t == Text(before + l.committed, l.line)
  }

  /** One byte is edited as on unlimited paper exactly when there is room for it. */
  lemma FeedAgrees(t: Text, before: seq<Byte>, l: Line, ch: Byte)
    requires Fits(l) && ch != END_OF_TRANSMISSION && Agrees(t, before, l)
    ensures Agrees(Type(t, ch), before, Feed(l, ch)) <==> Roomy(l, ch)
  {
    if ch == NEWLINE && |l.line| < CAPACITY {
      var typed := l.line + [ch];
      var n := Min(|typed|, CAPACITY - |l.committed|);
      assert before + (l.committed + typed[..n]) == before + l.committed + typed[..n];
      assert |before + l.committed + l.line + [ch]| == |before| + |l.committed| + |typed|;
      if n == |typed| {
        assert typed[..n] == typed;
        assert before + l.committed + l.line + [ch] == before + l.committed + typed;
      }
    }
  }

  lemma ReleaseAgrees(t: Text, before: seq<Byte>, l: Line)
    requires Fits(l) && Agrees(t, before, l)
    ensures Agrees(Type(t, END_OF_TRANSMISSION), before, Commit(l)) <==> Roomy(l, END_OF_TRANSMISSION)
  {
    var n := Min(|l.line|, CAPACITY - |l.committed|);
    assert before + (l.committed + l.line[..n]) == before + l.committed + l.line[..n];
    if n == |l.line| {
      assert l.line[..n] == l.line;
    }
  }

  /** The text agrees with the rings after every byte that one read takes in. */
  ghost predicate AgreesThroughout(t: Text, before: seq<Byte>, l: Line, input: seq<Byte>)
    requires Fits(l)
    decreases |input|
  {
    input == [] ||
      var ch := input[0];
      var l' := if ch == END_OF_TRANSMISSION then Commit(l) else Feed(l, ch);
      && Agrees(Type(t, ch), before, l')
      && (ch != END_OF_TRANSMISSION ==> AgreesThroughout(Type(t, ch), before, l', input[1..]))
  }

  lemma {:induction false} ThroughoutIffRoomy(t: Text, before: seq<Byte>, l: Line, input: seq<Byte>)
    requires Fits(l) && Agrees(t, before, l)
    ensures AgreesThroughout(t, before, l, input) <==> RoomyInput(l, input)
    decreases |input|
  {
    hide Agrees, Type, Feed, Commit, Roomy;
    if input != [] {
      if input[0] == END_OF_TRANSMISSION {
        ReleaseAgrees(t, before, l);
      } else {
        FeedAgrees(t, before, l, input[0]);
        if Roomy(l, input[0]) {
          ThroughoutIffRoomy(Type(t, input[0]), before, Feed(l, input[0]), input[1..]);
        }
      }
    }
  }

  /** What a read takes in is edited exactly as on unlimited paper. */
  lemma {:induction false} TakeInAgrees(t: Text, before: seq<Byte>, l: Line, input: seq<Byte>)
    requires Fits(l) && RoomyInput(l, input) && Agrees(t, before, l)
    ensures var (l', rest, how) := TakeIn(l, input);
            && |rest| <= |input| && rest == input[|input| - |rest|..]
            && Agrees(TypeAll(t, input[..|input| - |rest|]), before, l')
    decreases |input|
  {
    if input != [] {
      if input[0] == END_OF_TRANSMISSION {
        assert l.line[..|l.line|] == l.line;
        assert input[..1][1..] == [];
        assert before + (l.committed + l.line) == before + l.committed + l.line;
      } else {
        FeedAgrees(t, before, l, input[0]);
        TakeInAgrees(Type(t, input[0]), before, Feed(l, input[0]), input[1..]);
        var (l', rest, how) := TakeIn(l, input);
        var n := |input| - |rest|;
        assert input[..n][1..] == input[1..][..n - 1];
      }
    }
  }

  lemma {:induction false} TypeAllConcat(t: Text, a: seq<Byte>, b: seq<Byte>)
    ensures TypeAll(t, a + b) == TypeAll(TypeAll(t, a), b)
    decreases |a|
  {
    if a == [] {
      assert a + b == b;
    } else {
      assert (a + b)[1..] == a[1..] + b;
      TypeAllConcat(Type(t, a[0]), a[1..], b);
    }
  }

  ghost predicate RoomySession(s: Session, events: seq<Event>)
    requires Fits(s.line)
    decreases |events|
  {
    events == [] || (
      && (events[0].ReadCall? && !s.line.eof ==> RoomyInput(s.line, s.input))
      && RoomySession(StepSession(s, events[0]), events[1..]))
  }

  ghost function Arrived(events: seq<Event>): seq<Byte>
  {
    if events == [] then [] else (if events[0].Arrive? then events[0].bytes else []) + Arrived(events[1..])
  }

  ghost predicate InStep(s: Session, all: seq<Byte>, taken: nat)
  {
    taken <= |all| && s.input == all[taken..] && Agrees(TypeAll(Text([], []), all[..taken]), s.delivered, s.line)
  }

  /** The text after the bytes that a step takes in. */
  ghost function StepText(t: Text, s: Session, e: Event): Text
    requires Fits(s.line)
  {
    if e.ReadCall? && !s.line.eof then TypeAll(t, s.input[..|s.input| - |TakeIn(s.line, s.input).1|]) else t
  }

  lemma Handed(before: seq<Byte>, c: seq<Byte>, k: nat)
    requires k <= |c|
    ensures before + c[..k] + c[k..] == before + c && before + [] == before
  {
    assert c == c[..k] + c[k..];
  }

  lemma StepAgrees(t: Text, s: Session, e: Event)
    requires Fits(s.line) && Agrees(t, s.delivered, s.line)
    requires e.ReadCall? && !s.line.eof ==> RoomyInput(s.line, s.input)
    ensures var s' := StepSession(s, e); Agrees(StepText(t, s, e), s'.delivered, s'.line)
  {
    hide TakeIn, TypeAll, RoomyInput;
    if e.ReadCall? {
      Handed(s.delivered, s.line.committed, 0);
      if !s.line.eof {
        TakeInAgrees(t, s.delivered, s.line, s.input);
        var l1 := TakeIn(s.line, s.input).0;
        Handed(s.delivered, l1.committed, Min(e.size, |l1.committed|));
      }
    }
  }

  lemma ReadInStep(s: Session, all: seq<Byte>, taken: nat, size: nat) returns (taken': nat)
    requires Fits(s.line) && InStep(s, all, taken) && (!s.line.eof ==> RoomyInput(s.line, s.input))
    ensures taken <= taken' && InStep(StepSession(s, ReadCall(size)), all, taken')
  {
    hide Agrees, TakeIn, TypeAll, RoomyInput;
    taken' := taken;
    StepAgrees(TypeAll(Text([], []), all[..taken]), s, ReadCall(size));
    if !s.line.eof {
      TakeInAgrees(TypeAll(Text([], []), all[..taken]), s.delivered, s.line, s.input);
      var rest := TakeIn(s.line, s.input).1;
      var n := |s.input| - |rest|;
      taken' := taken + n;
      TypeAllConcat(Text([], []), all[..taken], s.input[..n]);
      assert all[..taken'] == all[..taken] + s.input[..n];
      assert rest == all[taken'..];
    }
  }

  lemma StepInStep(s: Session, all: seq<Byte>, taken: nat, e: Event) returns (taken': nat)
    requires Fits(s.line) && InStep(s, all, taken)
    requires e.ReadCall? && !s.line.eof ==> RoomyInput(s.line, s.input)
    ensures InStep(StepSession(s, e), all + Arrived([e]), taken')
  {
    assert [e][1..] == [] && Arrived([e]) == if e.Arrive? then e.bytes else [];
    if e.Arrive? {
      taken' := taken;
      assert (all + e.bytes)[taken..] == s.input + e.bytes && (all + e.bytes)[..taken] == all[..taken];
    } else {
      taken' := ReadInStep(s, all, taken, e.size);
      assert all + [] == all;
    }
  }

  lemma ArrivedSplit(events: seq<Event>)
    requires events != []
    ensures Arrived(events) == Arrived([events[0]]) + Arrived(events[1..])
  {
    assert [events[0]][1..] == [];
  }

  /**
   If no ring ever overflows, then after any run the committed text and the line being
   typed are those of plain line editing applied to the bytes taken from the base device,
   which are a prefix of all that arrived.
   */
  lemma {:induction false} SessionIsLineEditing(s: Session, all: seq<Byte>, taken: nat, events: seq<Event>)
    returns (taken': nat)
    requires Fits(s.line) && InStep(s, all, taken) && RoomySession(s, events)
    ensures InStep(RunSession(s, events), all + Arrived(events), taken')
    decreases |events|
  {
    hide InStep, StepSession, RoomyInput;
    if events == [] {
      taken' := taken;
      assert all + Arrived(events) == all;
    } else {
      var e := events[0];
      var taken1 := StepInStep(s, all, taken, e);
      taken' := SessionIsLineEditing(StepSession(s, e), all + Arrived([e]), taken1, events[1..]);
      ArrivedSplit(events);
      hide Arrived;
      assert all + Arrived([e]) + Arrived(events[1..]) == all + Arrived(events);
    }
  }

  // ----- what a reader gets

  /** Without an end of transmission everything is taken in. */
  lemma {:induction false} TakenIn(l: Line, typed: seq<Byte>)
    requires Fits(l) && END_OF_TRANSMISSION !in typed
    ensures TakeIn(l, typed).1 == [] && TakeIn(l, typed).2 == Drained
    decreases |typed|
  {
    if typed != [] {
      assert typed[0] in typed && forall ch | ch in typed[1..] :: ch in typed;
      TakenIn(Feed(l, typed[0]), typed[1..]);
    }
  }

  /** A read gets the released text, as much as it asks for, or is told to try again if there is none. */
  lemma ReadGives(l: Line, typed: seq<Byte>, size: nat)
    requires Fits(l) && !l.eof && END_OF_TRANSMISSION !in typed && RoomyInput(l, typed)
    ensures var t := TypeAll(Text(l.committed, l.line), typed); var n := Min(size, |t.released|);
            var o := ReadLine(l, typed, size);
            && o.data == t.released[..n] && o.ret == (if t.released == [] then AGAIN else n)
            && o.input == [] && !o.line.eof && o.line.committed == t.released[n..] && o.line.line == t.typing
  {
    var t0 := Text(l.committed, l.line);
    assert [] + l.committed == l.committed;
    TakenIn(l, typed);
    TakeInAgrees(t0, [], l, typed);
    assert typed[..|typed|] == typed;
    hide TakeIn, TypeAll, RoomyInput;
    var l1 := TakeIn(l, typed).0;
    assert [] + l1.committed == l1.committed;
    assert l1.committed == [] ==> l1.committed[..0] == [] && l1.committed[0..] == [];
  }

  /** An end of transmission releases the line as it stands, or ends the file if there is nothing at all. */
  lemma ReadToEnd(l: Line, typed: seq<Byte>, more: seq<Byte>, size: nat)
    requires Fits(l) && !l.eof && END_OF_TRANSMISSION !in typed && RoomyInput(l, typed)
    requires var t := TypeAll(Text(l.committed, l.line), typed); |t.released + t.typing| <= CAPACITY
    ensures var t := TypeAll(Text(l.committed, l.line), typed); var all := t.released + t.typing;
            var n := Min(size, |all|); var o := ReadLine(l, typed + ([END_OF_TRANSMISSION] + more), size);
            && o.data == all[..n] && o.ret == n && o.input == more
            && o.line.committed == all[n..] && o.line.line == [] && (o.line.eof <==> all == [] && size == 0)
  {
    TakenIn(l, typed);
    TakeInMore(l, typed, [END_OF_TRANSMISSION] + more);
    TakeInAgrees(Text(l.committed, l.line), [], l, typed);
    assert [] + l.committed == l.committed && typed[..|typed|] == typed;
    var l1 := TakeIn(l, typed).0;
    assert [] + l1.committed == l1.committed;
    assert ([END_OF_TRANSMISSION] + more)[1..] == more;
    assert l1.line[..|l1.line|] == l1.line;
    ReleaseIs(l1, more);
    hide TakeIn, TypeAll, RoomyInput;
    assert l1.committed + l1.line == [] ==> l1.committed == [] && l1.line == [];
  }

  lemma ReleaseIs(l: Line, more: seq<Byte>)
    requires Fits(l) && |l.committed + l.line| <= CAPACITY
    ensures TakeIn(l, [END_OF_TRANSMISSION] + more)
            == if l.line == [] && l.committed == [] then (l, more, Ended)
               else (l.(committed := l.committed + l.line, line := []), more, Released)
  {
    assert ([END_OF_TRANSMISSION] + more)[1..] == more;
    assert l.line[..|l.line|] == l.line;
  }

  // ----- what the terminal shows

  /** Each byte shown stands behind the others, and an erasure takes the last one away. */
  ghost function Screen(echo: seq<Echo>): seq<Byte>
  {
    if echo == [] then []
    else
      var before := Screen(echo[..|echo| - 1]);
      match echo[|echo| - 1]
      case Shown(ch) => before + [ch]
      case Erased => if before == [] then [] else before[..|before| - 1]
  }

  lemma ScreenNext(echo: seq<Echo>, e: Echo)
    ensures var before := Screen(echo);
            Screen(echo + [e]) == match e
              case Shown(ch) => before + [ch]
              case Erased => if before == [] then [] else before[..|before| - 1]
  {
    assert (echo + [e])[..|echo|] == echo;
  }

  /** The screen shows what readers have been and will be given, and then the line being typed. */
  ghost predicate Shows(before: seq<Byte>, l: Line) { Screen(l.echo) == before + l.committed + l.line }

  /** The next byte is not a newline whose line does not fit behind what is committed. */
  ghost predicate CommitFits(l: Line, ch: Byte)
  {
    ch == NEWLINE && |l.line| < CAPACITY ==> |l.line| + 1 + |l.committed| <= CAPACITY
  }

  /** One byte keeps the screen true if and only if its commit drops nothing. */
  lemma FeedShows(before: seq<Byte>, l: Line, ch: Byte)
    requires Fits(l) && Shows(before, l)
    ensures Shows(before, Feed(l, ch)) <==> CommitFits(l, ch)
  {
    var screen := Screen(l.echo);
    ScreenNext(l.echo, Erased);
    ScreenNext(l.echo, Shown(ch));
    hide Screen;
    if ch == BACKSPACE {
      if l.line != [] {
        assert (before + l.committed + l.line)[..|screen| - 1] == before + l.committed + l.line[..|l.line| - 1];
      }
    } else if ch < 128 && |l.line| < CAPACITY {
      var typed := l.line + [ch];
      assert screen + [ch] == before + l.committed + typed;
      if ch == NEWLINE {
        var n := Min(|typed|, CAPACITY - |l.committed|);
        assert |before + (l.committed + typed[..n])| == |before| + |l.committed| + n;
        if n == |typed| {
          assert typed[..n] == typed;
          assert before + (l.committed + typed) + [] == before + l.committed + typed;
        }
      }
    }
  }

  lemma {:induction false} TakeInShows(before: seq<Byte>, l: Line, input: seq<Byte>)
    requires Fits(l) && Shows(before, l) && RoomyInput(l, input)
    ensures Shows(before, TakeIn(l, input).0)
    decreases |input|
  {
    hide Shows, Feed, Screen;
    if input != [] {
      if input[0] == END_OF_TRANSMISSION {
        ReleaseShows(before, l);
      } else {
        FeedShows(before, l, input[0]);
        TakeInShows(before, Feed(l, input[0]), input[1..]);
      }
    }
  }

  lemma ReleaseShows(before: seq<Byte>, l: Line)
    requires Fits(l) && Shows(before, l) && Roomy(l, END_OF_TRANSMISSION)
    ensures Shows(before, Commit(l))
  {
    hide Screen;
    assert l.line[..|l.line|] == l.line;
    assert before + (l.committed + l.line) + [] == before + l.committed + l.line;
  }

  /** Throughout a session in which nothing overflows the screen shows what readers get, and the line. */
  lemma {:induction false} ScreenIsTrue(s: Session, events: seq<Event>)
    requires Fits(s.line) && Shows(s.delivered, s.line) && RoomySession(s, events)
    ensures var s' := RunSession(s, events); Shows(s'.delivered, s'.line)
    decreases |events|
  {
    if events != [] {
      StepShows(s, events[0]);
      hide Shows, StepSession, RoomyInput;
      ScreenIsTrue(StepSession(s, events[0]), events[1..]);
    }
  }

  lemma StepShows(s: Session, e: Event)
    requires Fits(s.line) && Shows(s.delivered, s.line)
    requires e.ReadCall? && !s.line.eof ==> RoomyInput(s.line, s.input)
    ensures var s' := StepSession(s, e); Shows(s'.delivered, s'.line)
  {
    hide TakeIn, RoomyInput, Screen;
    if e.ReadCall? {
      Handed(s.delivered, s.line.committed, 0);
      if !s.line.eof {
        TakeInShows(s.delivered, s.line, s.input);
        var l1 := TakeIn(s.line, s.input).0;
        Handed(s.delivered, l1.committed, Min(e.size, |l1.committed|));
      }
    }
  }

  // ----- exactly when a session is line editing

  /** Throughout a session, after every byte taken in, the rings hold what line editing makes of the bytes. */
  ghost predicate SessionAgrees(t: Text, s: Session, events: seq<Event>)
    requires Fits(s.line)
    decreases |events|
  {
    events == [] || (
      && (events[0].ReadCall? && !s.line.eof ==> AgreesThroughout(t, s.delivered, s.line, s.input))
      && SessionAgrees(StepText(t, s, events[0]), StepSession(s, events[0]), events[1..]))
  }

  /** A session is line editing, byte for byte, if and only if no byte taken in meets a full ring. */
  lemma {:induction false} SessionAgreesIffRoomy(t: Text, s: Session, events: seq<Event>)
    requires Fits(s.line) && Agrees(t, s.delivered, s.line)
    ensures SessionAgrees(t, s, events) <==> RoomySession(s, events)
    decreases |events|
  {
    hide Agrees, StepText, StepSession, RoomyInput, AgreesThroughout;
    if events != [] {
      ThroughoutIffRoomy(t, s.delivered, s.line, s.input);
      if events[0].ReadCall? && !s.line.eof ==> RoomyInput(s.line, s.input) {
        StepAgrees(t, s, events[0]);
        SessionAgreesIffRoomy(StepText(t, s, events[0]), StepSession(s, events[0]), events[1..]);
      }
    }
  }

  function Newlines(n: nat): seq<Byte> { seq(n, (i: nat) => NEWLINE) }

  lemma FeedNewline(l: Line)
    requires Fits(l) && l.line == []
    ensures var l' := Feed(l, NEWLINE);
            l'.line == [] && l'.committed == l.committed + Newlines(Min(1, CAPACITY - |l.committed|))
  {
    assert [] + [NEWLINE] == Newlines(1) && [NEWLINE][..0] == Newlines(0);
  }

  lemma NewlinesJoin(s: seq<Byte>, m: nat, n: nat)
    ensures s + Newlines(m) + Newlines(n) == s + Newlines(m + n)
  {
  }

  lemma NewlinesRest(n: nat)
    requires n > 0
    ensures Newlines(n)[0] == NEWLINE && Newlines(n)[1..] == Newlines(n - 1)
  {
  }

  /** Newlines go straight to the committed ring, as many as there is room for. */
  lemma {:induction false} NewlinesTaken(l: Line, n: nat)
    requires Fits(l) && l.line == []
    ensures var (l', rest, how) := TakeIn(l, Newlines(n));
            && l'.line == [] && l'.committed == l.committed + Newlines(Min(n, CAPACITY - |l.committed|))
            && rest == [] && how == Drained
    ensures RoomyInput(l, Newlines(n)) <==> |l.committed| + n <= CAPACITY
    decreases n
  {
    if n > 0 {
      NewlinesRest(n);
      FeedNewline(l);
      var l1 := Feed(l, NEWLINE);
      NewlinesJoin(l.committed, Min(1, CAPACITY - |l.committed|), Min(n - 1, CAPACITY - |l1.committed|));
      hide Feed;
      NewlinesTaken(l1, n - 1);
    }
  }

  lemma WholeDelivery(l: Line, n: nat)
    requires Fits(l) && !l.eof && |l.committed| == 0 && l.line == [] && n > CAPACITY
    ensures var o := ReadLine(l, Newlines(n), n);
            && o.data == Newlines(CAPACITY) && o.input == []
            && o.line.line == [] && o.line.committed == []
  {
    NewlinesTaken(l, n);
    NewlinesJoin([], 0, CAPACITY);
    hide Newlines;
    var all := TakeIn(l, Newlines(n)).0.committed;
    assert all == Newlines(CAPACITY) && |all| == CAPACITY;
    assert all[..CAPACITY] == all && all[CAPACITY..] == [];
  }

  lemma ArriveThenRead(s: Session, bytes: seq<Byte>, size: nat)
    requires Fits(s.line) && !s.line.eof && s.input == []
    ensures var events := [Arrive(bytes), ReadCall(size)]; var o := ReadLine(s.line, bytes, size);
            && RunSession(s, events) == Session(o.line, o.input, s.delivered + o.data)
            && (RoomySession(s, events) <==> RoomyInput(s.line, bytes))
  {
    hide ReadLine, RoomyInput;
    var events := [Arrive(bytes), ReadCall(size)];
    assert events[1..] == [ReadCall(size)] && events[1..][1..] == [];
    assert s.input + bytes == bytes;
    var s1 := StepSession(s, events[0]);
    assert RunSession(s, events) == RunSession(s1, events[1..]);
    assert RunSession(s1, events[1..]) == RunSession(StepSession(s1, ReadCall(size)), []);
    assert RoomySession(StepSession(s1, ReadCall(size)), []);
    assert RoomySession(s1, events[1..]) <==> RoomyInput(s.line, bytes);
  }

  /** From a fresh device: 256 newlines arrive, a reader asks for all of them, and one is gone for good. */
  lemma OverflowLosesByte()
    ensures var start := Session(Line([], [], false, []), [], []);
            var events := [Arrive(Newlines(256)), ReadCall(256)];
            var end := RunSession(start, events);
            && end.delivered == Newlines(255)
            && end.line.line == [] && end.line.committed == [] && end.input == []
            && !RoomySession(start, events)
  {
    hide TakeIn, RunSession, RoomySession, ReadLine, RoomyInput, Newlines;
    var start := Session(Line([], [], false, []), [], []);
    NewlinesTaken(start.line, 256);
    WholeDelivery(start.line, 256);
    ArriveThenRead(start, Newlines(256), 256);
    NewlinesJoin([], 0, 0);
    assert [] + Newlines(255) == Newlines(255);
  }

  // ----- probing

  lemma {:induction false} TakeInConsumes(l: Line, input: seq<Byte>)
    requires Fits(l)
    ensures var (l', rest, how) := TakeIn(l, input);
            (how == Drained ==> rest == []) && (input != [] ==> |rest| < |input|)
    decreases |input|
  {
    if input != [] && input[0] != END_OF_TRANSMISSION {
      TakeInConsumes(Feed(l, input[0]), input[1..]);
    }
  }

  /** Input that arrives later is taken in as if it had been there. */
  lemma {:induction false} TakeInMore(l: Line, input: seq<Byte>, more: seq<Byte>)
    requires Fits(l)
    ensures var (l', rest, how) := TakeIn(l, input);
            TakeIn(l, input + more) == if how == Drained then TakeIn(l', more) else (l', rest + more, how)
    decreases |input|
  {
    if input == [] {
      assert input + more == more;
    } else {
      assert (input + more)[1..] == input[1..] + more;
      if input[0] != END_OF_TRANSMISSION {
        TakeInMore(Feed(l, input[0]), input[1..], more);
      }
    }
  }

  lemma ReleasedIsNonempty(l: Line, input: seq<Byte>)
    requires Fits(l)
    ensures var (l', rest, how) := TakeIn(l, input); how == Released ==> l'.committed != []
    decreases |input|
  {
  }

  /** A zero-size read leaves what it has taken in, and the pending end of file. */
  lemma ProbeIs(l: Line, input: seq<Byte>)
    requires Fits(l)
    ensures var (l1, rest, how) := TakeIn(l, input); var probed := ReadLine(l, input, 0);
            && probed.data == []
            && if l.eof then probed.line == l && probed.input == input
               else probed.line == l1.(eof := how == Ended) && probed.input == rest
  {
    assert TakeIn(l, input).0.committed[0..] == TakeIn(l, input).0.committed;
  }

  /** A read after bytes have been taken in, if the intake did not meet the end of file. */
  lemma ReadIs(l: Line, input: seq<Byte>, size: nat)
    requires Fits(l) && !l.eof
    ensures var (l1, rest, how) := TakeIn(l, input); var n := Min(size, |l1.committed|);
            how != Ended ==>
              ReadLine(l, input, size) ==
                if l1.committed == [] then Outcome(l1, rest, [], AGAIN)
                else Outcome(l1.(committed := l1.committed[n..]), rest, l1.committed[..n], n)
  {
  }

  /**
   A zero-size read is meant to have no side effect.  Here it takes bytes in.  Whatever
   has arrived since, the outcome of the next read, the state it leaves included, is what
   it would have been if and only if the probe did not stop at an end of transmission
   that released a line with more input to be had by then.
   */
  lemma ProbeUnnoticed(l: Line, input: seq<Byte>, more: seq<Byte>, size: nat)
    requires Fits(l)
    ensures var probed := ReadLine(l, input, 0); var (l1, rest, how) := TakeIn(l, input);
            ReadLine(probed.line, probed.input + more, size) == ReadLine(l, input + more, size)
            <==> l.eof || how != Released || rest + more == []
  {
    ProbeIs(l, input);
    TakeInMore(l, input, more);
    TakeInConsumes(l, input);
    var (l1, rest, how) := TakeIn(l, input);
    if !l.eof && how != Ended {
      TakeInConsumes(l1, rest + more);
      ReadIs(l, input + more, size);
      ReadIs(l1, rest + more, size);
      hide TakeIn;
      assert rest == [] ==> rest + more == more;
      if how == Released {
        AfterRelease(l1, rest + more, size);
      }
    }
  }

  /** Once a line is released no end of file is met, and the read takes in whatever is there. */
  lemma AfterRelease(l1: Line, input: seq<Byte>, size: nat)
    requires Fits(l1) && !l1.eof
    ensures input == [] ==> TakeIn(l1, input) == (l1, [], Drained)
    ensures l1.committed != [] ==> TakeIn(l1, input).2 != Ended
    ensures input != [] ==> |ReadLine(l1, input, size).input| < |input|
    decreases |input|
  {
    TakeInConsumes(l1, input);
    if input != [] && input[0] != END_OF_TRANSMISSION {
      AfterRelease(Feed(l1, input[0]), input[1..], size);
    }
  }

  /**
   What the reader itself can tell, its bytes and its return value: it sees a difference
   if and only if it asks for more than the probe's release had committed, and the input
   behind the release commits more.
   */
  lemma ProbeShows(l: Line, input: seq<Byte>, more: seq<Byte>, size: nat)
    requires Fits(l)
    ensures var probed := ReadLine(l, input, 0); var (l1, rest, how) := TakeIn(l, input);
            var direct := ReadLine(l, input + more, size);
            var after := ReadLine(probed.line, probed.input + more, size);
            (after.data, after.ret) != (direct.data, direct.ret)
            <==> !l.eof && how == Released && size > |l1.committed|
                 && |TakeIn(l1, rest + more).0.committed| > |l1.committed|
  {
    hide TakeIn, ReadLine;
    ProbeUnnoticed(l, input, more, size);
    var (l1, rest, how) := TakeIn(l, input);
    if !l.eof && how == Released {
      ProbeIs(l, input);
      TakeInMore(l, input, more);
      ReleasedIsNonempty(l, input);
      AfterRelease(l1, rest + more, size);
      ReadIs(l, input + more, size);
      ReadIs(l1, rest + more, size);
      var l2 := TakeIn(l1, rest + more).0;
      assert l1.committed <= l2.committed;
      if size <= |l1.committed| {
        assert l2.committed[..size] == l1.committed[..size];
      } else if |l2.committed| == |l1.committed| {
        assert l2.committed == l1.committed;
      }
    }
  }

  /** A probe that swallows an end of file: a letter, then end of transmission twice. */
  lemma ProbeLosesEndOfFile()
    ensures var l := Line([], [], false, []); var input := [97, END_OF_TRANSMISSION, END_OF_TRANSMISSION];
            var direct := ReadLine(l, input, 10);
            var probed := ReadLine(l, input, 0);
            var after := ReadLine(probed.line, probed.input, 10);
            && direct.data == after.data == [97]
            && ReadLine(direct.line, direct.input, 10).ret == 0
            && ReadLine(after.line, after.input, 10).ret == AGAIN
  {
    var l := Line([], [], false, []);
    var input: seq<Byte> := [97, END_OF_TRANSMISSION, END_OF_TRANSMISSION];
    var typed := Feed(l, 97);
    assert typed.line == [97] && typed.committed == [];
    assert input[1..] == [END_OF_TRANSMISSION, END_OF_TRANSMISSION] && input[1..][1..] == [END_OF_TRANSMISSION];
    var released := Commit(typed);
    assert released.committed == [97] && released.line == [];
    assert TakeIn(l, input) == (released, [END_OF_TRANSMISSION], Released);
    var direct := ReadLine(l, input, 10);
    assert direct.data == [97] && direct.line.committed == [] && direct.line.line == [];
    var probed := ReadLine(l, input, 0);
    assert probed.line == released && probed.input == [END_OF_TRANSMISSION];
    assert probed.input[1..] == [];
    assert TakeIn(probed.line, probed.input) == (Commit(released), [], Released);
    assert Commit(released).committed == [97];
  }

  // ----- sessions with and without probes

  ghost predicate AlikeAt(a: Session, b: Session, more: seq<Byte>, size: nat)
    requires Fits(a.line) && Fits(b.line)
  {
    size > 0 ==> ReadLine(a.line, a.input + more, size) == ReadLine(b.line, b.input + more, size)
  }

  /** The two cannot be told apart by whatever arrives and is read. */
  ghost predicate Alike(a: Session, b: Session)
    requires Fits(a.line) && Fits(b.line)
  {
    a.delivered == b.delivered && forall more, size: nat :: AlikeAt(a, b, more, size)
  }

  ghost function WithoutProbes(events: seq<Event>): seq<Event>
  {
    if events == [] then []
    else (if events[0] == ReadCall(0) then [] else [events[0]]) + WithoutProbes(events[1..])
  }

  /** No probe of the session stops at an end of transmission that releases a line. */
  ghost predicate NoProbeReleases(s: Session, events: seq<Event>)
    requires Fits(s.line)
    decreases |events|
  {
    events == [] || (
      && (events[0] == ReadCall(0) ==> s.line.eof || TakeIn(s.line, s.input).2 != Released)
      && NoProbeReleases(StepSession(s, events[0]), events[1..]))
  }

  /** Bytes and return values of all reads but the probes. */
  ghost function Answers(s: Session, events: seq<Event>): seq<(seq<Byte>, int)>
    requires Fits(s.line)
    decreases |events|
  {
    if events == [] then []
    else
      var rest := Answers(StepSession(s, events[0]), events[1..]);
      match events[0]
      case Arrive(_) => rest
      case ReadCall(size) =>
        var o := ReadLine(s.line, s.input, size);
        (if size == 0 then [] else [(o.data, o.ret)]) + rest
  }

  lemma AlikeAfterProbe(a: Session, b: Session)
    requires Fits(a.line) && Fits(b.line) && Alike(a, b)
    requires b.line.eof || TakeIn(b.line, b.input).2 != Released
    ensures Alike(a, StepSession(b, ReadCall(0)))
  {
    hide TakeIn, ReadLine;
    var b' := StepSession(b, ReadCall(0));
    ProbeIs(b.line, b.input);
    assert b.delivered + [] == b.delivered;
    forall more, size: nat ensures AlikeAt(a, b', more, size) {
      assert AlikeAt(a, b, more, size);
      ProbeUnnoticed(b.line, b.input, more, size);
    }
  }

  lemma AlikeAfterArrival(a: Session, b: Session, bytes: seq<Byte>)
    requires Fits(a.line) && Fits(b.line) && Alike(a, b)
    ensures Alike(StepSession(a, Arrive(bytes)), StepSession(b, Arrive(bytes)))
  {
    hide ReadLine;
    forall more, size: nat
      ensures AlikeAt(StepSession(a, Arrive(bytes)), StepSession(b, Arrive(bytes)), more, size)
    {
      assert AlikeAt(a, b, bytes + more, size);
      assert a.input + bytes + more == a.input + (bytes + more) && b.input + bytes + more == b.input + (bytes + more);
    }
  }

  lemma AlikeReadsAlike(a: Session, b: Session, size: nat)
    requires Fits(a.line) && Fits(b.line) && Alike(a, b) && size > 0
    ensures ReadLine(a.line, a.input, size) == ReadLine(b.line, b.input, size)
    ensures StepSession(a, ReadCall(size)) == StepSession(b, ReadCall(size))
  {
    hide ReadLine;
    assert a.input + [] == a.input && b.input + [] == b.input;
    assert AlikeAt(a, b, [], size);
  }

  /** Over a whole session: if no probe releases a line, its readers get what they would get without the probes. */
  lemma {:induction false} ProbesDoNotShow(a: Session, b: Session, events: seq<Event>)
    requires Fits(a.line) && Fits(b.line) && Alike(a, b) && NoProbeReleases(b, events)
    ensures Answers(a, WithoutProbes(events)) == Answers(b, events)
    decreases |events|
  {
    hide ReadLine, TakeIn, Alike;
    if events != [] {
      var e, rest := events[0], events[1..];
      if e == ReadCall(0) {
        AlikeAfterProbe(a, b);
        ProbesDoNotShow(a, StepSession(b, e), rest);
        assert WithoutProbes(events) == WithoutProbes(rest);
        assert Answers(b, events) == [] + Answers(StepSession(b, e), rest);
      } else {
        assert WithoutProbes(events)[0] == e && WithoutProbes(events)[1..] == WithoutProbes(rest);
        if e.Arrive? {
          AlikeAfterArrival(a, b, e.bytes);
        } else {
          AlikeReadsAlike(a, b, e.size);
          AlikeItself(StepSession(b, e));
        }
        ProbesDoNotShow(StepSession(a, e), StepSession(b, e), rest);
      }
    }
  }

  lemma AlikeItself(s: Session)
    requires Fits(s.line)
    ensures Alike(s, s)
  {
  }
}
