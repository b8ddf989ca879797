/**
 Lifetime of C++ exceptions, src/libcxxrt/exception.cc, for native primary
 exceptions of one thread.  Exception headers live in a map from address to
 record; freeing removes the entry, so a use after free or a double free would
 be an access outside the map's domain.

 The abstract side is what the program is doing: a stack of handlers that are
 open and throws that are still looking for one, innermost last.
 */
module Exceptions {

  type Id = nat

  const NULL: Id := 0

  /** The part of `__cxa_exception` that governs its lifetime. */
  datatype CxaException = CxaException(referenceCount: int, handlerCount: int, nextException: Id)

  datatype Entry = Handler(ex: Id) | Flight(ex: Id)

  // ----- the abstract stack

  function Init<T>(s: seq<T>): seq<T>
    requires s != []
  {
    s[..|s| - 1]
  }

  function Last<T>(s: seq<T>): T
    requires s != []
  {
    s[|s| - 1]
  }

  /** Exceptions of the open handlers, outermost first. */
  ghost function Handlers(s: seq<Entry>): seq<Id>
  {
    if s == [] then []
    else if Last(s).Handler? then Handlers(Init(s)) + [Last(s).ex]
    else Handlers(Init(s))
  }

  /** Exceptions in flight, outermost first. */
  ghost function Flights(s: seq<Entry>): seq<Id>
  {
    if s == [] then []
    else if Last(s).Flight? then Flights(Init(s)) + [Last(s).ex]
    else Flights(Init(s))
  }

  /** `x` is the exception of the innermost handler, or of none. */
  ghost predicate TopOrAbsent(hs: seq<Id>, x: Id)
  {
    x in hs ==> Last(hs) == x
  }

  /**
   The stacks a program can reach: an exception in flight has nothing above it
   that concerns it, and handlers of the same exception are nested directly.
   */
  ghost predicate Shape(s: seq<Entry>)
  {
    s == [] || (
      && Shape(Init(s)) && Last(s).ex != NULL
      && Last(s).ex !in Flights(Init(s))
      && TopOrAbsent(Handlers(Init(s)), Last(s).ex))
  }

  /** Each exception once, innermost handler first: the list of caught exceptions. */
  ghost function CaughtList(hs: seq<Id>): seq<Id>
  {
    if hs == [] then []
    else if Init(hs) != [] && Last(Init(hs)) == Last(hs) then CaughtList(Init(hs))
    else [Last(hs)] + CaughtList(Init(hs))
  }

  /** Runs of equal handlers do not recur. */
  ghost predicate Runs(hs: seq<Id>)
  {
    hs == [] || (Runs(Init(hs)) && TopOrAbsent(Init(hs), Last(hs)) && Last(hs) != NULL)
  }

  lemma {:induction false} ShapeRuns(s: seq<Entry>)
    requires Shape(s)
    ensures Runs(Handlers(s)) && NULL !in Flights(s)
  {
    if s != [] {
      ShapeRuns(Init(s));
      assert Last(s).Handler? ==> Init(Handlers(s)) == Handlers(Init(s));
    }
  }

  lemma {:induction false} CaughtListElements(hs: seq<Id>)
    requires Runs(hs)
    ensures forall x :: x in CaughtList(hs) <==> x in hs
    ensures hs != [] ==> CaughtList(hs) != [] && CaughtList(hs)[0] == Last(hs)
    ensures NULL !in hs
  {
    if hs != [] {
      CaughtListElements(Init(hs));
      assert hs == Init(hs) + [Last(hs)];
    }
  }

  lemma Snoc<T>(s: seq<T>, e: T)
    ensures s + [e] != [] && Init(s + [e]) == s && Last(s + [e]) == e
  {
  }

  // ----- what memory says about the stack

  ghost function Count(hs: seq<Id>, x: Id): nat { multiset(hs)[x] }

  /** `|handlerCount|` is the number of open handlers; it is negative while rethrown from inside them. */
  ghost function HandlerCount(hs: seq<Id>, fs: seq<Id>, x: Id): int
  {
    if x in fs then 0 - Count(hs, x) else Count(hs, x)
  }

  ghost predicate OnStack(hs: seq<Id>, fs: seq<Id>, x: Id) { x in hs || x in fs }

  /** One reference for being on the stack, and one for each that the program holds. */
  ghost function ReferenceCount(hs: seq<Id>, fs: seq<Id>, refs: multiset<Id>, x: Id): int
  {
    refs[x] + (if OnStack(hs, fs, x) then 1 else 0)
  }

  /** The linked list from `head` is exactly `list`. */
  ghost predicate Chain(mem: map<Id, CxaException>, head: Id, list: seq<Id>)
    decreases |list|
  {
    if list == [] then head == NULL
    else head == list[0] && head in mem && Chain(mem, mem[head].nextException, list[1..])
  }

  /** The thread's globals together with the exception records in memory. */
  datatype Globals = Globals(mem: map<Id, CxaException>, caught: Id, uncaught: int)

  /** The program's side: its stack, and the references it has taken explicitly. */
  datatype Abs = Abs(stack: seq<Entry>, refs: multiset<Id>)

  ghost predicate InUse(hs: seq<Id>, fs: seq<Id>, refs: multiset<Id>, x: Id) { OnStack(hs, fs, x) || refs[x] > 0 }

  ghost predicate Alive(a: Abs, x: Id) { InUse(Handlers(a.stack), Flights(a.stack), a.refs, x) }

  ghost predicate RecordOk(e: CxaException, hs: seq<Id>, fs: seq<Id>, refs: multiset<Id>, x: Id)
  {
    e.handlerCount == HandlerCount(hs, fs, x) && e.referenceCount == ReferenceCount(hs, fs, refs, x)
  }

  ghost predicate Rep(g: Globals, hs: seq<Id>, fs: seq<Id>, refs: multiset<Id>)
  {
    && Runs(hs) && NULL !in fs && refs[NULL] == 0
    && g.uncaught == |fs|
    && (forall x :: x in g.mem <==> InUse(hs, fs, refs, x))
    && (forall x | x in g.mem :: RecordOk(g.mem[x], hs, fs, refs, x))
    && Chain(g.mem, g.caught, CaughtList(hs))
  }

  /** Memory represents the abstract state. */
  ghost predicate Represents(g: Globals, a: Abs)
  {
    Shape(a.stack) && Rep(g, Handlers(a.stack), Flights(a.stack), a.refs)
  }

  // ----- the chain under updates

  /** Records on the list keep their links. */
  lemma {:induction false} ChainKept(mem: map<Id, CxaException>, mem': map<Id, CxaException>, head: Id, list: seq<Id>)
    requires Chain(mem, head, list)
    requires forall x | x in list && x in mem :: x in mem' && mem'[x].nextException == mem[x].nextException
    ensures Chain(mem', head, list)
    decreases |list|
  {
    if list != [] {
      ChainKept(mem, mem', mem[head].nextException, list[1..]);
    }
  }

  // ----- operations of the program

  datatype Op =
    | Throw(x: Id)
    | BeginCatch(x: Id)
    | Rethrow
    | EndCatch
    | TakeCurrent
    | AddRef(x: Id)
    | DropRef(x: Id)

  /** What a program may do next. */
  ghost predicate Legal(a: Abs, op: Op)
  {
    var s := a.stack;
    match op
    case Throw(x) => x != NULL && !Alive(a, x)
    case BeginCatch(x) => s != [] && Last(s) == Flight(x)
    case Rethrow => Handlers(s) != [] && Last(Handlers(s)) !in Flights(s)
    case EndCatch =>
      && s != []
      && (Last(s).Handler? || (|s| >= 2 && Last(Init(s)).Handler?))
    case TakeCurrent => true
    case AddRef(x) => x == NULL || Alive(a, x)
    case DropRef(x) => x == NULL || a.refs[x] > 0
  }

  /** The handler that ends: the innermost, or the one an exception is leaving. */
  ghost function AfterEnd(s: seq<Entry>): seq<Entry>
    requires s != [] && (Last(s).Handler? || (|s| >= 2 && Last(Init(s)).Handler?))
  {
    if Last(s).Handler? then Init(s) else Init(Init(s)) + [Last(s)]
  }

  ghost function Apply(a: Abs, op: Op): Abs
    requires Legal(a, op)
  {
    var s := a.stack;
    match op
    case Throw(x) => a.(stack := s + [Flight(x)])
    case BeginCatch(x) => a.(stack := Init(s) + [Handler(x)])
    case Rethrow => a.(stack := s + [Flight(Last(Handlers(s)))])
    case EndCatch => a.(stack := AfterEnd(s))
    case TakeCurrent => if Handlers(s) == [] then a else a.(refs := a.refs + multiset{Last(Handlers(s))})
    case AddRef(x) => if x == NULL then a else a.(refs := a.refs + multiset{x})
    case DropRef(x) => if x == NULL then a else a.(refs := a.refs - multiset{x})
  }

  // ----- the runtime functions, on values

  /** `releaseException`: drop the runtime's or the program's reference; at zero, free. */
  function Release(mem: map<Id, CxaException>, x: Id): (mem': map<Id, CxaException>)
    requires x in mem
  {
    var e := mem[x].(referenceCount := mem[x].referenceCount - 1);
    if e.referenceCount == 0 then mem - {x} else mem[x := e]
  }

  /** The list head and the innermost handler's exception. */
  lemma CurrentException(g: Globals, hs: seq<Id>, fs: seq<Id>, refs: multiset<Id>)
    requires Rep(g, hs, fs, refs)
    ensures hs == [] <==> g.caught == NULL
    ensures hs != [] ==> g.caught == Last(hs) && g.caught in g.mem && Last(hs) != NULL && Count(hs, Last(hs)) > 0
    ensures hs != [] ==> CaughtList(hs) != [] && CaughtList(hs)[0] == Last(hs)
  {
    CaughtListElements(hs);
    assert hs != [] ==> Last(hs) in hs;
  }

  lemma CountSnoc(hs: seq<Id>, x: Id)
    ensures forall y :: Count(hs + [x], y) == Count(hs, y) + (if y == x then 1 else 0)
    ensures forall y :: y in hs + [x] <==> y in hs || y == x
  {
  }

  lemma CountIn(hs: seq<Id>, x: Id)
    ensures x in hs <==> Count(hs, x) > 0
  {
  }

  lemma ThrowStep(g: Globals, hs: seq<Id>, fs: seq<Id>, refs: multiset<Id>, x: Id)
    requires Rep(g, hs, fs, refs) && x != NULL && !InUse(hs, fs, refs, x)
    ensures Rep(Globals(g.mem[x := CxaException(1, 0, NULL)], g.caught, g.uncaught + 1), hs, fs + [x], refs)
  {
    hide Runs, CaughtList, Chain;
    CaughtListElements(hs);
    CountIn(hs, x);
    CountSnoc(fs, x);
    var mem' := g.mem[x := CxaException(1, 0, NULL)];
    ChainKept(g.mem, mem', g.caught, CaughtList(hs));
    forall y | y in mem' ensures RecordOk(mem'[y], hs, fs + [x], refs, y) {
      assert y in g.mem ==> RecordOk(g.mem[y], hs, fs, refs, y);
    }
  }

  lemma RethrowStep(g: Globals, hs: seq<Id>, fs: seq<Id>, refs: multiset<Id>)
    requires Rep(g, hs, fs, refs) && hs != [] && Last(hs) !in fs
    ensures var x := Last(hs);
            && x in g.mem && g.mem[x].handlerCount > 0
            && Rep(Globals(g.mem[x := g.mem[x].(handlerCount := 0 - g.mem[x].handlerCount)], g.caught, g.uncaught + 1),
                   hs, fs + [x], refs)
  {
    var x := Last(hs);
    CurrentException(g, hs, fs, refs);
    hide Runs, CaughtList, Chain;
    CountSnoc(fs, x);
    CountIn(hs, x);
    assert RecordOk(g.mem[x], hs, fs, refs, x);
    var mem' := g.mem[x := g.mem[x].(handlerCount := 0 - g.mem[x].handlerCount)];
    ChainKept(g.mem, mem', g.caught, CaughtList(hs));
    forall y | y in mem' ensures RecordOk(mem'[y], hs, fs + [x], refs, y) {
      assert RecordOk(g.mem[y], hs, fs, refs, y);
    }
  }

  lemma CaughtSnoc(hs: seq<Id>, x: Id)
    requires Runs(hs) && TopOrAbsent(hs, x) && x != NULL
    ensures Runs(hs + [x]) && CaughtList(hs + [x]) == (if x in hs then CaughtList(hs) else [x] + CaughtList(hs))
  {
    Snoc(hs, x);
    assert x in hs ==> hs != [];
    assert hs != [] ==> Last(hs) in hs;
  }

  ghost function BegunRecord(e: CxaException, caught: Id): CxaException
  {
    e.(nextException := if e.handlerCount == 0 then caught else e.nextException,
       handlerCount := if e.handlerCount < 0 then 0 - e.handlerCount + 1 else e.handlerCount + 1)
  }

  /** `__cxa_begin_catch` on values. */
  ghost function Begun(g: Globals, x: Id): Globals
    requires x in g.mem
  {
    Globals(g.mem[x := BegunRecord(g.mem[x], g.caught)],
            if g.mem[x].handlerCount == 0 then x else g.caught, g.uncaught - 1)
  }

  /** The records, list aside. */
  ghost predicate Records(mem: map<Id, CxaException>, hs: seq<Id>, fs: seq<Id>, refs: multiset<Id>)
  {
    && (forall x :: x in mem <==> InUse(hs, fs, refs, x))
    && (forall x | x in mem :: RecordOk(mem[x], hs, fs, refs, x))
  }

  lemma BeginCatchRecords(g: Globals, hs: seq<Id>, fs: seq<Id>, refs: multiset<Id>, x: Id)
    requires Records(g.mem, hs, fs + [x], refs) && x !in fs && x in g.mem
    ensures Records(Begun(g, x).mem, hs + [x], fs, refs)
    ensures g.mem[x].handlerCount == 0 <==> x !in hs
  {
    CountSnoc(fs, x);
    CountSnoc(hs, x);
    CountIn(hs, x);
    var mem' := Begun(g, x).mem;
    hide Count;
    assert RecordOk(g.mem[x], hs, fs + [x], refs, x);
    forall y | y in mem' ensures RecordOk(mem'[y], hs + [x], fs, refs, y) {
      assert RecordOk(g.mem[y], hs, fs + [x], refs, y);
    }
  }

  lemma BeginCatchChain(g: Globals, hs: seq<Id>, x: Id)
    requires Runs(hs) && TopOrAbsent(hs, x) && x != NULL && x in g.mem
    requires Chain(g.mem, g.caught, CaughtList(hs)) && (g.mem[x].handlerCount == 0 <==> x !in hs)
    ensures Runs(hs + [x]) && Chain(Begun(g, x).mem, Begun(g, x).caught, CaughtList(hs + [x]))
  {
    CaughtSnoc(hs, x);
    CaughtListElements(hs);
    hide Runs, CaughtList;
    ChainKept(g.mem, Begun(g, x).mem, g.caught, CaughtList(hs));
    if x !in hs {
      assert ([x] + CaughtList(hs))[1..] == CaughtList(hs);
    }
  }

  lemma BeginCatchStep(g: Globals, hs: seq<Id>, fs: seq<Id>, refs: multiset<Id>, x: Id)
    requires Rep(g, hs, fs + [x], refs) && x !in fs && TopOrAbsent(hs, x)
    ensures x in g.mem && Rep(Begun(g, x), hs + [x], fs, refs)
  {
    hide Runs, CaughtList, Chain, RecordOk;
    assert x in fs + [x];
    assert InUse(hs, fs + [x], refs, x);
    BeginCatchRecords(g, hs, fs, refs, x);
    BeginCatchChain(g, hs, x);
    assert forall y | y in fs :: y in fs + [x];
  }

  ghost function EndedRecord(e: CxaException): CxaException
  {
    e.(handlerCount := if e.handlerCount < 0 then e.handlerCount + 1 else e.handlerCount - 1)
  }

  /** `__cxa_end_catch` on values. */
  ghost function Ended(g: Globals): Globals
    requires g.caught in g.mem
  {
    var x := g.caught;
    var e := EndedRecord(g.mem[x]);
    var mem := g.mem[x := e];
    if e.handlerCount != 0 then g.(mem := mem)
    else Globals(if g.mem[x].handlerCount < 0 then mem else Release(mem, x), e.nextException, g.uncaught)
  }

  /** The list after the innermost handler has gone. */
  lemma CaughtInit(hs: seq<Id>)
    requires Runs(hs) && hs != []
    ensures Runs(Init(hs))
    ensures Last(hs) in Init(hs) ==> CaughtList(Init(hs)) == CaughtList(hs)
    ensures Last(hs) !in Init(hs) ==> CaughtList(hs) == [Last(hs)] + CaughtList(Init(hs))
  {
    assert Init(hs) != [] ==> Last(Init(hs)) in Init(hs);
  }

  lemma EndCatchRecords(g: Globals, hs: seq<Id>, fs: seq<Id>, refs: multiset<Id>, x: Id)
    requires Records(g.mem, hs + [x], fs, refs) && g.caught == x && x in g.mem
    ensures Records(Ended(g).mem, hs, fs, refs)
    ensures EndedRecord(g.mem[x]).handlerCount == 0 <==> x !in hs
  {
    CountSnoc(hs, x);
    CountIn(hs, x);
    hide Count;
    assert RecordOk(g.mem[x], hs + [x], fs, refs, x);
    var mem' := Ended(g).mem;
    forall y | y in mem' ensures RecordOk(mem'[y], hs, fs, refs, y) {
      assert RecordOk(g.mem[y], hs + [x], fs, refs, y);
    }
  }

  lemma EndCatchChain(g: Globals, hs: seq<Id>, x: Id)
    requires Runs(hs + [x]) && g.caught == x && x in g.mem
    requires Chain(g.mem, g.caught, CaughtList(hs + [x]))
    requires EndedRecord(g.mem[x]).handlerCount == 0 <==> x !in hs
    ensures Runs(hs) && Chain(Ended(g).mem, Ended(g).caught, CaughtList(hs))
  {
    Snoc(hs, x);
    CaughtInit(hs + [x]);
    CaughtListElements(hs);
    var rest := CaughtList(hs);
    hide Runs, CaughtList;
    if x in hs {
      ChainKept(g.mem, Ended(g).mem, g.caught, rest);
    } else {
      assert ([x] + rest)[1..] == rest;
      ChainKept(g.mem, Ended(g).mem, g.mem[x].nextException, rest);
    }
  }

  lemma EndCatchStep(g: Globals, hs: seq<Id>, fs: seq<Id>, refs: multiset<Id>)
    requires Rep(g, hs, fs, refs) && hs != []
    ensures g.caught in g.mem && Rep(Ended(g), Init(hs), fs, refs)
  {
    CurrentException(g, hs, fs, refs);
    assert hs == Init(hs) + [Last(hs)];
    hide Runs, CaughtList, Chain, RecordOk;
    EndCatchRecords(g, Init(hs), fs, refs, Last(hs));
    EndCatchChain(g, Init(hs), Last(hs));
  }

  lemma AddRefStep(g: Globals, hs: seq<Id>, fs: seq<Id>, refs: multiset<Id>, x: Id)
    requires Rep(g, hs, fs, refs) && InUse(hs, fs, refs, x) && x != NULL
    ensures x in g.mem
    ensures Rep(g.(mem := g.mem[x := g.mem[x].(referenceCount := g.mem[x].referenceCount + 1)]), hs, fs, refs + multiset{x})
  {
    hide Runs, CaughtList, Chain;
    var mem' := g.mem[x := g.mem[x].(referenceCount := g.mem[x].referenceCount + 1)];
    ChainKept(g.mem, mem', g.caught, CaughtList(hs));
    forall y | y in mem' ensures RecordOk(mem'[y], hs, fs, refs + multiset{x}, y) {
      assert RecordOk(g.mem[y], hs, fs, refs, y);
    }
  }

  lemma DropRefRecords(mem: map<Id, CxaException>, hs: seq<Id>, fs: seq<Id>, refs: multiset<Id>, x: Id)
    requires Records(mem, hs, fs, refs) && refs[x] > 0
    ensures x in mem && Records(Release(mem, x), hs, fs, refs - multiset{x})
  {
    hide Count;
    assert InUse(hs, fs, refs, x);
    assert RecordOk(mem[x], hs, fs, refs, x);
    var mem' := Release(mem, x);
    forall y | y in mem' ensures RecordOk(mem'[y], hs, fs, refs - multiset{x}, y) {
      assert RecordOk(mem[y], hs, fs, refs, y);
    }
  }

  /** Dropping a reference frees the record exactly when nothing else holds it. */
  lemma DropRefStep(g: Globals, hs: seq<Id>, fs: seq<Id>, refs: multiset<Id>, x: Id)
    requires Rep(g, hs, fs, refs) && refs[x] > 0
    ensures x in g.mem && x != NULL
    ensures Rep(g.(mem := Release(g.mem, x)), hs, fs, refs - multiset{x})
  {
    DropRefRecords(g.mem, hs, fs, refs, x);
    CaughtListElements(hs);
    var mem' := Release(g.mem, x);
    assert forall y | y in hs :: InUse(hs, fs, refs - multiset{x}, y);
    hide Runs, CaughtList, Chain, RecordOk, Count;
    ChainKept(g.mem, mem', g.caught, CaughtList(hs));
  }

  // ----- how the stack's views move

  lemma PushViews(s: seq<Entry>, e: Entry)
    ensures Handlers(s + [e]) == (if e.Handler? then Handlers(s) + [e.ex] else Handlers(s))
    ensures Flights(s + [e]) == (if e.Flight? then Flights(s) + [e.ex] else Flights(s))
    ensures Shape(s + [e]) <==> Shape(s) && e.ex != NULL && e.ex !in Flights(s) && TopOrAbsent(Handlers(s), e.ex)
  {
    Snoc(s, e);
  }

  lemma Unsnoc(s: seq<Entry>)
    requires s != []
    ensures s == Init(s) + [Last(s)]
  {
  }

  lemma BeginCatchViews(s: seq<Entry>, x: Id)
    requires Shape(s) && s != [] && Last(s) == Flight(x)
    ensures var p := Init(s); var s' := p + [Handler(x)];
            && Shape(s') && Handlers(s') == Handlers(s) + [x]
            && Flights(s) == Flights(s') + [x] && x !in Flights(s') && TopOrAbsent(Handlers(s), x)
  {
    Unsnoc(s);
    PushViews(Init(s), Flight(x));
    PushViews(Init(s), Handler(x));
  }

  lemma EndCatchViews(s: seq<Entry>)
    requires Shape(s) && s != [] && (Last(s).Handler? || (|s| >= 2 && Last(Init(s)).Handler?))
    ensures Shape(AfterEnd(s)) && Flights(AfterEnd(s)) == Flights(s)
    ensures Handlers(s) != [] && Handlers(AfterEnd(s)) == Init(Handlers(s))
  {
    Unsnoc(s);
    PushViews(Init(s), Last(s));
    if Last(s).Handler? {
      Snoc(Handlers(Init(s)), Last(s).ex);
    } else {
      var p, w := Init(Init(s)), Last(Init(s));
      Unsnoc(Init(s));
      PushViews(p, w);
      PushViews(p, Last(s));
      Snoc(Handlers(p), w.ex);
    }
  }

  // ----- traces

  ghost predicate LegalTrace(a: Abs, ops: seq<Op>)
    decreases |ops|
  {
    ops == [] || (Legal(a, ops[0]) && LegalTrace(Apply(a, ops[0]), ops[1..]))
  }

  ghost function ApplyAll(a: Abs, ops: seq<Op>): Abs
    requires LegalTrace(a, ops)
    decreases |ops|
  {
    if ops == [] then a else ApplyAll(Apply(a, ops[0]), ops[1..])
  }

  ghost function Throws(op: Op): multiset<Id>
  {
    match op
    case Throw(x) => multiset{x}
    case _ => multiset{}
  }

  ghost function AllThrows(ops: seq<Op>): multiset<Id>
  {
    if ops == [] then multiset{} else Throws(ops[0]) + AllThrows(ops[1..])
  }

  /** Every exception thrown has been freed once, except those still in use. */
  ghost predicate Ledger(thrown: multiset<Id>, freed: multiset<Id>, mem: map<Id, CxaException>)
  {
    forall x :: thrown[x] == freed[x] + (if x in mem then 1 else 0)
  }

  lemma LedgerThrow(thrown: multiset<Id>, freed: multiset<Id>, mem: map<Id, CxaException>, x: Id, e: CxaException)
    requires Ledger(thrown, freed, mem) && x !in mem
    ensures Ledger(thrown + multiset{x}, freed, mem[x := e])
  {
    forall y ensures (thrown + multiset{x})[y] == freed[y] + (if y in mem[x := e] then 1 else 0) {
      assert thrown[y] == freed[y] + (if y in mem then 1 else 0);
    }
  }

  lemma LedgerFree(thrown: multiset<Id>, freed: multiset<Id>, mem: map<Id, CxaException>, x: Id)
    requires Ledger(thrown, freed, mem) && x in mem
    ensures Ledger(thrown, freed + multiset{x}, mem - {x})
  {
    forall y ensures thrown[y] == (freed + multiset{x})[y] + (if y in mem - {x} then 1 else 0) {
      assert thrown[y] == freed[y] + (if y in mem then 1 else 0);
    }
  }

  // ----- what a trace means, read off its operations

  /** The exceptions of the handlers that are open after an operation, innermost last. */
  ghost function Opened(open: seq<Id>, op: Op): seq<Id>
  {
    match op
    case BeginCatch(x) => open + [x]
    case EndCatch => if open == [] then [] else Init(open)
    case _ => open
  }

  /** The exceptions that are being thrown after an operation. */
  ghost function Flying(open: seq<Id>, flying: set<Id>, op: Op): set<Id>
  {
    match op
    case Throw(x) => flying + {x}
    case BeginCatch(x) => flying - {x}
    case Rethrow => if open == [] then flying else flying + {Last(open)}
    case _ => flying
  }

  /** The operation takes a reference to `x`. */
  ghost predicate Takes(open: seq<Id>, op: Op, x: Id)
  {
    op == AddRef(x) || (op.TakeCurrent? && open != [] && Last(open) == x)
  }

  ghost function OpenAfter(open: seq<Id>, ops: seq<Op>): seq<Id>
    decreases |ops|
  {
    if ops == [] then open else OpenAfter(Opened(open, ops[0]), ops[1..])
  }

  ghost function FlyingAfter(open: seq<Id>, flying: set<Id>, ops: seq<Op>): set<Id>
    decreases |ops|
  {
    if ops == [] then flying else FlyingAfter(Opened(open, ops[0]), Flying(open, flying, ops[0]), ops[1..])
  }

  /** How many references the operations take, less how many they drop. */
  ghost function NetTaken(open: seq<Id>, ops: seq<Op>, x: Id): int
    decreases |ops|
  {
    if ops == [] then 0
    else
      (if Takes(open, ops[0], x) then 1 else 0) - (if ops[0] == DropRef(x) then 1 else 0)
      + NetTaken(Opened(open, ops[0]), ops[1..], x)
  }

  ghost function Elements(fs: seq<Id>): set<Id> { set x | x in fs }

  ghost function FlightSet(s: seq<Entry>): set<Id> { Elements(Flights(s)) }

  lemma FlightsPush(fs: seq<Id>, x: Id)
    ensures Elements(fs + [x]) == Elements(fs) + {x}
    ensures x in Elements(fs) <==> x in fs
  {
  }

  /** An exception that is being thrown goes on being thrown until it is caught, whatever handlers end. */
  lemma {:induction false} FlyingUntilCaught(open: seq<Id>, flying: set<Id>, ops: seq<Op>, x: Id)
    requires x in flying && BeginCatch(x) !in ops
    ensures x in FlyingAfter(open, flying, ops)
    decreases |ops|
  {
    if ops != [] {
      assert ops[0] in ops && forall op | op in ops[1..] :: op in ops;
      FlyingUntilCaught(Opened(open, ops[0]), Flying(open, flying, ops[0]), ops[1..], x);
    }
  }

  lemma {:induction false} AfterBoth(open: seq<Id>, flying: set<Id>, a: seq<Op>, b: seq<Op>)
    ensures OpenAfter(open, a + b) == OpenAfter(OpenAfter(open, a), b)
    ensures FlyingAfter(open, flying, a + b) == FlyingAfter(OpenAfter(open, a), FlyingAfter(open, flying, a), b)
    decreases |a|
  {
    if a == [] {
      assert a + b == b;
    } else {
      assert (a + b)[0] == a[0] && (a + b)[1..] == a[1..] + b;
      AfterBoth(Opened(open, a[0]), Flying(open, flying, a[0]), a[1..], b);
    }
  }

  /** A rethrown exception is being thrown until it is caught again. */
  lemma RethrownUntilCaught(before: seq<Op>, after: seq<Op>)
    requires OpenAfter([], before) != [] && BeginCatch(Last(OpenAfter([], before))) !in after
    ensures Last(OpenAfter([], before)) in FlyingAfter([], {}, before + ([Rethrow] + after))
  {
    var open, flying := OpenAfter([], before), FlyingAfter([], {}, before);
    AfterBoth([], {}, before, [Rethrow] + after);
    assert ([Rethrow] + after)[1..] == after;
    FlyingUntilCaught(open, flying + {Last(open)}, after, Last(open));
  }

  /** A step of the abstract stack is what its operation says. */
  lemma StepMeans(a: Abs, op: Op)
    requires Shape(a.stack) && Legal(a, op)
    ensures var b := Apply(a, op); var open := Handlers(a.stack);
            && Shape(b.stack) && Handlers(b.stack) == Opened(open, op)
            && FlightSet(b.stack) == Flying(open, FlightSet(a.stack), op)
  {
    hide Shape, Handlers, Flights, FlightSet, Alive;
    var s := a.stack;
    match op {
      case Throw(x) =>
        NotAlive(a, x);
        PushFlight(s, x);
      case BeginCatch(x) =>
        FlightCaught(s, x);
      case Rethrow =>
        LastIsTop(s);
        PushFlight(s, Last(Handlers(s)));
      case EndCatch =>
        HandlerEnds(s);
      case _ =>
    }
  }

  lemma NotAlive(a: Abs, x: Id)
    requires !Alive(a, x)
    ensures x !in Flights(a.stack) && TopOrAbsent(Handlers(a.stack), x)
  {
  }

  lemma HandlerEnds(s: seq<Entry>)
    requires Shape(s) && s != [] && (Last(s).Handler? || (|s| >= 2 && Last(Init(s)).Handler?))
    ensures Shape(AfterEnd(s)) && FlightSet(AfterEnd(s)) == FlightSet(s)
    ensures Handlers(s) != [] && Handlers(AfterEnd(s)) == Init(Handlers(s))
  {
    hide Shape, Handlers, Flights, Elements, AfterEnd;
    EndCatchViews(s);
  }

  lemma FlightCaught(s: seq<Entry>, x: Id)
    requires Shape(s) && s != [] && Last(s) == Flight(x)
    ensures var s' := Init(s) + [Handler(x)];
            Shape(s') && Handlers(s') == Handlers(s) + [x] && FlightSet(s') == FlightSet(s) - {x}
  {
    hide Shape, Handlers, Flights, Elements;
    BeginCatchViews(s, x);
    FlightsPush(Flights(Init(s) + [Handler(x)]), x);
  }

  lemma PushFlight(s: seq<Entry>, x: Id)
    requires Shape(s) && x != NULL && x !in Flights(s) && TopOrAbsent(Handlers(s), x)
    ensures Shape(s + [Flight(x)]) && Handlers(s + [Flight(x)]) == Handlers(s)
    ensures FlightSet(s + [Flight(x)]) == FlightSet(s) + {x}
  {
    hide Shape, Handlers, Flights, Elements;
    PushViews(s, Flight(x));
    FlightsPush(Flights(s), x);
  }

  lemma LastIsTop(s: seq<Entry>)
    requires Shape(s) && Handlers(s) != []
    ensures Last(Handlers(s)) != NULL && TopOrAbsent(Handlers(s), Last(Handlers(s)))
  {
    ShapeRuns(s);
    hide Shape, Handlers;
  }

  lemma StepTakes(a: Abs, op: Op, x: Id)
    requires Legal(a, op) && x != NULL
    ensures Apply(a, op).refs[x]
            == a.refs[x] + (if Takes(Handlers(a.stack), op, x) then 1 else 0) - (if op == DropRef(x) then 1 else 0)
  {
    hide Handlers, Flights;
  }

  /** The abstract stack after a trace is what the operations of the trace say. */
  lemma {:induction false} TraceMeans(a: Abs, ops: seq<Op>)
    requires Shape(a.stack) && LegalTrace(a, ops)
    ensures var b := ApplyAll(a, ops); var open := Handlers(a.stack);
            && Shape(b.stack) && Handlers(b.stack) == OpenAfter(open, ops)
            && FlightSet(b.stack) == FlyingAfter(open, FlightSet(a.stack), ops)
    decreases |ops|
  {
    if ops != [] {
      StepMeans(a, ops[0]);
      hide Shape, Handlers, Opened, Flying, Takes, FlightSet, Apply, Legal;
      TraceMeans(Apply(a, ops[0]), ops[1..]);
    }
  }

  lemma {:induction false} TraceTakes(a: Abs, ops: seq<Op>, x: Id)
    requires Shape(a.stack) && LegalTrace(a, ops) && x != NULL
    ensures ApplyAll(a, ops).refs[x] == a.refs[x] + NetTaken(Handlers(a.stack), ops, x)
    decreases |ops|
  {
    if ops != [] {
      StepMeans(a, ops[0]);
      StepTakes(a, ops[0], x);
      hide Shape, Handlers, Opened, Flying, Takes, FlightSet, Apply, Legal;
      TraceTakes(Apply(a, ops[0]), ops[1..], x);
    }
  }

  /** No exception is in flight twice. */
  lemma {:induction false} FlightsDistinct(s: seq<Entry>)
    requires Shape(s)
    ensures |Flights(s)| == |FlightSet(s)|
  {
    if s != [] {
      FlightsDistinct(Init(s));
      if Last(s).Flight? {
        FlightsPush(Flights(Init(s)), Last(s).ex);
      }
    }
  }

  /**
   The innermost handler's exception has one handler less; with the last it leaves the
   list, and then, unless it has been rethrown, it loses a reference and with that perhaps
   its record.
   */
  ghost predicate HandlerLeft(g: Globals, g': Globals, freed: multiset<Id>, freed': multiset<Id>)
  {
    var x := g.caught;
    && x in g.mem && g'.uncaught == g.uncaught
    && var e := g.mem[x]; var n := e.handlerCount;
    && g'.caught == (if n == 1 || n == -1 then e.nextException else x)
    && if n == 1 && e.referenceCount == 1 then g'.mem == g.mem - {x} && freed' == freed + multiset{x}
       else
         && g'.mem == g.mem[x := e.(handlerCount := if n < 0 then n + 1 else n - 1,
                                    referenceCount := e.referenceCount - (if n == 1 then 1 else 0))]
         && freed' == freed
  }

  lemma EndedMeans(g: Globals, freed: multiset<Id>, freed': multiset<Id>)
    requires g.caught in g.mem
    requires freed' == if g.caught in Ended(g).mem then freed else freed + multiset{g.caught}
    ensures HandlerLeft(g, Ended(g), freed, freed')
  {
    var x := g.caught;
    var e := g.mem[x];
    var mem := g.mem[x := EndedRecord(e)];
    assert mem - {x} == g.mem - {x};
  }

  /** One more reference to `x`, unless it is null, and nothing else. */
  ghost predicate Referenced(g: Globals, g': Globals, x: Id)
  {
    if x == NULL then g' == g
    else x in g.mem && g' == g.(mem := g.mem[x := g.mem[x].(referenceCount := g.mem[x].referenceCount + 1)])
  }

  class ExceptionRuntime {
    var mem: map<Id, CxaException>
    var caughtExceptions: Id
    var uncaughtExceptions: int
    ghost var abs: Abs
    ghost var thrown: multiset<Id>
    ghost var freed: multiset<Id>

    ghost function G(): Globals
      reads this
    {
      Globals(mem, caughtExceptions, uncaughtExceptions)
    }

    ghost predicate Valid()
      reads this
    {
      Represents(G(), abs) && Ledger(thrown, freed, mem)
    }

    constructor ()
      ensures Valid() && abs == Abs([], multiset{}) && thrown == multiset{} && freed == multiset{}
    {
      mem, caughtExceptions, uncaughtExceptions := map[], NULL, 0;
      abs, thrown, freed := Abs([], multiset{}), multiset{}, multiset{};
    }

    /** `__cxa_throw` on a record zeroed by `__cxa_allocate_exception`. */
    method CxaThrow(x: Id)
      requires Valid() && Legal(abs, Throw(x))
      modifies this
      ensures Valid() && abs == Apply(old(abs), Throw(x))
      ensures thrown == old(thrown) + multiset{x} && freed == old(freed)
      ensures x !in old(mem) && G() == Globals(old(mem)[x := CxaException(1, 0, NULL)], old(caughtExceptions),
                                               old(uncaughtExceptions) + 1)
    {
      hide Rep, Shape, Handlers, Flights, Ledger;
      ghost var s := abs.stack;
      NotInMemory(G(), abs, x);
      ThrowStep(G(), Handlers(s), Flights(s), abs.refs, x);
      PushViews(s, Flight(x));
      LedgerThrow(thrown, freed, mem, x, CxaException(1, 0, NULL));
      mem := mem[x := CxaException(1, 0, NULL)];
      uncaughtExceptions := uncaughtExceptions + 1;
      abs, thrown := abs.(stack := s + [Flight(x)]), thrown + multiset{x};
    }

    /** `__cxa_begin_catch` for the exception whose search has found a handler. */
    method CxaBeginCatch(x: Id)
      requires Valid() && Legal(abs, BeginCatch(x))
      modifies this
      ensures Valid() && abs == Apply(old(abs), BeginCatch(x))
      ensures thrown == old(thrown) && freed == old(freed)
      ensures uncaughtExceptions == old(uncaughtExceptions) - 1 && caughtExceptions == x
      ensures x in old(mem)
      ensures var e := old(mem)[x]; var n := e.handlerCount;
              mem == old(mem)[x := e.(handlerCount := (if n < 0 then -n else n) + 1,
                                      nextException := if n == 0 then old(caughtExceptions) else e.nextException)]
    {
      hide Rep, Shape, Handlers, Flights;
      ghost var s, g := abs.stack, G();
      BeginCatchViews(s, x);
      BeginCatchStep(g, Handlers(s), Flights(Init(s) + [Handler(x)]), abs.refs, x);
      CurrentException(Begun(g, x), Handlers(s) + [x], Flights(Init(s) + [Handler(x)]), abs.refs);
      uncaughtExceptions := uncaughtExceptions - 1;
      var ex := mem[x];
      if ex.handlerCount == 0 {
        ex := ex.(nextException := caughtExceptions);
        caughtExceptions := x;
      }
      if ex.handlerCount < 0 {
        ex := ex.(handlerCount := 0 - ex.handlerCount + 1);
      } else {
        ex := ex.(handlerCount := ex.handlerCount + 1);
      }
      mem := mem[x := ex];
      assert G() == Begun(g, x);
      abs := abs.(stack := Init(s) + [Handler(x)]);
    }

    /** `__cxa_rethrow`: terminates the program when nothing is being handled. */
    method CxaRethrow() returns (terminated: bool)
      requires Valid() && (Handlers(abs.stack) != [] ==> Legal(abs, Rethrow))
      modifies this
      ensures terminated <==> Handlers(old(abs).stack) == []
      ensures terminated ==> unchanged(this)
      ensures !terminated ==> Valid() && abs == Apply(old(abs), Rethrow)
      ensures thrown == old(thrown) && freed == old(freed)
      ensures !terminated ==>
                var x := old(caughtExceptions);
                && x in old(mem) && old(mem)[x].handlerCount > 0
                && G() == Globals(old(mem)[x := old(mem)[x].(handlerCount := -old(mem)[x].handlerCount)], x,
                                  old(uncaughtExceptions) + 1)
    {
      hide Rep, Shape, Handlers, Flights;
      ghost var s := abs.stack;
      CurrentException(G(), Handlers(s), Flights(s), abs.refs);
      if caughtExceptions == NULL {
        return true;
      }
      RethrowStep(G(), Handlers(s), Flights(s), abs.refs);
      RethrowShape(s, G(), abs.refs);
      var x := caughtExceptions;
      PushViews(s, Flight(x));
      assert mem[x].handlerCount > 0;
      uncaughtExceptions := uncaughtExceptions + 1;
      mem := mem[x := mem[x].(handlerCount := 0 - mem[x].handlerCount)];
      abs := abs.(stack := s + [Flight(x)]);
      terminated := false;
    }

    /** `releaseException`: the destructor runs and memory goes back when the count reaches zero. */
    method ReleaseException(x: Id)
      requires x in mem && Ledger(thrown, freed, mem)
      modifies this`mem, this`freed
      ensures mem == Release(old(mem), x) && Ledger(thrown, freed, mem)
      ensures freed == (if x in mem then old(freed) else old(freed) + multiset{x})
    {
      hide Ledger;
      LedgerFree(thrown, freed, mem, x);
      LedgerSame(thrown, freed, mem, mem[x := mem[x].(referenceCount := mem[x].referenceCount - 1)]);
      var ex := mem[x].(referenceCount := mem[x].referenceCount - 1);
      if ex.referenceCount == 0 {
        mem := mem - {x};
        freed := freed + multiset{x};
      } else {
        mem := mem[x := ex];
      }
    }

    /** `__cxa_end_catch`. */
    method CxaEndCatch()
      requires Valid() && Legal(abs, EndCatch)
      modifies this
      ensures Valid() && abs == Apply(old(abs), EndCatch)
      ensures thrown == old(thrown) && HandlerLeft(old(G()), G(), old(freed), freed)
    {
      hide Rep, Shape, Handlers, Flights, Ledger, HandlerLeft;
      ghost var s, g := abs.stack, G();
      EndCatchViews(s);
      CurrentException(g, Handlers(s), Flights(s), abs.refs);
      EndCatchStep(g, Handlers(s), Flights(s), abs.refs);
      var x := caughtExceptions;
      var deleteException := true;
      var ex := mem[x];
      if ex.handlerCount < 0 {
        ex := ex.(handlerCount := ex.handlerCount + 1);
        deleteException := false;
      } else {
        ex := ex.(handlerCount := ex.handlerCount - 1);
      }
      LedgerSame(thrown, freed, mem, mem[x := ex]);
      mem := mem[x := ex];
      if ex.handlerCount == 0 {
        caughtExceptions := ex.nextException;
        if deleteException {
          ReleaseException(x);
        }
      }
      assert G() == Ended(g);
      EndedMeans(g, old(freed), freed);
      abs := abs.(stack := AfterEnd(s));
    }

    /** `__cxa_current_primary_exception`: a new reference to what is being handled, or null. */
    method CxaCurrentPrimaryException() returns (x: Id)
      requires Valid()
      modifies this
      ensures Valid() && abs == Apply(old(abs), TakeCurrent)
      ensures x == if Handlers(old(abs).stack) == [] then NULL else Last(Handlers(old(abs).stack))
      ensures thrown == old(thrown) && freed == old(freed)
      ensures x == old(caughtExceptions) && Referenced(old(G()), G(), x)
    {
      hide Rep, Shape, Handlers, Flights, Ledger;
      ghost var s := abs.stack;
      CurrentException(G(), Handlers(s), Flights(s), abs.refs);
      x := caughtExceptions;
      if x == NULL {
        return;
      }
      AddRefStep(G(), Handlers(s), Flights(s), abs.refs, x) by { assert x in Handlers(s) by { LastIn(Handlers(s)); } }
      LedgerSame(thrown, freed, mem, mem[x := mem[x].(referenceCount := mem[x].referenceCount + 1)]);
      mem := mem[x := mem[x].(referenceCount := mem[x].referenceCount + 1)];
      abs := abs.(refs := abs.refs + multiset{x});
    }

    /** `__cxa_increment_exception_refcount`. */
    method CxaIncrementExceptionRefcount(x: Id)
      requires Valid() && Legal(abs, AddRef(x))
      modifies this
      ensures Valid() && abs == Apply(old(abs), AddRef(x))
      ensures thrown == old(thrown) && freed == old(freed)
      ensures Referenced(old(G()), G(), x)
    {
      hide Rep, Shape, Handlers, Flights, Ledger;
      if x == NULL {
        return;
      }
      AddRefStep(G(), Handlers(abs.stack), Flights(abs.stack), abs.refs, x);
      LedgerSame(thrown, freed, mem, mem[x := mem[x].(referenceCount := mem[x].referenceCount + 1)]);
      mem := mem[x := mem[x].(referenceCount := mem[x].referenceCount + 1)];
      abs := abs.(refs := abs.refs + multiset{x});
    }

    /** `__cxa_decrement_exception_refcount`. */
    method CxaDecrementExceptionRefcount(x: Id)
      requires Valid() && Legal(abs, DropRef(x))
      modifies this
      ensures Valid() && abs == Apply(old(abs), DropRef(x))
      ensures thrown == old(thrown)
      ensures if x == NULL then G() == old(G()) && freed == old(freed)
              else
                && x in old(mem) && caughtExceptions == old(caughtExceptions) && uncaughtExceptions == old(uncaughtExceptions)
                && var n := old(mem)[x].referenceCount;
                   if n == 1 then mem == old(mem) - {x} && freed == old(freed) + multiset{x}
                   else mem == old(mem)[x := old(mem)[x].(referenceCount := n - 1)] && freed == old(freed)
    {
      hide Rep, Shape, Handlers, Flights, Ledger;
      if x == NULL {
        return;
      }
      DropRefStep(G(), Handlers(abs.stack), Flights(abs.stack), abs.refs, x);
      ReleaseException(x);
      abs := abs.(refs := abs.refs - multiset{x});
    }

    method Do(op: Op)
      requires Valid() && Legal(abs, op)
      modifies this
      ensures Valid() && abs == Apply(old(abs), op) && thrown == old(thrown) + Throws(op)
    {
      match op
      case Throw(x) => CxaThrow(x);
      case BeginCatch(x) => CxaBeginCatch(x);
      case Rethrow => var terminated := CxaRethrow();
      case EndCatch => CxaEndCatch();
      case TakeCurrent => var x := CxaCurrentPrimaryException();
      case AddRef(x) => CxaIncrementExceptionRefcount(x);
      case DropRef(x) => CxaDecrementExceptionRefcount(x);
    }

    /**
     Every legal trace: memory follows the abstract stack throughout, and what has
     been thrown has been freed exactly once unless it is still in use.
     */
    method Run(ops: seq<Op>)
      requires Valid() && LegalTrace(abs, ops)
      modifies this
      ensures Valid() && abs == ApplyAll(old(abs), ops)
      ensures thrown == old(thrown) + AllThrows(ops)
      ensures forall x :: thrown[x] == freed[x] + (if Alive(abs, x) then 1 else 0)
      decreases |ops|
    {
      hide Represents, Ledger, Alive, Apply, Legal;
      if ops != [] {
        Do(ops[0]);
        Run(ops[1..]);
      }
      FreedOrAlive(G(), abs, thrown, freed);
    }

    /**
     A whole program, read off its operations alone: an exception is still there exactly
     while it is being thrown (again), one of its handlers is open, or more references to
     it have been taken than dropped; all others have been freed, each once.
     */
    static method FromStart(ops: seq<Op>) returns (rt: ExceptionRuntime)
      requires LegalTrace(Abs([], multiset{}), ops)
      ensures rt.Valid() && fresh(rt)
      ensures var open, flying := OpenAfter([], ops), FlyingAfter([], {}, ops);
              && (forall x | x != NULL ::
                    && (x in rt.mem <==> x in flying || x in open || NetTaken([], ops, x) > 0)
                    && AllThrows(ops)[x] == rt.freed[x] + (if x in rt.mem then 1 else 0))
              && rt.uncaughtExceptions == |flying|
              && rt.caughtExceptions == (if open == [] then NULL else Last(open))
              && (forall x | x in rt.mem ::
                    rt.mem[x].handlerCount == if x in flying then 0 - Count(open, x) else Count(open, x))
    {
      hide Rep, Shape, Handlers, Flights, Ledger, Apply, Legal;
      rt := new ExceptionRuntime();
      NothingOpen();
      TraceMeans(rt.abs, ops);
      forall x | x != NULL ensures ApplyAll(rt.abs, ops).refs[x] == NetTaken([], ops, x) {
        TraceTakes(rt.abs, ops, x);
      }
      rt.Run(ops);
      MeansInMemory(rt.G(), rt.abs);
    }
  }

  lemma NothingOpen()
    ensures Shape([]) && Handlers([]) == [] && FlightSet([]) == {}
  {
  }

  /** Memory in terms of the open handlers and the flights. */
  lemma MeansInMemory(g: Globals, a: Abs)
    requires Represents(g, a)
    ensures forall x :: x in g.mem <==> x in FlightSet(a.stack) || x in Handlers(a.stack) || a.refs[x] > 0
    ensures g.uncaught == |FlightSet(a.stack)|
    ensures g.caught == if Handlers(a.stack) == [] then NULL else Last(Handlers(a.stack))
    ensures forall x | x in g.mem ::
              g.mem[x].handlerCount
              == if x in FlightSet(a.stack) then 0 - Count(Handlers(a.stack), x) else Count(Handlers(a.stack), x)
  {
    FlightsDistinct(a.stack);
    CurrentException(g, Handlers(a.stack), Flights(a.stack), a.refs);
    forall x | x in g.mem
      ensures g.mem[x].handlerCount
              == if x in FlightSet(a.stack) then 0 - Count(Handlers(a.stack), x) else Count(Handlers(a.stack), x)
    {
      assert RecordOk(g.mem[x], Handlers(a.stack), Flights(a.stack), a.refs, x);
    }
  }

  lemma LastIn(hs: seq<Id>)
    requires hs != []
    ensures Last(hs) in hs
  {
  }

  lemma LedgerSame(thrown: multiset<Id>, freed: multiset<Id>, mem: map<Id, CxaException>, mem': map<Id, CxaException>)
    requires Ledger(thrown, freed, mem) && mem.Keys == mem'.Keys
    ensures Ledger(thrown, freed, mem')
  {
    forall y ensures thrown[y] == freed[y] + (if y in mem' then 1 else 0) {
      assert y in mem' <==> y in mem'.Keys;
      assert thrown[y] == freed[y] + (if y in mem then 1 else 0);
    }
  }

  lemma NotInMemory(g: Globals, a: Abs, x: Id)
    requires Represents(g, a) && !Alive(a, x)
    ensures x !in g.mem && x !in Flights(a.stack) && x !in Handlers(a.stack)
  {
  }

  lemma MemoryIsAlive(g: Globals, a: Abs)
    requires Represents(g, a)
    ensures forall x :: x in g.mem <==> Alive(a, x)
  {
  }

  lemma FreedOrAlive(g: Globals, a: Abs, thrown: multiset<Id>, freed: multiset<Id>)
    requires Represents(g, a) && Ledger(thrown, freed, g.mem)
    ensures forall x :: thrown[x] == freed[x] + (if Alive(a, x) then 1 else 0)
  {
    MemoryIsAlive(g, a);
    hide Represents;
  }

  lemma RethrowShape(s: seq<Entry>, g: Globals, refs: multiset<Id>)
    requires Shape(s) && Handlers(s) != [] && Last(Handlers(s)) !in Flights(s) && Rep(g, Handlers(s), Flights(s), refs)
    ensures Shape(s + [Flight(Last(Handlers(s)))])
  {
    CurrentException(g, Handlers(s), Flights(s), refs);
    PushViews(s, Flight(Last(Handlers(s))));
  }

  /** The two views count the entries of the stack. */
  lemma {:induction false} ViewsCount(s: seq<Entry>, x: Id)
    ensures Count(Handlers(s), x) == multiset(s)[Handler(x)]
    ensures x in Flights(s) <==> Flight(x) in s
    ensures |Handlers(s)| + |Flights(s)| == |s|
  {
    if s != [] {
      ViewsCount(Init(s), x);
      Unsnoc(s);
      CountSnoc(Handlers(Init(s)), Last(s).ex);
    }
  }

  /**
   In memory, `|handlerCount|` is the number of handlers of the exception open on
   the stack, negative exactly while the exception has left through a rethrow and
   some of them are still open; `uncaughtExceptions` counts the entries in flight.
   */
  lemma CountsMeanStack(g: Globals, a: Abs, x: Id)
    requires Represents(g, a) && x in g.mem
    ensures var open, n := multiset(a.stack)[Handler(x)], g.mem[x].handlerCount;
            (n == open || n + open == 0) && (n < 0 <==> Handler(x) in a.stack && Flight(x) in a.stack)
    ensures g.uncaught + |Handlers(a.stack)| == |a.stack|
    ensures g.caught == if Handlers(a.stack) == [] then NULL else Last(Handlers(a.stack))
  {
    ViewsCount(a.stack, x);
    CurrentException(g, Handlers(a.stack), Flights(a.stack), a.refs);
    assert RecordOk(g.mem[x], Handlers(a.stack), Flights(a.stack), a.refs, x);
    assert Handler(x) in a.stack <==> Handler(x) in multiset(a.stack);
  }

  /** When the program has left every handler and dropped every reference, nothing is left. */
  lemma NothingLeaks(g: Globals, a: Abs, thrown: multiset<Id>, freed: multiset<Id>)
    requires Represents(g, a) && Ledger(thrown, freed, g.mem) && a.stack == [] && a.refs == multiset{}
    ensures g.mem == map[] && freed == thrown && g.caught == NULL && g.uncaught == 0
  {
    assert forall x :: !Alive(a, x);
    assert g.mem.Keys == {};
    assert forall x :: freed[x] == thrown[x];
  }
}
