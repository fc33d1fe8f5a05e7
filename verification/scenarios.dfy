/** Whole traces run through the model: the four rejected STD traces of the
    analyzer's tests (src/analyzer.rs:639-774), and the deadlock count of a
    lock-order inversion and of one protected by a guard lock. */
module Scenarios {
  import opened Common
  import Lexer
  import Parser
  import StdLine
  import Analyzer
  import opened ThreadGraph
  import opened CycleCheck

  /** The switches of the tests: normalization on, no lock graph, no
      dependency output. */
  const TEST_CONFIG: Analyzer.Config := Analyzer.Config(true, false, false)

  // Printed STD lines.

  /** One line `T<thread>|<keyword>(<number>)|<loc>` before normalization. */
  datatype RawEvent = RawEvent(thread: i64, operation: Parser.Operation, number: i64, loc: i64)

  predicate Printed(r: RawEvent) {
    && r.thread >= 0 && r.number >= 0 && r.loc >= 0
    && r.operation in {Parser.Read, Parser.Write, Parser.Acquire, Parser.Request, Parser.Release, Parser.Fork, Parser.Join}
  }

  predicate AllPrinted(raws: seq<RawEvent>) {
    forall i :: 0 <= i < |raws| ==> Printed(raws[i])
  }

  /** A printed line that neither acquires nor releases. */
  predicate Quiet(raws: seq<RawEvent>) {
    AllPrinted(raws) && forall i :: 0 <= i < |raws| ==> !(raws[i].operation.Acquire? || raws[i].operation.Release?)
  }

  /** The text of a raw line. */
  function LineOf(r: RawEvent): string
    requires Printed(r)
  {
    Lexer.LexRawLine(r.thread, Parser.Keyword(r.operation), r.number, r.loc);
    Lexer.Glue(Lexer.RawLine(r.thread, Parser.Keyword(r.operation), r.number, r.loc))
  }

  /** The event a raw line stands for. */
  function EventOf(r: RawEvent): Parser.Event {
    Parser.Event(r.thread, r.operation, Parser.OperandNew(r.operation, r.number), r.loc)
  }

  function Lines(raws: seq<RawEvent>): seq<string>
    requires AllPrinted(raws)
  {
    seq(|raws|, i requires 0 <= i < |raws| && Printed(raws[i]) => LineOf(raws[i]))
  }

  function Events(raws: seq<RawEvent>): (events: seq<Parser.Event>)
    ensures |events| == |raws| && Analyzer.AllWellFormed(events)
  {
    seq(|raws|, i requires 0 <= i < |raws| => EventOf(raws[i]))
  }

  /** With normalization on, printed lines all read, as their events. */
  lemma LinesRead(raws: seq<RawEvent>)
    requires AllPrinted(raws)
    ensures Analyzer.AllRead(true, Lines(raws))
    ensures Analyzer.EventsOf(true, Lines(raws)) == Events(raws)
  {
    var lines := Lines(raws);
    forall i | 0 <= i < |raws|
      ensures Lexer.TokenizeDefined(lines[i], true)
      ensures StdLine.ReadLine(lines[i], true) == Ok(EventOf(raws[i]))
    {
      StdLine.ReadRawLine(raws[i].thread, raws[i].operation, raws[i].number, raws[i].loc);
    }
  }

  lemma EventsAppend(first: seq<RawEvent>, second: seq<RawEvent>)
    ensures Events(first + second) == Events(first) + Events(second)
  {
  }

  lemma QuietEventsOf(filler: seq<RawEvent>)
    requires Quiet(filler)
    ensures Analyzer.AllWellFormed(Events(filler))
    ensures forall i :: 0 <= i < |Events(filler)| ==>
      !(Events(filler)[i].operation.Acquire? || Events(filler)[i].operation.Release?)
  {
  }

  /** A trace whose lines all read is analysed as its events. */
  lemma PrintedTrace(raws: seq<RawEvent>)
    requires AllPrinted(raws)
    ensures Analyzer.Readable(TEST_CONFIG, Analyzer.StdTrace(Lines(raws)))
    ensures Analyzer.AllWellFormed(Events(raws))
    ensures Analyzer.Analyze(TEST_CONFIG, Analyzer.StdTrace(Lines(raws)))
         == Analyzer.AnalyzeEvents(TEST_CONFIG, Events(raws), Analyzer.START)
  {
    LinesRead(raws);
    Analyzer.StdLinesAsEvents(TEST_CONFIG, Lines(raws), Analyzer.START);
  }

  /** A quiet prefix followed by lock events: the verdict of the whole trace
      is the verdict of the lock events, started at the row after the prefix. */
  lemma QuietPrefix(filler: seq<RawEvent>, locking: seq<RawEvent>, errors: seq<Analyzer.AnalyzerError>)
    requires Quiet(filler) && AllPrinted(locking)
    requires Analyzer.AnalyzeEvents(TEST_CONFIG, Events(locking), Analyzer.Analysis(Analyzer.EMPTY, [], 1 + |filler|)).errors
          == errors
    requires |errors| > 0
    ensures Analyzer.Readable(TEST_CONFIG, Analyzer.StdTrace(Lines(filler + locking)))
    ensures Analyzer.AnalyzeTrace(TEST_CONFIG, Analyzer.StdTrace(Lines(filler + locking))) == Err(errors)
  {
    var raws := filler + locking;
    assert AllPrinted(raws) by {
      forall i | 0 <= i < |raws| ensures Printed(raws[i]) {
        if i < |filler| { assert raws[i] == filler[i]; } else { assert raws[i] == locking[i - |filler|]; }
      }
    }
    PrintedTrace(raws);
    EventsAppend(filler, locking);
    Analyzer.AnalyzeEventsAppend(TEST_CONFIG, Events(filler), Events(locking), Analyzer.START);
    QuietEventsOf(filler);
    Analyzer.QuietEvents(TEST_CONFIG, Events(filler), Analyzer.START);
  }

  /** The events of the lock lines. */
  function Acquired(thread: i64, lockId: i64, loc: i64): Parser.Event {
    Parser.Event(thread, Parser.Acquire, Parser.LockIdentifier(lockId), loc)
  }

  function Released(thread: i64, lockId: i64, loc: i64): Parser.Event {
    Parser.Event(thread, Parser.Release, Parser.LockIdentifier(lockId), loc)
  }

  /** The loop over a single event is one step. */
  lemma Single(config: Analyzer.Config, e: Parser.Event, a: Analyzer.Analysis)
    requires Parser.WellFormedEvent(e) && Analyzer.Consistent(a.tables.locks)
    ensures Analyzer.AnalyzeEvents(config, [e], a) == Analyzer.Advance(config, a, e)
  {
    assert [e][1..] == [];
  }

  /** The loop over several events starts with a step. */
  lemma Unfold(config: Analyzer.Config, events: seq<Parser.Event>, a: Analyzer.Analysis)
    requires |events| > 0 && Analyzer.AllWellFormed(events) && Analyzer.Consistent(a.tables.locks)
    ensures Analyzer.AllWellFormed(events[1..])
    ensures Analyzer.AnalyzeEvents(config, events, a)
         == Analyzer.AnalyzeEvents(config, events[1..], Analyzer.Advance(config, a, events[0]))
  {
    assert forall i :: 0 <= i < |events| - 1 ==> events[1..][i] == events[i + 1];
  }

  /** The state after thread `thread` took lock 9 at row `row` from an empty table. */
  function Holding(thread: i64, row: nat): Analyzer.Analysis {
    Analyzer.Analysis(Analyzer.Tables(map[9 := Analyzer.Lock(Some(thread), true, row)], {}, []), [], row + 1)
  }

  lemma FirstAcquire(row: nat, loc: i64)
    ensures Analyzer.Advance(TEST_CONFIG, Analyzer.Analysis(Analyzer.EMPTY, [], row), Acquired(6, 9, loc)) == Holding(6, row)
  {
    assert Analyzer.LocksOfThread(6, map[]) == {};
  }

  // The four rejected traces. Each holds after any quiet prefix; the test
  // traces have five quiet lines before the lock events, so the rows there
  // are those below with five for the prefix length.

  /** Thread 7 acquires lock 9 while thread 6 holds it. */
  lemma RepeatedAcquisitionTrace(filler: seq<RawEvent>, loc: i64)
    requires Quiet(filler) && loc >= 0
    ensures var lines := Lines(filler + [RawEvent(6, Parser.Acquire, 9, loc), RawEvent(7, Parser.Acquire, 9, loc)]);
      && Analyzer.Readable(TEST_CONFIG, Analyzer.StdTrace(lines))
      && Analyzer.AnalyzeTrace(TEST_CONFIG, Analyzer.StdTrace(lines))
         == Err([Analyzer.RepeatedAcquisition(9, 7, 6, |filler| + 2)])
  {
    var locking := [RawEvent(6, Parser.Acquire, 9, loc), RawEvent(7, Parser.Acquire, 9, loc)];
    assert Events(locking) == [Acquired(6, 9, loc), Acquired(7, 9, loc)];
    AcquireHeld(1 + |filler|, loc);
    QuietPrefix(filler, locking, [Analyzer.RepeatedAcquisition(9, 7, 6, |filler| + 2)]);
  }

  lemma AcquireHeld(row: nat, loc: i64)
    ensures Analyzer.AnalyzeEvents(TEST_CONFIG, [Acquired(6, 9, loc), Acquired(7, 9, loc)],
                                   Analyzer.Analysis(Analyzer.EMPTY, [], row)).errors
         == [Analyzer.RepeatedAcquisition(9, 7, 6, row + 1)]
  {
    var events := [Acquired(6, 9, loc), Acquired(7, 9, loc)];
    Unfold(TEST_CONFIG, events, Analyzer.Analysis(Analyzer.EMPTY, [], row));
    FirstAcquire(row, loc);
    assert events[1..] == [Acquired(7, 9, loc)];
    Single(TEST_CONFIG, Acquired(7, 9, loc), Holding(6, row));
    OtherAcquires(row, loc);
  }

  lemma OtherAcquires(row: nat, loc: i64)
    ensures Analyzer.Advance(TEST_CONFIG, Holding(6, row), Acquired(7, 9, loc)).errors
         == [Analyzer.RepeatedAcquisition(9, 7, 6, row + 1)]
  {
  }

  /** Thread 6 releases lock 9 a second time. */
  lemma RepeatedReleaseTrace(filler: seq<RawEvent>, loc: i64)
    requires Quiet(filler) && loc >= 0
    ensures var lines := Lines(filler + [RawEvent(6, Parser.Acquire, 9, loc), RawEvent(6, Parser.Release, 9, loc),
                                         RawEvent(6, Parser.Release, 9, loc)]);
      && Analyzer.Readable(TEST_CONFIG, Analyzer.StdTrace(lines))
      && Analyzer.AnalyzeTrace(TEST_CONFIG, Analyzer.StdTrace(lines))
         == Err([Analyzer.RepeatedRelease(|filler| + 3, |filler| + 2, 9, 6)])
  {
    var locking := [RawEvent(6, Parser.Acquire, 9, loc), RawEvent(6, Parser.Release, 9, loc), RawEvent(6, Parser.Release, 9, loc)];
    assert Events(locking) == [Acquired(6, 9, loc), Released(6, 9, loc), Released(6, 9, loc)];
    ReleaseTwice(1 + |filler|, loc);
    QuietPrefix(filler, locking, [Analyzer.RepeatedRelease(|filler| + 3, |filler| + 2, 9, 6)]);
  }

  lemma ReleaseTwice(row: nat, loc: i64)
    ensures Analyzer.AnalyzeEvents(TEST_CONFIG, [Acquired(6, 9, loc), Released(6, 9, loc), Released(6, 9, loc)],
                                   Analyzer.Analysis(Analyzer.EMPTY, [], row)).errors
         == [Analyzer.RepeatedRelease(row + 2, row + 1, 9, 6)]
  {
    var events := [Acquired(6, 9, loc), Released(6, 9, loc), Released(6, 9, loc)];
    Unfold(TEST_CONFIG, events, Analyzer.Analysis(Analyzer.EMPTY, [], row));
    FirstAcquire(row, loc);
    assert events[1..] == [Released(6, 9, loc), Released(6, 9, loc)];
    Unfold(TEST_CONFIG, events[1..], Holding(6, row));
    OwnerReleases(row, loc);
    assert events[1..][1..] == [Released(6, 9, loc)];
    Single(TEST_CONFIG, Released(6, 9, loc), Freed(row + 1));
    ReleaseFreed(row + 1, loc);
  }

  /** The state after lock 9 was freed at row `row`. */
  function Freed(row: nat): Analyzer.Analysis {
    Analyzer.Analysis(Analyzer.Tables(map[9 := Analyzer.Lock(None, false, row)], {}, []), [], row + 1)
  }

  lemma OwnerReleases(row: nat, loc: i64)
    ensures Analyzer.Advance(TEST_CONFIG, Holding(6, row), Released(6, 9, loc)) == Freed(row + 1)
  {
  }

  lemma ReleaseFreed(row: nat, loc: i64)
    ensures Analyzer.Advance(TEST_CONFIG, Freed(row), Released(6, 9, loc)).errors
         == [Analyzer.RepeatedRelease(row + 1, row, 9, 6)]
  {
  }

  /** Thread 7 releases lock 9, which thread 6 holds. */
  lemma ReleasedNonOwningLockTrace(filler: seq<RawEvent>, loc: i64)
    requires Quiet(filler) && loc >= 0
    ensures var lines := Lines(filler + [RawEvent(6, Parser.Acquire, 9, loc), RawEvent(7, Parser.Release, 9, loc)]);
      && Analyzer.Readable(TEST_CONFIG, Analyzer.StdTrace(lines))
      && Analyzer.AnalyzeTrace(TEST_CONFIG, Analyzer.StdTrace(lines))
         == Err([Analyzer.ReleasedNonOwningLock(|filler| + 2, 9, 7, 6)])
  {
    var locking := [RawEvent(6, Parser.Acquire, 9, loc), RawEvent(7, Parser.Release, 9, loc)];
    assert Events(locking) == [Acquired(6, 9, loc), Released(7, 9, loc)];
    ReleaseOthers(1 + |filler|, loc);
    QuietPrefix(filler, locking, [Analyzer.ReleasedNonOwningLock(|filler| + 2, 9, 7, 6)]);
  }

  lemma ReleaseOthers(row: nat, loc: i64)
    ensures Analyzer.AnalyzeEvents(TEST_CONFIG, [Acquired(6, 9, loc), Released(7, 9, loc)],
                                   Analyzer.Analysis(Analyzer.EMPTY, [], row)).errors
         == [Analyzer.ReleasedNonOwningLock(row + 1, 9, 7, 6)]
  {
    var events := [Acquired(6, 9, loc), Released(7, 9, loc)];
    Unfold(TEST_CONFIG, events, Analyzer.Analysis(Analyzer.EMPTY, [], row));
    FirstAcquire(row, loc);
    assert events[1..] == [Released(7, 9, loc)];
    Single(TEST_CONFIG, Released(7, 9, loc), Holding(6, row));
    OtherReleases(row, loc);
  }

  lemma OtherReleases(row: nat, loc: i64)
    ensures Analyzer.Advance(TEST_CONFIG, Holding(6, row), Released(7, 9, loc)).errors
         == [Analyzer.ReleasedNonOwningLock(row + 1, 9, 7, 6)]
  {
  }

  /** Thread 7 releases lock 9, which nobody ever acquired. */
  lemma ReleasedNonAcquiredLockTrace(filler: seq<RawEvent>, loc: i64)
    requires Quiet(filler) && loc >= 0
    ensures var lines := Lines(filler + [RawEvent(7, Parser.Release, 9, loc)]);
      && Analyzer.Readable(TEST_CONFIG, Analyzer.StdTrace(lines))
      && Analyzer.AnalyzeTrace(TEST_CONFIG, Analyzer.StdTrace(lines))
         == Err([Analyzer.ReleasedNonAcquiredLock(|filler| + 1, 9, 7)])
  {
    var locking := [RawEvent(7, Parser.Release, 9, loc)];
    assert Events(locking) == [Released(7, 9, loc)];
    ReleaseUnheld(1 + |filler|, loc);
    QuietPrefix(filler, locking, [Analyzer.ReleasedNonAcquiredLock(|filler| + 1, 9, 7)]);
  }

  lemma ReleaseUnheld(row: nat, loc: i64)
    ensures Analyzer.AnalyzeEvents(TEST_CONFIG, [Released(7, 9, loc)], Analyzer.Analysis(Analyzer.EMPTY, [], row)).errors
         == [Analyzer.ReleasedNonAcquiredLock(row, 9, 7)]
  {
    Single(TEST_CONFIG, Released(7, 9, loc), Analyzer.Analysis(Analyzer.EMPTY, [], row));
  }

  // Deadlock counts.

  /** The switches with dependency recording on. */
  const DEPENDENCY_CONFIG: Analyzer.Config := Analyzer.Config(true, false, true)

  /** Each thread takes one lock, then each asks for the other's. */
  const INVERTED_EVENTS: seq<Parser.Event> :=
    [Acquired(1, 1, 0), Acquired(2, 2, 0), Acquired(1, 2, 0), Acquired(2, 1, 0)]

  /** The dependencies those events record: both failing acquisitions are
      recorded, since recording comes before the ownership check. */
  const INVERSION: seq<Analyzer.LockDependency> := [
    Analyzer.LockDependency(1, 1, {}, 1),
    Analyzer.LockDependency(2, 2, {}, 2),
    Analyzer.LockDependency(1, 2, {1}, 3),
    Analyzer.LockDependency(2, 1, {2}, 4)
  ]

  /** Thread 1 holds lock 1 after the first row. */
  function OneHolding(): Analyzer.Analysis {
    Analyzer.Analysis(Analyzer.Tables(map[1 := Analyzer.Lock(Some(1), true, 1)], {}, INVERSION[..1]), [], 2)
  }

  /** Threads 1 and 2 hold locks 1 and 2 after the second row. */
  function BothHolding(): Analyzer.Analysis {
    Analyzer.Analysis(
      Analyzer.Tables(map[1 := Analyzer.Lock(Some(1), true, 1), 2 := Analyzer.Lock(Some(2), true, 2)], {}, INVERSION[..2]),
      [], 3)
  }

  /** After the third row, which failed. */
  function OneRefused(): Analyzer.Analysis {
    Analyzer.Analysis(Analyzer.Tables(BothHolding().tables.locks, {}, INVERSION[..3]),
      [Analyzer.RepeatedAcquisition(2, 1, 2, 3)], 4)
  }

  /** After the fourth row, which failed too. */
  function BothRefused(): Analyzer.Analysis {
    Analyzer.Analysis(Analyzer.Tables(BothHolding().tables.locks, {}, INVERSION),
      [Analyzer.RepeatedAcquisition(2, 1, 2, 3), Analyzer.RepeatedAcquisition(1, 2, 1, 4)], 5)
  }

  lemma FirstRow()
    ensures Analyzer.Advance(DEPENDENCY_CONFIG, Analyzer.START, Acquired(1, 1, 0)) == OneHolding()
  {
    assert Analyzer.LocksOfThread(1, map[]) == {};
    assert [] + [INVERSION[0]] == INVERSION[..1];
  }

  lemma SecondRow()
    ensures Analyzer.Advance(DEPENDENCY_CONFIG, OneHolding(), Acquired(2, 2, 0)) == BothHolding()
  {
    var locks := OneHolding().tables.locks;
    assert Analyzer.LocksOfThread(2, locks) == {} by {
      forall id ensures id !in Analyzer.LocksOfThread(2, locks) {
        assert id in locks ==> id == 1;
      }
    }
    assert !Analyzer.Recorded(INVERSION[..1], 2, 2, {}) by {
      assert INVERSION[..1] == [INVERSION[0]];
    }
    assert INVERSION[..1] + [INVERSION[1]] == INVERSION[..2];
  }

  lemma ThirdRow()
    ensures Analyzer.Advance(DEPENDENCY_CONFIG, BothHolding(), Acquired(1, 2, 0)) == OneRefused()
  {
    var locks := BothHolding().tables.locks;
    assert Analyzer.LocksOfThread(1, locks) == {1} by {
      forall id ensures id in Analyzer.LocksOfThread(1, locks) <==> id == 1 {
        if id in locks && id != 1 { assert id == 2; }
      }
    }
    assert !Analyzer.Recorded(INVERSION[..2], 1, 2, {1}) by {
      assert INVERSION[..2] == [INVERSION[0], INVERSION[1]];
    }
    assert INVERSION[..2] + [INVERSION[2]] == INVERSION[..3];
  }

  lemma FourthRow()
    ensures Analyzer.Advance(DEPENDENCY_CONFIG, OneRefused(), Acquired(2, 1, 0)) == BothRefused()
  {
    var locks := OneRefused().tables.locks;
    assert Analyzer.LocksOfThread(2, locks) == {2} by {
      forall id ensures id in Analyzer.LocksOfThread(2, locks) <==> id == 2 {
        if id in locks && id != 2 { assert id == 1; }
      }
    }
    assert !Analyzer.Recorded(INVERSION[..3], 2, 1, {2}) by {
      assert INVERSION[..3] == [INVERSION[0], INVERSION[1], INVERSION[2]];
    }
    assert INVERSION[..3] + [INVERSION[3]] == INVERSION;
  }

  lemma TakeOneEach()
    ensures Analyzer.AnalyzeEvents(DEPENDENCY_CONFIG, INVERTED_EVENTS[..2], Analyzer.START) == BothHolding()
  {
    var events := INVERTED_EVENTS[..2];
    assert events == [Acquired(1, 1, 0), Acquired(2, 2, 0)];
    Unfold(DEPENDENCY_CONFIG, events, Analyzer.START);
    FirstRow();
    assert events[1..] == [Acquired(2, 2, 0)];
    Single(DEPENDENCY_CONFIG, Acquired(2, 2, 0), OneHolding());
    SecondRow();
  }

  lemma AskForTheOther()
    ensures Analyzer.AnalyzeEvents(DEPENDENCY_CONFIG, INVERTED_EVENTS[2..], BothHolding()) == BothRefused()
  {
    var events := INVERTED_EVENTS[2..];
    assert events == [Acquired(1, 2, 0), Acquired(2, 1, 0)];
    Unfold(DEPENDENCY_CONFIG, events, BothHolding());
    ThirdRow();
    assert events[1..] == [Acquired(2, 1, 0)];
    Single(DEPENDENCY_CONFIG, Acquired(2, 1, 0), OneRefused());
    FourthRow();
  }

  /** The inverted acquisitions are both reported, and both are recorded as
      dependencies. */
  lemma InversionRecorded()
    ensures var r := Analyzer.AnalyzeEvents(DEPENDENCY_CONFIG, INVERTED_EVENTS, Analyzer.START);
      && r.errors == [Analyzer.RepeatedAcquisition(2, 1, 2, 3), Analyzer.RepeatedAcquisition(1, 2, 1, 4)]
      && r.tables.dependencies == INVERSION
  {
    assert INVERTED_EVENTS == INVERTED_EVENTS[..2] + INVERTED_EVENTS[2..];
    Analyzer.AnalyzeEventsAppend(DEPENDENCY_CONFIG, INVERTED_EVENTS[..2], INVERTED_EVENTS[2..], Analyzer.START);
    TakeOneEach();
    AskForTheOther();
  }

  /** The same inversion, with both threads also holding lock 0. */
  const GUARDED: seq<Analyzer.LockDependency> := [
    Analyzer.LockDependency(1, 2, {0, 1}, 4),
    Analyzer.LockDependency(2, 1, {0, 2}, 6)
  ]

  /** A lock-order inversion is counted as a deadlock, whatever order the
      maps and sets are iterated in. */
  lemma InversionDeadlocks(order: map<i64, seq<i64>>, roots: seq<i64>)
    requires Lists(order, ThreadGraphOf(INVERSION))
    requires Enumerates(roots, ThreadGraphOf(INVERSION))
    ensures ValidateDependencyGraph(ThreadGraphOf(INVERSION), order, roots) > 0
  {
    var g := ThreadGraphOf(INVERSION);
    assert DependsOn(INVERSION[2], INVERSION[3]) && DependsOn(INVERSION[3], INVERSION[2]);
    ThreadGraphEdges(INVERSION, 1, 2);
    ThreadGraphEdges(INVERSION, 2, 1);
    assert IsCycle(g, [1, 2, 1]);
  }

  /** A guard lock held by both threads removes every edge, so nothing is
      counted. */
  lemma GuardLockPrevents(order: map<i64, seq<i64>>, roots: seq<i64>)
    requires Lists(order, ThreadGraphOf(GUARDED))
    requires Enumerates(roots, ThreadGraphOf(GUARDED))
    ensures ValidateDependencyGraph(ThreadGraphOf(GUARDED), order, roots) == 0
  {
    var g := ThreadGraphOf(GUARDED);
    forall a, b ensures !HasEdge(g, a, b) {
      ThreadGraphEdges(GUARDED, a, b);
      forall e, o | e in GUARDED && o in GUARDED ensures !DependsOn(e, o) {
        GuardHeld(e);
        GuardHeld(o);
        assert 0 in o.acquiredLocks * e.acquiredLocks;
      }
    }
    forall p ensures !IsCycle(g, p) {
      NoEdgeNoCycle(g, p);
    }
  }

  lemma GuardHeld(e: Analyzer.LockDependency)
    ensures e in GUARDED ==> 0 in e.acquiredLocks
  {
    if e in GUARDED {
      var i :| 0 <= i < |GUARDED| && GUARDED[i] == e;
      assert i == 0 || i == 1;
    }
  }

  lemma NoEdgeNoCycle(g: Graph, p: seq<i64>)
    requires forall a, b :: !HasEdge(g, a, b)
    ensures !IsCycle(g, p)
  {
    if |p| >= 2 {
      assert !HasEdge(g, p[0], p[1]);
    }
  }
}
