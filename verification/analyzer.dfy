/** The lock well-formedness checker (src/analyzer.rs): the per-event lock
    state machine `analyze_event`, the lock-dependency and lock-order
    bookkeeping it does on the side, and the loops that fold it over an STD
    or RapidBin trace. */
module Analyzer {
  import opened Common
  import Parser
  import Lexer
  import StdLine
  import RapidBin

  /** A lock's entry in the table: its owner, whether it is held, and the row
      of the event that last changed it. */
  datatype Lock = Lock(owner: Option<i64>, locked: bool, row: nat)

  /** A lock-order edge: `to` was acquired while `from` was held. */
  datatype Edge = Edge(from: i64, to: i64)

  /** A thread acquiring `lockId` while holding `acquiredLocks`, first seen at `line`. */
  datatype LockDependency = LockDependency(threadId: i64, lockId: i64, acquiredLocks: set<i64>, line: nat)

  /** The command-line switches the analysis reads. */
  datatype Config = Config(normalize: bool, graph: bool, lockDependencies: bool)

  /** The errors the analysis collects, with the field names the analyzer
      constructs them with. */
  datatype AnalyzerError =
    | RepeatedAcquisition(lockId: i64, threadId: i64, ownerId: i64, row: nat)
    | RepeatedRelease(attempted: nat, previous: nat, lockId: i64, threadId: i64)
    | ReleasedNonOwningLock(row: nat, lockId: i64, threadId: i64, owner: i64)
    | ReleasedNonAcquiredLock(row: nat, lockId: i64, threadId: i64)
    | LexerError(lexerError: Lexer.LexerError)
    | ParserError(parseError: Parser.ParseError)
    | UnsupportedFileExtension

  /** The four well-formedness violations `analyze_event` reports. */
  predicate IsViolation(e: AnalyzerError) {
    e.RepeatedAcquisition? || e.RepeatedRelease? || e.ReleasedNonOwningLock? || e.ReleasedNonAcquiredLock?
  }

  /** Everything `analyze_event` mutates: the lock table, the lock-order
      edges and the lock dependencies. */
  datatype Tables = Tables(locks: map<i64, Lock>, lockGraph: set<Edge>, dependencies: seq<LockDependency>)

  const EMPTY: Tables := Tables(map[], {}, [])

  /** The tables after one event and the event's verdict. */
  datatype Step = Step(tables: Tables, result: Result<(), AnalyzerError>)

  /** A lock is held exactly when it has an owner. Every transition keeps
      this, which is what makes the `unwrap` of the owner safe. */
  predicate Consistent(locks: map<i64, Lock>) {
    forall id :: id in locks ==> (locks[id].locked <==> locks[id].owner.Some?)
  }

  /** `locks_of_thread`: the locks whose owner is the thread. */
  function LocksOfThread(thread: i64, locks: map<i64, Lock>): set<i64> {
    set id | id in locks && locks[id].owner == Some(thread)
  }

  // Lock dependencies.

  /** A dependency with the same thread, lock and held set. */
  predicate SameKey(d: LockDependency, thread: i64, lockId: i64, held: set<i64>) {
    d.threadId == thread && d.lockId == lockId && d.acquiredLocks == held
  }

  /** Some entry already records this thread, lock and held set. */
  predicate Recorded(dependencies: seq<LockDependency>, thread: i64, lockId: i64, held: set<i64>) {
    exists i :: 0 <= i < |dependencies| && SameKey(dependencies[i], thread, lockId, held)
  }

  /** No two entries share thread, lock and held set. */
  predicate NoDuplicates(dependencies: seq<LockDependency>) {
    forall i, j :: 0 <= i < j < |dependencies| ==>
      !SameKey(dependencies[j], dependencies[i].threadId, dependencies[i].lockId, dependencies[i].acquiredLocks)
  }

  /** Appends `d` unless an entry with its key exists. */
  function RecordDependency(dependencies: seq<LockDependency>, d: LockDependency): (r: seq<LockDependency>)
    ensures Recorded(r, d.threadId, d.lockId, d.acquiredLocks)
    ensures NoDuplicates(dependencies) ==> NoDuplicates(r)
    ensures r == dependencies || r == dependencies + [d]
    ensures r == dependencies + [d] <==> !Recorded(dependencies, d.threadId, d.lockId, d.acquiredLocks)
  {
    if Recorded(dependencies, d.threadId, d.lockId, d.acquiredLocks) then dependencies
    else
      assert r: (dependencies + [d])[|dependencies|] == d;
      dependencies + [d]
  }

  /** The lock-order edges from every held lock to the acquired one. */
  function OrderEdges(held: set<i64>, lockId: i64): set<Edge> {
    set from | from in held :: Edge(from, lockId)
  }

  // The state machine.

  /** The Acquire arm. Dependencies and edges are recorded before the
      ownership check, so a failing acquisition records them too. */
  function Acquire(config: Config, thread: i64, lockId: i64, tables: Tables, line: nat): (s: Step)
    requires Consistent(tables.locks)
    ensures Consistent(s.tables.locks)
    ensures s.result.Err? <==>
      lockId in tables.locks && tables.locks[lockId].locked && tables.locks[lockId].owner != Some(thread)
    ensures s.result.Err? ==> s.tables.locks == tables.locks
    ensures s.result.Err? ==>
      s.result.error == RepeatedAcquisition(lockId, thread, tables.locks[lockId].owner.value, line)
    ensures s.result.Ok? ==> lockId in s.tables.locks && s.tables.locks[lockId] == Lock(Some(thread), true, line)
    ensures s.tables.locks - {lockId} == tables.locks - {lockId}
    ensures s.result.Ok? ==> LocksOfThread(thread, s.tables.locks) == LocksOfThread(thread, tables.locks) + {lockId}
    ensures config.lockDependencies ==>
      Recorded(s.tables.dependencies, thread, lockId, LocksOfThread(thread, tables.locks))
    ensures config.lockDependencies ==>
      || s.tables.dependencies == tables.dependencies
      || s.tables.dependencies == tables.dependencies + [LockDependency(thread, lockId, LocksOfThread(thread, tables.locks), line)]
    ensures !config.lockDependencies ==> s.tables.dependencies == tables.dependencies
    ensures NoDuplicates(tables.dependencies) ==> NoDuplicates(s.tables.dependencies)
    ensures config.graph ==> forall held :: held in LocksOfThread(thread, tables.locks) ==> Edge(held, lockId) in s.tables.lockGraph
    ensures forall e :: e in s.tables.lockGraph ==>
      e in tables.lockGraph || (e.to == lockId && e.from in LocksOfThread(thread, tables.locks))
    ensures tables.lockGraph <= s.tables.lockGraph
    ensures !config.graph ==> s.tables.lockGraph == tables.lockGraph
  {
    var held := LocksOfThread(thread, tables.locks);
    var dependencies :=
      if config.lockDependencies then RecordDependency(tables.dependencies, LockDependency(thread, lockId, held, line))
      else tables.dependencies;
    var lockGraph := if config.graph then tables.lockGraph + OrderEdges(held, lockId) else tables.lockGraph;
    if lockId in tables.locks && tables.locks[lockId].locked && tables.locks[lockId].owner.value != thread then
      Step(Tables(tables.locks, lockGraph, dependencies),
        Err(RepeatedAcquisition(lockId, thread, tables.locks[lockId].owner.value, line)))
    else
      var locks := tables.locks[lockId := Lock(Some(thread), true, line)];
      assert LocksOfThread(thread, locks) == LocksOfThread(thread, tables.locks) + {lockId};
      Step(Tables(locks, lockGraph, dependencies), Ok(()))
  }

  /** The Release arm: three checks in a fixed order, then the lock is
      freed. The dependency removal acts on a copy, so the dependencies and
      the edges never change. */
  function Release(thread: i64, lockId: i64, tables: Tables, line: nat): (s: Step)
    requires Consistent(tables.locks)
    ensures Consistent(s.tables.locks)
    ensures s.tables.dependencies == tables.dependencies && s.tables.lockGraph == tables.lockGraph
    ensures s.result.Err? ==> s.tables == tables
    ensures lockId !in tables.locks ==> s.result == Err(ReleasedNonAcquiredLock(line, lockId, thread))
    ensures lockId in tables.locks && !tables.locks[lockId].locked ==>
      s.result == Err(RepeatedRelease(line, tables.locks[lockId].row, lockId, thread))
    ensures lockId in tables.locks && tables.locks[lockId].locked && tables.locks[lockId].owner != Some(thread) ==>
      s.result == Err(ReleasedNonOwningLock(line, lockId, thread, tables.locks[lockId].owner.value))
    ensures s.result.Ok? <==>
      lockId in tables.locks && tables.locks[lockId].locked && tables.locks[lockId].owner == Some(thread)
    ensures s.result.Ok? ==> lockId in s.tables.locks && s.tables.locks[lockId] == Lock(None, false, line)
    ensures s.tables.locks - {lockId} == tables.locks - {lockId}
    ensures s.result.Ok? ==> LocksOfThread(thread, s.tables.locks) == LocksOfThread(thread, tables.locks) - {lockId}
  {
    if lockId !in tables.locks then Step(tables, Err(ReleasedNonAcquiredLock(line, lockId, thread)))
    else
      var lock := tables.locks[lockId];
      if !lock.locked then Step(tables, Err(RepeatedRelease(line, lock.row, lockId, thread)))
      else if lock.owner.Some? && lock.owner.value != thread then
        Step(tables, Err(ReleasedNonOwningLock(line, lockId, thread, lock.owner.value)))
      else
        var locks := tables.locks[lockId := Lock(None, false, line)];
        assert LocksOfThread(thread, locks) == LocksOfThread(thread, tables.locks) - {lockId};
        Step(Tables(locks, tables.lockGraph, tables.dependencies), Ok(()))
  }

  /** `analyze_event`: only Acquire and Release touch the tables. */
  function AnalyzeEvent(config: Config, event: Parser.Event, tables: Tables, line: nat): (s: Step)
    requires Parser.WellFormedEvent(event)
    requires Consistent(tables.locks)
    ensures Consistent(s.tables.locks)
    ensures s.result.Err? ==> s.tables.locks == tables.locks && IsViolation(s.result.error)
    ensures !(event.operation.Acquire? || event.operation.Release?) ==> s == Step(tables, Ok(()))
    ensures NoDuplicates(tables.dependencies) ==> NoDuplicates(s.tables.dependencies)
    ensures !config.lockDependencies ==> s.tables.dependencies == tables.dependencies
  {
    match event.operation
    case Acquire => Acquire(config, event.threadIdentifier, Parser.Id(event.operand).value, tables, line)
    case Release => Release(event.threadIdentifier, Parser.Id(event.operand).value, tables, line)
    case _ => Step(tables, Ok(()))
  }

  // The reference: each lock is a mutex.

  /** Who holds each held lock. */
  function Holder(locks: map<i64, Lock>): map<i64, i64>
    requires Consistent(locks)
  {
    map id | id in locks && locks[id].locked :: locks[id].owner.value
  }

  /** One event on a table of mutexes: a thread may take a lock nobody else
      holds and give back a lock it holds; anything else is a violation
      (None). */
  function MutexStep(holder: map<i64, i64>, event: Parser.Event): Option<map<i64, i64>>
    requires Parser.WellFormedEvent(event)
  {
    match event.operation
    case Acquire =>
      var lockId := Parser.Id(event.operand).value;
      if lockId in holder && holder[lockId] != event.threadIdentifier then None
      else Some(holder[lockId := event.threadIdentifier])
    case Release =>
      var lockId := Parser.Id(event.operand).value;
      if lockId in holder && holder[lockId] == event.threadIdentifier then Some(holder - {lockId})
      else None
    case _ => Some(holder)
  }

  /** The analyzer accepts an event exactly when the mutex reference does,
      and an accepted event moves the holders as the reference does. */
  lemma MutexRefinement(config: Config, event: Parser.Event, tables: Tables, line: nat)
    requires Parser.WellFormedEvent(event)
    requires Consistent(tables.locks)
    ensures AnalyzeEvent(config, event, tables, line).result.Ok? <==> MutexStep(Holder(tables.locks), event).Some?
    ensures AnalyzeEvent(config, event, tables, line).result.Ok? ==>
      Holder(AnalyzeEvent(config, event, tables, line).tables.locks) == MutexStep(Holder(tables.locks), event).value
  {
    var s := AnalyzeEvent(config, event, tables, line);
    var holder := Holder(tables.locks);
    if s.result.Ok? {
      if event.operation.Acquire? {
        assert Holder(s.tables.locks) == holder[Parser.Id(event.operand).value := event.threadIdentifier];
      } else if event.operation.Release? {
        assert Holder(s.tables.locks) == holder - {Parser.Id(event.operand).value};
      }
    }
  }

  /** An accepted acquisition or release changes no other thread's held set. */
  lemma OthersUnchanged(config: Config, event: Parser.Event, tables: Tables, line: nat, other: i64)
    requires Parser.WellFormedEvent(event)
    requires Consistent(tables.locks)
    requires other != event.threadIdentifier
    requires AnalyzeEvent(config, event, tables, line).result.Ok?
    ensures LocksOfThread(other, AnalyzeEvent(config, event, tables, line).tables.locks) == LocksOfThread(other, tables.locks)
  {
    var locks := AnalyzeEvent(config, event, tables, line).tables.locks;
    forall id ensures id in LocksOfThread(other, locks) <==> id in LocksOfThread(other, tables.locks) {
    }
  }

  // The trace loops.

  /** The running state of a trace loop: the tables, the errors so far and
      the row the next analysed event gets. */
  datatype Analysis = Analysis(tables: Tables, errors: seq<AnalyzerError>, row: nat)

  /** Before the first event: empty tables, no errors, rows counted from 1. */
  const START: Analysis := Analysis(EMPTY, [], 1)

  function ErrorsOf(result: Result<(), AnalyzerError>): seq<AnalyzerError> {
    if result.Err? then [result.error] else []
  }

  predicate AllWellFormed(events: seq<Parser.Event>) {
    forall i :: 0 <= i < |events| ==> Parser.WellFormedEvent(events[i])
  }

  /** One analysed event: its violation, if any, is collected and the row
      advances either way. */
  function Advance(config: Config, a: Analysis, event: Parser.Event): Analysis
    requires Parser.WellFormedEvent(event)
    requires Consistent(a.tables.locks)
  {
    var s := AnalyzeEvent(config, event, a.tables, a.row);
    Analysis(s.tables, a.errors + ErrorsOf(s.result), a.row + 1)
  }

  /** The loop shared by both trace readers, over events already decoded:
      a violation is collected and the loop goes on. */
  function AnalyzeEvents(config: Config, events: seq<Parser.Event>, a: Analysis): (r: Analysis)
    requires AllWellFormed(events)
    requires Consistent(a.tables.locks)
    ensures Consistent(r.tables.locks)
    ensures r.row == a.row + |events|
    ensures |a.errors| <= |r.errors| <= |a.errors| + |events|
    ensures r.errors[..|a.errors|] == a.errors
    ensures forall i :: |a.errors| <= i < |r.errors| ==> IsViolation(r.errors[i])
    ensures NoDuplicates(a.tables.dependencies) ==> NoDuplicates(r.tables.dependencies)
    decreases |events|
  {
    if |events| == 0 then a
    else
      var b := Advance(config, a, events[0]);
      var r := AnalyzeEvents(config, events[1..], b);
      assert r.errors[..|a.errors|] == b.errors[..|b.errors|][..|a.errors|];
      r
  }

  /** The mutex reference run over a sequence of events: None at the first
      violation. */
  function MutexRun(holder: map<i64, i64>, events: seq<Parser.Event>): Option<map<i64, i64>>
    requires AllWellFormed(events)
    decreases |events|
  {
    if |events| == 0 then Some(holder)
    else match MutexStep(holder, events[0])
      case None => None
      case Some(next) => MutexRun(next, events[1..])
  }

  /** The loop collects no violation exactly when the mutex reference runs
      through the whole sequence, and then both end with the same holders. */
  lemma {:induction false} EventsRefinement(config: Config, events: seq<Parser.Event>, a: Analysis)
    requires AllWellFormed(events)
    requires Consistent(a.tables.locks)
    ensures |AnalyzeEvents(config, events, a).errors| == |a.errors| <==> MutexRun(Holder(a.tables.locks), events).Some?
    ensures |AnalyzeEvents(config, events, a).errors| == |a.errors| ==>
      Holder(AnalyzeEvents(config, events, a).tables.locks) == MutexRun(Holder(a.tables.locks), events).value
    decreases |events|
  {
    if |events| > 0 {
      var b := Advance(config, a, events[0]);
      MutexRefinement(config, events[0], a.tables, a.row);
      EventsRefinement(config, events[1..], b);
    }
  }

  /** The loop over a concatenation is the loop over the second part,
      started where the loop over the first part ended. */
  lemma {:induction false} AnalyzeEventsAppend(config: Config, first: seq<Parser.Event>, second: seq<Parser.Event>, a: Analysis)
    requires AllWellFormed(first + second)
    requires Consistent(a.tables.locks)
    ensures AllWellFormed(first) && AllWellFormed(second)
    ensures AnalyzeEvents(config, first + second, a) == AnalyzeEvents(config, second, AnalyzeEvents(config, first, a))
    decreases |first|
  {
    assert AllWellFormed(first) by {
      forall i | 0 <= i < |first| ensures Parser.WellFormedEvent(first[i]) {
        assert first[i] == (first + second)[i];
      }
    }
    assert AllWellFormed(second) by {
      forall i | 0 <= i < |second| ensures Parser.WellFormedEvent(second[i]) {
        assert second[i] == (first + second)[|first| + i];
      }
    }
    if |first| > 0 {
      assert (first + second)[1..] == first[1..] + second;
      AnalyzeEventsAppend(config, first[1..], second, Advance(config, a, first[0]));
    } else {
      assert first + second == second;
    }
  }

  /** Events other than Acquire and Release only advance the row. */
  lemma {:induction false} QuietEvents(config: Config, events: seq<Parser.Event>, a: Analysis)
    requires forall i :: 0 <= i < |events| ==> !(events[i].operation.Acquire? || events[i].operation.Release?)
    requires AllWellFormed(events)
    requires Consistent(a.tables.locks)
    ensures AnalyzeEvents(config, events, a) == Analysis(a.tables, a.errors, a.row + |events|)
    decreases |events|
  {
    if |events| > 0 {
      assert Advance(config, a, events[0]) == Analysis(a.tables, a.errors, a.row + 1);
      QuietEvents(config, events[1..], Advance(config, a, events[0]));
    }
  }

  // STD traces.

  /** A front-end failure, as the analyzer wraps it. */
  function FrontEndError(e: StdLine.LineError): (r: AnalyzerError)
    ensures !IsViolation(r)
  {
    match e
    case LexFailure(lexError) => LexerError(lexError)
    case ParseFailure(parseError) => ParserError(parseError)
  }

  /** Every line the loop reaches can be tokenized without a panic: the
      loop reads on only past lines that gave an event. */
  predicate StdReadable(normalize: bool, lines: seq<string>)
    decreases |lines|
  {
    |lines| == 0
    || (Lexer.TokenizeDefined(lines[0], normalize)
        && (StdLine.ReadLine(lines[0], normalize).Ok? ==> StdReadable(normalize, lines[1..])))
  }

  /** `analyze_std_trace`: a line that does not lex or parse is reported and
      ends the trace; an event is analysed and the row advances. */
  function AnalyzeStdLines(config: Config, lines: seq<string>, a: Analysis): (r: Analysis)
    requires StdReadable(config.normalize, lines)
    requires Consistent(a.tables.locks)
    ensures Consistent(r.tables.locks)
    ensures a.row <= r.row <= a.row + |lines|
    ensures |a.errors| <= |r.errors| && r.errors[..|a.errors|] == a.errors
    decreases |lines|
  {
    if |lines| == 0 then a
    else match StdLine.ReadLine(lines[0], config.normalize)
      case Err(e) => Analysis(a.tables, a.errors + [FrontEndError(e)], a.row)
      case Ok(event) =>
        var b := Advance(config, a, event);
        var r := AnalyzeStdLines(config, lines[1..], b);
        assert r.errors[..|a.errors|] == b.errors[..|b.errors|][..|a.errors|];
        r
  }

  /** Every line gives an event. */
  predicate AllRead(normalize: bool, lines: seq<string>) {
    forall i :: 0 <= i < |lines| ==>
      Lexer.TokenizeDefined(lines[i], normalize) && StdLine.ReadLine(lines[i], normalize).Ok?
  }

  /** The events of lines that all read. */
  function EventsOf(normalize: bool, lines: seq<string>): (events: seq<Parser.Event>)
    requires AllRead(normalize, lines)
    ensures |events| == |lines| && AllWellFormed(events)
    ensures forall i :: 0 <= i < |lines| ==> StdLine.ReadLine(lines[i], normalize) == Ok(events[i])
    decreases |lines|
  {
    if |lines| == 0 then []
    else
      assert AllRead(normalize, lines[1..]) by {
        forall i | 0 <= i < |lines| - 1 ensures Lexer.TokenizeDefined(lines[1..][i], normalize) {
          assert lines[1..][i] == lines[i + 1];
        }
      }
      [StdLine.ReadLine(lines[0], normalize).value] + EventsOf(normalize, lines[1..])
  }

  /** Lines that all read are analysed as the loop over their events. */
  lemma {:induction false} StdLinesAsEvents(config: Config, lines: seq<string>, a: Analysis)
    requires AllRead(config.normalize, lines)
    requires Consistent(a.tables.locks)
    ensures StdReadable(config.normalize, lines)
    ensures AnalyzeStdLines(config, lines, a) == AnalyzeEvents(config, EventsOf(config.normalize, lines), a)
    decreases |lines|
  {
    if |lines| > 0 {
      var tail := lines[1..];
      assert AllRead(config.normalize, tail) by {
        forall i | 0 <= i < |tail| ensures Lexer.TokenizeDefined(tail[i], config.normalize) {
          assert tail[i] == lines[i + 1];
        }
      }
      var event := StdLine.ReadLine(lines[0], config.normalize).value;
      StdLinesAsEvents(config, tail, Advance(config, a, event));
      assert EventsOf(config.normalize, lines)[1..] == EventsOf(config.normalize, tail);
    }
  }

  /** The first line that does not give an event ends the trace: its error
      is the last one collected, after those of the events before it, and
      the lines after it are never read. */
  lemma {:induction false} StdStopsAtFirstError(config: Config, lines: seq<string>, k: nat, a: Analysis)
    requires k < |lines|
    requires AllRead(config.normalize, lines[..k])
    requires Lexer.TokenizeDefined(lines[k], config.normalize)
    requires StdLine.ReadLine(lines[k], config.normalize).Err?
    requires Consistent(a.tables.locks)
    ensures StdReadable(config.normalize, lines)
    ensures var b := AnalyzeEvents(config, EventsOf(config.normalize, lines[..k]), a);
      AnalyzeStdLines(config, lines, a)
      == Analysis(b.tables, b.errors + [FrontEndError(StdLine.ReadLine(lines[k], config.normalize).error)], b.row)
    decreases k
  {
    if k > 0 {
      var tail := lines[1..];
      var prefix := lines[..k];
      var tailPrefix := tail[..k - 1];
      assert tailPrefix == prefix[1..];
      assert AllRead(config.normalize, tailPrefix) by {
        forall i | 0 <= i < |tailPrefix|
          ensures Lexer.TokenizeDefined(tailPrefix[i], config.normalize)
          ensures StdLine.ReadLine(tailPrefix[i], config.normalize).Ok?
        {
          assert tailPrefix[i] == prefix[i + 1];
        }
      }
      assert prefix[0] == lines[0] && tail[k - 1] == lines[k];
      var event := StdLine.ReadLine(lines[0], config.normalize).value;
      var b := Advance(config, a, event);
      StdStopsAtFirstError(config, tail, k - 1, b);
      assert AnalyzeStdLines(config, lines, a) == AnalyzeStdLines(config, tail, b);
      var events := EventsOf(config.normalize, prefix);
      assert events[0] == event;
      assert events[1..] == EventsOf(config.normalize, tailPrefix);
      assert AnalyzeEvents(config, events, a) == AnalyzeEvents(config, events[1..], b);
    }
  }

  /** Lines that do not all read have a first one that does not. */
  lemma {:induction false} FirstUnread(normalize: bool, lines: seq<string>) returns (k: nat)
    requires StdReadable(normalize, lines)
    requires !AllRead(normalize, lines)
    ensures k < |lines| && AllRead(normalize, lines[..k])
    ensures Lexer.TokenizeDefined(lines[k], normalize) && StdLine.ReadLine(lines[k], normalize).Err?
    decreases |lines|
  {
    if StdLine.ReadLine(lines[0], normalize).Err? {
      k := 0;
    } else {
      var tail := lines[1..];
      assert !AllRead(normalize, tail) by {
        if AllRead(normalize, tail) {
          forall i | 0 <= i < |lines|
            ensures Lexer.TokenizeDefined(lines[i], normalize) && StdLine.ReadLine(lines[i], normalize).Ok?
          {
            if i > 0 { assert lines[i] == tail[i - 1]; }
          }
          assert false;
        }
      }
      var j := FirstUnread(normalize, tail);
      k := j + 1;
      assert lines[k] == tail[j];
      forall i | 0 <= i < k
        ensures Lexer.TokenizeDefined(lines[..k][i], normalize) && StdLine.ReadLine(lines[..k][i], normalize).Ok?
      {
        if i > 0 { assert lines[..k][i] == tail[..j][i - 1]; }
      }
    }
  }

  // RapidBin traces.

  /** The header: a 16-bit thread count, 32-bit lock and variable counts
      and a 64-bit event count, read with `unwrap` and only logged. */
  const HEADER_LENGTH: nat := 2 + 4 + 4 + 8

  predicate AllWords(words: seq<seq<RapidBin.Byte>>) {
    forall i :: 0 <= i < |words| ==> |words[i]| == 8
  }

  /** The events of the words that decode, in order. */
  function Decoded(words: seq<seq<RapidBin.Byte>>): (events: seq<Parser.Event>)
    requires AllWords(words)
    ensures AllWellFormed(events) && |events| <= |words|
    decreases |words|
  {
    if |words| == 0 then []
    else match RapidBin.TryParseEvent(words[0])
      case None => Decoded(words[1..])
      case Some(event) => [event] + Decoded(words[1..])
  }

  /** The loop of `analyze_rapid_trace` over the 8-byte words: a word that
      does not decode is skipped without using up a row. */
  function AnalyzeRapidWords(config: Config, words: seq<seq<RapidBin.Byte>>, a: Analysis): (r: Analysis)
    requires AllWords(words)
    requires Consistent(a.tables.locks)
    ensures Consistent(r.tables.locks)
    ensures a.row <= r.row <= a.row + |words|
    decreases |words|
  {
    if |words| == 0 then a
    else match RapidBin.TryParseEvent(words[0])
      case None => AnalyzeRapidWords(config, words[1..], a)
      case Some(event) => AnalyzeRapidWords(config, words[1..], Advance(config, a, event))
  }

  /** `analyze_rapid_trace`: the header is skipped, then whole words are
      read until fewer than eight bytes remain. */
  function AnalyzeRapid(config: Config, bytes: seq<RapidBin.Byte>, a: Analysis): (r: Analysis)
    requires |bytes| >= HEADER_LENGTH
    requires Consistent(a.tables.locks)
    ensures Consistent(r.tables.locks)
    ensures a.row <= r.row <= a.row + (|bytes| - HEADER_LENGTH) / 8
  {
    AnalyzeRapidWords(config, RapidBin.Words(bytes[HEADER_LENGTH..]), a)
  }

  /** The RapidBin loop is the event loop over the decoded events: rows
      count decoded events only. */
  lemma {:induction false} RapidAsEvents(config: Config, words: seq<seq<RapidBin.Byte>>, a: Analysis)
    requires AllWords(words)
    requires Consistent(a.tables.locks)
    ensures AnalyzeRapidWords(config, words, a) == AnalyzeEvents(config, Decoded(words), a)
    decreases |words|
  {
    if |words| > 0 {
      match RapidBin.TryParseEvent(words[0])
      case None =>
        RapidAsEvents(config, words[1..], a);
      case Some(event) =>
        RapidAsEvents(config, words[1..], Advance(config, a, event));
        assert ([event] + Decoded(words[1..]))[1..] == Decoded(words[1..]);
    }
  }

  // Whole traces.

  /** A trace by file extension: `.std` lines, `.data` bytes, or anything else. */
  datatype Trace = StdTrace(lines: seq<string>) | RapidTrace(bytes: seq<RapidBin.Byte>) | OtherTrace

  /** The trace can be analysed without a panic. */
  predicate Readable(config: Config, trace: Trace) {
    match trace
    case StdTrace(lines) => StdReadable(config.normalize, lines)
    case RapidTrace(bytes) => |bytes| >= HEADER_LENGTH
    case OtherTrace => true
  }

  function Analyze(config: Config, trace: Trace): (r: Analysis)
    requires Readable(config, trace)
    ensures Consistent(r.tables.locks)
  {
    match trace
    case StdTrace(lines) => AnalyzeStdLines(config, lines, START)
    case RapidTrace(bytes) => AnalyzeRapid(config, bytes, START)
    case OtherTrace => Analysis(START.tables, [UnsupportedFileExtension], START.row)
  }

  /** `analyze_trace`: Ok when nothing was collected, otherwise every
      collected error in order. */
  function AnalyzeTrace(config: Config, trace: Trace): (r: Result<(), seq<AnalyzerError>>)
    requires Readable(config, trace)
    ensures r.Err? ==> |r.error| > 0
    ensures trace.OtherTrace? ==> r == Err([UnsupportedFileExtension])
  {
    var errors := Analyze(config, trace).errors;
    if |errors| == 0 then Ok(()) else Err(errors)
  }

  /** An STD trace is accepted exactly when every line gives an event and
      the events use every lock as a mutex. */
  lemma StdVerdict(config: Config, lines: seq<string>)
    requires StdReadable(config.normalize, lines)
    ensures AnalyzeTrace(config, StdTrace(lines)).Ok?
      <==> AllRead(config.normalize, lines) && MutexRun(map[], EventsOf(config.normalize, lines)).Some?
  {
    assert Holder(START.tables.locks) == map[];
    if AllRead(config.normalize, lines) {
      StdLinesAsEvents(config, lines, START);
      EventsRefinement(config, EventsOf(config.normalize, lines), START);
    } else {
      var k := FirstUnread(config.normalize, lines);
      StdStopsAtFirstError(config, lines, k, START);
    }
  }

  /** A RapidBin trace is accepted exactly when its decoded events use every
      lock as a mutex. */
  lemma RapidVerdict(config: Config, bytes: seq<RapidBin.Byte>)
    requires |bytes| >= HEADER_LENGTH
    ensures AllWords(RapidBin.Words(bytes[HEADER_LENGTH..]))
    ensures AnalyzeTrace(config, RapidTrace(bytes)).Ok?
      <==> MutexRun(map[], Decoded(RapidBin.Words(bytes[HEADER_LENGTH..]))).Some?
  {
    var words := RapidBin.Words(bytes[HEADER_LENGTH..]);
    assert Holder(START.tables.locks) == map[];
    RapidAsEvents(config, words, START);
    EventsRefinement(config, Decoded(words), START);
  }
}
