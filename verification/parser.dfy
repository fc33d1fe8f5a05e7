/** The event model and the one-line PEG grammar of the STD format
    (src/parser.rs). */
module Parser {
  import opened Common
  import Tokens

  datatype Operation =
    | Read
    | Write
    | Acquire
    | Request
    | Release
    | Fork
    | Join
    | Begin
    | End
    | Branch

  datatype Operand =
    | MemoryLocation(memory: i64)
    | LockIdentifier(lock: i64)
    | ThreadIdentifier(thread: i64)
    | None

  datatype Event = Event(threadIdentifier: i64, operation: Operation, operand: Operand, loc: i64)

  /** The failure of the PEG parser: the farthest token index reached and the
      patterns that were expected there. */
  datatype ParseError = ParseError(location: nat, expected: set<string>)

  /** The numeric operation code of the RapidBin format, the inverse of `OperationNew`. */
  function OperationCode(op: Operation): (code: nat)
    ensures code < 10
    ensures OperationNew(code) == Some(op)
  {
    match op
    case Acquire => 0
    case Release => 1
    case Read => 2
    case Write => 3
    case Fork => 4
    case Join => 5
    case Begin => 6
    case End => 7
    case Request => 8
    case Branch => 9
  }

  /** `Operation::new`: the operation a numeric code stands for. */
  function OperationNew(value: int): (r: Option<Operation>)
    ensures r.Some? <==> 0 <= value < 10
  {
    match value
    case 0 => Some(Acquire)
    case 1 => Some(Release)
    case 2 => Some(Read)
    case 3 => Some(Write)
    case 4 => Some(Fork)
    case 5 => Some(Join)
    case 6 => Some(Begin)
    case 7 => Some(End)
    case 8 => Some(Request)
    case 9 => Some(Branch)
    case _ => Option.None
  }

  /** `Operation::new` and `OperationCode` are inverse bijections between the
      codes 0..9 and the ten operations. */
  lemma OperationCodeBijection(value: int)
    requires OperationNew(value).Some?
    ensures OperationCode(OperationNew(value).value) == value
  {
  }

  /** Operations that carry an operand. */
  predicate HasOperand(op: Operation) {
    !(op.Begin? || op.End? || op.Branch?)
  }

  /** `Operand::new`: the operand kind is chosen by the operation. */
  function OperandNew(op: Operation, id: i64): (r: Operand)
    ensures (op.Read? || op.Write?) <==> r.MemoryLocation?
    ensures (op.Acquire? || op.Request? || op.Release?) <==> r.LockIdentifier?
    ensures (op.Fork? || op.Join?) <==> r.ThreadIdentifier?
    ensures !HasOperand(op) <==> r.None?
    ensures HasOperand(op) ==> Id(r) == Some(id)
  {
    match op
    case Read => MemoryLocation(id)
    case Write => MemoryLocation(id)
    case Acquire => LockIdentifier(id)
    case Request => LockIdentifier(id)
    case Release => LockIdentifier(id)
    case Fork => ThreadIdentifier(id)
    case Join => ThreadIdentifier(id)
    case _ => Operand.None
  }

  /** `Operand::id`. */
  function Id(operand: Operand): (r: Option<i64>)
    ensures r.None? <==> operand.None?
  {
    match operand
    case MemoryLocation(m) => Some(m)
    case LockIdentifier(l) => Some(l)
    case ThreadIdentifier(t) => Some(t)
    case None => Option.None
  }

  // The grammar. The expected-pattern strings are those the PEG parser
  // reports: the pattern text in brackets, or EOF for unconsumed input.

  const EXPECTED_THREAD: set<string> := {"[ThreadIdentifier(thread_identifier)]"}
  const EXPECTED_PIPE: set<string> := {"[Pipe]"}
  const EXPECTED_OPERATION: set<string> :=
    {"[Read]", "[Write]", "[Acquire]", "[Request]", "[Release]", "[Fork]", "[Join]"}
  const EXPECTED_LEFT_PARENTHESIS: set<string> := {"[LeftParenthesis]"}
  const EXPECTED_OPERAND: set<string> :=
    {"[MemoryLocation(memory_location)]", "[LockIdentifier(lock_identifier)]",
     "[ThreadIdentifier(thread_identifier)]"}
  const EXPECTED_RIGHT_PARENTHESIS: set<string> := {"[RightParenthesis]"}
  const EXPECTED_LINE_NUMBER: set<string> := {"[LineNumber(loc)]"}
  const EXPECTED_EOF: set<string> := {"EOF"}

  /** The `operation` rule: one keyword token. */
  function OperationRule(t: Tokens.Token): Option<Operation> {
    match t
    case Read => Some(Read)
    case Write => Some(Write)
    case Acquire => Some(Acquire)
    case Request => Some(Request)
    case Release => Some(Release)
    case Fork => Some(Fork)
    case Join => Some(Join)
    case _ => Option.None
  }

  /** The `operand` rule: one identifier token, whatever the operation was. */
  function OperandRule(t: Tokens.Token): Option<Operand> {
    match t
    case MemoryLocation(m) => Some(MemoryLocation(m))
    case LockIdentifier(l) => Some(LockIdentifier(l))
    case ThreadIdentifier(n) => Some(ThreadIdentifier(n))
    case _ => Option.None
  }

  /** The `parse` rule over a whole token sequence (`parse_event`). */
  function Parse(ts: seq<Tokens.Token>): (r: Result<Event, ParseError>)
    ensures r.Err? ==> r.error.location <= |ts| && r.error.location <= 8
    ensures r.Ok? ==> WellFormedEvent(r.value)
  {
    if |ts| < 1 || !ts[0].ThreadIdentifier? then Err(ParseError(0, EXPECTED_THREAD))
    else if |ts| < 2 || !ts[1].Pipe? then Err(ParseError(1, EXPECTED_PIPE))
    else if |ts| < 3 || OperationRule(ts[2]).None? then Err(ParseError(2, EXPECTED_OPERATION))
    else if |ts| < 4 || !ts[3].LeftParenthesis? then Err(ParseError(3, EXPECTED_LEFT_PARENTHESIS))
    else if |ts| < 5 || OperandRule(ts[4]).None? then Err(ParseError(4, EXPECTED_OPERAND))
    else if |ts| < 6 || !ts[5].RightParenthesis? then Err(ParseError(5, EXPECTED_RIGHT_PARENTHESIS))
    else if |ts| < 7 || !ts[6].Pipe? then Err(ParseError(6, EXPECTED_PIPE))
    else if |ts| < 8 || !ts[7].LineNumber? then Err(ParseError(7, EXPECTED_LINE_NUMBER))
    else if |ts| > 8 then Err(ParseError(8, EXPECTED_EOF))
    else Ok(Event(ts[0].thread, OperationRule(ts[2]).value, OperandRule(ts[4]).value, ts[7].number))
  }

  /** An event whose Acquire or Release can be given a lock identifier: every
      operand the parser or the binary decoder builds for these has an id. */
  predicate WellFormedEvent(e: Event) {
    (e.operation.Acquire? || e.operation.Release?) ==> Id(e.operand).Some?
  }

  /** An event the STD grammar can express. */
  predicate Printable(e: Event) {
    && e.operation in {Read, Write, Acquire, Request, Release, Fork, Join}
    && !e.operand.None?
  }

  /** The keyword token of an operation the STD grammar can express. */
  function Keyword(op: Operation): (t: Tokens.Token)
    requires op in {Read, Write, Acquire, Request, Release, Fork, Join}
    ensures Tokens.IsOperationKeyword(t)
    ensures OperationRule(t) == Some(op)
  {
    match op
    case Read => Tokens.Read
    case Write => Tokens.Write
    case Acquire => Tokens.Acquire
    case Request => Tokens.Request
    case Release => Tokens.Release
    case Fork => Tokens.Fork
    case Join => Tokens.Join
  }

  /** The identifier token of an operand. */
  function OperandToken(operand: Operand): (t: Tokens.Token)
    requires !operand.None?
    ensures OperandRule(t) == Some(operand)
  {
    match operand
    case MemoryLocation(m) => Tokens.MemoryLocation(m)
    case LockIdentifier(l) => Tokens.LockIdentifier(l)
    case ThreadIdentifier(t) => Tokens.ThreadIdentifier(t)
  }

  /** The STD token line of an event, built from the token of each field
      rather than from the grammar rules. */
  function Render(e: Event): seq<Tokens.Token>
    requires Printable(e)
  {
    [Tokens.ThreadIdentifier(e.threadIdentifier), Tokens.Pipe, Keyword(e.operation), Tokens.LeftParenthesis,
     OperandToken(e.operand), Tokens.RightParenthesis, Tokens.Pipe, Tokens.LineNumber(e.loc)]
  }

  /** Parsing a rendered event gives the event back. */
  lemma ParseRender(e: Event)
    requires Printable(e)
    ensures Parse(Render(e)) == Ok(e)
  {
  }

  /** The grammar accepts exactly the rendered lines: every accepted token
      sequence is the rendering of the event parsed from it. */
  lemma RenderParse(ts: seq<Tokens.Token>)
    requires Parse(ts).Ok?
    ensures Printable(Parse(ts).value)
    ensures Render(Parse(ts).value) == ts
  {
  }

  /** The token line of the parser's unit test is accepted
      (src/test/parser.rs:6-29). */
  lemma ParseTestLine()
    ensures Parse([Tokens.ThreadIdentifier(12), Tokens.Pipe, Tokens.Write, Tokens.LeftParenthesis,
                   Tokens.MemoryLocation(6), Tokens.RightParenthesis, Tokens.Pipe, Tokens.LineNumber(42)])
         == Ok(Event(12, Write, MemoryLocation(6), 42))
  {
  }

  /** A doubled `Write` keyword is rejected at token 3, where only a left
      parenthesis could continue the line (src/test/parser.rs:32-50). */
  lemma ParseDoubleWrite()
    ensures Parse([Tokens.ThreadIdentifier(12), Tokens.Pipe, Tokens.Write, Tokens.Write, Tokens.LeftParenthesis,
                   Tokens.MemoryLocation(6), Tokens.LeftParenthesis, Tokens.Write, Tokens.LineNumber(42)])
         == Err(ParseError(3, {"[LeftParenthesis]"}))
  {
  }
}
