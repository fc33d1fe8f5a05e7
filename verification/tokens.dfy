/** The tokens of one STD trace line, as the lexer produces them
    (src/lexer.rs:8-43). Identifier-carrying tokens hold the parsed `i64`. */
module Tokens {
  import opened Common

  datatype Token =
    | Pipe
    | LeftParenthesis
    | RightParenthesis
    | LeftSquareBracket
    | RightSquareBracket
    | Write
    | Read
    | ThreadIdentifier(thread: i64)
    | LockIdentifier(lock: i64)
    | MemoryLocation(memory: i64)
    | Fork
    | Request
    | Acquire
    | Release
    | Join
    | LineNumber(number: i64)

  /** The keywords that name an operation and are followed by an operand. */
  predicate IsOperationKeyword(t: Token) {
    t.Write? || t.Read? || t.Fork? || t.Join? || t.Request? || t.Acquire? || t.Release?
  }
}
