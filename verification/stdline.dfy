/** The STD front end for one trace line (the body of the loop in
    `analyze_std_trace`): tokenize, normalize when asked, parse. */
module StdLine {
  import opened Common
  import opened Tokens
  import Lexer
  import Normalizer
  import Parser

  /** Why a line produced no event. */
  datatype LineError =
    | LexFailure(lexError: Lexer.LexerError)
    | ParseFailure(parseError: Parser.ParseError)

  /** The event of one line, or the error that ends the trace. */
  function ReadLine(line: string, normalize: bool): (r: Result<Parser.Event, LineError>)
    requires Lexer.TokenizeDefined(line, normalize)
    ensures Lexer.Lex(line).Err? ==> r.Err? && r.error.LexFailure?
    ensures r.Ok? ==> Parser.WellFormedEvent(r.value)
    ensures r.Ok? ==> Parser.Printable(r.value)
    ensures r.Ok? ==> Lexer.TokenizeSource(line, normalize) == Ok(Parser.Render(r.value))
  {
    match Lexer.TokenizeSource(line, normalize)
    case Err(e) => Err(LexFailure(e))
    case Ok(tokens) =>
      match Parser.Parse(tokens)
      case Err(e) => Err(ParseFailure(e))
      case Ok(event) =>
        Parser.RenderParse(tokens);
        Ok(event)
  }

  /** Normalization turns the raw line of an event into its rendered line:
      the bare operand number is retyped by the keyword. */
  lemma NormalizeRawLine(t: i64, op: Parser.Operation, n: i64, l: i64)
    requires op in {Parser.Read, Parser.Write, Parser.Acquire, Parser.Request, Parser.Release, Parser.Fork, Parser.Join}
    ensures Normalizer.Normalizable(Lexer.RawLine(t, Parser.Keyword(op), n, l))
    ensures Parser.Printable(Parser.Event(t, op, Parser.OperandNew(op, n), l))
    ensures Normalizer.NormalizeTokens(Lexer.RawLine(t, Parser.Keyword(op), n, l))
         == Parser.Render(Parser.Event(t, op, Parser.OperandNew(op, n), l))
  {
    Normalizer.NormalizeLine(t, Parser.Keyword(op), n, l);
    RetypeAgrees(op, n);
  }

  /** The keyword of an operation retypes a number as the operand
      `Operand::new` builds for that operation. */
  lemma RetypeAgrees(op: Parser.Operation, n: i64)
    requires op in {Parser.Read, Parser.Write, Parser.Acquire, Parser.Request, Parser.Release, Parser.Fork, Parser.Join}
    ensures Normalizer.Retype(Parser.Keyword(op), n) == Parser.OperandToken(Parser.OperandNew(op, n))
  {
  }

  /** A printed raw STD line `T<t>|<keyword>(<n>)|<l>` with normalization on
      reads as the event the operation's `Operand::new` builds from `n`. */
  lemma ReadRawLine(t: i64, op: Parser.Operation, n: i64, l: i64)
    requires t >= 0 && n >= 0 && l >= 0
    requires op in {Parser.Read, Parser.Write, Parser.Acquire, Parser.Request, Parser.Release, Parser.Fork, Parser.Join}
    ensures forall i :: 0 <= i < 8 ==> Lexer.NonNegativePayload(Lexer.RawLine(t, Parser.Keyword(op), n, l)[i])
    ensures Lexer.TokenizeDefined(Lexer.Glue(Lexer.RawLine(t, Parser.Keyword(op), n, l)), true)
    ensures ReadLine(Lexer.Glue(Lexer.RawLine(t, Parser.Keyword(op), n, l)), true)
         == Ok(Parser.Event(t, op, Parser.OperandNew(op, n), l))
  {
    var raw := Lexer.RawLine(t, Parser.Keyword(op), n, l);
    Lexer.LexRawLine(t, Parser.Keyword(op), n, l);
    NormalizeRawLine(t, op, n, l);
    Parser.ParseRender(Parser.Event(t, op, Parser.OperandNew(op, n), l));
  }

  /** Without normalization the same line is rejected at the operand: the
      grammar has no rule for a bare number there. */
  lemma ReadRawLineUnnormalized(t: i64, op: Parser.Operation, n: i64, l: i64)
    requires t >= 0 && n >= 0 && l >= 0
    requires op in {Parser.Read, Parser.Write, Parser.Acquire, Parser.Request, Parser.Release, Parser.Fork, Parser.Join}
    ensures forall i :: 0 <= i < 8 ==> Lexer.NonNegativePayload(Lexer.RawLine(t, Parser.Keyword(op), n, l)[i])
    ensures ReadLine(Lexer.Glue(Lexer.RawLine(t, Parser.Keyword(op), n, l)), false)
         == Err(ParseFailure(Parser.ParseError(4, Parser.EXPECTED_OPERAND)))
  {
    var raw := Lexer.RawLine(t, Parser.Keyword(op), n, l);
    Lexer.LexRawLine(t, Parser.Keyword(op), n, l);
    BareOperandRejected(raw);
  }

  /** A bare number in operand position is where the grammar stops. */
  lemma BareOperandRejected(ts: seq<Token>)
    requires |ts| > 4 && ts[0].ThreadIdentifier? && ts[1].Pipe? && Parser.OperationRule(ts[2]).Some?
    requires ts[3].LeftParenthesis? && ts[4].LineNumber?
    ensures Parser.Parse(ts) == Err(Parser.ParseError(4, Parser.EXPECTED_OPERAND))
  {
  }

  /** The raw line of thread 6 writing 4294967298 at line 59 prints as
      `T6|w(4294967298)|59`. */
  lemma ValidTraceLineText()
    ensures forall i :: 0 <= i < 8 ==> Lexer.NonNegativePayload(Lexer.RawLine(6, Tokens.Write, 4294967298, 59)[i])
    ensures Lexer.Glue(Lexer.RawLine(6, Tokens.Write, 4294967298, 59)) == "T6|w(4294967298)|59"
  {
    assert "(" + ("4294967298" + (")" + ("|" + "59"))) == "(4294967298)|59";
    assert "T" + "6" + ("|" + ("w" + "(4294967298)|59")) == "T6|w(4294967298)|59";
    var ts := Lexer.RawLine(6, Tokens.Write, 4294967298, 59);
    var n, l := Lexer.DecimalString(4294967298), Lexer.DecimalString(59);
    assert Lexer.Glue(ts) == "T" + Lexer.DecimalString(6) + ("|" + (Lexer.Show(Tokens.Write) + ("(" + (n + (")" + ("|" + l))))))
    by {
      Lexer.RawLineText(6, Tokens.Write, 4294967298, 59);
    }
    assert n == "4294967298" && l == "59" by {
      Lexer.DecimalExamples();
    }
    assert Lexer.DecimalString(6) == "6";
    assert Lexer.Show(Tokens.Write) == "w";
  }

  /** The valid trace line `T6|w(4294967298)|59` reads as a write of memory
      location 4294967298 (src/parser.rs:152-170): its bare operand does not
      fit 32 bits but does fit the i64 of `id`. */
  lemma ValidTraceLine()
    ensures Lexer.Glue(Lexer.RawLine(6, Tokens.Write, 4294967298, 59)) == "T6|w(4294967298)|59"
    ensures forall i :: 0 <= i < 8 ==> Lexer.NonNegativePayload(Lexer.RawLine(6, Tokens.Write, 4294967298, 59)[i])
    ensures Lexer.TokenizeDefined(Lexer.Glue(Lexer.RawLine(6, Tokens.Write, 4294967298, 59)), true)
    ensures ReadLine(Lexer.Glue(Lexer.RawLine(6, Tokens.Write, 4294967298, 59)), true)
         == Ok(Parser.Event(6, Parser.Write, Parser.MemoryLocation(4294967298), 59))
  {
    ReadRawLine(6, Parser.Write, 4294967298, 59);
    ValidTraceLineText();
  }
}
