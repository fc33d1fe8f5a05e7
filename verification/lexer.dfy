/** The STD lexer (src/lexer.rs): a longest-match scanner over the token
    patterns of the `Token` enum, the `id` callback, Rust's `i64` parsing,
    and `tokenize_source` with its optional normalization. */
module Lexer {
  import opened Common
  import opened Tokens
  import Normalizer

  /** The lexer's only error; the scanner reports it for any character no
      pattern matches, and for a number its callback cannot convert. */
  datatype LexerError = NonAsciiCharacter

  predicate IsDigit(c: char) {
    '0' <= c <= '9'
  }

  function DigitValue(c: char): (d: nat)
    requires IsDigit(c)
    ensures d < 10
  {
    (c as int) - ('0' as int)
  }

  predicate AllDigits(s: string) {
    forall i :: 0 <= i < |s| ==> IsDigit(s[i])
  }

  /** The value of a string of decimal digits, most significant first. */
  function DecimalValue(s: string): nat
    requires AllDigits(s)
    decreases |s|
  {
    if |s| == 0 then 0 else DecimalValue(s[..|s| - 1]) * 10 + DigitValue(s[|s| - 1])
  }

  /** Rust's `str::parse::<i64>`: an optional sign and at least one decimal
      digit, nothing else, and the value within the `i64` range. */
  function ParseI64(s: string): (r: Option<i64>)
    ensures r.Some? ==> |s| > 0
    ensures AllDigits(s) && |s| > 0 ==> (r.Some? <==> DecimalValue(s) <= I64_MAX)
    ensures AllDigits(s) && |s| > 0 && r.Some? ==> r.value == DecimalValue(s)
  {
    if |s| == 0 then None
    else if s[0] == '-' || s[0] == '+' then
      var digits := s[1..];
      if |digits| == 0 || !AllDigits(digits) then None
      else
        var v: int := if s[0] == '-' then 0 - DecimalValue(digits) as int else DecimalValue(digits);
        if I64_MIN <= v <= I64_MAX then Some(v) else None
    else if !AllDigits(s) then None
    else if DecimalValue(s) <= I64_MAX then Some(DecimalValue(s))
    else None
  }

  /** The `id` callback: drop the one-letter prefix and parse the rest. */
  function Id(slice: string): (r: Option<i64>)
    requires |slice| >= 1
    ensures AllDigits(slice[1..]) && |slice| >= 2 ==>
              (r.Some? <==> DecimalValue(slice[1..]) <= I64_MAX)
    ensures r.Some? ==> |slice| >= 2
  {
    ParseI64(slice[1..])
  }

  /** The characters the lexer skips: `[ \r\t\n\f]`. */
  predicate IsSkipped(c: char) {
    c == ' ' || c == '\r' || c == '\t' || c == '\n' || c as int == 12
  }

  /** The number of leading decimal digits. */
  function DigitRun(s: string): (n: nat)
    ensures n <= |s|
    ensures AllDigits(s[..n])
    ensures n < |s| ==> !IsDigit(s[n])
    decreases |s|
  {
    if |s| == 0 || !IsDigit(s[0]) then 0
    else
      var n := 1 + DigitRun(s[1..]);
      assert s[..n] == [s[0]] + s[1..][..n - 1];
      n
  }

  /** The length of a field qualifier `.[0-9]+[[0-9]+]` at the start of `s`,
      or 0 when there is none. */
  function QualifierLength(s: string): (n: nat)
    ensures n <= |s|
    ensures n > 0 ==> n >= 5 && s[0] == '.' && s[n - 1] == ']'
  {
    if |s| > 0 && s[0] == '.' then
      var a := DigitRun(s[1..]);
      if a > 0 && 1 + a < |s| && s[1 + a] == '[' then
        var b := DigitRun(s[2 + a..]);
        if b > 0 && 2 + a + b < |s| && s[2 + a + b] == ']' then 3 + a + b else 0
      else 0
    else 0
  }

  /** One token matched at the start of the input, with its length. */
  datatype Scan = Scan(token: Token, length: nat)

  /** Identifier-carrying token for a prefix letter. */
  function IdentifierToken(prefix: char, v: i64): Token {
    if prefix == 'T' then ThreadIdentifier(v)
    else if prefix == 'L' then LockIdentifier(v)
    else MemoryLocation(v)
  }

  /** The longest pattern match at the start of `s` and the token it yields,
      or None when no pattern matches or the callback rejects the match. */
  function NextToken(s: string): (r: Option<Scan>)
    requires |s| > 0
    ensures r.Some? ==> 0 < r.value.length <= |s|
  {
    var c := s[0];
    if c == 'T' || c == 'L' || c == 'V' then ScanIdentifier(s)
    else if IsDigit(c) then ScanNumber(s)
    else ScanFixed(s)
  }

  /** The punctuation and keyword patterns; for `r`, `rel` and `req` the
      longer match wins. */
  function ScanFixed(s: string): (r: Option<Scan>)
    requires |s| > 0
    ensures r.Some? ==> 0 < r.value.length <= |s|
  {
    var c := s[0];
    if c == '|' then Some(Scan(Pipe, 1))
    else if c == '(' then Some(Scan(LeftParenthesis, 1))
    else if c == ')' then Some(Scan(RightParenthesis, 1))
    else if c == '[' then Some(Scan(LeftSquareBracket, 1))
    else if c == ']' then Some(Scan(RightSquareBracket, 1))
    else if c == 'w' then Some(Scan(Write, 1))
    else if c == 'r' then
      if "rel" <= s then Some(Scan(Release, 3))
      else if "req" <= s then Some(Scan(Request, 3))
      else Some(Scan(Read, 1))
    else if c == 'f' then (if "fork" <= s then Some(Scan(Fork, 4)) else None)
    else if c == 'a' then (if "acq" <= s then Some(Scan(Acquire, 3)) else None)
    else if c == 'j' then (if "join" <= s then Some(Scan(Join, 4)) else None)
    else None
  }

  /** `T[0-9]+`, `L[0-9]+` and `V[0-9]+(\.[0-9]+\[[0-9]+\])?`, converted by `id`. */
  function ScanIdentifier(s: string): (r: Option<Scan>)
    requires |s| > 0
    ensures r.Some? ==> 0 < r.value.length <= |s|
  {
    var c := s[0];
    var d := DigitRun(s[1..]);
    if d == 0 then None
    else
      var n := 1 + d + (if c == 'V' then QualifierLength(s[1 + d..]) else 0);
      match Id(s[..n])
      case None => None
      case Some(v) => Some(Scan(IdentifierToken(c, v), n))
  }

  /** `[0-9]+`, converted by `str::parse`. */
  function ScanNumber(s: string): (r: Option<Scan>)
    requires |s| > 0
    ensures r.Some? ==> 0 < r.value.length <= |s|
  {
    var d := DigitRun(s);
    match ParseI64(s[..d])
    case None => None
    case Some(v) => Some(Scan(LineNumber(v), d))
  }

  /** The number a token carries is never negative: the patterns admit digits only. */
  predicate NonNegativePayload(t: Token) {
    match t
    case ThreadIdentifier(n) => n >= 0
    case LockIdentifier(n) => n >= 0
    case MemoryLocation(n) => n >= 0
    case LineNumber(n) => n >= 0
    case _ => true
  }

  /** The token stream of a line; the first failure ends lexing with an error
      and no tokens (the `collect` into a `Result`). */
  function Lex(s: string): (r: Result<seq<Token>, LexerError>)
    ensures r.Ok? ==> forall i :: 0 <= i < |r.value| ==> NonNegativePayload(r.value[i])
    ensures r.Ok? ==> |r.value| <= |s|
    decreases |s|
  {
    if |s| == 0 then Ok([])
    else if IsSkipped(s[0]) then Lex(s[1..])
    else
      match NextToken(s)
      case None => Err(NonAsciiCharacter)
      case Some(scan) =>
        match Lex(s[scan.length..])
        case Err(e) => Err(e)
        case Ok(rest) => Ok([scan.token] + rest)
  }

  /** `tokenize_source`: lex the line, then normalize the tokens when asked.
      A lexing error is returned before normalization is considered. */
  function TokenizeSource(source: string, normalize: bool): (r: Result<seq<Token>, LexerError>)
    requires TokenizeDefined(source, normalize)
    ensures Lex(source).Err? ==> r.Err?
    ensures Lex(source).Ok? && !normalize ==> r == Lex(source)
    ensures Lex(source).Ok? && normalize ==> r.Ok? && |r.value| <= |Lex(source).value|
    ensures Lex(source).Ok? && normalize ==> r == Ok(Normalizer.NormalizeTokens(Lex(source).value))
  {
    match Lex(source)
    case Err(e) => Err(e)
    case Ok(tokens) => if normalize then Ok(Normalizer.NormalizeTokens(tokens)) else Ok(tokens)
  }

  /** `tokenize_source` does not panic: normalization unwraps the second token
      after every keyword of the lexed line. */
  predicate TokenizeDefined(source: string, normalize: bool) {
    normalize && Lex(source).Ok? ==> Normalizer.Normalizable(Lex(source).value)
  }

  // A printer for tokens, the partner of the lexer.

  function DigitChar(d: nat): (c: char)
    requires d < 10
    ensures IsDigit(c) && DigitValue(c) == d
  {
    (('0' as int) + d) as char
  }

  /** The decimal digits of a natural number, without leading zeros. */
  function DecimalString(n: nat): (s: string)
    ensures |s| > 0 && AllDigits(s)
    decreases n
  {
    if n < 10 then [DigitChar(n)] else DecimalString(n / 10) + [DigitChar(n % 10)]
  }

  lemma {:induction false} DecimalRoundTrip(n: nat)
    ensures DecimalValue(DecimalString(n)) == n
    decreases n
  {
    var s := DecimalString(n);
    if n < 10 {
      assert s[..|s| - 1] == [];
    } else {
      DecimalRoundTrip(n / 10);
      assert s[..|s| - 1] == DecimalString(n / 10);
    }
  }

  /** The source text of a token with a non-negative payload. */
  function Show(t: Token): (s: string)
    requires NonNegativePayload(t)
    ensures |s| > 0
  {
    match t
    case Pipe => "|"
    case LeftParenthesis => "("
    case RightParenthesis => ")"
    case LeftSquareBracket => "["
    case RightSquareBracket => "]"
    case Write => "w"
    case Read => "r"
    case ThreadIdentifier(n) => "T" + DecimalString(n)
    case LockIdentifier(n) => "L" + DecimalString(n)
    case MemoryLocation(n) => "V" + DecimalString(n)
    case Fork => "fork"
    case Request => "req"
    case Acquire => "acq"
    case Release => "rel"
    case Join => "join"
    case LineNumber(n) => DecimalString(n)
  }

  /** The text after a token does not extend its match. */
  predicate Ends(t: Token, rest: string) {
    match t
    case ThreadIdentifier(_) => |rest| == 0 || !IsDigit(rest[0])
    case LockIdentifier(_) => |rest| == 0 || !IsDigit(rest[0])
    case LineNumber(_) => |rest| == 0 || !IsDigit(rest[0])
    case MemoryLocation(_) => |rest| == 0 || (!IsDigit(rest[0]) && rest[0] != '.')
    case Read => |rest| == 0 || rest[0] != 'e'
    case _ => true
  }

  lemma {:induction false} DigitRunOf(d: string, rest: string)
    requires AllDigits(d)
    requires |rest| == 0 || !IsDigit(rest[0])
    ensures DigitRun(d + rest) == |d|
    decreases |d|
  {
    if |d| > 0 {
      assert (d + rest)[1..] == d[1..] + rest;
      DigitRunOf(d[1..], rest);
    } else {
      assert d + rest == rest;
    }
  }

  lemma ParseDecimalString(n: i64)
    requires n >= 0
    ensures ParseI64(DecimalString(n)) == Some(n)
  {
    DecimalRoundTrip(n);
  }

  /** An identifier token followed by text that does not extend it. */
  lemma NextTokenIdentifier(prefix: char, n: i64, rest: string)
    requires prefix == 'T' || prefix == 'L' || prefix == 'V'
    requires n >= 0
    requires |rest| == 0 || (!IsDigit(rest[0]) && (prefix == 'V' ==> rest[0] != '.'))
    ensures NextToken([prefix] + DecimalString(n) + rest)
         == Some(Scan(IdentifierToken(prefix, n), 1 + |DecimalString(n)|))
  {
    var digits := DecimalString(n);
    var s := [prefix] + digits + rest;
    IdentifierSlices(prefix, digits, rest);
    DigitRunOf(digits, rest);
    ParseDecimalString(n);
    ScanIdentifierOf(s, |digits|, n);
  }

  /** The pieces of an identifier followed by more text. */
  lemma IdentifierSlices(prefix: char, digits: string, rest: string)
    ensures var s := [prefix] + digits + rest;
      && s[0] == prefix && s[1..] == digits + rest
      && s[1 + |digits|..] == rest && s[..1 + |digits|][1..] == digits
  {
  }

  lemma ScanIdentifierOf(s: string, d: nat, n: i64)
    requires |s| > d && (s[0] == 'T' || s[0] == 'L' || s[0] == 'V')
    requires DigitRun(s[1..]) == d > 0
    requires s[0] == 'V' ==> QualifierLength(s[1 + d..]) == 0
    requires Id(s[..1 + d]) == Some(n)
    ensures NextToken(s) == Some(Scan(IdentifierToken(s[0], n), 1 + d))
  {
  }

  /** A number token followed by text that does not extend it. */
  lemma NextTokenNumber(n: i64, rest: string)
    requires n >= 0
    requires |rest| == 0 || !IsDigit(rest[0])
    ensures NextToken(DecimalString(n) + rest) == Some(Scan(LineNumber(n), |DecimalString(n)|))
  {
    var digits := DecimalString(n);
    var s := digits + rest;
    assert s[0] == digits[0];
    DigitRunOf(digits, rest);
    assert s[..|digits|] == digits;
    ParseDecimalString(n);
  }

  /** The scanner reads a printed token back whole. */
  lemma NextTokenShow(t: Token, rest: string)
    requires NonNegativePayload(t) && Ends(t, rest)
    ensures NextToken(Show(t) + rest) == Some(Scan(t, |Show(t)|))
  {
    match t {
      case ThreadIdentifier(n) =>
        NextTokenIdentifier('T', n, rest);
        assert Show(t) + rest == ['T'] + DecimalString(n) + rest;
      case LockIdentifier(n) =>
        NextTokenIdentifier('L', n, rest);
        assert Show(t) + rest == ['L'] + DecimalString(n) + rest;
      case MemoryLocation(n) =>
        NextTokenIdentifier('V', n, rest);
        assert Show(t) + rest == ['V'] + DecimalString(n) + rest;
      case LineNumber(n) =>
        NextTokenNumber(n, rest);
      case _ =>
        NextTokenFixed(t, rest);
    }
  }

  lemma NextTokenFixed(t: Token, rest: string)
    requires !(t.ThreadIdentifier? || t.LockIdentifier? || t.MemoryLocation? || t.LineNumber?)
    requires Ends(t, rest)
    ensures NextToken(Show(t) + rest) == Some(Scan(t, |Show(t)|))
  {
    var s := Show(t) + rest;
    assert Show(t) <= s;
    assert s[0] == Show(t)[0];
    if t.Read? {
      assert !("rel" <= s) && !("req" <= s) by {
        assert |s| < 2 || s[1] != 'e';
      }
    } else if t.Release? {
      assert "rel" <= s;
    } else if t.Request? {
      assert "req" <= s && !("rel" <= s) by {
        assert s[2] == 'q';
      }
    }
  }

  /** The text of a token sequence printed without separators. */
  function Glue(ts: seq<Token>): string
    requires forall i :: 0 <= i < |ts| ==> NonNegativePayload(ts[i])
  {
    if |ts| == 0 then "" else Show(ts[0]) + Glue(ts[1..])
  }

  /** Adjacent printed tokens do not run into each other. */
  predicate Separable(ts: seq<Token>)
    requires forall i :: 0 <= i < |ts| ==> NonNegativePayload(ts[i])
  {
    forall i :: 0 <= i < |ts| - 1 ==> Ends(ts[i], Show(ts[i + 1]))
  }

  /** One step of the lexer on a scannable first token. */
  lemma LexStep(s: string)
    requires |s| > 0 && !IsSkipped(s[0]) && NextToken(s).Some?
    ensures var scan := NextToken(s).value;
            Lex(s[scan.length..]).Ok? ==> Lex(s) == Ok([scan.token] + Lex(s[scan.length..]).value)
  {
  }

  /** A lexing result with tokens put in front of it; errors pass through. */
  function Prepend(ts: seq<Token>, r: Result<seq<Token>, LexerError>): Result<seq<Token>, LexerError> {
    match r
    case Ok(v) => Ok(ts + v)
    case Err(e) => Err(e)
  }

  lemma PrependTwice(a: seq<Token>, b: seq<Token>, r: Result<seq<Token>, LexerError>)
    ensures Prepend(a, Prepend(b, r)) == Prepend(a + b, r)
  {
    if r.Ok? {
      assert a + (b + r.value) == (a + b) + r.value;
    }
  }

  lemma PrependNothing(r: Result<seq<Token>, LexerError>)
    ensures Prepend([], r) == r
  {
    if r.Ok? {
      assert [] + r.value == r.value;
    }
  }

  /** Lexing a printed token and the text after it. */
  lemma LexShow(t: Token, rest: string)
    requires NonNegativePayload(t) && Ends(t, rest)
    ensures Lex(Show(t) + rest) == Prepend([t], Lex(rest))
  {
    var s := Show(t) + rest;
    NextTokenShow(t, rest);
    assert s[0] == Show(t)[0];
    assert s[|Show(t)|..] == rest;
  }

  /** The tokens after the first of a separable sequence are separable. */
  lemma SeparableTail(ts: seq<Token>)
    requires |ts| > 0
    requires forall i :: 0 <= i < |ts| ==> NonNegativePayload(ts[i])
    requires Separable(ts)
    ensures forall i :: 0 <= i < |ts[1..]| ==> NonNegativePayload(ts[1..][i])
    ensures Separable(ts[1..])
    ensures |ts| > 1 ==> Ends(ts[0], Show(ts[1]))
  {
    var tail := ts[1..];
    forall i | 0 <= i < |tail| - 1 ensures Ends(tail[i], Show(tail[i + 1])) {
      assert tail[i] == ts[i + 1] && tail[i + 1] == ts[i + 2];
    }
  }

  lemma GlueCons(ts: seq<Token>, rest: string)
    requires |ts| > 0
    requires forall i :: 0 <= i < |ts| ==> NonNegativePayload(ts[i])
    ensures Glue(ts) + rest == Show(ts[0]) + (Glue(ts[1..]) + rest)
  {
  }

  /** Lexing the printed text of separable tokens gives the tokens back, and
      lexing continues after them with whatever text follows. */
  lemma {:induction false} LexGlue(ts: seq<Token>, rest: string)
    requires forall i :: 0 <= i < |ts| ==> NonNegativePayload(ts[i])
    requires Separable(ts)
    requires |ts| > 0 ==> Ends(ts[|ts| - 1], rest)
    ensures Lex(Glue(ts) + rest) == Prepend(ts, Lex(rest))
    decreases |ts|
  {
    if |ts| > 0 {
      var tail := ts[1..];
      SeparableTail(ts);
      LexGlue(tail, rest);
      var after := Glue(tail) + rest;
      GlueCons(ts, rest);
      if |tail| > 0 {
        GlueCons(tail, rest);
      }
      LexShow(ts[0], after);
      PrependTwice([ts[0]], tail, Lex(rest));
      assert [ts[0]] + tail == ts;
    } else {
      assert Glue(ts) + rest == rest;
      PrependNothing(Lex(rest));
    }
  }

  /** The printed text of separable tokens lexes back to them. */
  lemma LexRoundTrip(ts: seq<Token>)
    requires forall i :: 0 <= i < |ts| ==> NonNegativePayload(ts[i])
    requires Separable(ts)
    ensures Lex(Glue(ts)) == Ok(ts)
  {
    LexGlue(ts, "");
    assert Glue(ts) + "" == Glue(ts);
    assert ts + [] == ts;
    assert Lex("") == Ok([]);
  }

  /** `id` reads the digits after the prefix letter as a decimal number, and
      fails exactly when that number does not fit in an `i64`. */
  lemma IdDecimal(prefix: char, n: nat)
    ensures Id([prefix] + DecimalString(n)).Some? <==> n <= I64_MAX
    ensures n <= I64_MAX ==> Id([prefix] + DecimalString(n)) == Some(n)
  {
    assert ([prefix] + DecimalString(n))[1..] == DecimalString(n);
    DecimalRoundTrip(n);
  }

  /** `id` on a field-qualified memory location fails: the remainder is not a
      plain integer. */
  lemma IdQualified()
    ensures Id("V1.2[3]") == None
  {
    assert "V1.2[3]"[1..][1] == '.';
  }

  lemma DecimalExamples()
    ensures DecimalString(4294967298) == "4294967298"
    ensures DecimalString(59) == "59"
    ensures DecimalString(12) == "12"
  {
    assert DecimalString(4) == "4";
    assert DecimalString(42) == "42";
    assert DecimalString(429) == "429";
    assert DecimalString(4294) == "4294";
    assert DecimalString(42949) == "42949";
    assert DecimalString(429496) == "429496";
    assert DecimalString(4294967) == "4294967";
    assert DecimalString(42949672) == "42949672";
    assert DecimalString(429496729) == "429496729";
    assert DecimalString(5) == "5";
    assert DecimalString(1) == "1";
  }

  /** The raw token line of one STD event before normalization: the operand
      is still a bare number (a `LineNumber`). */
  function RawLine(t: i64, keyword: Token, n: i64, l: i64): seq<Token> {
    [ThreadIdentifier(t), Pipe, keyword, LeftParenthesis, LineNumber(n), RightParenthesis, Pipe, LineNumber(l)]
  }

  /** The printed text of a raw STD line, written out character group by group. */
  lemma RawLineText(t: i64, keyword: Token, n: i64, l: i64)
    requires t >= 0 && n >= 0 && l >= 0 && IsOperationKeyword(keyword)
    ensures forall i :: 0 <= i < 8 ==> NonNegativePayload(RawLine(t, keyword, n, l)[i])
    ensures Glue(RawLine(t, keyword, n, l))
         == "T" + DecimalString(t) + ("|" + (Show(keyword) + ("(" + (DecimalString(n) + (")" + ("|" + DecimalString(l)))))))
  {
    var s7 := [LineNumber(l)];
    var s6 := [Pipe] + s7;
    var s5 := [RightParenthesis] + s6;
    var s4 := [LineNumber(n)] + s5;
    var s3 := [LeftParenthesis] + s4;
    var s2 := [keyword] + s3;
    var s1 := [Pipe] + s2;
    assert RawLine(t, keyword, n, l) == [ThreadIdentifier(t)] + s1;
    assert Glue(s7) == DecimalString(l) by { assert s7[1..] == []; }
    assert Glue(s6) == "|" + Glue(s7) by { assert s6[1..] == s7; }
    assert Glue(s5) == ")" + Glue(s6) by { assert s5[1..] == s6; }
    assert Glue(s4) == DecimalString(n) + Glue(s5) by { assert s4[1..] == s5; }
    assert Glue(s3) == "(" + Glue(s4) by { assert s3[1..] == s4; }
    assert Glue(s2) == Show(keyword) + Glue(s3) by { assert s2[1..] == s3; }
    assert Glue(s1) == "|" + Glue(s2) by { assert s1[1..] == s2; }
    assert ([ThreadIdentifier(t)] + s1)[1..] == s1;
  }

  /** Every printed STD line `T<t>|<keyword>(<n>)|<l>` lexes to its eight tokens
      (the shape of the valid line in src/lexer.rs:67-79). */
  lemma LexRawLine(t: i64, keyword: Token, n: i64, l: i64)
    requires t >= 0 && n >= 0 && l >= 0 && IsOperationKeyword(keyword)
    ensures forall i :: 0 <= i < 8 ==> NonNegativePayload(RawLine(t, keyword, n, l)[i])
    ensures Lex(Glue(RawLine(t, keyword, n, l))) == Ok(RawLine(t, keyword, n, l))
  {
    var ts := RawLine(t, keyword, n, l);
    assert Separable(ts) by {
      forall i | 0 <= i < |ts| - 1 ensures Ends(ts[i], Show(ts[i + 1])) {
        if i == 1 {
          assert Show(keyword)[0] in "wrfjra";
        }
      }
    }
    LexRoundTrip(ts);
  }

  /** A character no pattern matches fails the whole line, whatever was lexed
      before it (the unsupported-character case of src/lexer.rs:81-96). */
  lemma LexUnscannable(ts: seq<Token>, rest: string)
    requires forall i :: 0 <= i < |ts| ==> NonNegativePayload(ts[i])
    requires Separable(ts)
    requires |rest| > 0 && !IsSkipped(rest[0]) && NextToken(rest).None?
    requires |ts| > 0 ==> Ends(ts[|ts| - 1], rest)
    ensures Lex(Glue(ts) + rest) == Err(NonAsciiCharacter)
  {
    LexStopsAt(rest);
    LexGlue(ts, rest);
  }

  lemma LexStopsAt(s: string)
    requires |s| > 0 && !IsSkipped(s[0]) && NextToken(s).None?
    ensures Lex(s) == Err(NonAsciiCharacter)
  {
  }
}
