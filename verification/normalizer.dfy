/** `normalize_tokens` (src/normalizer.rs): a bare number in operand position
    is retyped by the operation keyword in front of it. */
module Normalizer {
  import opened Common
  import opened Tokens

  /** The source unwraps the second token after every keyword, so each keyword
      (as the rewrite meets it) must be followed by at least two tokens. */
  predicate Normalizable(ts: seq<Token>)
    decreases |ts|
  {
    if |ts| == 0 then true
    else if IsOperationKeyword(ts[0]) then |ts| >= 3 && Normalizable(ts[3..])
    else Normalizable(ts[1..])
  }

  /** The typed identifier token a keyword gives to a bare number. */
  function Retype(keyword: Token, n: i64): (t: Token)
    requires IsOperationKeyword(keyword)
    ensures (keyword.Read? || keyword.Write?) <==> t == MemoryLocation(n)
    ensures (keyword.Fork? || keyword.Join?) <==> t == ThreadIdentifier(n)
    ensures (keyword.Request? || keyword.Acquire? || keyword.Release?) <==> t == LockIdentifier(n)
  {
    match keyword
    case Read => MemoryLocation(n)
    case Write => MemoryLocation(n)
    case Fork => ThreadIdentifier(n)
    case Join => ThreadIdentifier(n)
    case _ => LockIdentifier(n)
  }

  /** The operand emitted for the token two places after a keyword: the
      retyped number, or nothing when it is not a bare number. */
  function OperandOutput(keyword: Token, t: Token): (out: seq<Token>)
    requires IsOperationKeyword(keyword)
    ensures t.LineNumber? ==> out == [Retype(keyword, t.number)]
    ensures !t.LineNumber? ==> out == []
  {
    if t.LineNumber? then [Retype(keyword, t.number)] else []
  }

  /** The rewrite. A keyword emits itself and a left parenthesis, drops the
      next token whatever it is, and replaces the token after it by its
      operand output; neither of the two consumed tokens is looked at as a
      keyword. Every other token is copied. */
  function NormalizeTokens(ts: seq<Token>): (out: seq<Token>)
    requires Normalizable(ts)
    ensures |out| <= |ts|
    decreases |ts|
  {
    if |ts| == 0 then []
    else if IsOperationKeyword(ts[0]) then
      [ts[0], LeftParenthesis] + OperandOutput(ts[0], ts[2]) + NormalizeTokens(ts[3..])
    else
      [ts[0]] + NormalizeTokens(ts[1..])
  }

  /** Every keyword, as the rewrite meets it, has a bare number two places
      after it. */
  predicate OperandsAreNumbers(ts: seq<Token>)
    requires Normalizable(ts)
    decreases |ts|
  {
    if |ts| == 0 then true
    else if IsOperationKeyword(ts[0]) then ts[2].LineNumber? && OperandsAreNumbers(ts[3..])
    else OperandsAreNumbers(ts[1..])
  }

  /** The rewrite keeps the length exactly when no operand is dropped. */
  lemma {:induction false} NormalizeLength(ts: seq<Token>)
    requires Normalizable(ts)
    ensures |NormalizeTokens(ts)| == |ts| <==> OperandsAreNumbers(ts)
    decreases |ts|
  {
    if |ts| > 0 {
      if IsOperationKeyword(ts[0]) {
        NormalizeLength(ts[3..]);
      } else {
        NormalizeLength(ts[1..]);
      }
    }
  }

  /** A line without operation keywords is left as it is. */
  lemma {:induction false} NormalizeWithoutKeywords(ts: seq<Token>)
    requires forall i :: 0 <= i < |ts| ==> !IsOperationKeyword(ts[i])
    ensures Normalizable(ts)
    ensures NormalizeTokens(ts) == ts
    decreases |ts|
  {
    if |ts| > 0 {
      NormalizeWithoutKeywords(ts[1..]);
    }
  }

  /** The rewrite works chunk by chunk: splitting the input after a complete
      chunk splits the output in the same place. */
  lemma {:induction false} NormalizeConcat(a: seq<Token>, b: seq<Token>)
    requires Normalizable(a) && Normalizable(b)
    ensures Normalizable(a + b)
    ensures NormalizeTokens(a + b) == NormalizeTokens(a) + NormalizeTokens(b)
    decreases |a|
  {
    if |a| == 0 {
      assert a + b == b;
    } else if IsOperationKeyword(a[0]) {
      NormalizeConcat(a[3..], b);
      KeywordChunk(a, b);
    } else {
      NormalizeConcat(a[1..], b);
      PlainChunk(a, b);
    }
  }

  /** One step of `NormalizeConcat` past a keyword chunk. */
  lemma KeywordChunk(a: seq<Token>, b: seq<Token>)
    requires |a| > 0 && IsOperationKeyword(a[0]) && Normalizable(a) && Normalizable(b)
    requires Normalizable(a[3..] + b)
    requires NormalizeTokens(a[3..] + b) == NormalizeTokens(a[3..]) + NormalizeTokens(b)
    ensures Normalizable(a + b)
    ensures NormalizeTokens(a + b) == NormalizeTokens(a) + NormalizeTokens(b)
  {
    var ab := a + b;
    DropConcat(a, b, 3);
    KeywordStep(ab);
    KeywordStep(a);
    Associative([a[0], LeftParenthesis] + OperandOutput(a[0], a[2]), NormalizeTokens(a[3..]), NormalizeTokens(b));
  }

  /** One step of `NormalizeConcat` past a token that is not a keyword. */
  lemma PlainChunk(a: seq<Token>, b: seq<Token>)
    requires |a| > 0 && !IsOperationKeyword(a[0]) && Normalizable(a) && Normalizable(b)
    requires Normalizable(a[1..] + b)
    requires NormalizeTokens(a[1..] + b) == NormalizeTokens(a[1..]) + NormalizeTokens(b)
    ensures Normalizable(a + b)
    ensures NormalizeTokens(a + b) == NormalizeTokens(a) + NormalizeTokens(b)
  {
    var ab := a + b;
    DropConcat(a, b, 1);
    PlainStep(ab);
    PlainStep(a);
    Associative([a[0]], NormalizeTokens(a[1..]), NormalizeTokens(b));
  }

  lemma DropConcat(a: seq<Token>, b: seq<Token>, k: nat)
    requires k <= |a|
    ensures forall i :: 0 <= i < |a| ==> (a + b)[i] == a[i]
    ensures (a + b)[k..] == a[k..] + b
  {
  }

  lemma Associative(x: seq<Token>, y: seq<Token>, z: seq<Token>)
    ensures x + (y + z) == (x + y) + z
  {
  }

  lemma KeywordStep(ts: seq<Token>)
    requires |ts| >= 3 && IsOperationKeyword(ts[0]) && Normalizable(ts[3..])
    ensures Normalizable(ts)
    ensures NormalizeTokens(ts) == [ts[0], LeftParenthesis] + OperandOutput(ts[0], ts[2]) + NormalizeTokens(ts[3..])
  {
  }

  lemma PlainStep(ts: seq<Token>)
    requires |ts| >= 1 && !IsOperationKeyword(ts[0]) && Normalizable(ts[1..])
    ensures Normalizable(ts)
    ensures NormalizeTokens(ts) == [ts[0]] + NormalizeTokens(ts[1..])
  {
  }

  /** A printed trace line `T<t>|<keyword>(<n>)|<l>`: only the bare operand
      number changes, retyped by the keyword. */
  lemma NormalizeLine(t: i64, keyword: Token, n: i64, l: i64)
    requires IsOperationKeyword(keyword)
    ensures Normalizable([ThreadIdentifier(t), Pipe, keyword, LeftParenthesis, LineNumber(n), RightParenthesis, Pipe, LineNumber(l)])
    ensures NormalizeTokens([ThreadIdentifier(t), Pipe, keyword, LeftParenthesis, LineNumber(n), RightParenthesis, Pipe, LineNumber(l)])
         == [ThreadIdentifier(t), Pipe, keyword, LeftParenthesis, Retype(keyword, n), RightParenthesis, Pipe, LineNumber(l)]
  {
    var tail := [RightParenthesis, Pipe, LineNumber(l)];
    NormalizeWithoutKeywords(tail);
    var chunk := [keyword, LeftParenthesis, LineNumber(n)] + tail;
    assert chunk[3..] == tail;
    KeywordStep(chunk);
    var piped := [Pipe] + chunk;
    assert piped[1..] == chunk;
    PlainStep(piped);
    var line := [ThreadIdentifier(t)] + piped;
    assert line[1..] == piped;
    PlainStep(line);
    Assemble(ThreadIdentifier(t), Pipe, keyword, LeftParenthesis, LineNumber(n), RightParenthesis, Pipe, LineNumber(l));
    Assemble(ThreadIdentifier(t), Pipe, keyword, LeftParenthesis, Retype(keyword, n), RightParenthesis, Pipe, LineNumber(l));
  }

  /** The eight tokens of a line, as the steps of the rewrite group them. */
  lemma Assemble<T>(a: T, b: T, c: T, d: T, e: T, f: T, g: T, h: T)
    ensures [a] + ([b] + ([c, d, e] + [f, g, h])) == [a, b, c, d, e, f, g, h]
    ensures [a] + ([b] + ([c, d] + [e] + [f, g, h])) == [a, b, c, d, e, f, g, h]
  {
    assert [c, d, e] + [f, g, h] == [c, d, e, f, g, h];
    assert [c, d] + [e] == [c, d, e];
    assert [b] + [c, d, e, f, g, h] == [b, c, d, e, f, g, h];
  }

  /** The token right after a keyword is discarded unseen. */
  lemma NormalizeSkipsToken(keyword: Token, x: Token, y: Token, operand: Token, rest: seq<Token>)
    requires IsOperationKeyword(keyword) && Normalizable(rest)
    ensures Normalizable([keyword, x, operand] + rest) && Normalizable([keyword, y, operand] + rest)
    ensures NormalizeTokens([keyword, x, operand] + rest) == NormalizeTokens([keyword, y, operand] + rest)
  {
    assert ([keyword, x, operand] + rest)[3..] == rest;
    assert ([keyword, y, operand] + rest)[3..] == rest;
  }

  /** The rewrite is not idempotent: a retyped operand is no longer a bare
      number, so a second pass drops it. */
  lemma NormalizeNotIdempotent()
    ensures var once := NormalizeTokens([Write, LeftParenthesis, LineNumber(5), RightParenthesis]);
            && once == [Write, LeftParenthesis, MemoryLocation(5), RightParenthesis]
            && Normalizable(once)
            && NormalizeTokens(once) == [Write, LeftParenthesis, RightParenthesis]
  {
    var ts := [Write, LeftParenthesis, LineNumber(5), RightParenthesis];
    assert ts[3..] == [RightParenthesis];
    var once := [Write, LeftParenthesis, MemoryLocation(5), RightParenthesis];
    assert once[3..] == [RightParenthesis];
  }
}
