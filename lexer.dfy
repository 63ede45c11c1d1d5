/**
 * The lexer object: an input stream with its current character, the FSM
 * state and the lookahead buffer, updated in place by `_next`, `next` and
 * `read_all`. Each method is proved to compute the scanning semantics of
 * module LexerSpec from the state it starts in.
 */
module Lexer {
  import opened Tokens
  import opened LexerTables
  import opened LexerSpec
  import LexerProperties

  class Lexer {
    /** The text of the input stream. */
    const input: seq<char>
    /** The index of the current character; |input| once the stream is exhausted. */
    var pos: nat
    var state: LexerState
    var currentChar: Ch
    var lookaheadBuffer: seq<Token>

    /** The stream and the FSM between two scans: the current character read, the FSM in Empty. */
    ghost predicate Idle()
      reads this
    {
      pos <= |input| && currentChar == ChAt(input, pos) && state == LexerState.Empty
    }

    /** Between two calls of `next`: idle, and the lookahead buffer respects BufferInv. */
    ghost predicate Valid()
      reads this
    {
      Idle() && BufferInv(input, pos, lookaheadBuffer)
    }

    /** A lexer over a stream: the first character is read, with no comment check. */
    constructor (input: seq<char>)
      ensures Valid()
      ensures this.input == input && pos == 0 && lookaheadBuffer == []
    {
      this.input := input;
      pos := 0;
      state := LexerState.Empty;
      currentChar := ChAt(input, 0);
      lookaheadBuffer := [];
    }

    /** `input.get()`: the next character of the stream; EOF again once the stream is exhausted. */
    method Get() returns (c: Ch)
      requires pos <= |input|
      modifies this`pos
      ensures pos == if old(pos) < |input| then old(pos) + 1 else old(pos)
      ensures c == ChAt(input, pos)
    {
      if pos < |input| {
        pos := pos + 1;
      }
      c := ChAt(input, pos);
    }

    /**
     * Fetching the next character inside the scan loop: one `get`, and when
     * it yields '!', the line comment up to the next line end or the end of
     * the stream.
     */
    method FetchChar()
      requires pos <= |input|
      modifies this`pos, this`currentChar
      ensures pos == Fetch(input, old(pos))
      ensures currentChar == ChAt(input, pos)
    {
      currentChar := Get();
      if currentChar == C('!') {
        ghost var start := pos;
        while pos < |input|
          invariant start <= pos <= |input| && start < |input|
          invariant currentChar == ChAt(input, pos)
          invariant CommentEnd(input, start + 1) == if pos < |input| then CommentEnd(input, pos + 1) else |input|
          decreases |input| - pos
        {
          currentChar := Get();
          if currentChar.C? && IsLineEnd(currentChar.c) {
            break;
          }
        }
      }
    }

    /**
     * `_next`: the front of the lookahead buffer, or else the FSM loop from
     * Empty up to the first accepting transition. A character outside the
     * alphabet or an undefined transition ends the scan with an error.
     */
    method RawNext() returns (r: Result<Token>)
      requires Idle()
      modifies this
      ensures match old(Pull(input, pos, lookaheadBuffer))
        case Err(m) => r == Err(m)
        case Ok(p) => r == Ok(p.token) && pos == p.pos && lookaheadBuffer == p.buf && Idle()
    {
      if |lookaheadBuffer| > 0 {
        var token := lookaheadBuffer[0];
        lookaheadBuffer := lookaheadBuffer[1..];
        return Ok(token);
      }
      ghost var target := Scan(input, pos, LexerState.Empty, []);
      var lexeme: string := [];
      while true
        invariant pos <= |input| && state != LexerState.INVALID
        invariant currentChar == ChAt(input, pos)
        invariant lookaheadBuffer == []
        invariant Scan(input, pos, state, lexeme) == target
        decreases |input| - pos, if state == LexerState.Empty then 1 else 0
      {
        var charType := CharToType(currentChar);
        if charType.Err? {
          return Err(charType.message);
        }
        var newState := Transition(state, charType.value);
        if newState == LexerState.INVALID {
          return Err(UnexpectedCharacter);
        }
        if newState == LexerState.Empty && state != LexerState.Empty {
          var token := Token(StateTokenType(state), lexeme);
          state := LexerState.Empty;
          return Ok(token);
        }
        ScanStep(input, pos, state, lexeme);
        if newState != LexerState.Empty && newState != LexerState.EndOfFile {
          lexeme := lexeme + [currentChar.c];
        }
        state := newState;
        FetchChar();
      }
    }

    /**
     * `next`: one token, with an Identifier spelled like a keyword promoted
     * to Keyword and an Integer followed by "." and an Integer fused into a
     * Real; an Integer that does not fuse leaves its two lookahead tokens
     * at the back of the buffer.
     */
    method Next() returns (r: Result<Token>)
      requires Valid()
      modifies this
      ensures match old(NextToken(input, pos, lookaheadBuffer))
        case Err(m) => r == Err(m)
        case Ok(n) => r == Ok(n.token) && pos == n.pos && lookaheadBuffer == n.buf && Valid()
    {
      ghost var pos0, buf0 := pos, lookaheadBuffer;
      var first := RawNext();
      if first.Err? {
        return first;
      }
      var token := first.value;
      if token.kind == TokenType.Identifier && IsKeyword(token.lexeme) {
        token := token.(kind := TokenType.Keyword);
      } else if token.kind == TokenType.Integer {
        var dot := RawNext();
        if dot.Err? {
          return dot;
        }
        var fraction := RawNext();
        if fraction.Err? {
          return fraction;
        }
        if dot.value.kind == TokenType.Separator && dot.value.lexeme == "." && fraction.value.kind == TokenType.Integer {
          token := Token(TokenType.Real, token.lexeme + "." + fraction.value.lexeme);
        } else {
          lookaheadBuffer := lookaheadBuffer + [dot.value, fraction.value];
        }
      }
      NextTokenFacts(input, pos0, buf0);
      return Ok(token);
    }

    /**
     * `read_all`: calls `next` until it returns EndOfFile, keeping every
     * token in order. On success the lexer is left valid at the end of the
     * stream with only EndOfFile tokens buffered, so further calls of
     * `next` keep returning EndOfFile.
     */
    method ReadAll() returns (r: Result<seq<Token>>)
      requires Valid()
      modifies this
      ensures r == old(ReadAllFrom(input, pos, lookaheadBuffer))
      ensures r.Ok? ==> Valid() && pos == |input| && forall j :: 0 <= j < |lookaheadBuffer| ==> lookaheadBuffer[j] == EofToken
    {
      ghost var target := ReadAllFrom(input, pos, lookaheadBuffer);
      var tokens: seq<Token> := [];
      assert Prepend([], target) == target by {
        if target.Ok? { assert [] + target.value == target.value; }
      }
      while true
        invariant Valid()
        invariant target == Prepend(tokens, ReadAllFrom(input, pos, lookaheadBuffer))
        decreases Weight(input, pos, lookaheadBuffer)
      {
        ReadAllStep(input, pos, lookaheadBuffer);
        ghost var pos0, buf0 := pos, lookaheadBuffer;
        var next := Next();
        if next.Err? {
          return Err(next.message);
        }
        var token := next.value;
        ReadAllAppend(input, pos0, buf0, tokens);
        tokens := tokens + [token];
        if token.kind == TokenType.EndOfFile {
          NextTokenFacts(input, pos0, buf0);
          return Ok(tokens);
        }
      }
    }
  }

  /**
   * A lexer run over a whole text: the tokens of read_all on a fresh
   * lexer, whose lexemes are then the text without whitespace and comments.
   */
  method Tokenize(text: seq<char>) returns (r: Result<seq<Token>>)
    ensures r == ReadAll(text)
    ensures r.Ok? ==> Lexemes(r.value) == Visible(text, 0)
    ensures r.Ok? ==> forall i :: 0 <= i < |r.value| ==> WellFormed(r.value[i])
  {
    var lexer := new Lexer(text);
    r := lexer.ReadAll();
    if r.Ok? {
      LexemesAreVisibleText(text);
    }
  }

  /**
   * A call of `next` after a successful read_all on a fresh lexer: the
   * run has left the lexer at the end of the stream, so the call returns
   * EndOfFile again.
   */
  method NextAfterReadAll(text: seq<char>) returns (r: Result<seq<Token>>, after: Result<Token>)
    ensures r == ReadAll(text)
    ensures r.Ok? ==> after == Ok(EofToken)
  {
    var lexer := new Lexer(text);
    r := lexer.ReadAll();
    if r.Err? {
      return r, Err(r.message);
    }
    LexerProperties.NextAtEnd(text, lexer.lookaheadBuffer);
    after := lexer.Next();
  }
}
