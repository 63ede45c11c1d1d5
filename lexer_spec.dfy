/**
 * The scanning semantics of the lexer as functions of the input text and
 * the lexer's abstract state: the position of the current character and
 * the lookahead buffer. The class in module Lexer is proved to compute
 * exactly these functions.
 */
module LexerSpec {
  import opened Tokens
  import opened LexerTables

  // ---------------------------------------------------------------------
  // The character stream
  // ---------------------------------------------------------------------

  /** The current character when the stream stands at index pos (EOF past the last character). */
  function ChAt(input: seq<char>, pos: nat): (r: Ch)
    requires pos <= |input|
    ensures r == EOF <==> pos == |input|
  {
    if pos < |input| then C(input[pos]) else EOF
  }

  /** The characters that end a line comment. */
  predicate IsLineEnd(c: char)
  {
    c == '\r' || c == '\n'
  }

  /** The index of the first line end at or after i, or the end of the input. */
  function CommentEnd(input: seq<char>, i: nat): (r: nat)
    requires i <= |input|
    ensures i <= r <= |input|
    ensures r < |input| ==> IsLineEnd(input[r])
    decreases |input| - i
  {
    if i == |input| || IsLineEnd(input[i]) then i else CommentEnd(input, i + 1)
  }

  /** The characters a comment skip passes over are not line ends, so the skip stops at the first line end. */
  lemma {:induction false} CommentBody(input: seq<char>, i: nat)
    requires i <= |input|
    ensures forall j :: i <= j < CommentEnd(input, i) ==> !IsLineEnd(input[j])
    decreases |input| - i
  {
    if i < |input| && !IsLineEnd(input[i]) {
      CommentBody(input, i + 1);
    }
  }

  /**
   * The index of the current character after the scanner fetches the next
   * one: one `get` from the stream (which stays put at end of input), and,
   * when that yields '!', the comment skip up to the next line end.
   */
  function Fetch(input: seq<char>, pos: nat): (r: nat)
    requires pos <= |input|
    ensures r <= |input|
    ensures pos < |input| ==> pos < r
    ensures pos == |input| ==> r == pos
    ensures r < |input| ==> input[r] != '!'
  {
    var next := if pos < |input| then pos + 1 else pos;
    if next < |input| && input[next] == '!' then CommentEnd(input, next + 1) else next
  }

  // ---------------------------------------------------------------------
  // The raw scanner: the while loop of _next
  // ---------------------------------------------------------------------

  /** A token accepted by the FSM and the index of the character that will be classified next. */
  datatype Accepted = Accepted(token: Token, pos: nat)

  /**
   * The FSM loop, started in `state` with `lexeme` accumulated so far and
   * the current character at `pos`. On acceptance the current character
   * is not consumed: the result's pos is the index of the character that
   * ended the token.
   */
  function Scan(input: seq<char>, pos: nat, state: LexerState, lexeme: string): (r: Result<Accepted>)
    requires pos <= |input| && state != LexerState.INVALID
    ensures r.Ok? ==> pos <= r.value.pos <= |input|
    decreases |input| - pos, if state == LexerState.Empty then 1 else 0
  {
    var ch := ChAt(input, pos);
    match CharToType(ch)
    case Err(m) => Err(m)
    case Ok(charType) =>
      var newState := Transition(state, charType);
      if newState == LexerState.INVALID then
        Err(UnexpectedCharacter)
      else if newState == LexerState.Empty && state != LexerState.Empty then
        Ok(Accepted(Token(StateTokenType(state), lexeme), pos))
      else
        EndOfFileColumn(state);
        var lexeme' := if newState != LexerState.Empty && newState != LexerState.EndOfFile then lexeme + [ch.c] else lexeme;
        Scan(input, Fetch(input, pos), newState, lexeme')
  }

  /**
   * One step of the scan loop that neither fails nor accepts: the scan
   * goes on in the new state from the fetched character, with the current
   * character appended to the lexeme when the new state carries text.
   */
  lemma ScanStep(input: seq<char>, pos: nat, state: LexerState, lexeme: string)
    requires pos <= |input| && state != LexerState.INVALID
    requires CharToType(ChAt(input, pos)).Ok?
    requires var ns := Transition(state, CharToType(ChAt(input, pos)).value);
      ns != LexerState.INVALID && !(ns == LexerState.Empty && state != LexerState.Empty)
    ensures var ch := ChAt(input, pos);
      var ns := Transition(state, CharToType(ch).value);
      ns != LexerState.Empty && ns != LexerState.EndOfFile ==>
        ch.C? && Scan(input, pos, state, lexeme) == Scan(input, Fetch(input, pos), ns, lexeme + [ch.c])
    ensures var ch := ChAt(input, pos);
      var ns := Transition(state, CharToType(ch).value);
      !(ns != LexerState.Empty && ns != LexerState.EndOfFile) ==>
        Scan(input, pos, state, lexeme) == Scan(input, Fetch(input, pos), ns, lexeme)
  {
    EndOfFileColumn(state);
  }

  // ---------------------------------------------------------------------
  // _next, next and read_all on the abstract state (pos, lookahead buffer)
  // ---------------------------------------------------------------------

  /** A token together with the lexer's abstract state after producing it. */
  datatype Pulled = Pulled(token: Token, pos: nat, buf: seq<Token>)

  /** `_next`: the front of the lookahead buffer if there is one, else a fresh scan from Empty. */
  function Pull(input: seq<char>, pos: nat, buf: seq<Token>): (r: Result<Pulled>)
    requires pos <= |input|
    ensures r.Ok? ==> pos <= r.value.pos <= |input|
  {
    if |buf| > 0 then
      Ok(Pulled(buf[0], pos, buf[1..]))
    else
      match Scan(input, pos, LexerState.Empty, [])
      case Err(m) => Err(m)
      case Ok(a) => Ok(Pulled(a.token, a.pos, []))
  }

  /** A separator "." followed by an integer completes a real literal. */
  predicate Fuses(dot: Token, fraction: Token)
  {
    dot.kind == TokenType.Separator && dot.lexeme == "." && fraction.kind == TokenType.Integer
  }

  /**
   * The decision after the lookahead: a separator "." and an Integer fuse
   * with the integer into one Real token; otherwise the integer is
   * returned and both lookahead tokens go to the back of the buffer, in
   * the order they were read.
   */
  function Combine(integer: Token, dot: Token, fraction: Pulled): (n: Pulled)
  {
    if Fuses(dot, fraction.token) then
      Pulled(Token(TokenType.Real, integer.lexeme + "." + fraction.token.lexeme), fraction.pos, fraction.buf)
    else
      Pulled(integer, fraction.pos, fraction.buf + [dot, fraction.token])
  }

  /** The lookahead after an Integer: two more raw tokens, then Combine. */
  function FuseReal(input: seq<char>, integer: Token, pos: nat, buf: seq<Token>): (r: Result<Pulled>)
    requires pos <= |input|
    ensures r.Ok? ==> pos <= r.value.pos <= |input|
  {
    match Pull(input, pos, buf)
    case Err(m) => Err(m)
    case Ok(dot) =>
      match Pull(input, dot.pos, dot.buf)
      case Err(m) => Err(m)
      case Ok(fraction) => Ok(Combine(integer, dot.token, fraction))
  }

  /** `next`: one raw token, with keyword promotion and real-number fusion applied. */
  function NextToken(input: seq<char>, pos: nat, buf: seq<Token>): (r: Result<Pulled>)
    requires pos <= |input|
    ensures r.Ok? ==> pos <= r.value.pos <= |input|
  {
    match Pull(input, pos, buf)
    case Err(m) => Err(m)
    case Ok(first) =>
      var token := first.token;
      if token.kind == TokenType.Identifier && IsKeyword(token.lexeme) then
        Ok(first.(token := PromoteKeyword(token)))
      else if token.kind == TokenType.Integer then
        FuseReal(input, token, first.pos, first.buf)
      else
        Ok(first)
  }

  /** The number of buffered tokens that are not EndOfFile. */
  function CountNonEof(ts: seq<Token>): (n: nat)
  {
    if ts == [] then 0 else (if ts[0].kind == TokenType.EndOfFile then 0 else 1) + CountNonEof(ts[1..])
  }

  /** The termination measure of read_all: characters left plus non-EndOfFile tokens buffered. */
  function Weight(input: seq<char>, pos: nat, buf: seq<Token>): (w: nat)
    requires pos <= |input|
  {
    |input| - pos + CountNonEof(buf)
  }

  /** `read_all`: the tokens returned by `next` up to and including the first EndOfFile. */
  function ReadAllFrom(input: seq<char>, pos: nat, buf: seq<Token>): (r: Result<seq<Token>>)
    requires pos <= |input|
    ensures r.Ok? ==> |r.value| >= 1 && r.value[|r.value| - 1].kind == TokenType.EndOfFile
    ensures r.Ok? ==> forall i :: 0 <= i < |r.value| - 1 ==> r.value[i].kind != TokenType.EndOfFile
    decreases Weight(input, pos, buf)
  {
    match NextToken(input, pos, buf)
    case Err(m) => Err(m)
    case Ok(step) =>
      if step.token.kind == TokenType.EndOfFile then
        Ok([step.token])
      else
        NextTokenWeight(input, pos, buf);
        match ReadAllFrom(input, step.pos, step.buf)
        case Err(m) => Err(m)
        case Ok(rest) => ConsBeforeEof(step.token, rest); Ok([step.token] + rest)
  }

  /** A token that is not EndOfFile, put in front of a run that stops at its first EndOfFile, keeps that shape. */
  lemma ConsBeforeEof(t: Token, rest: seq<Token>)
    requires t.kind != TokenType.EndOfFile
    requires |rest| >= 1 && rest[|rest| - 1].kind == TokenType.EndOfFile
    requires forall i :: 0 <= i < |rest| - 1 ==> rest[i].kind != TokenType.EndOfFile
    ensures var r := [t] + rest;
      && |r| >= 1 && r[|r| - 1].kind == TokenType.EndOfFile
      && forall i :: 0 <= i < |r| - 1 ==> r[i].kind != TokenType.EndOfFile
  {
    var r := [t] + rest;
    assert forall i :: 1 <= i < |r| ==> r[i] == rest[i - 1];
  }

  /** read_all on a freshly constructed lexer. */
  function ReadAll(input: seq<char>): (r: Result<seq<Token>>)
  {
    ReadAllFrom(input, 0, [])
  }

  /** A token list placed in front of the tokens of a read, or the read's error. */
  function Prepend(ts: seq<Token>, r: Result<seq<Token>>): (p: Result<seq<Token>>)
    ensures p.Ok? <==> r.Ok?
    ensures p.Ok? ==> |p.value| == |ts| + |r.value| && p.value[..|ts|] == ts && p.value[|ts|..] == r.value
    ensures p.Err? ==> p == r
  {
    match r
    case Err(m) => Err(m)
    case Ok(rest) => Ok(ts + rest)
  }

  lemma PrependTwice(a: seq<Token>, b: seq<Token>, r: Result<seq<Token>>)
    ensures Prepend(a, Prepend(b, r)) == Prepend(a + b, r)
  {
    if r.Ok? {
      assert a + (b + r.value) == a + b + r.value;
    }
  }

  /**
   * read_all unrolled once: an error of `next` is the error of the read,
   * an EndOfFile token ends it, and any other token is followed by the
   * read from the state `next` leaves, which weighs less.
   */
  lemma ReadAllStep(input: seq<char>, pos: nat, buf: seq<Token>)
    requires pos <= |input|
    ensures NextToken(input, pos, buf).Err? ==> ReadAllFrom(input, pos, buf) == Err(NextToken(input, pos, buf).message)
    ensures NextToken(input, pos, buf).Ok? ==>
      var n := NextToken(input, pos, buf).value;
      if n.token.kind == TokenType.EndOfFile then
        ReadAllFrom(input, pos, buf) == Ok([n.token])
      else
        Weight(input, n.pos, n.buf) < Weight(input, pos, buf) &&
        ReadAllFrom(input, pos, buf) == Prepend([n.token], ReadAllFrom(input, n.pos, n.buf))
  {
    if NextToken(input, pos, buf).Ok? {
      NextTokenWeight(input, pos, buf);
    }
  }

  /**
   * The bookkeeping of the read_all loop: with the tokens returned so far
   * in front, the read from before a call of `next` is the read from after
   * it with one more token in front, or, when that token is EndOfFile,
   * exactly the tokens returned.
   */
  lemma ReadAllAppend(input: seq<char>, pos: nat, buf: seq<Token>, tokens: seq<Token>)
    requires pos <= |input| && NextToken(input, pos, buf).Ok?
    ensures var n := NextToken(input, pos, buf).value;
      n.token.kind == TokenType.EndOfFile ==> Prepend(tokens, ReadAllFrom(input, pos, buf)) == Ok(tokens + [n.token])
    ensures var n := NextToken(input, pos, buf).value;
      n.token.kind != TokenType.EndOfFile ==>
        Prepend(tokens, ReadAllFrom(input, pos, buf)) == Prepend(tokens + [n.token], ReadAllFrom(input, n.pos, n.buf))
  {
    ReadAllStep(input, pos, buf);
    var n := NextToken(input, pos, buf).value;
    if n.token.kind != TokenType.EndOfFile {
      PrependTwice(tokens, [n.token], ReadAllFrom(input, n.pos, n.buf));
    }
  }

  // ---------------------------------------------------------------------
  // Termination of read_all
  // ---------------------------------------------------------------------

  lemma {:induction false} CountNonEofAppend(a: seq<Token>, b: seq<Token>)
    ensures CountNonEof(a + b) == CountNonEof(a) + CountNonEof(b)
  {
    if a == [] {
      assert a + b == b;
    } else {
      assert (a + b)[0] == a[0] && (a + b)[1..] == a[1..] + b;
      CountNonEofAppend(a[1..], b);
    }
  }

  /** A raw pull lowers the weight by one when its token is not EndOfFile, and never raises it. */
  lemma PullWeight(input: seq<char>, pos: nat, buf: seq<Token>)
    requires pos <= |input| && Pull(input, pos, buf).Ok?
    ensures var p := Pull(input, pos, buf).value;
      Weight(input, p.pos, p.buf) + (if p.token.kind == TokenType.EndOfFile then 0 else 1) <= Weight(input, pos, buf)
  {
    if |buf| == 0 {
      ScanShape(input, pos, LexerState.Empty, []);
    }
  }

  /** Every call of `next` that does not return EndOfFile lowers the weight. */
  lemma NextTokenWeight(input: seq<char>, pos: nat, buf: seq<Token>)
    requires pos <= |input| && NextToken(input, pos, buf).Ok?
    ensures var n := NextToken(input, pos, buf).value;
      n.token.kind != TokenType.EndOfFile ==> Weight(input, n.pos, n.buf) < Weight(input, pos, buf)
  {
    PullWeight(input, pos, buf);
    var first := Pull(input, pos, buf).value;
    if first.token.kind == TokenType.Integer {
      PullWeight(input, first.pos, first.buf);
      var dot := Pull(input, first.pos, first.buf).value;
      PullWeight(input, dot.pos, dot.buf);
      var fraction := Pull(input, dot.pos, dot.buf).value;
      CountNonEofAppend(fraction.buf, [dot.token, fraction.token]);
      assert CountNonEof([dot.token, fraction.token]) == CountNonEof([dot.token]) + CountNonEof([fraction.token]) by {
        CountNonEofAppend([dot.token], [fraction.token]);
        assert [dot.token] + [fraction.token] == [dot.token, fraction.token];
      }
    }
  }

  // ---------------------------------------------------------------------
  // The shape of a scanned token
  // ---------------------------------------------------------------------

  predicate IsClass(c: char, t: CharacterType)
  {
    CharToType(C(c)) == Ok(t)
  }

  predicate IsIdentifierChar(c: char)
  {
    IsClass(c, CharacterType.Alpha) || IsClass(c, CharacterType.Digit) || IsClass(c, CharacterType.Dollar)
  }

  /** A letter-class character followed by letter, digit and dollar characters. */
  predicate IdentifierShaped(s: string)
  {
    |s| >= 1 && IsClass(s[0], CharacterType.Alpha) && forall i :: 0 <= i < |s| ==> IsIdentifierChar(s[i])
  }

  predicate AllDigits(s: string)
  {
    forall i :: 0 <= i < |s| ==> IsClass(s[i], CharacterType.Digit)
  }

  /** Digits, a '.', digits. */
  predicate IsRealLexeme(s: string)
  {
    exists k :: 0 < k < |s| - 1 && s[k] == '.' && AllDigits(s[..k]) && AllDigits(s[k + 1..])
  }

  /** The tokens the FSM can accept, each with the lexemes its state admits. */
  predicate RawWellFormed(t: Token)
  {
    match t.kind
    case Identifier => IdentifierShaped(t.lexeme)
    case Integer => |t.lexeme| >= 1 && AllDigits(t.lexeme)
    case Operator => |t.lexeme| == 1 && IsClass(t.lexeme[0], CharacterType.Operator)
    case Separator => |t.lexeme| == 1 && IsClass(t.lexeme[0], CharacterType.Separator)
    case EndOfFile => t.lexeme == []
    case _ => false
  }

  /** The tokens `next` can return: raw tokens after keyword promotion, and fused reals. */
  predicate WellFormed(t: Token)
  {
    match t.kind
    case Keyword => IsKeyword(t.lexeme) && IdentifierShaped(t.lexeme)
    case Identifier => IdentifierShaped(t.lexeme) && !IsKeyword(t.lexeme)
    case Real => IsRealLexeme(t.lexeme)
    case INVALID => false
    case _ => RawWellFormed(t)
  }

  /** The lexeme accumulated in a state is the lexeme of that state's token so far. */
  predicate LexemeFits(state: LexerState, lexeme: string)
    requires state != LexerState.INVALID
  {
    if state == LexerState.Empty then lexeme == [] else RawWellFormed(Token(StateTokenType(state), lexeme))
  }

  /** One non-accepting step keeps the accumulated lexeme fitting the new state. */
  lemma StepFits(state: LexerState, t: CharacterType, ch: Ch, lexeme: string)
    requires state != LexerState.INVALID && CharToType(ch) == Ok(t)
    requires LexemeFits(state, lexeme)
    requires Transition(state, t) != LexerState.INVALID
    requires !(Transition(state, t) == LexerState.Empty && state != LexerState.Empty)
    ensures var ns := Transition(state, t);
      ns != LexerState.Empty && ns != LexerState.EndOfFile ==> ch.C? && LexemeFits(ns, lexeme + [ch.c])
    ensures var ns := Transition(state, t);
      !(ns != LexerState.Empty && ns != LexerState.EndOfFile) ==> LexemeFits(ns, lexeme)
  {
    EndOfFileColumn(state);
    match state
    case Empty => EmptyRow(t);
    case Identifier => IdentifierRow(t);
    case Integer => IntegerRow(t);
    case Operator => SingleCharacterRows(t);
    case Separator => SingleCharacterRows(t);
    case EndOfFile => InvalidEntries(state, t);
  }

  /**
   * What the scanner accepts: a token each of whose characters has the
   * class its kind admits (identifiers start with a letter, integers are
   * digits, operators and separators are one character, EndOfFile is
   * empty and returned only at end of input), and it consumes at least as
   * many characters as it adds to the lexeme.
   */
  lemma {:induction false} ScanShape(input: seq<char>, pos: nat, state: LexerState, lexeme: string)
    requires pos <= |input| && state != LexerState.INVALID
    requires LexemeFits(state, lexeme)
    requires state == LexerState.EndOfFile ==> pos == |input|
    requires Scan(input, pos, state, lexeme).Ok?
    ensures var a := Scan(input, pos, state, lexeme).value;
      RawWellFormed(a.token) && (a.token.kind == TokenType.EndOfFile ==> a.pos == |input|)
    ensures var a := Scan(input, pos, state, lexeme).value;
      |a.token.lexeme| - |lexeme| <= a.pos - pos
    decreases |input| - pos, if state == LexerState.Empty then 1 else 0
  {
    var ch := ChAt(input, pos);
    var charType := CharToType(ch).value;
    var newState := Transition(state, charType);
    if newState == LexerState.Empty && state != LexerState.Empty {
      StateTokenTypesAgree(state);
    } else {
      EndOfFileColumn(state);
      StepFits(state, charType, ch, lexeme);
      var lexeme' := if newState != LexerState.Empty && newState != LexerState.EndOfFile then lexeme + [ch.c] else lexeme;
      ScanShape(input, Fetch(input, pos), newState, lexeme');
    }
  }

  // ---------------------------------------------------------------------
  // The text the tokens are made of
  // ---------------------------------------------------------------------

  /**
   * The input from index i with whitespace and comments removed: a '!'
   * drops everything up to (not including) the next line end.
   */
  function Visible(s: seq<char>, i: nat): (r: seq<char>)
    requires i <= |s|
    decreases |s| - i
  {
    if i == |s| then []
    else if s[i] == '!' then Visible(s, CommentEnd(s, i + 1))
    else if s[i] in WhitespaceChars then Visible(s, i + 1)
    else [s[i]] + Visible(s, i + 1)
  }

  /** The visible text holds no whitespace and no comment marker. */
  lemma {:induction false} VisibleIsBlankFree(s: seq<char>, i: nat)
    requires i <= |s|
    ensures forall k :: 0 <= k < |Visible(s, i)| ==> Visible(s, i)[k] !in WhitespaceChars && Visible(s, i)[k] != '!'
    decreases |s| - i
  {
    if i < |s| {
      if s[i] == '!' {
        VisibleIsBlankFree(s, CommentEnd(s, i + 1));
      } else {
        VisibleIsBlankFree(s, i + 1);
      }
    }
  }

  /** The concatenation of the lexemes of a token sequence. */
  function Lexemes(ts: seq<Token>): (s: string)
  {
    if ts == [] then [] else ts[0].lexeme + Lexemes(ts[1..])
  }

  /** The text still to be returned: the buffered lexemes, then the visible rest of the input. */
  function Pending(input: seq<char>, pos: nat, buf: seq<Token>): (s: string)
    requires pos <= |input|
  {
    Lexemes(buf) + Visible(input, pos)
  }

  /**
   * One step of the scan loop keeps the text invariant: what was
   * accumulated plus what is still visible is unchanged by appending the
   * current character (or skipping it) and fetching the next one.
   */
  lemma StepText(input: seq<char>, pos: nat, state: LexerState, lexeme: string)
    requires pos <= |input| && state != LexerState.INVALID
    requires CharToType(ChAt(input, pos)).Ok?
    requires var ns := Transition(state, CharToType(ChAt(input, pos)).value);
      ns != LexerState.INVALID && !(ns == LexerState.Empty && state != LexerState.Empty)
    ensures var ch := ChAt(input, pos);
      var ns := Transition(state, CharToType(ch).value);
      ns != LexerState.Empty && ns != LexerState.EndOfFile ==> ch.C? && lexeme + Visible(input, pos) == lexeme + [ch.c] + Visible(input, Fetch(input, pos))
    ensures var ch := ChAt(input, pos);
      var ns := Transition(state, CharToType(ch).value);
      !(ns != LexerState.Empty && ns != LexerState.EndOfFile) ==> lexeme + Visible(input, pos) == lexeme + Visible(input, Fetch(input, pos))
  {
    var ch := ChAt(input, pos);
    var t := CharToType(ch).value;
    ContinuingTransitions(state, t);
    if pos < |input| {
      var c := input[pos];
      Classification(c);
      var next := pos + 1;
      assert Visible(input, next) == Visible(input, Fetch(input, pos)) by {
        if next < |input| && input[next] == '!' {
          assert Visible(input, next) == Visible(input, CommentEnd(input, next + 1));
        }
      }
      assert c != '!';
      if c in WhitespaceChars {
        assert Visible(input, pos) == Visible(input, next);
      } else {
        assert Visible(input, pos) == [c] + Visible(input, next);
        assert lexeme + ([c] + Visible(input, next)) == lexeme + [c] + Visible(input, next);
      }
    }
  }

  /**
   * The scanner neither drops nor duplicates text: the accumulated lexeme
   * followed by the visible input equals the accepted lexeme followed by
   * the visible input from the character that ended the token.
   */
  lemma {:induction false} ScanText(input: seq<char>, pos: nat, state: LexerState, lexeme: string)
    requires pos <= |input| && state != LexerState.INVALID
    requires Scan(input, pos, state, lexeme).Ok?
    ensures var a := Scan(input, pos, state, lexeme).value;
      lexeme + Visible(input, pos) == a.token.lexeme + Visible(input, a.pos)
    decreases |input| - pos, if state == LexerState.Empty then 1 else 0
  {
    var ch := ChAt(input, pos);
    var charType := CharToType(ch).value;
    var newState := Transition(state, charType);
    if !(newState == LexerState.Empty && state != LexerState.Empty) {
      EndOfFileColumn(state);
      StepText(input, pos, state, lexeme);
      var lexeme' := if newState != LexerState.Empty && newState != LexerState.EndOfFile then lexeme + [ch.c] else lexeme;
      ScanText(input, Fetch(input, pos), newState, lexeme');
    }
  }

  // ---------------------------------------------------------------------
  // The lookahead buffer
  // ---------------------------------------------------------------------

  /**
   * What holds of the lookahead buffer between calls of `next`: at most
   * two tokens, each a token the FSM can accept, and an EndOfFile token is
   * buffered only once the input is exhausted and only followed by more
   * EndOfFile tokens.
   */
  predicate BufferInv(input: seq<char>, pos: nat, buf: seq<Token>)
    requires pos <= |input|
  {
    && |buf| <= 2
    && (forall i :: 0 <= i < |buf| ==> RawWellFormed(buf[i]))
    && (forall i :: 0 <= i < |buf| && buf[i].kind == TokenType.EndOfFile ==>
          pos == |input| && forall j :: i <= j < |buf| ==> buf[j] == EofToken)
  }

  lemma LexemesOfEofTokens(ts: seq<Token>)
    requires |ts| <= 2 && forall j :: 0 <= j < |ts| ==> ts[j] == EofToken
    ensures Lexemes(ts) == []
  {
    if ts != [] {
      assert Lexemes(ts[1..]) == [] by {
        if ts[1..] != [] {
          assert ts[1..][1..] == [];
        }
      }
    }
  }

  /** At end of input with nothing buffered, a pull returns EndOfFile and changes nothing. */
  lemma PullAtEnd(input: seq<char>)
    ensures Pull(input, |input|, []) == Ok(Pulled(EofToken, |input|, []))
  {
    EndOfInputScan(input);
  }

  /** From Empty at end of input the FSM goes to EndOfFile and then accepts an empty EndOfFile token. */
  lemma EndOfInputScan(input: seq<char>)
    ensures Scan(input, |input|, LexerState.Empty, []) == Ok(Accepted(EofToken, |input|))
  {
    EndOfFileColumn(LexerState.Empty);
    ScanStep(input, |input|, LexerState.Empty, []);
    EndOfFileAccepts(input, |input|, []);
  }

  /** In state EndOfFile at end of input the FSM returns to Empty and accepts the empty EndOfFile token. */
  lemma EndOfFileAccepts(input: seq<char>, pos: nat, lexeme: string)
    requires pos == |input| && lexeme == []
    ensures Scan(input, pos, LexerState.EndOfFile, lexeme) == Ok(Accepted(Token(TokenType.EndOfFile, lexeme), pos))
  {
    assert ChAt(input, pos) == EOF;
    assert CharToType(EOF) == Ok(CharacterType.EndOfFile);
    EndOfFileColumn(LexerState.EndOfFile);
    StateTokenTypesAgree(LexerState.EndOfFile);
  }

  /** What one raw pull guarantees under the buffer invariant. */
  ghost predicate PullGuarantees(input: seq<char>, pos: nat, buf: seq<Token>, p: Pulled)
    requires pos <= |input| && p.pos <= |input|
  {
    && RawWellFormed(p.token)
    && |p.buf| == (if |buf| > 0 then |buf| - 1 else 0)
    && BufferInv(input, p.pos, p.buf)
    && (p.token.kind == TokenType.EndOfFile ==>
          p.token == EofToken && p.pos == |input| && forall j :: 0 <= j < |p.buf| ==> p.buf[j] == EofToken)
    && Pending(input, pos, buf) == p.token.lexeme + Pending(input, p.pos, p.buf)
  }

  /** A pull from a non-empty buffer returns its front, keeps the rest in order and leaves the stream alone. */
  lemma PopFacts(input: seq<char>, pos: nat, buf: seq<Token>)
    requires pos <= |input| && BufferInv(input, pos, buf) && |buf| > 0
    ensures Pull(input, pos, buf) == Ok(Pulled(buf[0], pos, buf[1..]))
    ensures PullGuarantees(input, pos, buf, Pulled(buf[0], pos, buf[1..]))
  {
    assert Lexemes(buf) == buf[0].lexeme + Lexemes(buf[1..]);
    forall i | 0 <= i < |buf[1..]| ensures buf[1..][i] == buf[i + 1] { }
  }

  /** A pull from an empty buffer is a fresh scan from Empty. */
  lemma ScanPullFacts(input: seq<char>, pos: nat)
    requires pos <= |input| && Pull(input, pos, []).Ok?
    ensures PullGuarantees(input, pos, [], Pull(input, pos, []).value)
  {
    ScanPullShape(input, pos);
    ScanPullText(input, pos);
  }

  /** The token of a fresh scan is one the FSM accepts, EndOfFile only at end of input, and nothing is buffered. */
  lemma ScanPullShape(input: seq<char>, pos: nat)
    requires pos <= |input| && Pull(input, pos, []).Ok?
    ensures var p := Pull(input, pos, []).value;
      RawWellFormed(p.token) && p.buf == [] && (p.token.kind == TokenType.EndOfFile ==> p.token == EofToken && p.pos == |input|)
  {
    ScanShape(input, pos, LexerState.Empty, []);
  }

  /** The lexeme of a fresh scan is the front of the visible input. */
  lemma ScanPullText(input: seq<char>, pos: nat)
    requires pos <= |input| && Pull(input, pos, []).Ok?
    ensures var p := Pull(input, pos, []).value;
      Visible(input, pos) == p.token.lexeme + Visible(input, p.pos)
  {
    ScanText(input, pos, LexerState.Empty, []);
  }

  lemma PullFacts(input: seq<char>, pos: nat, buf: seq<Token>)
    requires pos <= |input| && BufferInv(input, pos, buf) && Pull(input, pos, buf).Ok?
    ensures PullGuarantees(input, pos, buf, Pull(input, pos, buf).value)
  {
    if |buf| > 0 {
      PopFacts(input, pos, buf);
    } else {
      ScanPullFacts(input, pos);
    }
  }

  /** A fused real literal has the shape digits '.' digits. */
  lemma RealShape(integer: string, fraction: string)
    requires |integer| >= 1 && AllDigits(integer) && |fraction| >= 1 && AllDigits(fraction)
    ensures IsRealLexeme(integer + "." + fraction)
  {
    var s := integer + "." + fraction;
    var k := |integer|;
    assert s[..k] == integer && s[k + 1..] == fraction && s[k] == '.';
  }

  /** Proof helper: associativity of string concatenation, stated where the solver needs it. */
  lemma ConcatAssoc(a: string, b: string, c: string)
    ensures a + (b + c) == (a + b) + c
  {
  }

  lemma LexemesOfPair(a: Token, b: Token)
    ensures Lexemes([a, b]) == a.lexeme + b.lexeme
  {
    assert [a, b][1..] == [b];
    assert [b][1..] == [];
    assert Lexemes([b]) == b.lexeme + Lexemes([]);
  }

  /** What one call of `next` guarantees under the buffer invariant. */
  ghost predicate NextGuarantees(input: seq<char>, pos: nat, buf: seq<Token>, n: Pulled)
    requires pos <= |input| && n.pos <= |input|
  {
    && BufferInv(input, n.pos, n.buf)
    && WellFormed(n.token)
    && Pending(input, pos, buf) == n.token.lexeme + Pending(input, n.pos, n.buf)
    && (n.token.kind == TokenType.EndOfFile ==> Pending(input, n.pos, n.buf) == [])
    && (n.token.kind == TokenType.EndOfFile ==>
          n.pos == |input| && forall j :: 0 <= j < |n.buf| ==> n.buf[j] == EofToken)
  }

  /** Two lookahead tokens pushed back onto an empty buffer keep the buffer invariant. */
  lemma PushBackFacts(input: seq<char>, dot: Token, fraction: Token, pos: nat, buf: seq<Token>)
    requires pos <= |input| && buf == [dot, fraction]
    requires RawWellFormed(dot) && RawWellFormed(fraction)
    requires dot.kind == TokenType.EndOfFile ==> fraction == EofToken
    requires dot.kind == TokenType.EndOfFile || fraction.kind == TokenType.EndOfFile ==> pos == |input|
    ensures BufferInv(input, pos, buf)
    ensures Pending(input, pos, buf) == dot.lexeme + fraction.lexeme + Visible(input, pos)
  {
    LexemesOfPair(dot, fraction);
  }

  /**
   * The decision after the lookahead, given what the two pulls guarantee:
   * a well-formed Real or the Integer with the two tokens buffered, and no
   * text lost or repeated.
   */
  lemma CombineFacts(input: seq<char>, integer: Token, dot: Token, fraction: Pulled)
    requires fraction.pos <= |input| && fraction.buf == []
    requires integer.kind == TokenType.Integer && RawWellFormed(integer)
    requires RawWellFormed(dot) && RawWellFormed(fraction.token)
    requires dot.kind == TokenType.EndOfFile ==> fraction.token == EofToken
    requires dot.kind == TokenType.EndOfFile || fraction.token.kind == TokenType.EndOfFile ==> fraction.pos == |input|
    ensures var n := Combine(integer, dot, fraction);
      && n.pos <= |input|
      && BufferInv(input, n.pos, n.buf)
      && WellFormed(n.token)
      && n.token.kind != TokenType.EndOfFile
      && integer.lexeme + (dot.lexeme + (fraction.token.lexeme + Visible(input, fraction.pos))) == n.token.lexeme + Pending(input, n.pos, n.buf)
  {
    if Fuses(dot, fraction.token) {
      FusedFacts(input, integer, dot, fraction);
    } else {
      UnfusedFacts(input, integer, dot, fraction);
    }
  }

  /** The other case of CombineFacts: the Integer is returned and both lookahead tokens are buffered. */
  lemma UnfusedFacts(input: seq<char>, integer: Token, dot: Token, fraction: Pulled)
    requires fraction.pos <= |input| && fraction.buf == []
    requires integer.kind == TokenType.Integer && RawWellFormed(integer)
    requires RawWellFormed(dot) && RawWellFormed(fraction.token) && !Fuses(dot, fraction.token)
    requires dot.kind == TokenType.EndOfFile ==> fraction.token == EofToken
    requires dot.kind == TokenType.EndOfFile || fraction.token.kind == TokenType.EndOfFile ==> fraction.pos == |input|
    ensures var n := Combine(integer, dot, fraction);
      && n.pos <= |input|
      && BufferInv(input, n.pos, n.buf)
      && WellFormed(n.token)
      && n.token == integer
      && integer.lexeme + (dot.lexeme + (fraction.token.lexeme + Visible(input, fraction.pos))) == n.token.lexeme + Pending(input, n.pos, n.buf)
  {
    ConcatAssoc(dot.lexeme, fraction.token.lexeme, Visible(input, fraction.pos));
    var buf := fraction.buf + [dot, fraction.token];
    assert buf == [dot, fraction.token];
    PushBackFacts(input, dot, fraction.token, fraction.pos, buf);
  }

  /** The fusing case of CombineFacts: the Real spells the three lexemes and nothing is buffered. */
  lemma FusedFacts(input: seq<char>, integer: Token, dot: Token, fraction: Pulled)
    requires fraction.pos <= |input| && fraction.buf == []
    requires integer.kind == TokenType.Integer && RawWellFormed(integer)
    requires RawWellFormed(fraction.token) && Fuses(dot, fraction.token)
    ensures var n := Combine(integer, dot, fraction);
      && n.pos <= |input|
      && BufferInv(input, n.pos, n.buf)
      && WellFormed(n.token)
      && n.token.kind == TokenType.Real
      && integer.lexeme + (dot.lexeme + (fraction.token.lexeme + Visible(input, fraction.pos))) == n.token.lexeme + Pending(input, n.pos, n.buf)
  {
    var i, d, f, v := integer.lexeme, dot.lexeme, fraction.token.lexeme, Visible(input, fraction.pos);
    ConcatAssoc(d, f, v);
    RealShape(i, f);
    assert Lexemes([]) == [];
    assert Pending(input, fraction.pos, []) == v;
    ConcatAssoc(i, d + f, v);
    ConcatAssoc(i, d, f);
  }

  /**
   * The lookahead after an Integer, under the buffer invariant with at
   * most one token left.
   */
  lemma FuseFacts(input: seq<char>, integer: Token, pos: nat, buf: seq<Token>)
    requires pos <= |input| && BufferInv(input, pos, buf) && |buf| <= 1
    requires integer.kind == TokenType.Integer && RawWellFormed(integer)
    requires FuseReal(input, integer, pos, buf).Ok?
    ensures var n := FuseReal(input, integer, pos, buf).value;
      && BufferInv(input, n.pos, n.buf)
      && WellFormed(n.token)
      && n.token.kind != TokenType.EndOfFile
      && integer.lexeme + Pending(input, pos, buf) == n.token.lexeme + Pending(input, n.pos, n.buf)
  {
    PullFacts(input, pos, buf);
    var dot := Pull(input, pos, buf).value;
    PullFacts(input, dot.pos, dot.buf);
    var fraction := Pull(input, dot.pos, dot.buf).value;
    if dot.token.kind == TokenType.EndOfFile {
      PullAtEnd(input);
    }
    CombineFacts(input, integer, dot.token, fraction);
    assert Pending(input, fraction.pos, fraction.buf) == Visible(input, fraction.pos) by {
      assert Lexemes([]) == [];
    }
  }

  /**
   * One call of `next` under the buffer invariant: the invariant still
   * holds afterwards, the token is well formed, its lexeme is the front of
   * the pending text, and once it is EndOfFile nothing is pending: the
   * input is exhausted and only EndOfFile tokens stay buffered.
   */
  lemma NextTokenFacts(input: seq<char>, pos: nat, buf: seq<Token>)
    requires pos <= |input| && BufferInv(input, pos, buf) && NextToken(input, pos, buf).Ok?
    ensures NextGuarantees(input, pos, buf, NextToken(input, pos, buf).value)
  {
    PullFacts(input, pos, buf);
    var first := Pull(input, pos, buf).value;
    if first.token.kind == TokenType.EndOfFile {
      LexemesOfEofTokens(first.buf);
    } else if first.token.kind == TokenType.Integer {
      FuseFacts(input, first.token, first.pos, first.buf);
    }
  }

  /**
   * read_all returns the pending text: the concatenated lexemes of the
   * tokens equal the buffered lexemes followed by the visible input, and
   * every token is well formed.
   */
  lemma {:induction false} ReadAllText(input: seq<char>, pos: nat, buf: seq<Token>)
    requires pos <= |input| && BufferInv(input, pos, buf) && ReadAllFrom(input, pos, buf).Ok?
    ensures Lexemes(ReadAllFrom(input, pos, buf).value) == Pending(input, pos, buf)
    ensures forall i :: 0 <= i < |ReadAllFrom(input, pos, buf).value| ==> WellFormed(ReadAllFrom(input, pos, buf).value[i])
    decreases Weight(input, pos, buf)
  {
    NextTokenFacts(input, pos, buf);
    var n := NextToken(input, pos, buf).value;
    var ts := ReadAllFrom(input, pos, buf).value;
    if n.token.kind == TokenType.EndOfFile {
      assert ts == [n.token];
      assert Lexemes(ts) == n.token.lexeme + Lexemes([]);
    } else {
      NextTokenWeight(input, pos, buf);
      ReadAllText(input, n.pos, n.buf);
      var rest := ReadAllFrom(input, n.pos, n.buf).value;
      assert ts == [n.token] + rest;
      assert ts[1..] == rest;
    }
  }

  /**
   * The main property: on a successful read_all of a fresh lexer the
   * concatenated lexemes are exactly the input with whitespace and
   * comments removed, and every token is well formed.
   */
  lemma LexemesAreVisibleText(input: seq<char>)
    requires ReadAll(input).Ok?
    ensures Lexemes(ReadAll(input).value) == Visible(input, 0)
    ensures forall i :: 0 <= i < |ReadAll(input).value| ==> WellFormed(ReadAll(input).value[i])
  {
    ReadAllText(input, 0, []);
  }

  const EofToken: Token := Token(TokenType.EndOfFile, [])
}
