/**
 * What read_all returns on whole inputs of a given shape: blank input, a
 * lone identifier, keyword, integer or real literal, an integer followed
 * by separators, a line comment, and the inputs it refuses. The run
 * lemmas each describe one scan of the FSM over a stretch of the input.
 */
module LexerProperties {
  import opened Tokens
  import opened LexerTables
  import opened LexerSpec

  /** The character at `ch` makes the FSM accept the token it has in `state`. */
  predicate EndsToken(state: LexerState, ch: Ch)
    requires state != LexerState.INVALID
  {
    CharToType(ch).Ok? && Transition(state, CharToType(ch).value) == LexerState.Empty
  }

  lemma NotCommentMarker(c: char)
    requires CharToType(C(c)).Ok?
    ensures c != '!'
  {
    InvalidCharacters();
  }

  /** A get from pos that does not land on '!' just moves to the next index. */
  lemma FetchNext(input: seq<char>, pos: nat)
    requires pos < |input|
    requires pos + 1 < |input| ==> CharToType(C(input[pos + 1])).Ok?
    ensures Fetch(input, pos) == pos + 1
  {
    if pos + 1 < |input| {
      NotCommentMarker(input[pos + 1]);
    }
  }

  // ---------------------------------------------------------------------
  // Runs of the FSM
  // ---------------------------------------------------------------------

  /** Whitespace in state Empty is skipped: the scan is the same as from the first non-blank character. */
  lemma {:induction false} ScanWhitespace(input: seq<char>, pos: nat, end: nat)
    requires pos <= end <= |input|
    requires forall k :: pos <= k < end ==> input[k] in WhitespaceChars
    requires end < |input| ==> input[end] != '!'
    ensures Scan(input, pos, LexerState.Empty, []) == Scan(input, end, LexerState.Empty, [])
    decreases end - pos
  {
    if pos < end {
      assert pos + 1 < |input| ==> input[pos + 1] != '!' by {
        if pos + 1 < end { assert input[pos + 1] in WhitespaceChars; }
      }
      SkipsBlank(input, pos);
      ScanWhitespace(input, pos + 1, end);
    }
  }

  /** A whitespace character in state Empty is skipped. */
  lemma SkipsBlank(input: seq<char>, pos: nat)
    requires pos < |input| && input[pos] in WhitespaceChars
    requires pos + 1 < |input| ==> input[pos + 1] != '!'
    ensures Scan(input, pos, LexerState.Empty, []) == Scan(input, pos + 1, LexerState.Empty, [])
  {
    Classification(input[pos]);
    WhitespaceColumn(LexerState.Empty);
    ScanStep(input, pos, LexerState.Empty, []);
  }

  /** The FSM accepts its token in `state` at a character that ends it, which stays current. */
  lemma ScanAccepts(input: seq<char>, pos: nat, state: LexerState, lexeme: string)
    requires pos <= |input| && state != LexerState.INVALID && state != LexerState.Empty
    requires EndsToken(state, ChAt(input, pos))
    ensures Scan(input, pos, state, lexeme) == Ok(Accepted(Token(StateTokenType(state), lexeme), pos))
  {
  }

  // Proof helpers: small sequence identities that the concrete proofs
  // below state explicitly so the solver need not rediscover them. They
  // are not properties of the lexer.

  lemma EmptyPrefix<T>(s: seq<T>)
    ensures [] + s == s
  {
  }

  lemma Pair<T>(a: T, b: T)
    ensures [a] + [b] == [a, b]
  {
  }

  lemma ConsPair<T>(a: T, b: T, c: T)
    ensures [a] + [b, c] == [a, b, c]
  {
  }

  lemma Quad<T>(a: T, b: T, c: T, d: T)
    ensures [a] + ([b] + [c, d]) == [a, b, c, d]
  {
  }

  /** Appending the first character of a run and then the rest appends the whole run. */
  lemma AppendRun(lexeme: string, input: seq<char>, pos: nat, end: nat)
    requires pos < end <= |input|
    ensures lexeme + [input[pos]] + input[pos + 1..end] == lexeme + input[pos..end]
  {
    assert input[pos..end] == [input[pos]] + input[pos + 1..end];
  }

  /** A character that moves the FSM into a state carrying text is appended, and the scan moves to the next index. */
  lemma Advances(input: seq<char>, pos: nat, state: LexerState, next: LexerState, lexeme: string)
    requires pos < |input| && state != LexerState.INVALID && IsContentState(next)
    requires CharToType(C(input[pos])).Ok? && Transition(state, CharToType(C(input[pos])).value) == next
    requires pos + 1 < |input| ==> CharToType(C(input[pos + 1])).Ok?
    ensures Scan(input, pos, state, lexeme) == Scan(input, pos + 1, next, lexeme + [input[pos]])
  {
    FetchNext(input, pos);
    ScanStep(input, pos, state, lexeme);
  }

  /** A character that cannot continue an identifier, or the end of input, accepts it. */
  lemma IdentifierEnds(input: seq<char>, end: nat, lexeme: string)
    requires end <= |input|
    requires end < |input| ==> CharToType(C(input[end])).Ok? && !IsIdentifierChar(input[end])
    ensures Scan(input, end, LexerState.Identifier, lexeme) == Ok(Accepted(Token(TokenType.Identifier, lexeme), end))
  {
    IdentifierRow(CharToType(ChAt(input, end)).value);
    StateTokenTypesAgree(LexerState.Identifier);
    ScanAccepts(input, end, LexerState.Identifier, lexeme);
  }

  /** A character that is not a digit, or the end of input, accepts an integer. */
  lemma IntegerEnds(input: seq<char>, end: nat, lexeme: string)
    requires end <= |input|
    requires end < |input| ==> CharToType(C(input[end])).Ok? && !IsClass(input[end], CharacterType.Digit)
    ensures Scan(input, end, LexerState.Integer, lexeme) == Ok(Accepted(Token(TokenType.Integer, lexeme), end))
  {
    IntegerRow(CharToType(ChAt(input, end)).value);
    StateTokenTypesAgree(LexerState.Integer);
    ScanAccepts(input, end, LexerState.Integer, lexeme);
  }

  /**
   * Identifier characters are appended one by one, and the identifier is
   * accepted at the first character that cannot continue it.
   */
  lemma {:induction false} IdentifierRun(input: seq<char>, pos: nat, end: nat, lexeme: string)
    requires pos <= end <= |input|
    requires forall k :: pos <= k < end ==> IsIdentifierChar(input[k])
    requires end < |input| ==> CharToType(C(input[end])).Ok? && !IsIdentifierChar(input[end])
    ensures Scan(input, pos, LexerState.Identifier, lexeme) == Ok(Accepted(Token(TokenType.Identifier, lexeme + input[pos..end]), end))
    decreases end - pos
  {
    if pos == end {
      assert lexeme + input[pos..end] == lexeme;
      IdentifierEnds(input, end, lexeme);
    } else {
      IdentifierRow(CharToType(C(input[pos])).value);
      Advances(input, pos, LexerState.Identifier, LexerState.Identifier, lexeme);
      IdentifierRun(input, pos + 1, end, lexeme + [input[pos]]);
      AppendRun(lexeme, input, pos, end);
    }
  }

  /** Digits are appended one by one, and the integer is accepted at the first non-digit. */
  lemma {:induction false} IntegerRun(input: seq<char>, pos: nat, end: nat, lexeme: string)
    requires pos <= end <= |input|
    requires forall k :: pos <= k < end ==> IsClass(input[k], CharacterType.Digit)
    requires end < |input| ==> CharToType(C(input[end])).Ok? && !IsClass(input[end], CharacterType.Digit)
    ensures Scan(input, pos, LexerState.Integer, lexeme) == Ok(Accepted(Token(TokenType.Integer, lexeme + input[pos..end]), end))
    decreases end - pos
  {
    if pos == end {
      assert lexeme + input[pos..end] == lexeme;
      IntegerEnds(input, end, lexeme);
    } else {
      IntegerRow(CharToType(C(input[pos])).value);
      Advances(input, pos, LexerState.Integer, LexerState.Integer, lexeme);
      IntegerRun(input, pos + 1, end, lexeme + [input[pos]]);
      AppendRun(lexeme, input, pos, end);
    }
  }

  /** An identifier from Empty: a letter, then identifier characters up to one that cannot continue it. */
  lemma ScanIdentifier(input: seq<char>, pos: nat, end: nat)
    requires pos < end <= |input| && IdentifierShaped(input[pos..end])
    requires end < |input| ==> CharToType(C(input[end])).Ok? && !IsIdentifierChar(input[end])
    ensures Scan(input, pos, LexerState.Empty, []) == Ok(Accepted(Token(TokenType.Identifier, input[pos..end]), end))
  {
    ShapedSlice(input, pos, end);
    EmptyRow(CharacterType.Alpha);
    Advances(input, pos, LexerState.Empty, LexerState.Identifier, []);
    IdentifierRun(input, pos + 1, end, [] + [input[pos]]);
    AppendRun([], input, pos, end);
    EmptyPrefix(input[pos..end]);
  }

  /** The characters of an identifier-shaped slice, one by one. */
  lemma ShapedSlice(input: seq<char>, pos: nat, end: nat)
    requires pos < end <= |input| && IdentifierShaped(input[pos..end])
    ensures IsClass(input[pos], CharacterType.Alpha)
    ensures forall k :: pos <= k < end ==> IsIdentifierChar(input[k])
  {
    var w := input[pos..end];
    assert forall k :: pos <= k < end ==> input[k] == w[k - pos];
  }

  /** The characters of a slice of digits, one by one. */
  lemma DigitSlice(input: seq<char>, pos: nat, end: nat)
    requires pos < end <= |input| && AllDigits(input[pos..end])
    ensures forall k :: pos <= k < end ==> IsClass(input[k], CharacterType.Digit)
  {
    var w := input[pos..end];
    assert forall k :: pos <= k < end ==> input[k] == w[k - pos];
  }

  /** An integer from Empty: digits up to a character that is not a digit. */
  lemma ScanInteger(input: seq<char>, pos: nat, end: nat)
    requires pos < end <= |input| && AllDigits(input[pos..end])
    requires end < |input| ==> CharToType(C(input[end])).Ok? && !IsClass(input[end], CharacterType.Digit)
    ensures Scan(input, pos, LexerState.Empty, []) == Ok(Accepted(Token(TokenType.Integer, input[pos..end]), end))
  {
    DigitSlice(input, pos, end);
    EmptyRow(CharacterType.Digit);
    Advances(input, pos, LexerState.Empty, LexerState.Integer, []);
    IntegerRun(input, pos + 1, end, [] + [input[pos]]);
    AppendRun([], input, pos, end);
    EmptyPrefix(input[pos..end]);
  }

  /** An operator or separator character is a token of its own, whatever (valid character) follows it. */
  lemma ScanPunctuation(input: seq<char>, pos: nat, t: CharacterType)
    requires pos < |input| && (t == CharacterType.Operator || t == CharacterType.Separator)
    requires CharToType(C(input[pos])) == Ok(t)
    requires CharToType(ChAt(input, pos + 1)).Ok?
    ensures Scan(input, pos, LexerState.Empty, []) ==
      Ok(Accepted(Token(if t == CharacterType.Operator then TokenType.Operator else TokenType.Separator, [input[pos]]), pos + 1))
  {
    assert ChAt(input, pos) == C(input[pos]);
    EmptyRow(t);
    FetchNext(input, pos);
    ScanStep(input, pos, LexerState.Empty, []);
    EmptyPrefix([input[pos]]);
    var s := if t == CharacterType.Operator then LexerState.Operator else LexerState.Separator;
    SingleCharacterRows(CharToType(ChAt(input, pos + 1)).value);
    StateTokenTypesAgree(s);
    ScanAccepts(input, pos + 1, s, [input[pos]]);
  }

  // ---------------------------------------------------------------------
  // Composing pulls, next and read_all
  // ---------------------------------------------------------------------

  // The lemmas of this section unfold Pull, NextToken and ReadAllFrom by
  // one step each. They are proof helpers for the concrete runs below.

  /** With nothing buffered, a pull is the scan from Empty. */
  lemma PullScans(input: seq<char>, pos: nat, a: Accepted)
    requires pos <= |input| && Scan(input, pos, LexerState.Empty, []) == Ok(a)
    ensures Pull(input, pos, []) == Ok(Pulled(a.token, a.pos, []))
  {
  }

  /** `next` on a token that is not an Integer: the pulled token, with keyword promotion. */
  lemma NextPromotes(input: seq<char>, pos: nat, buf: seq<Token>, p: Pulled)
    requires pos <= |input| && Pull(input, pos, buf) == Ok(p) && p.token.kind != TokenType.Integer
    ensures NextToken(input, pos, buf) == Ok(p.(token := PromoteKeyword(p.token)))
  {
  }

  /** `next` on an Integer: the two lookahead pulls, then Combine. */
  lemma NextFuses(input: seq<char>, pos: nat, buf: seq<Token>, first: Pulled, dot: Pulled, fraction: Pulled)
    requires pos <= |input| && Pull(input, pos, buf) == Ok(first) && first.token.kind == TokenType.Integer
    requires first.pos <= |input| && Pull(input, first.pos, first.buf) == Ok(dot)
    requires dot.pos <= |input| && Pull(input, dot.pos, dot.buf) == Ok(fraction)
    ensures NextToken(input, pos, buf) == Ok(Combine(first.token, dot.token, fraction))
  {
  }

  /** read_all stops at the first EndOfFile token returned by `next`. */
  lemma ReadAllEnds(input: seq<char>, pos: nat, buf: seq<Token>, n: Pulled)
    requires pos <= |input| && NextToken(input, pos, buf) == Ok(n) && n.token.kind == TokenType.EndOfFile
    ensures ReadAllFrom(input, pos, buf) == Ok([n.token])
  {
  }

  /** read_all after a token that is not EndOfFile: that token, then the rest. */
  lemma ReadAllCons(input: seq<char>, pos: nat, buf: seq<Token>, n: Pulled, rest: seq<Token>)
    requires pos <= |input| && NextToken(input, pos, buf) == Ok(n) && n.token.kind != TokenType.EndOfFile
    requires n.pos <= |input| && ReadAllFrom(input, n.pos, n.buf) == Ok(rest)
    ensures ReadAllFrom(input, pos, buf) == Ok([n.token] + rest)
  {
    ReadAllStep(input, pos, buf);
  }

  // ---------------------------------------------------------------------
  // End of input
  // ---------------------------------------------------------------------

  /**
   * Once the input is exhausted, `next` returns EndOfFile again on every
   * call, popping any buffered EndOfFile tokens first.
   */
  lemma NextAtEnd(input: seq<char>, buf: seq<Token>)
    requires buf == [] || buf == [EofToken] || buf == [EofToken, EofToken]
    ensures NextToken(input, |input|, buf) == Ok(Pulled(EofToken, |input|, if buf == [] then [] else buf[1..]))
  {
    if buf == [] {
      PullAtEnd(input);
    }
  }

  /**
   * EndOfFile is terminal: from any state that keeps the buffer invariant,
   * once `next` has returned EndOfFile, the following call returns
   * EndOfFile again and leaves the stream at its end.
   */
  lemma EndOfFileIsTerminal(input: seq<char>, pos: nat, buf: seq<Token>)
    requires pos <= |input| && BufferInv(input, pos, buf)
    requires NextToken(input, pos, buf).Ok? && NextToken(input, pos, buf).value.token.kind == TokenType.EndOfFile
    ensures var n := NextToken(input, pos, buf).value;
      NextToken(input, n.pos, n.buf) == Ok(Pulled(EofToken, |input|, if n.buf == [] then [] else n.buf[1..]))
  {
    NextTokenFacts(input, pos, buf);
    var n := NextToken(input, pos, buf).value;
    assert n.buf == [] || n.buf == [EofToken] || n.buf == [EofToken, EofToken] by {
      if |n.buf| == 1 {
        assert n.buf[0] == EofToken;
      } else if |n.buf| == 2 {
        assert n.buf[0] == EofToken && n.buf[1] == EofToken;
      }
    }
    NextAtEnd(input, n.buf);
  }

  /** At end of input, with only EndOfFile tokens buffered, read_all returns one EndOfFile token. */
  lemma EndOfInputIsSticky(input: seq<char>, buf: seq<Token>)
    requires buf == [] || buf == [EofToken] || buf == [EofToken, EofToken]
    ensures ReadAllFrom(input, |input|, buf) == Ok([EofToken])
  {
    if buf == [] {
      PullAtEnd(input);
    }
    ReadAllEnds(input, |input|, buf, Pulled(EofToken, |input|, if buf == [] then [] else buf[1..]));
  }

  /** read_all when `next` returns the last token before the end of input. */
  lemma ReadAllLast(input: seq<char>, pos: nat, buf: seq<Token>, n: Pulled)
    requires pos <= |input| && NextToken(input, pos, buf) == Ok(n) && n.token.kind != TokenType.EndOfFile
    requires n.pos == |input| && (n.buf == [] || n.buf == [EofToken] || n.buf == [EofToken, EofToken])
    ensures ReadAllFrom(input, pos, buf) == Ok([n.token, EofToken])
  {
    EndOfInputIsSticky(input, n.buf);
    ReadAllCons(input, pos, buf, n, [EofToken]);
    Pair(n.token, EofToken);
  }

  /** ReadAllLast for a token returned at the end of input. */
  lemma ReadAllLastAtEnd(input: seq<char>, buf: seq<Token>, t: Token, rest: seq<Token>)
    requires NextToken(input, |input|, buf) == Ok(Pulled(t, |input|, rest)) && t.kind != TokenType.EndOfFile
    requires rest == [] || rest == [EofToken] || rest == [EofToken, EofToken]
    ensures ReadAllFrom(input, |input|, buf) == Ok([t, EofToken])
  {
    ReadAllLast(input, |input|, buf, Pulled(t, |input|, rest));
  }

  // ---------------------------------------------------------------------
  // Whole inputs
  // ---------------------------------------------------------------------

  /** Blank input yields only the EndOfFile token. */
  lemma BlankInput(input: seq<char>)
    requires forall k :: 0 <= k < |input| ==> input[k] in WhitespaceChars
    ensures ReadAll(input) == Ok([EofToken])
  {
    ScanWhitespace(input, 0, |input|);
    EndOfInputScan(input);
    ReadAllStep(input, 0, []);
  }

  /** An input that is one identifier yields that identifier, promoted when it is reserved, then EndOfFile. */
  lemma LoneIdentifier(s: string)
    requires IdentifierShaped(s)
    ensures NextToken(s, 0, []) == Ok(Pulled(PromoteKeyword(Token(TokenType.Identifier, s)), |s|, []))
    ensures ReadAll(s) == Ok([PromoteKeyword(Token(TokenType.Identifier, s)), EofToken])
  {
    assert s[0..|s|] == s;
    var t := Token(TokenType.Identifier, s);
    ScanIdentifier(s, 0, |s|);
    PullScans(s, 0, Accepted(t, |s|));
    NextPromotes(s, 0, [], Pulled(t, |s|, []));
    ReadAllLast(s, 0, [], Pulled(PromoteKeyword(t), |s|, []));
  }

  /** A reserved word on its own is one Keyword token. */
  lemma LoneKeyword(k: string)
    requires IsKeyword(k)
    ensures ReadAll(k) == Ok([Token(TokenType.Keyword, k), EofToken])
  {
    KeywordsAreLowerCaseWords(k);
    forall i | 0 <= i < |k|
      ensures IsClass(k[i], CharacterType.Alpha)
    {
      Classification(k[i]);
    }
    LoneIdentifier(k);
  }

  /**
   * An input that is one integer yields that Integer: the two lookahead
   * pulls meet the end of input and leave two EndOfFile tokens buffered.
   */
  lemma LoneInteger(s: string)
    requires |s| >= 1 && AllDigits(s)
    ensures NextToken(s, 0, []) == Ok(Pulled(Token(TokenType.Integer, s), |s|, [EofToken, EofToken]))
    ensures ReadAll(s) == Ok([Token(TokenType.Integer, s), EofToken])
  {
    assert s[0..|s|] == s;
    var t := Token(TokenType.Integer, s);
    var eof := Pulled(EofToken, |s|, []);
    ScanInteger(s, 0, |s|);
    PullScans(s, 0, Accepted(t, |s|));
    PullAtEnd(s);
    NextFuses(s, 0, [], Pulled(t, |s|, []), eof, eof);
    EmptyPrefix([EofToken, EofToken]);
    ReadAllLast(s, 0, [], Pulled(t, |s|, [EofToken, EofToken]));
  }

  /** The three raw tokens of digits, a separator, digits: an Integer, the separator, an Integer. */
  lemma SeparatedIntegers(i: string, c: char, f: string)
    requires |i| >= 1 && AllDigits(i) && |f| >= 1 && AllDigits(f) && IsClass(c, CharacterType.Separator)
    ensures var s := i + [c] + f;
      && Pull(s, 0, []) == Ok(Pulled(Token(TokenType.Integer, i), |i|, []))
      && Pull(s, |i|, []) == Ok(Pulled(Token(TokenType.Separator, [c]), |i| + 1, []))
      && Pull(s, |i| + 1, []) == Ok(Pulled(Token(TokenType.Integer, f), |s|, []))
  {
    var s := i + [c] + f;
    var n := |i|;
    assert s[0..n] == i;
    assert s[n] == c;
    assert s[n + 1..|s|] == f;
    assert s[n + 1] == f[0];
    ScanInteger(s, 0, n);
    PullScans(s, 0, Accepted(Token(TokenType.Integer, i), n));
    ScanPunctuation(s, n, CharacterType.Separator);
    PullScans(s, n, Accepted(Token(TokenType.Separator, [c]), n + 1));
    ScanInteger(s, n + 1, |s|);
    PullScans(s, n + 1, Accepted(Token(TokenType.Integer, f), |s|));
  }

  /** Digits, a '.', and digits are fused into one Real token by a single call of `next`. */
  lemma RealIsFused(i: string, f: string)
    requires |i| >= 1 && AllDigits(i) && |f| >= 1 && AllDigits(f)
    ensures NextToken(i + "." + f, 0, []) == Ok(Pulled(Token(TokenType.Real, i + "." + f), |i + "." + f|, []))
  {
    var s := i + "." + f;
    var integer, dot, fraction := Token(TokenType.Integer, i), Token(TokenType.Separator, "."), Token(TokenType.Integer, f);
    SeparatedIntegers(i, '.', f);
    NextFuses(s, 0, [], Pulled(integer, |i|, []), Pulled(dot, |i| + 1, []), Pulled(fraction, |s|, []));
  }

  /** An input that is one real literal yields that Real, then EndOfFile. */
  lemma LoneReal(i: string, f: string)
    requires |i| >= 1 && AllDigits(i) && |f| >= 1 && AllDigits(f)
    ensures ReadAll(i + "." + f) == Ok([Token(TokenType.Real, i + "." + f), EofToken])
  {
    var s := i + "." + f;
    var literal := Token(TokenType.Real, s);
    RealIsFused(i, f);
    ReadAllLast(s, 0, [], Pulled(literal, |s|, []));
  }

  /** Where the pieces of "digits, blank, '.', blank, digits" sit. */
  lemma SpacedShape(i: string, f: string, s: seq<char>)
    requires |f| >= 1 && s == i + " . " + f
    ensures |s| == |i| + 3 + |f| && s[0..|i|] == i && s[|i| + 3..|s|] == f
    ensures s[|i|] == ' ' && s[|i| + 1] == '.' && s[|i| + 2] == ' ' && s[|i| + 3] == f[0]
  {
  }

  /** The three raw tokens of "digits . digits" with blanks around the '.'. */
  lemma SpacedPulls(i: string, f: string, s: seq<char>)
    requires |i| >= 1 && AllDigits(i) && |f| >= 1 && AllDigits(f) && s == i + " . " + f
    ensures Pull(s, 0, []) == Ok(Pulled(Token(TokenType.Integer, i), |i|, []))
    ensures Pull(s, |i|, []) == Ok(Pulled(Token(TokenType.Separator, "."), |i| + 2, []))
    ensures Pull(s, |i| + 2, []) == Ok(Pulled(Token(TokenType.Integer, f), |s|, []))
  {
    var n := |i|;
    SpacedShape(i, f, s);
    Classification(' ');
    Classification('.');
    ScanInteger(s, 0, n);
    PullScans(s, 0, Accepted(Token(TokenType.Integer, i), n));
    SkipsBlank(s, n);
    ScanPunctuation(s, n + 1, CharacterType.Separator);
    PullScans(s, n, Accepted(Token(TokenType.Separator, "."), n + 2));
    assert IsClass(s[n + 3], CharacterType.Digit);
    SkipsBlank(s, n + 2);
    ScanInteger(s, n + 3, |s|);
    PullScans(s, n + 2, Accepted(Token(TokenType.Integer, f), |s|));
  }

  /**
   * Fusion looks past blanks: the lookahead reads go through `_next`,
   * which skips whitespace, so "1 . 2" is the same single Real as "1.2".
   */
  lemma SpacedRealIsFused(i: string, f: string)
    requires |i| >= 1 && AllDigits(i) && |f| >= 1 && AllDigits(f)
    ensures ReadAll(i + " . " + f) == Ok([Token(TokenType.Real, i + "." + f), EofToken])
  {
    var s, n := i + " . " + f, |i|;
    var integer, dot, fraction := Token(TokenType.Integer, i), Token(TokenType.Separator, "."), Token(TokenType.Integer, f);
    SpacedPulls(i, f, s);
    NextFuses(s, 0, [], Pulled(integer, n, []), Pulled(dot, n + 2, []), Pulled(fraction, |s|, []));
    ReadAllLast(s, 0, [], Pulled(Token(TokenType.Real, i + "." + f), |s|, []));
  }

  /**
   * A trailing '.' does not make a real: `next` returns the Integer and
   * leaves the separator and EndOfFile in the buffer, in that order.
   */
  lemma IntegerBeforeDot(i: string, buf: seq<Token>)
    requires |i| >= 1 && AllDigits(i) && buf == [Token(TokenType.Separator, "."), EofToken]
    ensures NextToken(i + ".", 0, []) == Ok(Pulled(Token(TokenType.Integer, i), |i| + 1, buf))
  {
    var s, n := i + ".", |i|;
    var integer, dot := Token(TokenType.Integer, i), Token(TokenType.Separator, ".");
    TrailingDotPulls(i);
    NextFuses(s, 0, [], Pulled(integer, n, []), Pulled(dot, n + 1, []), Pulled(EofToken, |s|, []));
    EmptyPrefix(buf);
  }

  /** The three raw tokens of an integer and a trailing '.': the integer, the separator, EndOfFile. */
  lemma TrailingDotPulls(i: string)
    requires |i| >= 1 && AllDigits(i)
    ensures Pull(i + ".", 0, []) == Ok(Pulled(Token(TokenType.Integer, i), |i|, []))
    ensures Pull(i + ".", |i|, []) == Ok(Pulled(Token(TokenType.Separator, "."), |i| + 1, []))
    ensures Pull(i + ".", |i| + 1, []) == Ok(Pulled(EofToken, |i| + 1, []))
  {
    var s := i + ".";
    var n := |i|;
    assert s[0..n] == i && s[n] == '.';
    ScanInteger(s, 0, n);
    PullScans(s, 0, Accepted(Token(TokenType.Integer, i), n));
    ScanPunctuation(s, n, CharacterType.Separator);
    assert [s[n]] == ".";
    PullScans(s, n, Accepted(Token(TokenType.Separator, "."), n + 1));
    PullAtEnd(s);
  }

  /** A buffered "." followed by a buffered EndOfFile come out in that order. */
  lemma DotThenEnd(s: string, buf: seq<Token>)
    requires buf == [Token(TokenType.Separator, "."), EofToken]
    ensures ReadAllFrom(s, |s|, buf) == Ok(buf)
  {
    var dot := Token(TokenType.Separator, ".");
    assert buf[1..] == [EofToken];
    assert Pull(s, |s|, buf) == Ok(Pulled(dot, |s|, [EofToken]));
    NextPromotes(s, |s|, buf, Pulled(dot, |s|, [EofToken]));
    ReadAllLastAtEnd(s, buf, dot, [EofToken]);
  }

  /** An integer and a trailing '.' come out as an Integer and a Separator. */
  lemma IntegerThenDot(i: string)
    requires |i| >= 1 && AllDigits(i)
    ensures ReadAll(i + ".") == Ok([Token(TokenType.Integer, i), Token(TokenType.Separator, "."), EofToken])
  {
    var integer, dot := Token(TokenType.Integer, i), Token(TokenType.Separator, ".");
    IntegerThenBuffer(i, [dot, EofToken]);
    ConsPair(integer, dot, EofToken);
  }

  /** read_all on digits and a '.': the Integer, then the two tokens its lookahead buffered. */
  lemma IntegerThenBuffer(i: string, buf: seq<Token>)
    requires |i| >= 1 && AllDigits(i) && buf == [Token(TokenType.Separator, "."), EofToken]
    ensures ReadAll(i + ".") == Ok([Token(TokenType.Integer, i)] + buf)
  {
    var s := i + ".";
    assert |s| == |i| + 1;
    IntegerBeforeDot(i, buf);
    DotThenEnd(s, buf);
    ReadAllCons(s, 0, [], Pulled(Token(TokenType.Integer, i), |s|, buf), buf);
  }

  /**
   * The lookahead of an integer followed by ',' and another integer: no
   * fusion, and the separator and the second integer are buffered in order.
   */
  lemma IntegerBeforeComma(i: string, j: string)
    requires |i| >= 1 && AllDigits(i) && |j| >= 1 && AllDigits(j)
    ensures NextToken(i + "," + j, 0, []) ==
      Ok(Pulled(Token(TokenType.Integer, i), |i + "," + j|, [Token(TokenType.Separator, ","), Token(TokenType.Integer, j)]))
  {
    var s := i + "," + j;
    var first, comma, second := Token(TokenType.Integer, i), Token(TokenType.Separator, ","), Token(TokenType.Integer, j);
    SeparatedIntegers(i, ',', j);
    NextFuses(s, 0, [], Pulled(first, |i|, []), Pulled(comma, |i| + 1, []), Pulled(second, |s|, []));
    EmptyPrefix([comma, second]);
  }

  /**
   * Two integers around a ',' come out as three tokens in input order: the
   * lookahead of the first integer buffers "," and the second integer, and
   * the second integer, taken from the buffer, does its own lookahead.
   */
  lemma IntegersAroundComma(i: string, j: string)
    requires |i| >= 1 && AllDigits(i) && |j| >= 1 && AllDigits(j)
    ensures ReadAll(i + "," + j) ==
      Ok([Token(TokenType.Integer, i), Token(TokenType.Separator, ","), Token(TokenType.Integer, j), EofToken])
  {
    var s := i + "," + j;
    var first, comma, second := Token(TokenType.Integer, i), Token(TokenType.Separator, ","), Token(TokenType.Integer, j);
    IntegerBeforeComma(i, j);
    CommaThenInteger(s, second, [comma, second]);
    ReadAllCons(s, 0, [], Pulled(first, |s|, [comma, second]), [comma] + [second, EofToken]);
    Quad(first, comma, second, EofToken);
  }

  /**
   * The buffer left by an Integer that does not fuse comes out in order:
   * first the separator, then the integer, which does its own lookahead
   * at the end of input.
   */
  lemma CommaThenInteger(s: string, second: Token, buf: seq<Token>)
    requires second.kind == TokenType.Integer && buf == [Token(TokenType.Separator, ","), second]
    ensures ReadAllFrom(s, |s|, buf) == Ok([Token(TokenType.Separator, ",")] + [second, EofToken])
  {
    var comma, rest := Token(TokenType.Separator, ","), buf[1..];
    assert rest == [second];
    assert Pull(s, |s|, buf) == Ok(Pulled(comma, |s|, rest));
    NextPromotes(s, |s|, buf, Pulled(comma, |s|, rest));
    ReadBufferedInteger(s, second, rest);
    ReadAllCons(s, |s|, buf, Pulled(comma, |s|, rest), [second, EofToken]);
  }

  /** An Integer taken from the buffer at end of input: its lookahead finds two EndOfFile tokens. */
  lemma BufferedIntegerAtEnd(s: string, second: Token, buf: seq<Token>)
    requires second.kind == TokenType.Integer && buf == [second]
    ensures NextToken(s, |s|, buf) == Ok(Pulled(second, |s|, [EofToken, EofToken]))
  {
    assert buf[1..] == [];
    assert Pull(s, |s|, buf) == Ok(Pulled(second, |s|, []));
    PullAtEnd(s);
    var eof := Pulled(EofToken, |s|, []);
    NextFuses(s, |s|, buf, Pulled(second, |s|, []), eof, eof);
    EmptyPrefix([EofToken, EofToken]);
  }

  /** read_all from a buffered Integer at end of input: the Integer, then EndOfFile. */
  lemma ReadBufferedInteger(s: string, second: Token, buf: seq<Token>)
    requires second.kind == TokenType.Integer && buf == [second]
    ensures ReadAllFrom(s, |s|, buf) == Ok([second, EofToken])
  {
    BufferedIntegerAtEnd(s, second, buf);
    ReadAllLastAtEnd(s, buf, second, [EofToken, EofToken]);
  }

  /** The text one letter, a comment, a line end, one letter. */
  function CommentedText(x: char, c: string, z: char): string
  {
    [x] + "!" + c + "\n" + [z]
  }

  /** A letter that ends the input is an identifier of its own. */
  lemma LastLetter(input: seq<char>, pos: nat)
    requires pos + 1 == |input| && IsClass(input[pos], CharacterType.Alpha)
    ensures Scan(input, pos, LexerState.Empty, []) == Ok(Accepted(Token(TokenType.Identifier, [input[pos]]), |input|))
  {
    assert input[pos..pos + 1] == [input[pos]];
    ScanIdentifier(input, pos, pos + 1);
  }

  /** Where each part of CommentedText lies. */
  lemma CommentedTextShape(x: char, c: string, z: char)
    ensures var s, e := CommentedText(x, c, z), |c| + 2;
      && |s| == e + 2 && s[0] == x && s[1] == '!' && s[e] == '\n' && s[e + 1] == z
      && (forall k :: 2 <= k < e ==> s[k] == c[k - 2])
      && s[e + 1..e + 2] == [z]
  {
    var s, e := CommentedText(x, c, z), |c| + 2;
    assert forall k :: 2 <= k < e ==> s[k] == c[k - 2];
    assert s[e + 1..e + 2] == [z];
  }

  /** The fetch after the first letter of CommentedText skips the comment and stops at its line end. */
  lemma CommentFetch(x: char, c: string, z: char)
    requires forall k :: 0 <= k < |c| ==> !IsLineEnd(c[k])
    ensures var s, e := CommentedText(x, c, z), |c| + 2;
      && e < |s| && Fetch(s, 0) == e && ChAt(s, 0) == C(x) && ChAt(s, e) == C('\n')
  {
    var s, e := CommentedText(x, c, z), |c| + 2;
    CommentedTextShape(x, c, z);
    CommentBody(s, 2);
    assert CommentEnd(s, 2) == e;
  }

  /**
   * A comment right after a token is skipped by the fetch that follows
   * the token's last character; the line end that closes the comment then
   * ends the token.
   */
  lemma TokenBeforeComment(x: char, c: string, z: char)
    requires IsClass(x, CharacterType.Alpha) && IsClass(z, CharacterType.Alpha)
    requires forall k :: 0 <= k < |c| ==> !IsLineEnd(c[k])
    ensures NextToken(CommentedText(x, c, z), 0, []) == Ok(Pulled(Token(TokenType.Identifier, [x]), |c| + 2, []))
  {
    var s := CommentedText(x, c, z);
    var e := |c| + 2;
    CommentFetch(x, c, z);
    EmptyRow(CharacterType.Alpha);
    ScanStep(s, 0, LexerState.Empty, []);
    EmptyPrefix([x]);
    Classification('\n');
    IdentifierRow(CharacterType.Whitespace);
    ScanAccepts(s, e, LexerState.Identifier, [x]);
    StateTokenTypesAgree(LexerState.Identifier);
    PullScans(s, 0, Accepted(Token(TokenType.Identifier, [x]), e));
    assert !IsKeyword([x]);
    NextPromotes(s, 0, [], Pulled(Token(TokenType.Identifier, [x]), e, []));
  }

  /** After the comment, the line end is skipped and the next token is read. */
  lemma TokenAfterComment(x: char, c: string, z: char)
    requires IsClass(x, CharacterType.Alpha) && IsClass(z, CharacterType.Alpha)
    ensures NextToken(CommentedText(x, c, z), |c| + 2, []) == Ok(Pulled(Token(TokenType.Identifier, [z]), |c| + 4, []))
  {
    var s := CommentedText(x, c, z);
    var e := |c| + 2;
    CommentedTextShape(x, c, z);
    NotCommentMarker(z);
    ScanWhitespace(s, e, e + 1);
    LastLetter(s, e + 1);
    PullScans(s, e, Accepted(Token(TokenType.Identifier, [z]), e + 2));
    assert !IsKeyword([z]);
    NextPromotes(s, e, [], Pulled(Token(TokenType.Identifier, [z]), e + 2, []));
  }

  /** A line comment between two tokens contributes nothing: the tokens are those of the text without it. */
  lemma CommentIsSkipped(x: char, c: string, z: char)
    requires IsClass(x, CharacterType.Alpha) && IsClass(z, CharacterType.Alpha)
    requires forall k :: 0 <= k < |c| ==> !IsLineEnd(c[k])
    ensures ReadAll(CommentedText(x, c, z)) == Ok([Token(TokenType.Identifier, [x]), Token(TokenType.Identifier, [z]), EofToken])
  {
    var s := CommentedText(x, c, z);
    var first, second := Token(TokenType.Identifier, [x]), Token(TokenType.Identifier, [z]);
    TokenBeforeComment(x, c, z);
    TokenAfterComment(x, c, z);
    assert |s| == |c| + 4;
    ReadAllLast(s, |c| + 2, [], Pulled(second, |s|, []));
    ReadAllCons(s, 0, [], Pulled(first, |c| + 2, []), [second, EofToken]);
    ConsPair(first, second, EofToken);
  }

  /** The characters between 'Z' and 'a' are letters, so "[" and "a[i]" are identifiers. */
  lemma BracketsAreIdentifierCharacters()
    ensures ReadAll("[") == Ok([Token(TokenType.Identifier, "["), EofToken])
    ensures ReadAll("a[i]") == Ok([Token(TokenType.Identifier, "a[i]"), EofToken])
  {
    BracketIdentifier("[");
    BracketIdentifier("a[i]");
  }

  /** An identifier-shaped text that is not reserved stays one Identifier token. */
  lemma BracketIdentifier(s: string)
    requires s == "[" || s == "a[i]"
    ensures ReadAll(s) == Ok([Token(TokenType.Identifier, s), EofToken])
  {
    Classification('[');
    Classification(']');
    assert IdentifierShaped(s);
    assert !IsKeyword(s);
    LoneIdentifier(s);
  }

  // ---------------------------------------------------------------------
  // Refused inputs
  // ---------------------------------------------------------------------

  /** A first character outside the alphabet stops the lexer with "Invalid character". */
  lemma InvalidFirstCharacter(input: seq<char>)
    requires |input| > 0 && CharToType(C(input[0])).Err?
    ensures ReadAll(input) == Err(InvalidCharacter)
  {
    ReadAllStep(input, 0, []);
  }

  /**
   * The first character is read without the comment check, so an input
   * that opens with a comment is refused.
   */
  lemma LeadingCommentIsRefused(input: seq<char>)
    requires |input| > 0 && input[0] == '!'
    ensures ReadAll(input) == Err(InvalidCharacter)
  {
    InvalidCharacters();
    InvalidFirstCharacter(input);
  }

  /** A '$' can continue an identifier but cannot start a token: "Unexpected character". */
  lemma LeadingDollarIsRefused(input: seq<char>)
    requires |input| > 0 && input[0] == '$'
    ensures ReadAll(input) == Err(UnexpectedCharacter)
  {
    EmptyRow(CharacterType.Dollar);
    ReadAllStep(input, 0, []);
  }
}
