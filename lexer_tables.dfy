/**
 * The fixed data of the finite-state-machine lexer: its states, the
 * character classes, the classifier, the 6x7 state transition table and
 * the map from accepting states to token kinds.
 */
module LexerTables {
  import opened Tokens

  /** One character read from the input stream, or the end-of-input sentinel. */
  datatype Ch = C(c: char) | EOF

  /** A computation that either yields a value or fails with a message. */
  datatype Result<T> = Ok(value: T) | Err(message: string)

  const InvalidCharacter: string := "Invalid character"
  const UnexpectedCharacter: string := "Unexpected character"

  /** The six states of the FSM, plus INVALID, the mark of an undefined transition. */
  datatype LexerState = INVALID | Empty | Identifier | Integer | Operator | Separator | EndOfFile

  /** The seven character classes, the columns of the transition table. */
  datatype CharacterType = Alpha | Digit | Dollar | Operator | Separator | Whitespace | EndOfFile

  /** The number of character classes, which is the width of the transition table. */
  const LENGTH: nat := 7

  /** The number of real states, which is the height of the transition table. */
  const STATES: nat := 6

  /** The numeric value of a real state (its row in the transition table). */
  function StateIndex(s: LexerState): (i: nat)
    requires s != LexerState.INVALID
    ensures i < STATES
  {
    match s
    case Empty => 0
    case Identifier => 1
    case Integer => 2
    case Operator => 3
    case Separator => 4
    case EndOfFile => 5
  }

  /** The numeric value of a character class (its column in the transition table). */
  function TypeIndex(t: CharacterType): (i: nat)
    ensures i < LENGTH
  {
    match t
    case Alpha => 0
    case Digit => 1
    case Dollar => 2
    case Operator => 3
    case Separator => 4
    case Whitespace => 5
    case EndOfFile => 6
  }

  const OperatorChars: set<char> := {'+', '-', '*', '/', '%', '=', '<', '>'}
  const SeparatorChars: set<char> := {'(', ')', '{', '}', '[', ']', '\'', ',', '.', ':', ';'}
  const WhitespaceChars: set<char> := {' ', '\t', '\r', '\n'}

  /**
   * The lexer's classifier. Its first test is the range 'A'..'z', which
   * also holds the six punctuation characters between 'Z' and 'a'; the
   * separator cases for '[' and ']' are therefore never reached.
   */
  function CharToType(ch: Ch): (r: Result<CharacterType>)
    ensures r.Err? ==> r.message == InvalidCharacter
    ensures r == Ok(CharacterType.EndOfFile) <==> ch == EOF
  {
    match ch
    case EOF => Ok(CharacterType.EndOfFile)
    case C(c) =>
      if 'A' <= c <= 'z' then Ok(CharacterType.Alpha)
      else if '0' <= c <= '9' then Ok(CharacterType.Digit)
      else if c == '$' then Ok(CharacterType.Dollar)
      else if c in OperatorChars then Ok(CharacterType.Operator)
      else if c in SeparatorChars then Ok(CharacterType.Separator)
      else if c in WhitespaceChars then Ok(CharacterType.Whitespace)
      else Err(InvalidCharacter)
  }

  /** The state transition table: one row per real state, one column per character class. */
  const StateTransitionTable: seq<seq<LexerState>> := [
    // Alpha               Digit                 Dollar                Operator              Separator             Whitespace            EndOfFile
    [LexerState.Identifier, LexerState.Integer,    LexerState.INVALID,    LexerState.Operator, LexerState.Separator, LexerState.Empty,   LexerState.EndOfFile], // Empty
    [LexerState.Identifier, LexerState.Identifier, LexerState.Identifier, LexerState.Empty,    LexerState.Empty,     LexerState.Empty,   LexerState.Empty],     // Identifier
    [LexerState.Empty,      LexerState.Integer,    LexerState.Empty,      LexerState.Empty,    LexerState.Empty,     LexerState.Empty,   LexerState.Empty],     // Integer
    [LexerState.Empty,      LexerState.Empty,      LexerState.Empty,      LexerState.Empty,    LexerState.Empty,     LexerState.Empty,   LexerState.Empty],     // Operator
    [LexerState.Empty,      LexerState.Empty,      LexerState.Empty,      LexerState.Empty,    LexerState.Empty,     LexerState.Empty,   LexerState.Empty],     // Separator
    [LexerState.INVALID,    LexerState.INVALID,    LexerState.INVALID,    LexerState.INVALID,  LexerState.INVALID,   LexerState.INVALID, LexerState.Empty]      // EndOfFile
  ]

  /** The token kind of each state, indexed by state (INVALID for the non-accepting state Empty). */
  const StateTokenTypes: seq<TokenType> := [
    TokenType.INVALID,
    TokenType.Identifier,
    TokenType.Integer,
    TokenType.Operator,
    TokenType.Separator,
    TokenType.EndOfFile
  ]

  /** The table lookup `state_transition_table[state][char_type]`. */
  function Transition(s: LexerState, t: CharacterType): (r: LexerState)
    requires s != LexerState.INVALID
  {
    StateTransitionTable[StateIndex(s)][TypeIndex(t)]
  }

  /** The table lookup `state_token_types[state]`. */
  function StateTokenType(s: LexerState): (r: TokenType)
    requires s != LexerState.INVALID
  {
    StateTokenTypes[StateIndex(s)]
  }

  /** The states whose token carries text: the lexeme grows only while the FSM is in one of them. */
  predicate IsContentState(s: LexerState)
  {
    s == LexerState.Identifier || s == LexerState.Integer || s == LexerState.Operator || s == LexerState.Separator
  }

  /** The table has one row per real state and LENGTH columns, so every lookup is in range. */
  lemma TableIsTotal()
    ensures |StateTransitionTable| == STATES && |StateTokenTypes| == STATES
    ensures forall i :: 0 <= i < |StateTransitionTable| ==> |StateTransitionTable[i]| == LENGTH
  {
  }

  /** A lookup yields INVALID exactly for Dollar from Empty and for anything but end of input from EndOfFile. */
  lemma InvalidEntries(s: LexerState, t: CharacterType)
    requires s != LexerState.INVALID
    ensures Transition(s, t) == LexerState.INVALID <==>
              (s == LexerState.Empty && t == CharacterType.Dollar) ||
              (s == LexerState.EndOfFile && t != CharacterType.EndOfFile)
  {
  }

  /** An identifier continues on letters, digits and dollars and ends on anything else. */
  lemma IdentifierRow(t: CharacterType)
    ensures Transition(LexerState.Identifier, t) ==
              if t in {CharacterType.Alpha, CharacterType.Digit, CharacterType.Dollar} then LexerState.Identifier else LexerState.Empty
  {
  }

  /** An integer continues only on digits. */
  lemma IntegerRow(t: CharacterType)
    ensures Transition(LexerState.Integer, t) == if t == CharacterType.Digit then LexerState.Integer else LexerState.Empty
  {
  }

  /** Operators and separators end on every class, so their lexemes have one character. */
  lemma SingleCharacterRows(t: CharacterType)
    ensures Transition(LexerState.Operator, t) == LexerState.Empty
    ensures Transition(LexerState.Separator, t) == LexerState.Empty
  {
  }

  /**
   * The end-of-input column: Empty moves to EndOfFile, every other state
   * returns to Empty (accepting its token).
   */
  lemma EndOfFileColumn(s: LexerState)
    requires s != LexerState.INVALID
    ensures Transition(s, CharacterType.EndOfFile) == if s == LexerState.Empty then LexerState.EndOfFile else LexerState.Empty
  {
  }

  /** Whitespace never continues a token: it ends one, is skipped, or is refused after end of input. */
  lemma WhitespaceColumn(s: LexerState)
    requires s != LexerState.INVALID
    ensures Transition(s, CharacterType.Whitespace) == if s == LexerState.EndOfFile then LexerState.INVALID else LexerState.Empty
  {
  }

  /** From Empty every class but Whitespace and Dollar starts the state of the same name. */
  lemma EmptyRow(t: CharacterType)
    ensures Transition(LexerState.Empty, t) ==
              match t
              case Alpha => LexerState.Identifier
              case Digit => LexerState.Integer
              case Dollar => LexerState.INVALID
              case Operator => LexerState.Operator
              case Separator => LexerState.Separator
              case Whitespace => LexerState.Empty
              case EndOfFile => LexerState.EndOfFile
  {
  }

  /**
   * The transitions that neither fail nor accept: the FSM stays in Empty
   * only on whitespace, enters EndOfFile only at end of input, and
   * otherwise moves to a state whose token carries text.
   */
  lemma ContinuingTransitions(s: LexerState, t: CharacterType)
    requires s != LexerState.INVALID
    requires Transition(s, t) != LexerState.INVALID
    requires !(Transition(s, t) == LexerState.Empty && s != LexerState.Empty)
    ensures Transition(s, t) == LexerState.Empty <==> s == LexerState.Empty && t == CharacterType.Whitespace
    ensures Transition(s, t) == LexerState.EndOfFile <==> s == LexerState.Empty && t == CharacterType.EndOfFile
    ensures Transition(s, t) != LexerState.Empty && Transition(s, t) != LexerState.EndOfFile ==> IsContentState(Transition(s, t))
  {
    match s
    case Empty => EmptyRow(t);
    case Identifier => IdentifierRow(t);
    case Integer => IntegerRow(t);
    case Operator => SingleCharacterRows(t);
    case Separator => SingleCharacterRows(t);
    case EndOfFile => InvalidEntries(s, t);
  }

  /** The accepting states and the kinds of the tokens they produce. */
  lemma StateTokenTypesAgree(s: LexerState)
    requires s != LexerState.INVALID
    ensures StateTokenType(s) == match s
                                 case Empty => TokenType.INVALID
                                 case Identifier => TokenType.Identifier
                                 case Integer => TokenType.Integer
                                 case Operator => TokenType.Operator
                                 case Separator => TokenType.Separator
                                 case EndOfFile => TokenType.EndOfFile
  {
  }

  /**
   * The characters between 'Z' and 'a' are letters to the classifier,
   * so '[' and ']' never classify as Separator.
   */
  lemma PunctuationInLetterRange()
    ensures forall c :: c in {'[', '\\', ']', '^', '_', '`'} ==> CharToType(C(c)) == Ok(CharacterType.Alpha)
  {
  }

  /** The character classes in full, one equivalence per class. */
  lemma Classification(c: char)
    ensures CharToType(C(c)) == Ok(CharacterType.Alpha) <==> 'A' <= c <= 'z'
    ensures CharToType(C(c)) == Ok(CharacterType.Digit) <==> '0' <= c <= '9'
    ensures CharToType(C(c)) == Ok(CharacterType.Dollar) <==> c == '$'
    ensures CharToType(C(c)) == Ok(CharacterType.Operator) <==> c in OperatorChars
    ensures CharToType(C(c)) == Ok(CharacterType.Separator) <==> c in SeparatorChars - {'[', ']'}
    ensures CharToType(C(c)) == Ok(CharacterType.Whitespace) <==> c in WhitespaceChars
    ensures CharToType(C(c)) != Ok(CharacterType.EndOfFile)
    ensures CharToType(C(c)).Err? <==> !(('A' <= c <= 'z') || ('0' <= c <= '9') || c == '$'
                                         || c in OperatorChars || c in SeparatorChars || c in WhitespaceChars)
  {
  }

  /** The comment marker and other stray characters are not in the alphabet. */
  lemma InvalidCharacters()
    ensures CharToType(C('!')) == Err(InvalidCharacter)
    ensures CharToType(C('@')) == Err(InvalidCharacter)
    ensures CharToType(C('#')) == Err(InvalidCharacter)
    ensures CharToType(C('&')) == Err(InvalidCharacter)
    ensures CharToType(C('"')) == Err(InvalidCharacter)
  {
  }
}
