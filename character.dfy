/**
 * The older, total character classifier: five classes and no failure.
 * Every character outside the letter range, the digits, '$' and the four
 * whitespace characters falls into EndOfFile. Its classes are a subset
 * of the lexer's, and the two classifiers agree wherever this one does
 * not answer EndOfFile.
 */
module Character {
  import LexerTables

  /** The five classes of the older classifier. */
  datatype CharacterType = Alpha | Digit | Dollar | Whitespace | EndOfFile

  /**
   * The classifier: the two range tests first, then the switch on '$'
   * and the whitespace characters, and EndOfFile for everything else.
   */
  function CharToType(c: char): (r: CharacterType)
    ensures r == Whitespace <==> c in LexerTables.WhitespaceChars
  {
    if 'A' <= c <= 'z' then Alpha
    else if '0' <= c <= '9' then Digit
    else if c == '$' then Dollar
    else if c == ' ' || c == '\t' || c == '\r' || c == '\n' then Whitespace
    else EndOfFile
  }

  /** The class of the lexer's classifier that has the same name. */
  function Widen(t: CharacterType): (r: LexerTables.CharacterType)
  {
    match t
    case Alpha => LexerTables.CharacterType.Alpha
    case Digit => LexerTables.CharacterType.Digit
    case Dollar => LexerTables.CharacterType.Dollar
    case Whitespace => LexerTables.CharacterType.Whitespace
    case EndOfFile => LexerTables.CharacterType.EndOfFile
  }

  /** Each class in full: the two ranges, '$', the whitespace set, and the rest. */
  lemma Classes(c: char)
    ensures CharToType(c) == Alpha <==> 'A' <= c <= 'z'
    ensures CharToType(c) == Digit <==> '0' <= c <= '9'
    ensures CharToType(c) == Dollar <==> c == '$'
    ensures CharToType(c) == EndOfFile <==>
              !('A' <= c <= 'z') && !('0' <= c <= '9') && c != '$' && c !in LexerTables.WhitespaceChars
  {
  }

  /** The letter range also holds the six punctuation characters between 'Z' and 'a'. */
  lemma PunctuationIsAlpha()
    ensures forall c :: c in {'[', '\\', ']', '^', '_', '`'} ==> CharToType(c) == Alpha
  {
  }

  /** The classifier never fails: operators, separators and stray characters all land in EndOfFile. */
  lemma OtherCharactersAreEndOfFile()
    ensures CharToType('+') == EndOfFile && CharToType('.') == EndOfFile
    ensures CharToType('@') == EndOfFile && CharToType('!') == EndOfFile
    ensures CharToType('(') == EndOfFile && CharToType('\0') == EndOfFile
  {
  }

  /**
   * The two classifiers agree class for class where this one answers
   * anything but EndOfFile; its EndOfFile collects exactly the characters
   * the lexer calls Operator or Separator or refuses as invalid.
   */
  lemma AgreesWithLexer(c: char)
    ensures CharToType(c) != EndOfFile ==> LexerTables.CharToType(LexerTables.C(c)) == LexerTables.Ok(Widen(CharToType(c)))
    ensures CharToType(c) == EndOfFile <==>
              LexerTables.CharToType(LexerTables.C(c)) in
                {LexerTables.Ok(LexerTables.CharacterType.Operator), LexerTables.Ok(LexerTables.CharacterType.Separator)}
              || LexerTables.CharToType(LexerTables.C(c)).Err?
  {
    LexerTables.Classification(c);
    Classes(c);
  }
}
