/**
 * Tokens of the toy language: the token kinds, the (kind, lexeme) value
 * and the fixed table of reserved words.
 */
module Tokens {

  /**
   * The token kinds, in the order of the name table of the token unit,
   * preceded by INVALID, the kind the lexer's state table gives to a
   * non-accepting state.
   */
  datatype TokenType = INVALID | Identifier | Keyword | Integer | Real | Operator | Separator | EndOfFile

  /** A token is a plain value: its kind and the text it was scanned from. */
  datatype Token = Token(kind: TokenType, lexeme: string)

  /** The reserved spellings, compared case-sensitively. */
  const Keywords: set<string> := {
    "int", "float", "bool",
    "if", "else", "then", "endif",
    "while", "whileend",
    "do", "doend",
    "for", "forend",
    "input", "output",
    "and", "or",
    "function"
  }

  /** Membership in the keyword table: exact equality with one of its spellings. */
  predicate IsKeyword(s: string)
  {
    s in Keywords
  }

  /**
   * Keyword promotion: an Identifier whose lexeme is reserved becomes a
   * Keyword. Only the kind can change; the lexeme is kept verbatim.
   */
  function PromoteKeyword(t: Token): (r: Token)
    ensures r.lexeme == t.lexeme
    ensures r.kind == TokenType.Keyword <==> t.kind == TokenType.Keyword || (t.kind == TokenType.Identifier && IsKeyword(t.lexeme))
    ensures r.kind != TokenType.Keyword ==> r == t
  {
    if t.kind == TokenType.Identifier && IsKeyword(t.lexeme) then t.(kind := TokenType.Keyword) else t
  }

  /** A lower-case ASCII letter. */
  predicate IsLowerLetter(c: char)
  {
    'a' <= c <= 'z'
  }

  /** Every reserved word is a non-empty word of lower-case letters. */
  lemma KeywordsAreLowerCaseWords(k: string)
    requires IsKeyword(k)
    ensures |k| > 0
    ensures forall i :: 0 <= i < |k| ==> IsLowerLetter(k[i])
  {
  }

  /** Membership is case-sensitive: other capitalisations are not reserved. */
  lemma KeywordsAreCaseSensitive()
    ensures IsKeyword("if") && !IsKeyword("If") && !IsKeyword("IF")
    ensures IsKeyword("int") && !IsKeyword("INT") && !IsKeyword("Int")
  {
  }

  /**
   * The compound spellings are keywords in their own right, while proper
   * prefixes and extensions of keywords are not.
   */
  lemma KeywordsAreWholeWords()
    ensures IsKeyword("whileend") && IsKeyword("doend") && IsKeyword("forend") && IsKeyword("endif")
    ensures !IsKeyword("whil") && !IsKeyword("integer") && !IsKeyword("") && !IsKeyword("end")
  {
  }
}
