# A verified model of the comp-n-lang FSM lexer

comp-n-lang's lexer turns a character stream into `(type, lexeme)` tokens
using a finite-state machine:

- `char_to_type` sorts each character into one of seven classes (Alpha,
  Digit, Dollar, Operator, Separator, Whitespace, EndOfFile) or stops with
  "Invalid character".
- A constant 6×7 transition table gives the next FSM state. An INVALID entry
  stops with "Unexpected character".
- `_next` runs the FSM. It accepts a token when the machine returns to Empty
  from another state, without consuming the character that ended the token.
  Whenever it fetches a '!', it skips the comment up to the next line end.
- `next` promotes reserved identifiers to Keyword. When it sees an Integer,
  it reads two more raw tokens: a Separator "." and an Integer fuse with it
  into one Real, and otherwise both tokens go to the back of a FIFO
  lookahead buffer.
- `read_all` calls `next` until the first EndOfFile token.

The project has six modules:

| module | file | contents |
|---|---|---|
| `Tokens` | `token.dfy` | Token kinds, the token value, the keyword set and keyword promotion. |
| `LexerTables` | `lexer_tables.dfy` | The FSM states and character classes, the classifier, the transition table and the state-to-token-kind table, with one lemma per row and column that the design relies on. |
| `LexerSpec` | `lexer_spec.dfy` | The lexer as functions over its abstract state: the stream position and the lookahead buffer. |
| `Lexer` | `lexer.dfy` | The lexer object itself, as a class whose fields its methods update in place. |
| `LexerProperties` | `lexer_properties.dfy` | Behaviour on concrete shapes of input. |
| `Character` | `character.dfy` | The older, total five-class classifier of `character.h`, and how it relates to the lexer's classifier. |

The functions in `LexerSpec` are:

- `Scan`: the `while (true)` loop of `_next`.
- `Fetch`: one `input.get()` followed by the comment skip.
- `Pull`: `_next`.
- `NextToken`: `next`.
- `ReadAllFrom`: `read_all`. It terminates on a measure of characters left plus non-EndOfFile tokens buffered.

Each method of the `Lexer` class is proved to compute the matching
`LexerSpec` function. Its `lookaheadBuffer` (a `seq<Token>` field) holds the
`std::deque` of the source.

The proven properties include:

- Lexeme accumulation never loses or duplicates text. On a successful
  `read_all`, the concatenated lexemes are exactly the input with whitespace
  and comments removed, and every token is well formed: an Identifier is never
  reserved, a Keyword always is, and a Real is digits, '.', digits.
- Between calls of `next`, the buffer holds at most two tokens, and an
  EndOfFile token is buffered only once the input is exhausted.
- `read_all` returns a non-empty sequence whose last token is its only
  EndOfFile.

The input stream is an in-memory `seq<char>`. The current character is
`ChAt(input, pos)`, which is the sentinel `EOF` at `pos == |input|`. That
position is exactly where `input.eof()` is set in the source. `fail`, which
prints and exits in the source, becomes an `Err` result carrying the same
message.

Some behaviour follows from the code and differs from what a reader might
expect; the model keeps it as written:

- In `char_to_type`, the range test `'A'..'z'` comes first. It also covers
  `[ \ ] ^ _` and the backtick, so the Separator cases for `[` and `]` are
  never reached, and `"a[i]"` is a single Identifier.
- The constructor reads the first character without the comment check, so an
  input that starts with '!' fails with "Invalid character".
- An Integer at the end of the input still does its two lookahead reads. They
  return EndOfFile twice, and both EndOfFile tokens stay in the buffer.
- Real fusion ignores whitespace and comments between its three raw tokens,
  because the two lookahead reads go through `_next`, which skips both. So
  "1 . 2" and "1!c" followed by a line end and ".2" each read as the single
  Real "1.2" (`LexerProperties.SpacedRealIsFused` states the blank case).

## Model

| member | source | states |
|---|---|---|
| `Tokens.PromoteKeyword` | lexer.cpp:60-61 | Only the kind changes and the lexeme is kept. The result is a Keyword exactly when the token was a Keyword or a reserved Identifier, and any other token is returned unchanged. |
| `Tokens.KeywordsAreLowerCaseWords` | token.h:23-32 | Every reserved spelling is a non-empty word of lower-case letters. |
| `Tokens.KeywordsAreCaseSensitive` | token.h:23-32 | Keyword membership is exact: "if" and "int" are reserved, "If", "IF", "INT" and "Int" are not. |
| `Tokens.KeywordsAreWholeWords` | token.h:23-32 | The compound spellings (whileend, doend, forend, endif) are keywords in their own right. Prefixes and extensions such as "whil", "integer", "end" and the empty word are not. |
| `LexerTables.StateIndex` | lexer.h:10-18 | The six real states are numbered below six, which is the table height. INVALID has no row. |
| `LexerTables.TypeIndex` | lexer.h:20-29 | The seven classes are numbered below LENGTH = 7, which is the table width. |
| `LexerTables.CharToType` | lexer.cpp:146-186 | Every failure carries "Invalid character". The classifier answers EndOfFile exactly for the end-of-input sentinel. |
| `LexerTables.Classification` | lexer.cpp:146-186 | Each class in full, both directions: Alpha iff 'A'..'z'; Digit iff '0'..'9'; Dollar iff '$'; Operator iff `+ - * / % = < >`; Separator iff one of the separators other than '[' and ']'; Whitespace iff space, tab, CR or LF; failure iff none of these. A character is never EndOfFile. |
| `LexerTables.PunctuationInLetterRange` | lexer.cpp:148 | `[ \ ] ^ _` and the backtick are Alpha. |
| `LexerTables.InvalidCharacters` | lexer.cpp:184-185 | '!', '@', '#', '&' and '"' fail with "Invalid character". |
| `LexerTables.TableIsTotal` | lexer.cpp:9-17 | The table has six rows of seven entries and the token-kind table has six entries, so every lookup is in range. |
| `LexerTables.InvalidEntries` | lexer.cpp:9-17 | A lookup is INVALID exactly for Dollar from Empty and for any class but EndOfFile from EndOfFile. |
| `LexerTables.IdentifierRow` | lexer.cpp:12 | An Identifier continues on Alpha, Digit and Dollar and goes to Empty on every other class. |
| `LexerTables.IntegerRow` | lexer.cpp:13 | An Integer continues only on Digit. |
| `LexerTables.SingleCharacterRows` | lexer.cpp:14-15 | Operator and Separator go to Empty on every class, so their lexemes are one character long. |
| `LexerTables.EmptyRow` | lexer.cpp:11 | From Empty, Alpha, Digit, Operator and Separator start the state of the same name, Whitespace stays in Empty, Dollar is INVALID and EndOfFile enters EndOfFile. |
| `LexerTables.EndOfFileColumn` | lexer.cpp:9-17 | At end of input, Empty moves to EndOfFile and every other state returns to Empty. |
| `LexerTables.WhitespaceColumn` | lexer.cpp:9-17 | Whitespace sends every state to Empty, except EndOfFile, where it is INVALID. |
| `LexerTables.ContinuingTransitions` | lexer.cpp:101-118 | For a transition that neither fails nor accepts: the FSM stays in Empty only on whitespace and enters EndOfFile only at end of input. Otherwise the new state is a state that carries text. |
| `LexerTables.StateTokenTypesAgree` | lexer.cpp:20-27 | Each accepting state gives the token kind of the same name, and Empty gives INVALID. |
| `LexerSpec.ChAt` | lexer.h:49 | The current character is the EOF sentinel exactly when the stream is exhausted. |
| `LexerSpec.CommentEnd` | lexer.cpp:123-127 | The comment skip stops at or after its start. It stops either at a line end or at the end of the input. |
| `LexerSpec.CommentBody` | lexer.cpp:123-127 | Every character the comment skip passes over is not a line end, so the skip stops at the first CR or LF. |
| `LexerSpec.Fetch` | lexer.cpp:119-128 | A get advances by at least one character until the input is exhausted and then stays put. The new current character is never '!'. |
| `LexerSpec.Scan` | lexer.cpp:98-129 | An accepted token ends at or after the position where the scan started, within the input. |
| `LexerSpec.ScanStep` | lexer.cpp:113-119 | A one-step unfolding of `Scan`, used by the proofs: a step that neither fails nor accepts continues in the new state from the fetched character. The current character is appended exactly when the new state is neither Empty nor EndOfFile. |
| `LexerSpec.Pull` | lexer.cpp:85-92 | `_next` never moves the stream backwards. |
| `LexerSpec.FuseReal` | lexer.cpp:62-77 | The lookahead never moves the stream backwards. |
| `LexerSpec.NextToken` | lexer.cpp:54-82 | `next` never moves the stream backwards. |
| `LexerSpec.ReadAllFrom` | lexer.cpp:133-143 | A successful read is non-empty, ends with an EndOfFile token, and holds no other EndOfFile token. |
| `LexerSpec.ReadAllStep` | lexer.cpp:139-140 | read_all unrolled once. An error of `next` is the error of the read. An EndOfFile token ends it. Any other token is followed by the read from the state `next` leaves, which has a smaller measure. |
| `LexerSpec.ReadAllAppend` | lexer.cpp:139-140 | The loop bookkeeping: the tokens returned so far, followed by what is still to be read, are unchanged by one more call of `next`. |
| `LexerSpec.PullWeight` | lexer.cpp:85-130 | A raw pull lowers the measure by one unless it returns EndOfFile, and never raises it. |
| `LexerSpec.NextTokenWeight` | lexer.cpp:54-82 | Every call of `next` that does not return EndOfFile lowers the measure, including one that pushes two tokens back. |
| `LexerSpec.StepFits` | lexer.cpp:113-118 | One step that neither fails nor accepts keeps the accumulated lexeme well formed for the new state. |
| `LexerSpec.ScanShape` | lexer.cpp:98-129 | An accepted token is well formed and EndOfFile is accepted only at end of input: identifiers start with a letter and hold letters, digits and dollars; integers are digits; operators and separators are one character; EndOfFile is empty. The scan consumes at least as many characters as it adds to the lexeme. |
| `LexerSpec.VisibleIsBlankFree` | lexer.cpp:113-115 | The text that lexemes are made of contains no whitespace and no comment marker. |
| `LexerSpec.StepText` | lexer.cpp:113-128 | One step keeps the accumulated lexeme followed by the visible input unchanged. |
| `LexerSpec.ScanText` | lexer.cpp:98-129 | The scan never drops or duplicates text. The starting lexeme followed by the visible input equals the accepted lexeme followed by the visible input from the character that ended the token. |
| `LexerSpec.PullAtEnd` | lexer.cpp:98-111 | At end of input with nothing buffered, `_next` returns the empty EndOfFile token and changes nothing. |
| `LexerSpec.EndOfInputScan` | lexer.cpp:11 | From Empty at end of input, the FSM goes through EndOfFile and accepts the empty EndOfFile token. |
| `LexerSpec.EndOfFileAccepts` | lexer.cpp:16 | In state EndOfFile at end of input, the FSM returns to Empty and accepts an EndOfFile token. |
| `LexerSpec.PopFacts` | lexer.cpp:88-92 | A pull from a non-empty buffer returns its front, keeps the rest in order, leaves the stream alone and keeps the buffer invariant. |
| `LexerSpec.ScanPullShape` | lexer.cpp:94-129 | A fresh scan returns a well-formed raw token and buffers nothing. Its EndOfFile token is empty and comes only at end of input. |
| `LexerSpec.ScanPullText` | lexer.cpp:94-129 | The lexeme of a fresh scan is the front of the visible input. |
| `LexerSpec.PullFacts` | lexer.cpp:85-130 | Under the buffer invariant, a pull shrinks the buffer by one or leaves it empty. It keeps the invariant and returns the front of the pending text. |
| `LexerSpec.RealShape` | lexer.cpp:70-72 | A fused lexeme is digits, '.', digits. |
| `LexerSpec.PushBackFacts` | lexer.cpp:75-76 | The two pushed-back tokens keep the buffer invariant, and their lexemes lead the pending text in the order the tokens were read. |
| `LexerSpec.CombineFacts` | lexer.cpp:68-77 | After the lookahead, `next` returns a well-formed token that is not EndOfFile, the buffer invariant holds, and no text is lost or repeated. |
| `LexerSpec.FusedFacts` | lexer.cpp:68-72 | A "." followed by an Integer gives a Real whose lexeme spells the three lexemes and leaves nothing buffered. |
| `LexerSpec.UnfusedFacts` | lexer.cpp:73-77 | Without fusion, the Integer itself is returned and both lookahead tokens are buffered. |
| `LexerSpec.FuseFacts` | lexer.cpp:62-77 | The whole lookahead after an Integer keeps the buffer invariant and returns a well-formed token whose lexeme is the front of the pending text. |
| `LexerSpec.NextTokenFacts` | lexer.cpp:54-82 | One call of `next` keeps the buffer invariant and returns a well-formed token whose lexeme is the front of the pending text. Once that token is EndOfFile, no text is pending, the stream is at its end and only EndOfFile tokens are buffered. |
| `LexerSpec.ReadAllText` | lexer.cpp:133-143 | From any state satisfying the buffer invariant, the concatenated lexemes of read_all are the buffered lexemes followed by the visible input, and every token is well formed. |
| `LexerSpec.LexemesAreVisibleText` | lexer.cpp:133-143 | On a fresh lexer, a successful read_all spells the input with whitespace and comments removed, and every token is well formed. |
| `Lexer.Lexer.constructor` | lexer.cpp:29-35 | A new lexer starts at the first character, in Empty, with an empty buffer. |
| `Lexer.Lexer.Get` | lexer.cpp:119 | `input.get()` advances one character until the stream is exhausted and then returns EOF again. |
| `Lexer.Lexer.FetchChar` | lexer.cpp:119-128 | The fetch, with its comment-skipping loop, leaves the stream at `Fetch` of the old position. |
| `Lexer.Lexer.RawNext` | lexer.cpp:85-130 | `_next` returns exactly what `Pull` gives on the old state: the error, or the token with the new position and buffer. The lexer is idle again afterwards, with its state Empty. |
| `Lexer.Lexer.Next` | lexer.cpp:54-82 | `next` returns exactly what `NextToken` gives on the old state and keeps the lexer valid. |
| `Lexer.Lexer.ReadAll` | lexer.cpp:133-143 | `read_all` returns exactly `ReadAllFrom` of the state it started in. On success it leaves the lexer valid, at the end of the stream, with only EndOfFile tokens buffered. |
| `Lexer.Tokenize` | main.cpp:16-17 | A fresh lexer's read_all is `ReadAll` of the text. On success, its lexemes spell the visible text and every token is well formed. |
| `Lexer.NextAfterReadAll` | lexer.cpp:54-82 | A call of `next` after a successful read_all on a fresh lexer returns EndOfFile again. |
| `LexerProperties.FetchNext` | lexer.cpp:119-122 | A get that does not land on '!' moves to the next index. |
| `LexerProperties.ScanWhitespace` | lexer.cpp:113-118 | Leading whitespace in Empty is skipped without changing the scan. |
| `LexerProperties.ScanAccepts` | lexer.cpp:106-111 | At a character that ends the token, the FSM accepts the lexeme so far with the state's kind and does not advance. |
| `LexerProperties.Advances` | lexer.cpp:113-119 | A character that leads into a state that carries text is appended, and the scan moves on by one index. |
| `LexerProperties.IdentifierRun` | lexer.cpp:98-119 | Identifier characters are appended one by one, and the identifier is accepted at the first character that cannot continue it. |
| `LexerProperties.IntegerRun` | lexer.cpp:98-119 | Digits are appended one by one, and the integer is accepted at the first non-digit. |
| `LexerProperties.ScanIdentifier` | lexer.cpp:98-119 | From Empty, a letter followed by identifier characters is one Identifier spelling exactly that slice. |
| `LexerProperties.ScanInteger` | lexer.cpp:98-119 | From Empty, a run of digits is one Integer spelling exactly that slice. |
| `LexerProperties.ScanPunctuation` | lexer.cpp:107-111 | An operator or separator character is a one-character token whatever valid character follows it. |
| `LexerProperties.NextPromotes` | lexer.cpp:57-61 | A one-step unfolding of `NextToken`, used by the concrete runs: `next` on a raw token that is not an Integer returns it with keyword promotion, including tokens drained from the buffer. |
| `LexerProperties.NextFuses` | lexer.cpp:62-77 | A one-step unfolding of `NextToken`, used by the concrete runs: `next` on an Integer makes the two lookahead pulls and then combines them. |
| `LexerProperties.NextAtEnd` | lexer.cpp:88-92 | Once the input is exhausted, every call returns the empty EndOfFile token, popping buffered EndOfFile tokens first. |
| `LexerProperties.EndOfFileIsTerminal` | lexer.cpp:54-92 | From every state that keeps the buffer invariant, once `next` has returned EndOfFile, the next call returns the empty EndOfFile token again and leaves the stream at its end. |
| `LexerProperties.EndOfInputIsSticky` | lexer.cpp:139-140 | At end of input, with only EndOfFile tokens buffered, read_all returns a single EndOfFile token. |
| `LexerProperties.BlankInput` | lexer.cpp:133-143 | A blank input yields only EndOfFile. |
| `LexerProperties.LoneIdentifier` | lexer.cpp:54-61 | An identifier-shaped input yields that token, promoted when it is reserved, and then EndOfFile. |
| `LexerProperties.LoneKeyword` | token.h:23-32 | Each reserved word on its own yields one Keyword with that lexeme, and then EndOfFile. |
| `LexerProperties.LoneInteger` | lexer.cpp:62-77 | A lone integer yields that Integer, with two EndOfFile tokens left buffered by its lookahead, and then one EndOfFile. |
| `LexerProperties.SeparatedIntegers` | lexer.cpp:98-111 | Digits, a separator and digits give three raw tokens in order. |
| `LexerProperties.RealIsFused` | lexer.cpp:68-72 | `i.f` is fused into one Real with the lexeme `i + "." + f` by a single call of `next`. |
| `LexerProperties.LoneReal` | lexer.cpp:68-72 | A real literal on its own yields that Real, and then EndOfFile. |
| `LexerProperties.SpacedPulls` | lexer.cpp:98-129 | Digits, a blank, '.', a blank and digits give three raw tokens: the Integer, the "." separator and the second Integer, with the blanks skipped. |
| `LexerProperties.SpacedRealIsFused` | lexer.cpp:62-72 | `i . f` with blanks around the '.' reads as the single Real `i + "." + f`, then EndOfFile. |
| `LexerProperties.IntegerBeforeDot` | lexer.cpp:73-77 | For `i.`, `next` returns the Integer and leaves "." and EndOfFile in the buffer, in that order. |
| `LexerProperties.TrailingDotPulls` | lexer.cpp:98-111 | The raw tokens of `i.` are the Integer, the "." separator and EndOfFile. |
| `LexerProperties.DotThenEnd` | lexer.cpp:88-92 | A buffered "." and a buffered EndOfFile come out in that order. |
| `LexerProperties.IntegerThenDot` | lexer.cpp:133-143 | `i.` reads as Integer, Separator ".", EndOfFile. |
| `LexerProperties.IntegerBeforeComma` | lexer.cpp:73-77 | For `i,j`, there is no fusion, and "," and the second Integer are buffered in order. |
| `LexerProperties.IntegersAroundComma` | lexer.cpp:133-143 | `i,j` reads as Integer, Separator ",", Integer, EndOfFile. The second Integer, taken from the buffer, does its own lookahead. |
| `LexerProperties.CommaThenInteger` | lexer.cpp:88-92 | The pushed-back tokens come out front first. |
| `LexerProperties.BufferedIntegerAtEnd` | lexer.cpp:62-65 | An Integer drained from the buffer at end of input does its lookahead and finds two EndOfFile tokens. |
| `LexerProperties.ReadBufferedInteger` | lexer.cpp:133-143 | read_all from a buffered Integer at end of input gives the Integer and then EndOfFile. |
| `LexerProperties.CommentFetch` | lexer.cpp:121-128 | The fetch after a letter followed by '!' skips the whole comment and stops at its line end. |
| `LexerProperties.TokenBeforeComment` | lexer.cpp:121-128 | A comment right after a token is skipped by the next fetch, and the line end that closes the comment ends the token. |
| `LexerProperties.TokenAfterComment` | lexer.cpp:113-119 | After the comment, the line end is skipped and the next token is read. |
| `LexerProperties.CommentIsSkipped` | lexer.cpp:121-128 | `x!c` followed by a line end and `z` reads as Identifier x, Identifier z, EndOfFile: the comment contributes no token. |
| `LexerProperties.BracketsAreIdentifierCharacters` | lexer.cpp:148 | "[" and "a[i]" are single Identifiers, never Separators. |
| `LexerProperties.InvalidFirstCharacter` | lexer.cpp:184-185 | A first character outside the alphabet stops the lexer with "Invalid character". |
| `LexerProperties.LeadingCommentIsRefused` | lexer.cpp:29-35 | An input that starts with '!' fails with "Invalid character", because the constructor reads the first character without the comment check. |
| `LexerProperties.LeadingDollarIsRefused` | lexer.cpp:104 | A '$' can continue an identifier but cannot start a token, so it fails with "Unexpected character". |
| `Character.CharToType` | character.h:13-29 | The total classifier answers Whitespace exactly for space, tab, CR and LF. |
| `Character.Classes` | character.h:15-28 | Each class in full, both directions: Alpha iff 'A'..'z', Digit iff '0'..'9', Dollar iff '$', and EndOfFile for every other character. |
| `Character.PunctuationIsAlpha` | character.h:15 | `[ \ ] ^ _` and the backtick are Alpha. |
| `Character.OtherCharactersAreEndOfFile` | character.h:28 | The classifier never fails: '+', '.', '@', '!', '(' and NUL all fall into EndOfFile. |
| `Character.AgreesWithLexer` | character.h:13-29 | The two classifiers agree class for class wherever this one does not answer EndOfFile. It answers EndOfFile exactly where the lexer's classifier answers Operator or Separator or fails. |

Some functions that model source lines have their properties stated by
other rows:

- `LexerTables.Transition` (the lookup at lexer.cpp:101) by the row and
  column lemmas `EmptyRow`, `IdentifierRow`, `IntegerRow`,
  `SingleCharacterRows`, `EndOfFileColumn`, `WhitespaceColumn` and by
  `InvalidEntries` and `ContinuingTransitions`.
- `LexerTables.StateTokenType` (the lookup at lexer.cpp:108) by
  `StateTokenTypesAgree`.
- `Tokens.IsKeyword` (`is_keyword` at lexer.cpp:60, over the set of
  token.h:23-32) by `PromoteKeyword`, `KeywordsAreLowerCaseWords`,
  `KeywordsAreCaseSensitive` and `KeywordsAreWholeWords`.
- `LexerSpec.Combine` (the fuse-or-push-back decision of lexer.cpp:67-77) by
  `CombineFacts`, `FusedFacts` and `UnfusedFacts`.
- `LexerSpec.ReadAll` (read_all on a freshly built lexer) by
  `LexemesAreVisibleText`, `Lexer.Tokenize` and the lemmas of
  `LexerProperties` about whole inputs.

## Left out

- The file-path constructor, the destructor and `input_dynalloc` (lexer.cpp:37-51) are file I/O and memory management. The input is an in-memory `seq<char>`.
- `current_char` is a `char` compared with the end-of-file value, so a 0xFF byte in the input would read as end of input. The model keeps characters and the `EOF` sentinel apart and assumes no such byte.
- The "Accept: " debug print in `next` (lexer.cpp:80), `operator<<`, `token_type_strings` and `type_strings` are output formatting.
- main.cpp is a command-line driver. Only its construct-then-read_all sequence is modelled, as `Lexer.Tokenize`.
- `fail` prints a message and exits the process. It becomes an `Err` result carrying the same message. The lexer's state after an error is not specified, because the process would have ended.
- The `TokenType` enum of token.h:7-12 is a stale subset. The model uses the full list of token.cpp plus the `INVALID` that the state-to-token-kind table uses.
- The `LENGTH` enumerator of character.h is a count, not a class, and is not modelled.
