# Stack-language compiler front end: lexer and declaration check

This project models the lexer of a small compiler for a stack-based teaching
language, plus the validation pass it has over the lexer's output. The source
text is split into words at whitespace. Each word is classified into one of
nine token kinds: `ENTRY` (`main`), `STACKEXPR` (`stackexpr`), `END` (`end`),
the four one-character operators, `IDENTIFIER` and `INT_T`. A word that fits no
kind is dropped without a diagnostic. The validation pass walks the token list
looking at `stackexpr` declarations.

Modules, in the order the program runs:

- `Tokens` (`tokens.dfy`): the token kinds, tokens, the C character classes
  (`isspace`, `isalpha`, `isdigit`), and `Classify`/`Emit`, the decision
  `check_buffer` makes for one word.
- `Lexer` (`lexer.dfy`): a specification of the lexer on values. `Words`
  gives the maximal separator-free runs of the text, and `Lex` classifies them
  one by one. Then `CheckBuffer` and `Tokenize` are imperative methods that follow
  the C++ code. `CheckBuffer` is proved to clear the buffer and append exactly
  `Emit(buffer)`. `Tokenize` is proved to return exactly `Lex(src)`. Lemmas about `Lex` state
  token order, well-formedness, compositionality at separators, the flush of
  the final word, and a render/re-lex round trip.
- `Parser` (`parser.dfy`): `ParseTokens`, the `parse_tokens` loop as written.
  `ParseTokensIntended` is the corrected version (see Findings).

The program reads its input from a file. Here the model takes the characters
already read, as a `string`. The process exit of `parse_tokens` becomes the
result `Error`.

The token kinds are exactly the nine of the enum at main.cpp:8-18.

## Model

| member | source | states |
|---|---|---|
| `Tokens.FirstChar` | main.cpp:54-57 | `buffer[0]` is the first character of a non-empty word. For the empty word it is the terminating NUL, which is neither alphabetic nor a digit. |
| `Tokens.SpaceChars` | main.cpp:90 | `isspace` accepts exactly the codes 9 to 13 (tab, newline, vertical tab, form feed, carriage return) and 32 (space). |
| `Tokens.SeparatorChars` | main.cpp:90 | A character ends a word exactly when it is one of those six spaces or the character 255, the byte 0xFF that compares equal to `EOF` in a signed `char`. No separator is a letter or a digit. |
| `Tokens.AlphaChars` | main.cpp:54 | `isalpha` accepts exactly the 26 upper-case and 26 lower-case ASCII letters. |
| `Tokens.DigitChars` | main.cpp:57 | `isdigit` accepts exactly the ten characters `0` to `9`. |
| `Tokens.Classify` | main.cpp:33-59 | A word of fixed-spelling kind is exactly that kind's word. A word is `IDENTIFIER` iff it starts with a letter and is not a keyword, so a keyword is never an identifier. A word is `INT_T` iff it starts with a digit. A word is dropped iff it is no keyword, no operator, and starts with neither a letter nor a digit. |
| `Tokens.Spelling` | main.cpp:33-52 | The fixed word of a keyword or operator kind is a keyword or an operator. |
| `Tokens.SpellingRoundTrip` | main.cpp:33-52 | Each keyword/operator word is classified to its own kind: `main`→`ENTRY`, `stackexpr`→`STACKEXPR`, `end`→`END`, `+ - * /`→`ADD_OP SUB_OP MUL_OP DIV_OP`. |
| `Tokens.Emit` | main.cpp:32-60 | A word appends at most one token. It appends none exactly when classification drops it. Any token it appends holds the whole word verbatim, with the word's kind. |
| `Tokens.EmitEmpty` | main.cpp:54-59 | An empty buffer appends nothing. |
| `Tokens.EmitWellFormed` | main.cpp:32-60 | A well-formed token is rebuilt exactly from its own value. |
| `Lexer.Words` | main.cpp:87-102 | The words of a text: the maximal runs of non-separator characters, in order, as the loop accumulates them in `buffer`. There are no more words than characters. |
| `Lexer.EmitAll` | main.cpp:32-61 | The tokens of a sequence of words, each word classified in turn; at most one token per word. |
| `Lexer.Lex` | main.cpp:87-102 | The reference for `tokenize`: the tokens of the source's words, in order. There are at most as many tokens as words, and at most as many words as characters. |
| `Lexer.Kept` | main.cpp:54-59 | The words that classification keeps: each is one of the given words and has a token kind. |
| `Lexer.WordLenMaximal` | main.cpp:87-93 | The pending word read from a position runs up to the next separator or the end of input, and contains no separator. |
| `Lexer.WordsWellFormed` | main.cpp:87-93 | Every word of the text is non-empty and separator-free. |
| `Lexer.WordLenAppend` | main.cpp:87-93 | Text after a word's terminating separator does not change where the word ends. |
| `Lexer.WordsSplit` | main.cpp:90-91 | A separator splits the text: the words of `x + [c] + y` are the words of `x` followed by those of `y`. |
| `Lexer.WordsSplitAtWord` | main.cpp:90-93 | The same split, when `x` starts with a word. |
| `Lexer.WordsOfWord` | main.cpp:93 | A separator-free text is one word, or no word when empty. |
| `Lexer.WordsSeparatorRun` | main.cpp:90-91 | Two separators in a row give the same words as one. |
| `Lexer.EmitAllAppend` | main.cpp:91 | Classifying words one at a time distributes over concatenation. |
| `Lexer.LexSplit` | main.cpp:90-91 | The tokens of `x + [c] + y` are the tokens of `x` followed by those of `y`. |
| `Lexer.LexOfWord` | main.cpp:99-102 | A text with no separator yields exactly what `check_buffer` appends for it. |
| `Lexer.LexSeparatorRun` | main.cpp:90-91 | Runs of consecutive separators produce no extra tokens. |
| `Lexer.LexTrailingWord` | main.cpp:99-102 | A final word with no separator after it is still classified and appended after the tokens before it. |
| `Lexer.EmitAllWellFormed` | main.cpp:32-61 | Every token made from well-formed words is well formed and its value is one of those words. |
| `Lexer.EmitAllKept` | main.cpp:32-61 | The token values are exactly the words classification keeps, in order. |
| `Lexer.LexWellFormed` | main.cpp:87-102 | Every token of a source is well formed: its value is non-empty, separator-free and classified to its kind. Each value is a word of the source. |
| `Lexer.LexValues` | main.cpp:87-102 | The token values are exactly the kept words of the source, in source order. |
| `Lexer.WordsUnwords` | main.cpp:87-102 | Splitting words joined by single spaces gives the words back. |
| `Lexer.EmitAllValues` | main.cpp:32-61 | Re-classifying the values of well-formed tokens gives the tokens back. |
| `Lexer.LexRender` | main.cpp:87-102 | Well-formed tokens written out with single spaces lex back to the same tokens. |
| `Lexer.LexIdempotent` | main.cpp:87-102 | Lexing the rendered tokens of any source again yields the same tokens. |
| `Lexer.SeparatorStep` | main.cpp:90-91 | At a separator, flushing the buffer through `check_buffer` keeps the loop's account of the remaining tokens. |
| `Lexer.FlushAtSeparator` | main.cpp:90-91 | At a separator, the pending word is classified on its own, followed by the tokens of the rest. |
| `Lexer.FinalStep` | main.cpp:99-102 | At end of input, the leftover buffer is the last word. An empty buffer adds nothing, so the guard `!buffer.empty()` at main.cpp:100 is redundant: `check_buffer` on an empty buffer appends nothing anyway. |
| `Lexer.CheckBuffer` | main.cpp:32-62 | The buffer is empty afterwards. The list keeps its old elements unchanged and grows by at most one: exactly what `Emit` gives for the buffer. |
| `Lexer.Tokenize` | main.cpp:78-105 | The character loop returns exactly `Lex(src)`. Every token is well formed and its value is a word of the source. |
| `Parser.ParseTokens` | main.cpp:107-121 | Returns `Ok` exactly when no token is `STACKEXPR`. Line 110 reads `tokens[ptr]` before advancing, so it checks the `STACKEXPR` token itself, which is never an `IDENTIFIER`. The token sequence is a value and is not modified. |
| `Parser.NoStackExprOfLex` | main.cpp:36-37 | A source's tokens contain `STACKEXPR` exactly when one of its words is `stackexpr`. So the pass fails on exactly those sources. |
| `Parser.NoStackExprOfWords` | main.cpp:36-37 | The same, for any sequence of words. |
| `Parser.DeclarationRejectedAsWritten` | main.cpp:110-117 | The well-formed declaration `stackexpr add2 1 2 + end` contains a `STACKEXPR`, so it is rejected as written. The intended check accepts it. |
| `Parser.ParseTokensIntended` | main.cpp:109-118 | Corrected check: returns `Ok` exactly when every `STACKEXPR` is directly followed by an `IDENTIFIER`. |

## Left out

- Opening the source file and the "file does not exist" exit (main.cpp:69-76) are I/O. The model takes the characters already read.
- Debug printing of each character and the buffer (main.cpp:95-96) and of the token list (main.cpp:133-135) are I/O.
- `main`'s argument handling is I/O and process plumbing (main.cpp:123-131). Note that `main` never calls `parse_tokens`.
- `exit(EXIT_FAILURE)` and the two `std::cerr` diagnostics of `parse_tokens` (main.cpp:115-117) are process effects. They become the result `Error`.
- The model's `string` stands for the bytes that `operator>>` reads one `char` at a time. That is why the `EOF` byte 0xFF is the character 255. Characters above 255 have no counterpart in the source.
- Character classes follow the "C" locale on ASCII. Locale-dependent classes and the undefined behaviour of `isalpha`/`isspace` on negative `char` values are not modelled.
- The `ch == EOF` test (main.cpp:90) is modelled for a signed `char`: the character 255, read from byte 0xFF, also ends a word. On platforms where `char` is unsigned the test is never true; that variant is not modelled.
- The `int` cursor of `parse_tokens` compared against `size()` is unbounded here. Lists of 2^31 or more tokens, where the cursor would overflow, are not modelled.
- Code generation, macro expansion, `do`/`include` handling and assembly output are not part of this model, because `main.cpp` does not implement them.

## Findings

| source | as written | input that shows it | evidently intended | confidence | as-written member | corrected member |
|---|---|---|---|---|---|---|
| main.cpp:110 | `Token identifier = tokens[ptr++];` reads the `stackexpr` token itself and then advances, so the identifier test can never succeed | `stackexpr add2 1 2 + end`: rejected with "Expected name/identifier after 'stackexpr'" although `add2` follows | read the token after `stackexpr` (`tokens[++ptr]`, with a bounds check) and require it to be an identifier | high, not executed | `Parser.ParseTokens` with `Parser.DeclarationRejectedAsWritten` | `Parser.ParseTokensIntended` |
