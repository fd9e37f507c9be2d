/** Token kinds, tokens, the character classes the lexer tests, and the
    classification of one accumulated word (check_buffer's decision). */
module Tokens {

  datatype Option<T> = None | Some(value: T)

  /** The kinds of token the lexer can produce; no other kind exists. */
  datatype TokenType =
    | Entry       // "main"
    | StackExpr   // "stackexpr"
    | Identifier
    | IntT
    | AddOp       // "+"
    | SubOp       // "-"
    | MulOp       // "*"
    | DivOp       // "/"
    | End         // "end"

  /** A token keeps the whole word it was made from as its value. */
  datatype Token = Token(kind: TokenType, value: string)

  const Keywords: set<string> := {"main", "stackexpr", "end"}
  const Operators: set<string> := {"+", "-", "*", "/"}

  /** `isspace` in the "C" locale. */
  predicate IsSpace(c: char) {
    c == ' ' || 9 <= c as int <= 13
  }

  /** The character that compares equal to `EOF` (-1) once read into a signed `char`: byte 0xFF. */
  const EofChar: char := 255 as char

  /** A character that ends the current word: a C space, or the byte read as `EOF`. */
  predicate IsSeparator(c: char) {
    IsSpace(c) || c == EofChar
  }

  /** `isalpha` in the "C" locale. */
  predicate IsAlpha(c: char) {
    'A' <= c <= 'Z' || 'a' <= c <= 'z'
  }

  /** `isdigit`. */
  predicate IsDigit(c: char) {
    '0' <= c <= '9'
  }

  /** The characters `isspace` accepts: tab, newline, vertical tab, form feed, carriage return, space. */
  lemma SpaceChars(c: char)
    ensures IsSpace(c) <==> c as int in {9, 10, 11, 12, 13, 32}
  {
  }

  /** The characters that end a word: the six spaces and the byte 0xFF. No letter or digit is one. */
  lemma SeparatorChars(c: char)
    ensures IsSeparator(c) <==> c as int in {9, 10, 11, 12, 13, 32, 255}
    ensures IsSeparator(c) ==> !IsAlpha(c) && !IsDigit(c)
  {
  }

  /** The characters `isalpha` accepts: the 26 upper-case and the 26 lower-case ASCII letters. */
  lemma AlphaChars(c: char)
    ensures IsAlpha(c) <==> c in "ABCDEFGHIJKLMNOPQRSTUVWXYZ" || c in "abcdefghijklmnopqrstuvwxyz"
  {
  }

  /** The characters `isdigit` accepts: the ten ASCII decimal digits. */
  lemma DigitChars(c: char)
    ensures IsDigit(c) <==> c in "0123456789"
  {
  }

  predicate NoSeparators(s: string) {
    forall i :: 0 <= i < |s| ==> !IsSeparator(s[i])
  }

  /** `buffer[0]` of a C++ string: the terminating NUL when the string is empty. */
  function FirstChar(word: string): (c: char)
    ensures |word| > 0 ==> c == word[0]
    ensures |word| == 0 ==> c == '\0' && !IsAlpha(c) && !IsDigit(c)
  {
    if |word| > 0 then word[0] else '\0'
  }

  /** The kinds whose token always carries one fixed word. */
  predicate HasSpelling(k: TokenType) {
    !(k.Identifier? || k.IntT?)
  }

  /** The one word that a fixed-spelling kind is made from. */
  function Spelling(k: TokenType): (s: string)
    requires HasSpelling(k)
    ensures s in Keywords || s in Operators
  {
    match k
    case Entry => "main"
    case StackExpr => "stackexpr"
    case End => "end"
    case AddOp => "+"
    case SubOp => "-"
    case MulOp => "*"
    case DivOp => "/"
  }

  /** The kind check_buffer gives a word, or None when it drops it.
      Keywords are matched first, then the one-character operators, then the
      first character (alphabetic, then digit). */
  function Classify(word: string): (r: Option<TokenType>)
    // a fixed-spelling kind comes only from its own word
    ensures r.Some? && HasSpelling(r.value) ==> word == Spelling(r.value)
    // a keyword is never an identifier; every other alphabetic-led word is
    ensures r == Some(Identifier) <==> IsAlpha(FirstChar(word)) && word !in Keywords
    // every digit-led word is an integer, whatever follows the digit
    ensures r == Some(IntT) <==> IsDigit(FirstChar(word))
    // the silent drop: exactly the words that no test accepts
    ensures r == None <==>
      word !in Keywords && word !in Operators && !IsAlpha(FirstChar(word)) && !IsDigit(FirstChar(word))
  {
    if word == "main" then Some(Entry)
    else if word == "stackexpr" then Some(StackExpr)
    else if word == "end" then Some(End)
    else if word == "+" then Some(AddOp)
    else if word == "-" then Some(SubOp)
    else if word == "*" then Some(MulOp)
    else if word == "/" then Some(DivOp)
    else if IsAlpha(FirstChar(word)) then Some(Identifier)
    else if IsDigit(FirstChar(word)) then Some(IntT)
    else None
  }

  /** What check_buffer appends for a word: nothing, or one token holding the whole word. */
  function Emit(word: string): (r: seq<Token>)
    ensures |r| <= 1
    ensures r == [] <==> Classify(word) == None
    ensures forall t :: t in r ==> t.value == word && Classify(word) == Some(t.kind)
  {
    match Classify(word)
    case Some(k) => [Token(k, word)]
    case None => []
  }

  /** A token as the lexer makes them: a non-empty separator-free word, classified to its kind. */
  predicate WellFormed(t: Token) {
    |t.value| > 0 && NoSeparators(t.value) && Classify(t.value) == Some(t.kind)
  }

  /** Spelling is an inverse of Classify on the fixed-spelling kinds. */
  lemma SpellingRoundTrip(k: TokenType)
    requires HasSpelling(k)
    ensures Classify(Spelling(k)) == Some(k)
  {
  }

  lemma EmitEmpty()
    ensures Emit("") == []
  {
    assert FirstChar("") == '\0';
  }

  /** A well-formed token is rebuilt from its own value. */
  lemma EmitWellFormed(t: Token)
    requires WellFormed(t)
    ensures Emit(t.value) == [t]
  {
  }
}
