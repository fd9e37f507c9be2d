/** The lexer: check_buffer and tokenize, proved against a specification
    that splits the source into separator-delimited words and classifies each. */
module Lexer {
  import opened Tokens

  // ---------------------------------------------------------------------------
  // Specification: words of a source text, and the tokens they yield
  // ---------------------------------------------------------------------------

  /** Length of the run of non-separator characters at the start of `s`. */
  function WordLen(s: string): (n: nat)
    ensures n <= |s|
  {
    if s == [] || IsSeparator(s[0]) then 0 else 1 + WordLen(s[1..])
  }

  /** The maximal runs of non-separator characters of `s`, in order. */
  function Words(s: string): (r: seq<string>)
    ensures |r| <= |s|
    decreases |s|
  {
    if s == [] then []
    else if IsSeparator(s[0]) then Words(s[1..])
    else
      var n := WordLen(s);
      [s[..n]] + Words(s[n..])
  }

  /** The tokens made from a sequence of words, one word at a time. */
  function EmitAll(ws: seq<string>): (r: seq<Token>)
    ensures |r| <= |ws|
  {
    if ws == [] then [] else Emit(ws[0]) + EmitAll(ws[1..])
  }

  /** The token sequence of a source text. */
  function Lex(src: string): (r: seq<Token>)
    ensures |r| <= |Words(src)| <= |src|
  {
    EmitAll(Words(src))
  }

  /** The words that classification keeps, in order. */
  function Kept(ws: seq<string>): (r: seq<string>)
    ensures forall w :: w in r ==> w in ws && Classify(w).Some?
  {
    if ws == [] then []
    else if Classify(ws[0]).Some? then [ws[0]] + Kept(ws[1..])
    else Kept(ws[1..])
  }

  function Values(ts: seq<Token>): (vs: seq<string>)
    ensures |vs| == |ts|
    ensures forall i :: 0 <= i < |ts| ==> vs[i] == ts[i].value
  {
    if ts == [] then [] else [ts[0].value] + Values(ts[1..])
  }

  /** Words joined by single spaces. */
  function Unwords(ws: seq<string>): string
  {
    if ws == [] then ""
    else if |ws| == 1 then ws[0]
    else ws[0] + [' '] + Unwords(ws[1..])
  }

  /** Tokens written back as source text: their values separated by single spaces. */
  function Render(ts: seq<Token>): string
  {
    Unwords(Values(ts))
  }

  // ---------------------------------------------------------------------------
  // Lemmas about the specification
  // ---------------------------------------------------------------------------

  /** WordLen(s) is the length of the longest separator-free prefix of s. */
  lemma {:induction false} WordLenMaximal(s: string)
    ensures NoSeparators(s[..WordLen(s)])
    ensures WordLen(s) == |s| || IsSeparator(s[WordLen(s)])
    decreases |s|
  {
    if s != [] && !IsSeparator(s[0]) {
      WordLenMaximal(s[1..]);
      assert s[..WordLen(s)] == [s[0]] + s[1..][..WordLen(s[1..])];
    }
  }

  lemma {:induction false} WordLenAppend(x: string, z: string)
    requires WordLen(x) < |x| || z == [] || IsSeparator(z[0])
    ensures WordLen(x + z) == WordLen(x)
    decreases |x|
  {
    if x == [] {
      assert x + z == z;
    } else if IsSeparator(x[0]) {
      assert (x + z)[0] == x[0];
    } else {
      assert (x + z)[0] == x[0];
      assert (x + z)[1..] == x[1..] + z;
      WordLenAppend(x[1..], z);
    }
  }

  /** A separator splits the text: the words on each side are kept apart. */
  lemma {:induction false} WordsSplit(x: string, c: char, y: string)
    requires IsSeparator(c)
    ensures Words(x + [c] + y) == Words(x) + Words(y)
    decreases |x|, 1
  {
    var s := x + [c] + y;
    if x == [] {
      assert s == [c] + y;
      assert s[1..] == y;
    } else if IsSeparator(x[0]) {
      assert s[0] == x[0];
      assert s[1..] == x[1..] + [c] + y;
      WordsSplit(x[1..], c, y);
    } else {
      WordsSplitAtWord(x, c, y);
    }
  }

  /** WordsSplit when x starts with a word: that word ends inside x, before the separator. */
  lemma {:induction false} WordsSplitAtWord(x: string, c: char, y: string)
    requires IsSeparator(c) && x != [] && !IsSeparator(x[0])
    ensures Words(x + [c] + y) == Words(x) + Words(y)
    decreases |x|, 0
  {
    var m := WordLen(x);
    var z := [c] + y;
    assert z[0] == c;
    WordLenAppend(x, z);
    var s := x + z;
    assert x + [c] + y == s;
    assert s[0] == x[0];
    assert s[..m] == x[..m];
    assert s[m..] == x[m..] + [c] + y;
    WordsSplit(x[m..], c, y);
  }

  /** Every word is non-empty and separator-free. */
  lemma {:induction false} WordsWellFormed(s: string)
    ensures forall w :: w in Words(s) ==> |w| > 0 && NoSeparators(w)
    decreases |s|
  {
    if s == [] {
    } else if IsSeparator(s[0]) {
      WordsWellFormed(s[1..]);
    } else {
      var n := WordLen(s);
      WordLenMaximal(s);
      WordsWellFormed(s[n..]);
      assert Words(s) == [s[..n]] + Words(s[n..]);
    }
  }

  /** A separator-free text is one word, or none when empty. */
  lemma WordsOfWord(w: string)
    requires NoSeparators(w)
    ensures Words(w) == if w == [] then [] else [w]
  {
    if w != [] {
      WordLenMaximal(w);
      assert w[..WordLen(w)] == w;
      assert w[WordLen(w)..] == [];
    }
  }

  lemma {:induction false} EmitAllAppend(a: seq<string>, b: seq<string>)
    ensures EmitAll(a + b) == EmitAll(a) + EmitAll(b)
    decreases |a|
  {
    if a == [] {
      assert a + b == b;
    } else {
      assert (a + b)[0] == a[0];
      assert (a + b)[1..] == a[1..] + b;
      EmitAllAppend(a[1..], b);
    }
  }

  /** Lexing is compositional at a separator. */
  lemma LexSplit(x: string, c: char, y: string)
    requires IsSeparator(c)
    ensures Lex(x + [c] + y) == Lex(x) + Lex(y)
  {
    WordsSplit(x, c, y);
    EmitAllAppend(Words(x), Words(y));
  }

  /** A word with no separator after it is still classified, exactly as check_buffer would. */
  lemma LexOfWord(w: string)
    requires NoSeparators(w)
    ensures Lex(w) == Emit(w)
  {
    WordsOfWord(w);
    EmitEmpty();
    if w != [] {
      assert EmitAll([w]) == Emit(w) + EmitAll([]);
    }
  }

  /** A run of separators yields no more words than one separator does. */
  lemma WordsSeparatorRun(x: string, c: char, d: char, y: string)
    requires IsSeparator(c) && IsSeparator(d)
    ensures Words(x + [c, d] + y) == Words(x + [c] + y)
  {
    assert x + [c, d] + y == x + [c] + ([d] + y);
    WordsSplit(x, c, [d] + y);
    assert ([d] + y)[0] == d && ([d] + y)[1..] == y;
    WordsSplit(x, c, y);
  }

  /** A run of separators yields no more tokens than one separator does. */
  lemma LexSeparatorRun(x: string, c: char, d: char, y: string)
    requires IsSeparator(c) && IsSeparator(d)
    ensures Lex(x + [c, d] + y) == Lex(x + [c] + y)
  {
    WordsSeparatorRun(x, c, d, y);
  }

  /** The final word, with no separator after it, is flushed and classified. */
  lemma LexTrailingWord(x: string, c: char, w: string)
    requires IsSeparator(c) && NoSeparators(w)
    ensures Lex(x + [c] + w) == Lex(x) + Emit(w)
  {
    LexSplit(x, c, w);
    LexOfWord(w);
  }

  /** Every token of EmitAll(ws) is well formed, when the words are, and comes from one of them. */
  lemma {:induction false} EmitAllWellFormed(ws: seq<string>)
    requires forall w :: w in ws ==> |w| > 0 && NoSeparators(w)
    ensures forall t :: t in EmitAll(ws) ==> WellFormed(t) && t.value in ws
    decreases |ws|
  {
    if ws != [] {
      var head, tail := Emit(ws[0]), EmitAll(ws[1..]);
      EmitAllWellFormed(ws[1..]);
      assert EmitAll(ws) == head + tail;
      assert ws[0] in ws;
      forall t | t in head + tail ensures WellFormed(t) && t.value in ws {
        if t in head {
          assert t.value == ws[0];
        } else {
          assert t.value in ws[1..];
        }
      }
    }
  }

  /** The values of EmitAll(ws) are the words classification keeps, in order. */
  lemma {:induction false} EmitAllKept(ws: seq<string>)
    ensures Values(EmitAll(ws)) == Kept(ws)
    decreases |ws|
  {
    if ws != [] {
      EmitAllKept(ws[1..]);
      ValuesAppend(Emit(ws[0]), EmitAll(ws[1..]));
    }
  }

  lemma {:induction false} ValuesAppend(a: seq<Token>, b: seq<Token>)
    ensures Values(a + b) == Values(a) + Values(b)
  {
  }

  /** The tokens of a source are well formed, and each is the whole text of one of its words. */
  lemma LexWellFormed(src: string)
    ensures forall t :: t in Lex(src) ==> WellFormed(t) && t.value in Words(src)
  {
    WordsWellFormed(src);
    EmitAllWellFormed(Words(src));
  }

  /** The values of the tokens of a source are exactly its kept words, in source order. */
  lemma LexValues(src: string)
    ensures Values(Lex(src)) == Kept(Words(src))
  {
    EmitAllKept(Words(src));
  }

  /** Joining separator-free words with single spaces and splitting again gives the words back. */
  lemma {:induction false} WordsUnwords(ws: seq<string>)
    requires forall w :: w in ws ==> |w| > 0 && NoSeparators(w)
    ensures Words(Unwords(ws)) == ws
    decreases |ws|
  {
    if ws == [] {
    } else if |ws| == 1 {
      WordsOfWord(ws[0]);
    } else {
      assert ws[0] in ws;
      WordsSplit(ws[0], ' ', Unwords(ws[1..]));
      WordsOfWord(ws[0]);
      assert forall w :: w in ws[1..] ==> w in ws;
      WordsUnwords(ws[1..]);
      assert ws == [ws[0]] + ws[1..];
    }
  }

  lemma {:induction false} EmitAllValues(ts: seq<Token>)
    requires forall t :: t in ts ==> WellFormed(t)
    ensures EmitAll(Values(ts)) == ts
    decreases |ts|
  {
    if ts != [] {
      var vs := Values(ts);
      assert ts[0] in ts;
      EmitWellFormed(ts[0]);
      assert vs[1..] == Values(ts[1..]);
      EmitAllValues(ts[1..]);
      assert EmitAll(vs) == Emit(vs[0]) + EmitAll(vs[1..]);
      assert ts == [ts[0]] + ts[1..];
    }
  }

  /** Writing tokens out and lexing the text again gives the same tokens. */
  lemma {:induction false} LexRender(ts: seq<Token>)
    requires forall t :: t in ts ==> WellFormed(t)
    ensures Lex(Render(ts)) == ts
  {
    forall w | w in Values(ts)
      ensures |w| > 0 && NoSeparators(w)
    {
      var i :| 0 <= i < |ts| && Values(ts)[i] == w;
      assert ts[i] in ts;
    }
    WordsUnwords(Values(ts));
    EmitAllValues(ts);
  }

  /** Re-tokenizing the rendered token stream of any source is idempotent. */
  lemma LexIdempotent(src: string)
    ensures Lex(Render(Lex(src))) == Lex(src)
  {
    LexWellFormed(src);
    LexRender(Lex(src));
  }

  /** tokenize reads a separator: the pending word is flushed on its own. */
  lemma SeparatorStep(before: seq<Token>, buffer: string, src: string, i: nat, after: seq<Token>)
    requires NoSeparators(buffer) && i < |src| && IsSeparator(src[i])
    requires before + Lex(buffer + src[i..]) == Lex(src)
    requires after == before + Emit(buffer)
    ensures after + Lex(src[i + 1..]) == Lex(src)
  {
    FlushAtSeparator(buffer, src, i);
    ConcatAssoc(before, Emit(buffer), Lex(src[i + 1..]));
  }

  /** Sequence concatenation is associative; stated on its own so the loop proof stays small. */
  lemma ConcatAssoc(a: seq<Token>, b: seq<Token>, c: seq<Token>)
    ensures (a + b) + c == a + (b + c)
  {
  }

  lemma FlushAtSeparator(buffer: string, src: string, i: nat)
    requires NoSeparators(buffer) && i < |src| && IsSeparator(src[i])
    ensures Lex(buffer + src[i..]) == Emit(buffer) + Lex(src[i + 1..])
  {
    assert buffer + src[i..] == buffer + [src[i]] + src[i + 1..];
    LexSplit(buffer, src[i], src[i + 1..]);
    LexOfWord(buffer);
  }

  /** tokenize reaches the end of input: what is left is the last word. */
  lemma FinalStep(tokens: seq<Token>, buffer: string, src: string)
    requires NoSeparators(buffer)
    requires tokens + Lex(buffer + src[|src|..]) == Lex(src)
    ensures tokens + Emit(buffer) == Lex(src)
    ensures buffer == "" ==> tokens == Lex(src)
  {
    assert buffer + src[|src|..] == buffer;
    LexOfWord(buffer);
    EmitEmpty();
  }

  /** Proof step of tokenize: the loop starts with no tokens and an empty buffer. */
  lemma StartStep(src: string)
    ensures [] + Lex("" + src[0..]) == Lex(src)
  {
    assert "" + src[0..] == src;
  }

  /** Proof step of tokenize: a non-separator character joins the pending word. */
  lemma CharStep(buffer: string, src: string, i: nat)
    requires NoSeparators(buffer) && i < |src| && !IsSeparator(src[i])
    ensures NoSeparators(buffer + [src[i]])
    ensures buffer + src[i..] == (buffer + [src[i]]) + src[i + 1..]
  {
  }

  // ---------------------------------------------------------------------------
  // The lexer as the source runs it
  // ---------------------------------------------------------------------------

  /** check_buffer: classifies the buffer, appends at most one token, and empties the buffer. */
  method CheckBuffer(buffer: string, list: seq<Token>) returns (newBuffer: string, newList: seq<Token>)
    ensures newBuffer == ""
    ensures newList == list + Emit(buffer)
    ensures |list| <= |newList| <= |list| + 1 && newList[..|list|] == list
  {
    if buffer == "main" {
      newList := list + [Token(Entry, buffer)];
    } else if buffer == "stackexpr" {
      newList := list + [Token(StackExpr, buffer)];
    } else if buffer == "end" {
      newList := list + [Token(End, buffer)];
    } else if buffer == "+" {
      newList := list + [Token(AddOp, buffer)];
    } else if buffer == "-" {
      newList := list + [Token(SubOp, buffer)];
    } else if buffer == "*" {
      newList := list + [Token(MulOp, buffer)];
    } else if buffer == "/" {
      newList := list + [Token(DivOp, buffer)];
    } else if IsAlpha(FirstChar(buffer)) {
      newList := list + [Token(Identifier, buffer)];
    } else if IsDigit(FirstChar(buffer)) {
      newList := list + [Token(IntT, buffer)];
    } else {
      newList := list;
    }
    newBuffer := "";
  }

  /** tokenize, over the characters already read from the file. */
  method Tokenize(src: string) returns (tokens: seq<Token>)
    ensures tokens == Lex(src)
    ensures forall t :: t in tokens ==> WellFormed(t) && t.value in Words(src)
  {
    var buffer: string := "";
    tokens := [];
    var i := 0;
    StartStep(src);
    while i < |src|
      invariant 0 <= i <= |src|
      invariant NoSeparators(buffer)
      invariant tokens + Lex(buffer + src[i..]) == Lex(src)
    {
      var ch := src[i];
      if IsSeparator(ch) {
        ghost var before, word := tokens, buffer;
        buffer, tokens := CheckBuffer(buffer, tokens);
        SeparatorStep(before, word, src, i, tokens);
        assert buffer + src[i + 1..] == src[i + 1..];
      } else {
        CharStep(buffer, src, i);
        buffer := buffer + [ch];
      }
      i := i + 1;
    }
    FinalStep(tokens, buffer, src);
    if buffer != "" {
      buffer, tokens := CheckBuffer(buffer, tokens);
    }
    LexWellFormed(src);
  }
}
