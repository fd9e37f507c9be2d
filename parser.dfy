/** parse_tokens: the validation pass over the token list. */
module Parser {
  import opened Tokens
  import Lexer

  /** Ok when the pass returns normally; Error where the source prints its
      diagnostic and stops the process. */
  datatype ParseResult = Ok | Error

  predicate NoStackExpr(tokens: seq<Token>) {
    forall i :: 0 <= i < |tokens| ==> tokens[i].kind != StackExpr
  }

  /** parse_tokens. Reading `tokens[ptr++]` takes the token at the cursor
      before advancing it, so the token checked for being an identifier is
      the `stackexpr` token itself: every `stackexpr` ends in Error. */
  method ParseTokens(tokens: seq<Token>) returns (r: ParseResult)
    ensures r == Ok <==> NoStackExpr(tokens)
  {
    var ptr := 0;
    while ptr < |tokens|
      invariant 0 <= ptr <= |tokens|
      invariant forall j :: 0 <= j < ptr ==> tokens[j].kind != StackExpr
    {
      if tokens[ptr].kind == StackExpr {
        var identifier := tokens[ptr];
        ptr := ptr + 1;
        if identifier.kind == Identifier {
        } else {
          return Error;
        }
      }
      ptr := ptr + 1;
    }
    return Ok;
  }

  /** What the diagnostic of parse_tokens asks for: every `stackexpr` is
      directly followed by the identifier that names the declaration. */
  predicate DeclarationsNamed(tokens: seq<Token>) {
    forall i :: 0 <= i < |tokens| && tokens[i].kind == StackExpr ==>
      i + 1 < |tokens| && tokens[i + 1].kind == Identifier
  }

  /** parse_tokens as evidently intended: the cursor is advanced before the
      token after `stackexpr` is read (`tokens[++ptr]`), and a `stackexpr` at
      the very end is an error instead of a read past the end. */
  method ParseTokensIntended(tokens: seq<Token>) returns (r: ParseResult)
    ensures r == Ok <==> DeclarationsNamed(tokens)
  {
    var ptr := 0;
    while ptr < |tokens|
      invariant 0 <= ptr <= |tokens| + 1
      invariant forall j :: 0 <= j < ptr && j < |tokens| && tokens[j].kind == StackExpr ==>
        j + 1 < |tokens| && tokens[j + 1].kind == Identifier
    {
      if tokens[ptr].kind == StackExpr {
        ptr := ptr + 1;
        if ptr < |tokens| && tokens[ptr].kind == Identifier {
        } else {
          assert tokens[ptr - 1].kind == StackExpr;
          return Error;
        }
      }
      ptr := ptr + 1;
    }
    return Ok;
  }

  /** The declaration `stackexpr add2 1 2 + end` is rejected by parse_tokens
      as written, and accepted by the intended check. The list is the lexer's
      output for that text: its six words, each classified by `Classify`. */
  lemma DeclarationRejectedAsWritten()
    ensures var ts := [Token(StackExpr, "stackexpr"), Token(Identifier, "add2"), Token(IntT, "1"),
                       Token(IntT, "2"), Token(AddOp, "+"), Token(End, "end")];
            !NoStackExpr(ts) && DeclarationsNamed(ts)
  {
    var ts := [Token(StackExpr, "stackexpr"), Token(Identifier, "add2"), Token(IntT, "1"),
               Token(IntT, "2"), Token(AddOp, "+"), Token(End, "end")];
    assert ts[0].kind == StackExpr;
    forall i | 0 <= i < |ts| && ts[i].kind == StackExpr
      ensures i + 1 < |ts| && ts[i + 1].kind == Identifier
    {
      assert i == 0;
    }
  }

  /** The tokens of a source contain a `stackexpr` token exactly when one of
      its words is `stackexpr`; so the pass fails on exactly those sources. */
  lemma {:induction false} NoStackExprOfLex(src: string)
    ensures NoStackExpr(Lexer.Lex(src)) <==> "stackexpr" !in Lexer.Words(src)
  {
    NoStackExprOfWords(Lexer.Words(src));
  }

  lemma {:induction false} NoStackExprOfWords(ws: seq<string>)
    ensures NoStackExpr(Lexer.EmitAll(ws)) <==> "stackexpr" !in ws
    decreases |ws|
  {
    if ws != [] {
      NoStackExprOfWords(ws[1..]);
      var head, tail := Emit(ws[0]), Lexer.EmitAll(ws[1..]);
      assert Lexer.EmitAll(ws) == head + tail;
      assert ws == [ws[0]] + ws[1..];
      if ws[0] == "stackexpr" {
        SpellingRoundTrip(StackExpr);
        assert head[0].kind == StackExpr;
      } else if head != [] {
        assert head[0].kind != StackExpr by {
          assert HasSpelling(StackExpr) && Spelling(StackExpr) == "stackexpr";
        }
      }
      assert NoStackExpr(head) <==> ws[0] != "stackexpr";
      NoStackExprAppend(head, tail);
    }
  }

  lemma NoStackExprAppend(a: seq<Token>, b: seq<Token>)
    ensures NoStackExpr(a + b) <==> NoStackExpr(a) && NoStackExpr(b)
  {
    if NoStackExpr(a + b) {
      forall j | 0 <= j < |a| ensures a[j].kind != StackExpr {
        assert (a + b)[j] == a[j];
      }
      forall j | 0 <= j < |b| ensures b[j].kind != StackExpr {
        assert (a + b)[|a| + j] == b[j];
      }
    }
  }
}
