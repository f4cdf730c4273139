/** A fully parenthesised text is parsed back to the tree that it was printed from. */
module ParserRoundTrip {
  import opened Common
  import opened Expressions
  import opened Parser

  // ---------- printing ----------

  predicate IsWordText(w: string) {
    w != [] && (IsAlpha(w[0]) || w[0] == '_') && forall i :: 0 <= i < |w| ==> IsWord(w[i])
  }

  /** No quote ends the literal early, and no backslash swallows the closing quote. */
  predicate Raw(s: string) {
    s == [] || (s[0] != '\'' && if s[0] == '\\' then |s| > 1 && Raw(s[2..]) else Raw(s[1..]))
  }

  predicate IsOperator(op: string) {
    op in {"=", "<", ">", "<=", ">=", "<>", "AND", "OR"}
  }

  /** What the grammar can express without a sign. */
  predicate Printable(e: Expr) {
    match e
    case ColumnRef(c) => IsWordText(c) && WordType(c) == IDENT
    case IntLit(v) => 0 <= v <= INT_MAX
    case StrLit(s) => Raw(s)
    case BinaryOp(op, l, r) => IsOperator(op) && Printable(l) && Printable(r)
  }

  function Text(e: Expr): string {
    match e
    case ColumnRef(c) => c
    case IntLit(v) => if v >= 0 then Decimal(v) else "-" + Decimal(-v)
    case StrLit(s) => "'" + s + "'"
    case BinaryOp(op, l, r) => "(" + Text(l) + " " + op + " " + Text(r) + ")"
  }

  function OpToken(op: string): Token {
    Token(if op == "=" then EQ else if op == "<" then LT else if op == ">" then GT else if op == "<=" then LTE
          else if op == ">=" then GTE else if op == "<>" then NEQ else if op == "AND" then AND else OR,
          op)
  }

  function TokensOf(e: Expr): (ts: seq<Token>)
    ensures ts != []
  {
    match e
    case ColumnRef(c) => [Token(IDENT, c)]
    case IntLit(v) => [Token(INT_LITERAL, Text(e))]
    case StrLit(s) => [Token(STR_LITERAL, s)]
    case BinaryOp(op, l, r) => [Token(LPAREN, "(")] + TokensOf(l) + [OpToken(op)] + TokensOf(r) + [Token(RPAREN, ")")]
  }

  // ---------- the tokens of a text ----------

  /** A word or a number ends here. */
  predicate Boundary(s: string) { s == [] || !IsWord(s[0]) }

  lemma {:induction false} WordLenOf(w: string, rest: string)
    requires (forall i :: 0 <= i < |w| ==> IsWord(w[i])) && Boundary(rest)
    ensures WordLen(w + rest) == |w|
    decreases |w|
  {
    if w == [] {
      assert w + rest == rest;
    } else {
      assert (w + rest)[1..] == w[1..] + rest;
      WordLenOf(w[1..], rest);
    }
  }

  lemma {:induction false} DigitsLenOf(w: string, rest: string)
    requires (forall i :: 0 <= i < |w| ==> IsDigit(w[i])) && Boundary(rest)
    ensures DigitsLen(w + rest) == |w|
    decreases |w|
  {
    if w == [] {
      assert w + rest == rest;
    } else {
      assert (w + rest)[1..] == w[1..] + rest;
      DigitsLenOf(w[1..], rest);
    }
  }

  lemma {:induction false} QuoteLenOf(s: string, rest: string)
    requires Raw(s)
    ensures QuoteLen(s + "'" + rest) == |s|
    decreases |s|
  {
    var t := s + "'" + rest;
    if s != [] {
      if s[0] == '\\' {
        assert t[2..] == s[2..] + "'" + rest;
        QuoteLenOf(s[2..], rest);
      } else {
        assert t[1..] == s[1..] + "'" + rest;
        QuoteLenOf(s[1..], rest);
      }
    }
  }

  lemma WordToken(w: string, rest: string)
    requires IsWordText(w) && Boundary(rest)
    ensures Tokens(w + rest) == Cons(Token(WordType(w), w), Tokens(rest))
  {
    var s := w + rest;
    assert s[1..] == w[1..] + rest && s[..|w|] == w && s[|w|..] == rest;
    WordLenOf(w[1..], rest);
    assert s[0] == w[0] && !IsSpace(s[0]);
  }

  lemma NumberToken(w: string, rest: string)
    requires w != [] && (forall i :: 0 <= i < |w| ==> IsDigit(w[i])) && Boundary(rest)
    ensures Tokens(w + rest) == Cons(Token(INT_LITERAL, w), Tokens(rest))
  {
    var s := w + rest;
    assert s[1..] == w[1..] + rest && s[..|w|] == w && s[|w|..] == rest;
    DigitsLenOf(w[1..], rest);
    assert s[0] == w[0] && !IsSpace(s[0]) && !IsAlpha(s[0]);
  }

  lemma StringToken(w: string, rest: string)
    requires Raw(w)
    ensures Tokens("'" + w + "'" + rest) == Cons(Token(STR_LITERAL, w), Tokens(rest))
  {
    var s := "'" + w + "'" + rest;
    assert s[1..] == w + "'" + rest && s[1..1 + |w|] == w && s[2 + |w|..] == rest;
    QuoteLenOf(w, rest);
  }

  lemma SpaceToken(rest: string)
    ensures Tokens(" " + rest) == Tokens(rest)
  {
    assert (" " + rest)[1..] == rest;
  }

  lemma ParenToken(c: char, rest: string)
    requires c == '(' || c == ')'
    ensures Tokens([c] + rest) == Cons(Token(if c == '(' then LPAREN else RPAREN, [c]), Tokens(rest))
  {
    hide WordLen, DigitsLen, QuoteLen, WordType, Cons;
    var s := [c] + rest;
    assert s[1..] == rest && s[0] == c;
  }

  /** An operator with a space after it. */
  lemma OperatorToken(op: string, rest: string)
    requires IsOperator(op)
    ensures Tokens(op + " " + rest) == Cons(OpToken(op), Tokens(rest))
  {
    hide Tokens, Cons;
    var s := op + (" " + rest);
    assert op + " " + rest == s;
    SpaceToken(rest);
    if op == "AND" || op == "OR" {
      assert Upper(op) == op;
      WordToken(op, " " + rest);
    } else {
      SymbolStep(s, 0);
      assert s[0..] == s && s[0] == op[0];
      if |op| == 2 {
        assert s[0..2] == op && s[2..] == " " + rest;
      } else {
        assert s[0..2] == op + " " && s[1..] == " " + rest && [s[0]] == op;
        assert (op + " ")[1] == ' ' && TwoCharType(op + " ").None?;
      }
    }
  }

  lemma OperatorOfToken(op: string)
    requires IsOperator(op)
    ensures OperatorOf(OpToken(op).tt) == Some(op)
  {
  }

  lemma {:induction false} DecimalDigits(n: nat)
    ensures Decimal(n) != [] && forall i :: 0 <= i < |Decimal(n)| ==> IsDigit(Decimal(n)[i])
  {
    if n >= 10 { DecimalDigits(n / 10); }
  }

  lemma {:induction false} NatOfDecimal(n: nat)
    ensures NatOf(Decimal(n)) == n
  {
    if n < 10 {
      assert Decimal(n)[..0] == [];
    } else {
      var s := Decimal(n);
      NatOfDecimal(n / 10);
      assert s[..|s| - 1] == Decimal(n / 10);
    }
  }

  lemma PrependStep(a: seq<Token>, b: seq<Token>, rest: Option<seq<Token>>)
    ensures Prepend(a, Prepend(b, rest)) == Prepend(a + b, rest)
    ensures forall t :: Cons(t, rest) == Prepend([t], rest)
  {
    if rest.Some? { assert a + (b + rest.value) == a + b + rest.value; }
  }

  /** Tokenizing a printed expression gives its tokens. */
  lemma {:induction false} TokensOfText(e: Expr, rest: string)
    requires Printable(e) && Boundary(rest)
    ensures Tokens(Text(e) + rest) == Prepend(TokensOf(e), Tokens(rest))
    decreases e
  {
    hide Tokens, Printable;
    PrependStep([], [], Tokens(rest));
    PrintableParts(e);
    match e
    case ColumnRef(c) => WordToken(c, rest);
    case IntLit(v) =>
      DecimalDigits(v);
      NumberToken(Decimal(v), rest);
    case StrLit(s) => StringToken(s, rest);
    case BinaryOp(op, l, r) => BinaryTokens(op, l, r, rest);
  }

  lemma PrintableParts(e: Expr)
    requires Printable(e)
    ensures match e
            case ColumnRef(c) => IsWordText(c) && WordType(c) == IDENT
            case IntLit(v) => 0 <= v <= INT_MAX
            case StrLit(s) => Raw(s)
            case BinaryOp(op, l, r) => IsOperator(op) && Printable(l) && Printable(r)
  {
  }

  lemma {:induction false} BinaryTokens(op: string, l: Expr, r: Expr, rest: string)
    requires IsOperator(op) && Printable(l) && Printable(r)
    ensures Tokens(Text(BinaryOp(op, l, r)) + rest) == Prepend(TokensOf(BinaryOp(op, l, r)), Tokens(rest))
    decreases BinaryOp(op, l, r), 0
  {
    hide Tokens, Printable, IsOperator, TokensOf, OpToken;
    var s3 := ")" + rest;
    var s2 := op + " " + (Text(r) + s3);
    var s1 := " " + s2;
    var s0 := Text(l) + s1;
    assert Text(BinaryOp(op, l, r)) + rest == "(" + s0;
    ParenToken('(', s0);
    TokensOfText(l, s1);
    SpaceToken(s2);
    OperatorToken(op, Text(r) + s3);
    TokensOfText(r, s3);
    ParenToken(')', rest);
    Glue(TokensOf(l), OpToken(op), TokensOf(r), Tokens(rest));
    assert TokensOf(BinaryOp(op, l, r))
        == [Token(LPAREN, "(")] + TokensOf(l) + [OpToken(op)] + TokensOf(r) + [Token(RPAREN, ")")] by {
      BinaryTokenList(op, l, r);
    }
  }

  lemma BinaryTokenList(op: string, l: Expr, r: Expr)
    ensures TokensOf(BinaryOp(op, l, r))
         == [Token(LPAREN, "(")] + TokensOf(l) + [OpToken(op)] + TokensOf(r) + [Token(RPAREN, ")")]
  {
  }

  lemma Glue(a: seq<Token>, t: Token, b: seq<Token>, rest: Option<seq<Token>>)
    ensures Cons(Token(LPAREN, "("), Prepend(a, Cons(t, Prepend(b, Cons(Token(RPAREN, ")"), rest)))))
         == Prepend([Token(LPAREN, "(")] + a + [t] + b + [Token(RPAREN, ")")], rest)
  {
    if rest.Some? {
      var us := rest.value;
      assert [Token(LPAREN, "(")] + (a + ([t] + (b + ([Token(RPAREN, ")")] + us))))
          == [Token(LPAREN, "(")] + a + [t] + b + [Token(RPAREN, ")")] + us;
    }
  }

  // ---------- parsing the tokens ----------

  lemma ExpressionStops(ts: seq<Token>, e: Expr, rest: seq<Token>)
    requires ParsePrimary(ts) == Parsed(e, rest) && OperatorOf(Head(rest).tt).None?
    ensures ParseExpression(ts) == Parsed(e, rest)
  {
  }

  lemma ExpressionGoesOn(ts: seq<Token>, l: Expr, op: string, more: seq<Token>)
    requires ParsePrimary(ts) == Parsed(l, [OpToken(op)] + more) && IsOperator(op)
    ensures ParseExpression(ts)
         == var p := ParseExpression(more); if p.Fail? then Fail else Parsed(BinaryOp(op, l, p.e), p.rest)
  {
    hide OpToken, IsOperator, OperatorOf, ParsePrimary;
    var tail := [OpToken(op)] + more;
    OperatorOfToken(op);
    assert tail[1..] == more;
  }

  lemma ParenthesesPrimary(ts: seq<Token>, e: Expr, rest: seq<Token>)
    requires ParseExpression(ts) == Parsed(e, [Token(RPAREN, ")")] + rest)
    ensures ParsePrimary([Token(LPAREN, "(")] + ts) == Parsed(e, rest)
  {
    assert ([Token(LPAREN, "(")] + ts)[1..] == ts && ([Token(RPAREN, ")")] + rest)[1..] == rest;
  }

  lemma LeafPrimary(e: Expr, ts: seq<Token>)
    requires Printable(e) && !e.BinaryOp?
    ensures ParsePrimary(TokensOf(e) + ts) == Parsed(e, ts)
  {
    assert (TokensOf(e) + ts)[1..] == ts;
    if e.IntLit? { NatOfDecimal(e.v); }
  }

  /** The tokens of a printed expression are a primary, whatever follows. */
  lemma {:induction false} PrimaryOf(e: Expr, ts: seq<Token>)
    requires Printable(e)
    ensures ParsePrimary(TokensOf(e) + ts) == Parsed(e, ts)
    decreases e
  {
    hide ParsePrimary, ParseExpression, OpToken, TokensOf, IsOperator;
    if !e.BinaryOp? {
      LeafPrimary(e, ts);
    } else {
      var op, l, r := e.op, e.left, e.right;
      var end := [Token(RPAREN, ")")] + ts;
      var more := TokensOf(r) + end;
      var tail := [OpToken(op)] + more;
      PrimaryOf(l, tail);
      PrimaryOf(r, end);
      ExpressionStops(more, r, end);
      ExpressionGoesOn(TokensOf(l) + tail, l, op, more);
      ParenthesesPrimary(TokensOf(l) + tail, e, ts);
      BinaryTokenList(op, l, r);
      assert TokensOf(e) + ts == [Token(LPAREN, "(")] + (TokensOf(l) + tail);
    }
  }

  /** Tokenizing and parsing the fully parenthesised text of a tree returns the tree. */
  lemma RoundTrip(e: Expr)
    requires Printable(e)
    ensures Tokens(Text(e)).Some? && ParseExpression(Tokens(Text(e)).value) == Parsed(e, [THE_END])
  {
    assert Text(e) + "" == Text(e);
    TokensOfText(e, "");
    assert Tokens("") == Some([THE_END]);
    PrimaryOf(e, [THE_END]);
  }

  // ---------- without parentheses ----------

  /** The precedence of the operators does not matter: whatever follows the first operator
      becomes its right operand. */
  lemma NestsToTheRight(l: Expr, op: string, ts: seq<Token>)
    requires Printable(l) && IsOperator(op)
    ensures ParseExpression(TokensOf(l) + ([OpToken(op)] + ts))
         == var p := ParseExpression(ts); if p.Fail? then Fail else Parsed(BinaryOp(op, l, p.e), p.rest)
  {
    PrimaryOf(l, [OpToken(op)] + ts);
    ExpressionGoesOn(TokensOf(l) + ([OpToken(op)] + ts), l, op, ts);
  }

  /** 1 = 2 AND 3 = 4 is read as 1 = (2 AND (3 = 4)). */
  lemma PrecedenceIsIgnored()
    ensures var one, two := TokensOf(IntLit(1)), TokensOf(IntLit(2));
            var three, four := TokensOf(IntLit(3)), TokensOf(IntLit(4));
            var eq, both := [OpToken("=")], [OpToken("AND")];
            ParseExpression(one + (eq + (two + (both + (three + (eq + (four + [THE_END])))))))
            == Parsed(BinaryOp("=", IntLit(1), BinaryOp("AND", IntLit(2), BinaryOp("=", IntLit(3), IntLit(4)))),
                      [THE_END])
  {
    hide ParseExpression, TokensOf, OpToken;
    var eq, both := [OpToken("=")], [OpToken("AND")];
    var t4 := TokensOf(IntLit(4)) + [THE_END];
    var t3 := TokensOf(IntLit(3)) + (eq + t4);
    var t2 := TokensOf(IntLit(2)) + (both + t3);
    PrimaryOf(IntLit(4), [THE_END]);
    ExpressionStops(t4, IntLit(4), [THE_END]);
    NestsToTheRight(IntLit(3), "=", t4);
    NestsToTheRight(IntLit(2), "AND", t3);
    NestsToTheRight(IntLit(1), "=", t2);
  }
}
