/** Tokens and expressions. */
module Parser {
  import opened Common
  import opened Expressions

  datatype TokenType =
    | END | IDENT | INT_LITERAL | STR_LITERAL
    | COMMA | SEMICOLON | LPAREN | RPAREN
    | EQ | NEQ | LT | LTE | GT | GTE
    | PLUS | MINUS | STAR | SLASH | DOT
    | SELECT | FROM | WHERE | INSERT | INTO | VALUES | UPDATE | SET | DELETE | CREATE | TABLE | BEGIN | COMMIT
    | AND | OR

  datatype Token = Token(tt: TokenType, text: string)

  const THE_END: Token := Token(END, "")

  // ---------- characters ----------

  predicate IsSpace(c: char) { c == ' ' || '\t' <= c <= '\r' }

  predicate IsDigit(c: char) { '0' <= c <= '9' }

  predicate IsAlpha(c: char) { 'a' <= c <= 'z' || 'A' <= c <= 'Z' }

  predicate IsWord(c: char) { IsAlpha(c) || IsDigit(c) || c == '_' }

  function ToUpper(c: char): char { if 'a' <= c <= 'z' then c - 'a' + 'A' else c }

  function Upper(w: string): string { seq(|w|, i requires 0 <= i < |w| => ToUpper(w[i])) }

  function WordType(w: string): TokenType {
    var u := Upper(w);
    if u == "SELECT" then SELECT else if u == "FROM" then FROM else if u == "WHERE" then WHERE
    else if u == "INSERT" then INSERT else if u == "INTO" then INTO else if u == "VALUES" then VALUES
    else if u == "UPDATE" then UPDATE else if u == "SET" then SET else if u == "DELETE" then DELETE
    else if u == "CREATE" then CREATE else if u == "TABLE" then TABLE else if u == "BEGIN" then BEGIN
    else if u == "COMMIT" then COMMIT else if u == "AND" then AND else if u == "OR" then OR
    else IDENT
  }

  function TwoCharType(two: string): Option<TokenType> {
    if two == "<>" then Some(NEQ) else if two == "<=" then Some(LTE) else if two == ">=" then Some(GTE) else None
  }

  function CharType(c: char): Option<TokenType> {
    match c
    case ',' => Some(COMMA)
    case ';' => Some(SEMICOLON)
    case '(' => Some(LPAREN)
    case ')' => Some(RPAREN)
    case '=' => Some(EQ)
    case '<' => Some(LT)
    case '>' => Some(GT)
    case '+' => Some(PLUS)
    case '-' => Some(MINUS)
    case '*' => Some(STAR)
    case '/' => Some(SLASH)
    case '.' => Some(DOT)
    case _ => None
  }

  // ---------- the text as a list of tokens ----------

  function WordLen(s: string): (n: nat)
    ensures n <= |s|
  {
    if s == [] || !IsWord(s[0]) then 0 else 1 + WordLen(s[1..])
  }

  function DigitsLen(s: string): (n: nat)
    ensures n <= |s|
  {
    if s == [] || !IsDigit(s[0]) then 0 else 1 + DigitsLen(s[1..])
  }

  /** The length of a string literal's contents, up to the first quote that no backslash
      precedes; |s| or more if there is none. */
  function QuoteLen(s: string): nat {
    if s == [] || s[0] == '\'' then 0
    else if s[0] == '\\' && |s| > 1 then 2 + QuoteLen(s[2..])
    else 1 + QuoteLen(s[1..])
  }

  function Cons(t: Token, rest: Option<seq<Token>>): Option<seq<Token>> {
    match rest
    case None => None
    case Some(ts) => Some([t] + ts)
  }

  /** None where the source throws. */
  function Tokens(s: string): Option<seq<Token>>
    decreases |s|
  {
    if s == [] then Some([THE_END])
    else
      var c := s[0];
      if IsSpace(c) then Tokens(s[1..])
      else if IsAlpha(c) || c == '_' then
        var n := 1 + WordLen(s[1..]);
        Cons(Token(WordType(s[..n]), s[..n]), Tokens(s[n..]))
      else if IsDigit(c) then
        var n := 1 + DigitsLen(s[1..]);
        Cons(Token(INT_LITERAL, s[..n]), Tokens(s[n..]))
      else if c == '\'' then
        var n := QuoteLen(s[1..]);
        if 1 + n >= |s| then None else Cons(Token(STR_LITERAL, s[1..1 + n]), Tokens(s[2 + n..]))
      else if |s| > 1 && TwoCharType(s[..2]).Some? then
        Cons(Token(TwoCharType(s[..2]).value, s[..2]), Tokens(s[2..]))
      else match CharType(c)
        case None => None
        case Some(tt) => Cons(Token(tt, [c]), Tokens(s[1..]))
  }

  // ---------- parsing a list of tokens ----------

  function Head(ts: seq<Token>): Token { if ts == [] then THE_END else ts[0] }

  function OperatorOf(tt: TokenType): Option<string> {
    match tt
    case EQ => Some("=")
    case LT => Some("<")
    case GT => Some(">")
    case LTE => Some("<=")
    case GTE => Some(">=")
    case NEQ => Some("<>")
    case AND => Some("AND")
    case OR => Some("OR")
    case _ => None
  }

  function NatOf(s: string): nat
  {
    if s == [] then 0 else 10 * NatOf(s[..|s| - 1]) + if IsDigit(s[|s| - 1]) then s[|s| - 1] as int - '0' as int else 0
  }

  /** An expression, and the tokens after it. */
  datatype Parsed = Fail | Parsed(e: Expr, rest: seq<Token>)

  /** After an opening parenthesis and an expression: the closing one. */
  function Closed(p: Parsed): Parsed {
    if p.Parsed? && p.rest != [] && Head(p.rest).tt == RPAREN then Parsed(p.e, p.rest[1..]) else Fail
  }

  function ParsePrimary(ts: seq<Token>): (p: Parsed)
    ensures p.Parsed? ==> |p.rest| < |ts|
    decreases |ts|, 0
  {
    if ts == [] then Fail
    else match ts[0].tt
      case IDENT => Parsed(ColumnRef(ts[0].text), ts[1..])
      case INT_LITERAL => if NatOf(ts[0].text) <= INT_MAX then Parsed(IntLit(NatOf(ts[0].text)), ts[1..]) else Fail
      case STR_LITERAL => Parsed(StrLit(ts[0].text), ts[1..])
      case LPAREN => Closed(ParseExpression(ts[1..]))
      case _ => Fail
  }

  /** A primary, or a primary, an operator and all the rest: every operator nests to the
      right.  What follows is not an operator. */
  function ParseExpression(ts: seq<Token>): (p: Parsed)
    ensures p.Parsed? ==> |p.rest| < |ts| && OperatorOf(Head(p.rest).tt).None?
    decreases |ts|, 1
  {
    var l := ParsePrimary(ts);
    if l.Fail? || OperatorOf(Head(l.rest).tt).None? then l
    else
      var r := ParseExpression(l.rest[1..]);
      if r.Fail? then Fail else Parsed(BinaryOp(OperatorOf(l.rest[0].tt).value, l.e, r.e), r.rest)
  }

  /** A primary, by its first token. */
  lemma PrimaryToken(ts: seq<Token>)
    ensures var t := Head(ts);
            ParsePrimary(ts)
            == if t.tt == IDENT then Parsed(ColumnRef(t.text), ts[1..])
               else if t.tt == INT_LITERAL then
                 if NatOf(t.text) <= INT_MAX then Parsed(IntLit(NatOf(t.text)), ts[1..]) else Fail
               else if t.tt == STR_LITERAL then Parsed(StrLit(t.text), ts[1..])
               else if t.tt == LPAREN then Closed(ParseExpression(ts[1..]))
               else Fail
  {
    hide NatOf, ParseExpression;
  }

  /** An expression, by the primary that it starts with. */
  lemma ExpressionSteps(ts: seq<Token>)
    ensures ParsePrimary(ts).Fail? ==> ParseExpression(ts).Fail?
    ensures ParsePrimary(ts).Parsed? ==>
              var l := ParsePrimary(ts); var op := OperatorOf(Head(l.rest).tt);
              if op.None? then ParseExpression(ts) == l
              else
                l.rest != []
                && var r := ParseExpression(l.rest[1..]);
                   ParseExpression(ts) == if r.Fail? then Fail else Parsed(BinaryOp(op.value, l.e, r.e), r.rest)
    ensures ParseExpression(ts).Parsed? ==> OperatorOf(Head(ParseExpression(ts).rest).tt).None?
  {
    hide ParsePrimary;
  }

  // ---------- the parser ----------

  class Parser {
    var tokens: seq<Token>
    var pos: nat

    constructor ()
      ensures tokens == [] && pos == 0
    {
      tokens, pos := [], 0;
    }

    method WordEnd(s: string, i: nat) returns (j: nat)
      requires i < |s|
      ensures i < j <= |s| && WordLen(s[i + 1..]) == j - i - 1 + WordLen(s[j..]) && (j < |s| ==> !IsWord(s[j]))
    {
      j := i + 1;
      while j < |s| && IsWord(s[j])
        invariant i + 1 <= j <= |s| && WordLen(s[i + 1..]) == j - i - 1 + WordLen(s[j..])
      {
        assert s[j..][1..] == s[j + 1..];
        j := j + 1;
      }
    }

    method NumberEnd(s: string, i: nat) returns (j: nat)
      requires i < |s|
      ensures i < j <= |s| && DigitsLen(s[i + 1..]) == j - i - 1 + DigitsLen(s[j..]) && (j < |s| ==> !IsDigit(s[j]))
    {
      j := i + 1;
      while j < |s| && IsDigit(s[j])
        invariant i + 1 <= j <= |s| && DigitsLen(s[i + 1..]) == j - i - 1 + DigitsLen(s[j..])
      {
        assert s[j..][1..] == s[j + 1..];
        j := j + 1;
      }
    }

    /** A backslash takes the next character with it, unless the text ends there. */
    method QuoteEnd(s: string, i: nat) returns (j: nat)
      requires i < |s|
      ensures i < j <= |s| && QuoteLen(s[i + 1..]) == j - i - 1 + QuoteLen(s[j..]) && (j < |s| ==> s[j] == '\'')
    {
      j := i + 1;
      while j < |s| && s[j] != '\''
        invariant i + 1 <= j <= |s| && QuoteLen(s[i + 1..]) == j - i - 1 + QuoteLen(s[j..])
      {
        assert s[j..][1..] == s[j + 1..] && (j + 1 < |s| ==> s[j..][2..] == s[j + 2..]);
        if s[j] == '\\' && j + 1 < |s| { j := j + 2; } else { j := j + 1; }
      }
    }

    /** Fails where the source throws. */
    method Tokenize(s: string) returns (ok: bool)
      modifies this
      ensures ok == Tokens(s).Some? && pos == 0
      ensures ok ==> Some(tokens) == Tokens(s)
    {
      hide Tokens, WordType, TwoCharType, CharType, Cons, Prepend, WordLen, DigitsLen, QuoteLen;
      tokens, pos := [], 0;
      var i := 0;
      PrependNone(s);
      while i < |s|
        invariant 0 <= i <= |s| && pos == 0
        invariant Tokens(s) == Prepend(tokens, Tokens(s[i..]))
      {
        var c := s[i];
        PrependCons(tokens);
        if IsSpace(c) {
          SpaceStep(s, i);
          i := i + 1;
          continue;
        }
        if IsAlpha(c) || c == '_' {
          var j := WordEnd(s, i);
          WordStep(s, i, j);
          tokens := tokens + [Token(WordType(s[i..j]), s[i..j])];
          i := j;
          continue;
        }
        if IsDigit(c) {
          var j := NumberEnd(s, i);
          NumberStep(s, i, j);
          tokens := tokens + [Token(INT_LITERAL, s[i..j])];
          i := j;
          continue;
        }
        if c == '\'' {
          var j := QuoteEnd(s, i);
          StringStep(s, i, j);
          if j >= |s| { return false; }
          tokens := tokens + [Token(STR_LITERAL, s[i + 1..j])];
          i := j + 1;
          continue;
        }
        SymbolStep(s, i);
        if i + 1 < |s| {
          var two := s[i..i + 2];
          var tt := TwoCharType(two);
          if tt.Some? {
            tokens := tokens + [Token(tt.value, two)];
            i := i + 2;
            continue;
          }
        }
        var tt := CharType(c);
        if tt.None? { return false; }
        tokens := tokens + [Token(tt.value, [c])];
        i := i + 1;
      }
      NothingLeft(tokens, s);
      tokens := tokens + [THE_END];
      return true;
    }

    ghost function Left(): seq<Token>
      reads this
    {
      if pos <= |tokens| then tokens[pos..] else []
    }

    method NextToken() returns (t: Token)
      requires tokens != [] && tokens[|tokens| - 1] == THE_END
      modifies this`pos
      ensures t == Head(old(Left())) && Left() == if old(Left()) == [] then [] else old(Left())[1..]
    {
      if pos >= |tokens| { return tokens[|tokens| - 1]; }
      t := tokens[pos];
      pos := pos + 1;
    }

    method Peek() returns (t: Token)
      requires tokens != [] && tokens[|tokens| - 1] == THE_END
      ensures t == Head(Left())
    {
      if pos >= |tokens| { return tokens[|tokens| - 1]; }
      return tokens[pos];
    }

    method Match(tt: TokenType) returns (b: bool)
      requires tokens != [] && tokens[|tokens| - 1] == THE_END
      modifies this`pos
      ensures b == (Head(old(Left())).tt == tt)
      ensures Left() == if b && old(Left()) != [] then old(Left())[1..] else old(Left())
    {
      var t := Peek();
      if t.tt == tt {
        pos := pos + 1;
        return true;
      }
      return false;
    }

    method ReadPrimary() returns (ok: bool, e: Expr)
      requires tokens != [] && tokens[|tokens| - 1] == THE_END
      modifies this`pos
      ensures ok == ParsePrimary(old(Left())).Parsed?
      ensures ok ==> ParsePrimary(old(Left())) == Parsed(e, Left())
      decreases |Left()|, 0
    {
      hide NatOf, ParsePrimary, ParseExpression;
      PrimaryToken(Left());
      var tok := Peek();
      e := IntLit(0);
      if tok.tt == IDENT {
        tok := NextToken();
        return true, ColumnRef(tok.text);
      }
      if tok.tt == INT_LITERAL {
        tok := NextToken();
        if NatOf(tok.text) > INT_MAX { return false, e; }
        return true, IntLit(NatOf(tok.text));
      }
      if tok.tt == STR_LITERAL {
        tok := NextToken();
        return true, StrLit(tok.text);
      }
      var paren := Match(LPAREN);
      if paren {
        ok, e := ReadExpression();
        if !ok { return; }
        ok := Match(RPAREN);
        return;
      }
      return false, e;
    }

    method ReadExpression() returns (ok: bool, lhs: Expr)
      requires tokens != [] && tokens[|tokens| - 1] == THE_END
      modifies this`pos
      ensures ok == ParseExpression(old(Left())).Parsed?
      ensures ok ==> ParseExpression(old(Left())) == Parsed(lhs, Left())
      decreases |Left()|, 1
    {
      hide ParsePrimary, ParseExpression, OperatorOf;
      ExpressionSteps(Left());
      ok, lhs := ReadPrimary();
      if !ok { return; }
      ghost var done := false;
      while true
        invariant |Left()| < |old(Left())|
        invariant !done ==> ParsePrimary(old(Left())) == Parsed(lhs, Left())
        invariant done ==> ParseExpression(old(Left())) == Parsed(lhs, Left())
        decreases |Left()|
      {
        var tok := Peek();
        var op := OperatorOf(tok.tt);
        if op.None? { return true, lhs; }
        tok := NextToken();
        var rhs;
        ok, rhs := ReadExpression();
        if !ok { return false, lhs; }
        lhs := BinaryOp(op.value, lhs, rhs);
        done := true;
      }
    }
  }

  function Prepend(ts: seq<Token>, rest: Option<seq<Token>>): Option<seq<Token>> {
    match rest
    case None => None
    case Some(us) => Some(ts + us)
  }

  // ---------- one token, at position i of the text ----------

  lemma PrependCons(ts: seq<Token>)
    ensures forall t, rest :: Prepend(ts, Cons(t, rest)) == Prepend(ts + [t], rest)
    ensures Prepend(ts, None) == None
  {
    forall t, rest: Option<seq<Token>>
      ensures Prepend(ts, Cons(t, rest)) == Prepend(ts + [t], rest)
    {
      if rest.Some? { assert ts + ([t] + rest.value) == ts + [t] + rest.value; }
    }
  }

  lemma PrependNone(s: string)
    ensures Tokens(s) == Prepend([], Tokens(s[0..]))
  {
    assert s[0..] == s && (Tokens(s).Some? ==> [] + Tokens(s).value == Tokens(s).value);
  }

  lemma NothingLeft(ts: seq<Token>, s: string)
    ensures Prepend(ts, Tokens(s[|s|..])) == Some(ts + [THE_END])
  {
  }

  lemma SpaceStep(s: string, i: nat)
    requires i < |s| && IsSpace(s[i])
    ensures Tokens(s[i..]) == Tokens(s[i + 1..])
  {
    assert s[i..][1..] == s[i + 1..];
  }

  lemma WordStep(s: string, i: nat, j: nat)
    requires i < j <= |s| && (IsAlpha(s[i]) || s[i] == '_') && !IsSpace(s[i])
    requires WordLen(s[i + 1..]) == j - i - 1 + WordLen(s[j..]) && (j < |s| ==> !IsWord(s[j]))
    ensures Tokens(s[i..]) == Cons(Token(WordType(s[i..j]), s[i..j]), Tokens(s[j..]))
  {
    hide WordType, Tokens, Cons;
    var rest := s[i..];
    assert WordLen(s[j..]) == 0;
    assert rest[1..] == s[i + 1..] && rest[..j - i] == s[i..j] && rest[j - i..] == s[j..];
    FirstWord(rest);
  }

  lemma FirstWord(s: string)
    requires s != [] && (IsAlpha(s[0]) || s[0] == '_') && !IsSpace(s[0])
    ensures var n := 1 + WordLen(s[1..]); Tokens(s) == Cons(Token(WordType(s[..n]), s[..n]), Tokens(s[n..]))
  {
    hide WordType, DigitsLen, QuoteLen, TwoCharType, CharType, Cons, WordLen;
  }

  lemma NumberStep(s: string, i: nat, j: nat)
    requires i < j <= |s| && IsDigit(s[i]) && !IsSpace(s[i]) && !IsAlpha(s[i])
    requires DigitsLen(s[i + 1..]) == j - i - 1 + DigitsLen(s[j..]) && (j < |s| ==> !IsDigit(s[j]))
    ensures Tokens(s[i..]) == Cons(Token(INT_LITERAL, s[i..j]), Tokens(s[j..]))
  {
    var rest := s[i..];
    assert DigitsLen(s[j..]) == 0;
    assert rest[1..] == s[i + 1..] && rest[..j - i] == s[i..j] && rest[j - i..] == s[j..];
  }

  lemma StringStep(s: string, i: nat, j: nat)
    requires i < j <= |s| && s[i] == '\''
    requires QuoteLen(s[i + 1..]) == j - i - 1 + QuoteLen(s[j..]) && (j < |s| ==> s[j] == '\'')
    ensures Tokens(s[i..]) == if j == |s| then None else Cons(Token(STR_LITERAL, s[i + 1..j]), Tokens(s[j + 1..]))
  {
    var rest := s[i..];
    assert QuoteLen(s[j..]) == 0 && rest[1..] == s[i + 1..];
    if j < |s| { assert rest[1..j - i] == s[i + 1..j] && rest[j - i + 1..] == s[j + 1..]; }
  }

  lemma SymbolStep(s: string, i: nat)
    requires i < |s| && !IsSpace(s[i]) && !IsAlpha(s[i]) && s[i] != '_' && !IsDigit(s[i]) && s[i] != '\''
    ensures Tokens(s[i..])
         == if i + 1 < |s| && TwoCharType(s[i..i + 2]).Some?
            then Cons(Token(TwoCharType(s[i..i + 2]).value, s[i..i + 2]), Tokens(s[i + 2..]))
            else match CharType(s[i])
              case None => None
              case Some(tt) => Cons(Token(tt, [s[i]]), Tokens(s[i + 1..]))
  {
    hide TwoCharType, CharType;
    var rest := s[i..];
    assert rest[1..] == s[i + 1..];
    if i + 1 < |s| { assert rest[..2] == s[i..i + 2] && rest[2..] == s[i + 2..]; }
  }
}
