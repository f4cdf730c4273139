/** The words and signs of the language, letter by letter. */
module Lexicon {
  import opened Common
  import opened Expressions
  import opened Parser
  import opened ParserRoundTrip
  import opened Precedence

  const LOWER: string := "abcdefghijklmnopqrstuvwxyz"
  const UPPER: string := "ABCDEFGHIJKLMNOPQRSTUVWXYZ"

  const KEYWORDS: map<string, TokenType> := map[
    "SELECT" := SELECT, "FROM" := FROM, "WHERE" := WHERE, "INSERT" := INSERT, "INTO" := INTO,
    "VALUES" := VALUES, "UPDATE" := UPDATE, "SET" := SET, "DELETE" := DELETE, "CREATE" := CREATE,
    "TABLE" := TABLE, "BEGIN" := BEGIN, "COMMIT" := COMMIT, "AND" := AND, "OR" := OR
  ]

  const SIGNS: map<string, TokenType> := map[
    "," := COMMA, ";" := SEMICOLON, "(" := LPAREN, ")" := RPAREN, "=" := EQ, "<" := LT, ">" := GT,
    "+" := PLUS, "-" := MINUS, "*" := STAR, "/" := SLASH, "." := DOT, "<>" := NEQ, "<=" := LTE, ">=" := GTE
  ]

  // ---------- letters ----------

  lemma Alphabet(j: nat)
    requires j < 26
    ensures LOWER[j] as int == 97 + j && UPPER[j] as int == 65 + j
  {
  }

  /** Letters, digits and spaces. */
  lemma CharClasses(c: char)
    ensures IsAlpha(c) <==> c in LOWER || c in UPPER
    ensures IsDigit(c) <==> c in "0123456789"
    ensures IsSpace(c) <==> c in " \t\n\U{b}\U{c}\r"
  {
    hide LOWER, UPPER;
    Lowers(c);
    Uppers(c);
  }

  lemma Lowers(c: char)
    ensures c in LOWER <==> 'a' <= c <= 'z'
    ensures c in LOWER ==> c == LOWER[c as int - 97]
  {
    forall j: nat | j < 26 { Alphabet(j); }
    if 'a' <= c <= 'z' { assert c == LOWER[c as int - 97]; }
  }

  lemma Uppers(c: char)
    ensures c in UPPER <==> 'A' <= c <= 'Z'
  {
    forall j: nat | j < 26 { Alphabet(j); }
    if 'A' <= c <= 'Z' { assert c == UPPER[c as int - 65]; }
  }

  /** What becomes of a character in upper case. */
  lemma UpperCase(c: char)
    ensures c !in LOWER ==> ToUpper(c) == c
    ensures forall j :: 0 <= j < 26 && c == LOWER[j] ==> ToUpper(c) == UPPER[j]
  {
    forall j: nat | j < 26 { Alphabet(j); }
    Lowers(c);
  }

  /** The word w is k, letters of w in any case. */
  ghost predicate AnyCase(w: string, k: string) {
    |w| == |k|
    && forall i :: 0 <= i < |w| ==> w[i] == k[i] || exists j :: 0 <= j < 26 && w[i] == LOWER[j] && k[i] == UPPER[j]
  }

  lemma UpperIs(w: string, k: string)
    requires forall i :: 0 <= i < |k| ==> k[i] !in LOWER
    ensures Upper(w) == k <==> AnyCase(w, k)
  {
    forall c { UpperCase(c); }
    forall i | 0 <= i < |w| && i < |k|
      ensures ToUpper(w[i]) == k[i] <==> w[i] == k[i] || exists j :: 0 <= j < 26 && w[i] == LOWER[j] && k[i] == UPPER[j]
    {
      if w[i] in LOWER {
        var j :| 0 <= j < 26 && w[i] == LOWER[j];
      }
    }
  }

  // ---------- words ----------

  lemma KeywordUpper(k: string)
    requires k in KEYWORDS
    ensures forall i :: 0 <= i < |k| ==> 'A' <= k[i] <= 'Z'
  {
  }

  lemma KeywordType(w: string)
    ensures WordType(w) == if Upper(w) in KEYWORDS then KEYWORDS[Upper(w)] else IDENT
  {
    hide WordType, Upper, KEYWORDS;
    if Upper(w) in KEYWORDS { IsKeyword(w); } else { NoKeyword(w); }
  }

  lemma IsKeyword(w: string)
    requires Upper(w) in KEYWORDS
    ensures WordType(w) == KEYWORDS[Upper(w)]
  {
    hide Upper, KEYWORDS;
    FirstKeywords();
    NextKeywords();
    MoreKeywords();
    KeywordCases(Upper(w));
  }

  lemma KeywordCases(u: string)
    requires u in KEYWORDS
    ensures u in {"SELECT", "FROM", "WHERE", "INSERT", "INTO", "VALUES", "UPDATE", "SET"}
            || u in {"DELETE", "CREATE", "TABLE", "BEGIN", "COMMIT", "AND", "OR"}
  {
  }

  lemma FirstKeywords()
    ensures {"SELECT", "FROM", "WHERE", "INSERT", "INTO"} <= KEYWORDS.Keys
    ensures KEYWORDS["SELECT"] == SELECT && KEYWORDS["FROM"] == FROM && KEYWORDS["WHERE"] == WHERE
    ensures KEYWORDS["INSERT"] == INSERT && KEYWORDS["INTO"] == INTO
  {
  }

  lemma NextKeywords()
    ensures {"VALUES", "UPDATE", "SET", "DELETE", "CREATE"} <= KEYWORDS.Keys
    ensures KEYWORDS["VALUES"] == VALUES && KEYWORDS["UPDATE"] == UPDATE && KEYWORDS["SET"] == SET
    ensures KEYWORDS["DELETE"] == DELETE && KEYWORDS["CREATE"] == CREATE
  {
  }

  lemma MoreKeywords()
    ensures {"TABLE", "BEGIN", "COMMIT", "AND", "OR"} <= KEYWORDS.Keys
    ensures KEYWORDS["TABLE"] == TABLE && KEYWORDS["BEGIN"] == BEGIN && KEYWORDS["COMMIT"] == COMMIT
    ensures KEYWORDS["AND"] == AND && KEYWORDS["OR"] == OR
  {
  }

  lemma NoKeyword(w: string)
    requires Upper(w) !in KEYWORDS
    ensures WordType(w) == IDENT
  {
    hide Upper, KEYWORDS;
    FirstKeywords();
    NextKeywords();
    MoreKeywords();
    assert "SELECT" in KEYWORDS && "FROM" in KEYWORDS && "WHERE" in KEYWORDS && "INSERT" in KEYWORDS;
    assert "INTO" in KEYWORDS && "VALUES" in KEYWORDS && "UPDATE" in KEYWORDS && "SET" in KEYWORDS;
    assert "DELETE" in KEYWORDS && "CREATE" in KEYWORDS && "TABLE" in KEYWORDS && "BEGIN" in KEYWORDS;
    assert "COMMIT" in KEYWORDS && "AND" in KEYWORDS && "OR" in KEYWORDS;
  }

  lemma OneWord(w: string)
    requires IsWordText(w)
    ensures Tokens(w) == Some([Token(WordType(w), w), THE_END])
  {
    hide Tokens;
    WordToken(w, "");
    assert w + "" == w;
    LastToken(Token(WordType(w), w));
  }

  lemma LastToken(t: Token)
    ensures Cons(t, Tokens("")) == Some([t, THE_END])
  {
    assert [t] + [THE_END] == [t, THE_END];
  }

  /** Each keyword, in any mixture of cases, is its own token, with the text as written. */
  lemma KeywordToken(k: string, w: string)
    requires k in KEYWORDS && AnyCase(w, k)
    ensures Tokens(w) == Some([Token(KEYWORDS[k], w), THE_END])
  {
    hide WordType, Tokens, KEYWORDS;
    KeywordUpper(k);
    NotLower(k);
    UpperIs(w, k);
    KeywordType(w);
    KeywordLetters(k, w);
    OneWord(w);
  }

  lemma NotLower(k: string)
    requires forall i :: 0 <= i < |k| ==> 'A' <= k[i] <= 'Z'
    ensures forall i :: 0 <= i < |k| ==> k[i] !in LOWER
  {
    forall i | 0 <= i < |k| && k[i] in LOWER
      ensures false
    {
      var j :| 0 <= j < 26 && LOWER[j] == k[i];
      Alphabet(j);
    }
  }

  lemma KeywordLetters(k: string, w: string)
    requires k in KEYWORDS && AnyCase(w, k)
    ensures IsWordText(w)
  {
    KeywordUpper(k);
    assert k != "";
    forall i | 0 <= i < |w|
      ensures IsAlpha(w[i])
    {
      CharClasses(w[i]);
    }
  }

  /** Every other word is an identifier. */
  lemma IdentifierToken(w: string)
    requires IsWordText(w) && forall k :: k in KEYWORDS ==> !AnyCase(w, k)
    ensures Tokens(w) == Some([Token(IDENT, w), THE_END])
  {
    hide WordType, Tokens, KEYWORDS, AnyCase;
    if Upper(w) in KEYWORDS { UpperKeyword(w); }
    KeywordType(w);
    OneWord(w);
  }

  lemma UpperKeyword(w: string)
    requires Upper(w) in KEYWORDS
    ensures AnyCase(w, Upper(w))
  {
    hide Upper, KEYWORDS, AnyCase;
    KeywordUpper(Upper(w));
    NotLower(Upper(w));
    UpperIs(w, Upper(w));
  }

  // ---------- signs and literals ----------

  /** Each sign is its token; a sign of two characters is one token, not two. */
  lemma SignToken(sign: string)
    requires sign in SIGNS
    ensures Tokens(sign) == Some([Token(SIGNS[sign], sign), THE_END])
  {
    hide WordType, WordLen, DigitsLen, QuoteLen, SIGNS, TwoCharType, CharType, Cons;
    SignShape(sign);
    LastToken(Token(SIGNS[sign], sign));
    if |sign| == 1 {
      assert sign[1..] == "" && sign == [sign[0]];
    } else {
      assert sign[2..] == "" && sign[..2] == sign;
    }
  }

  lemma SignShape(sign: string)
    requires sign in SIGNS
    ensures if |sign| == 1 then CharType(sign[0]) == Some(SIGNS[sign])
            else |sign| == 2 && TwoCharType(sign) == Some(SIGNS[sign])
    ensures sign != "" && !IsSpace(sign[0]) && !IsAlpha(sign[0])
    ensures sign[0] != '_' && !IsDigit(sign[0]) && sign[0] != '\''
  {
  }

  /** Any other character outside a literal throws, and so does a literal that does not
      end; a backslash keeps the quote after it in the literal, and is kept itself. */
  lemma LiteralTokens(c: char, rest: string)
    requires !IsSpace(c) && !IsWord(c) && c != '\'' && [c] !in SIGNS
    ensures Tokens([c] + rest) == None
    ensures Tokens("'ab") == None
    ensures Tokens("'a\\'b'") == Some([Token(STR_LITERAL, "a\\'b"), THE_END])
    ensures NatOf("120") == 120
  {
    hide WordType, Tokens;
    UnknownChar(c, rest);
    OpenLiteral();
    StringToken("a\\'b", "") by { RawEscape(); }
    assert "'" + "a\\'b" + "'" + "" == "'a\\'b'";
    LastToken(Token(STR_LITERAL, "a\\'b"));
    assert "120"[..2] == "12" && "12"[..1] == "1" && "1"[..0] == "";
  }

  lemma OpenLiteral()
    ensures Tokens("'ab") == None
  {
    assert "'ab"[1..] == "ab" && "ab"[1..] == "b" && "b"[1..] == "";
  }

  lemma RawEscape()
    ensures Raw("a\\'b")
  {
    assert "a\\'b"[1..] == "\\'b" && "\\'b"[2..] == "b" && "b"[1..] == "";
  }

  lemma UnknownChar(c: char, rest: string)
    requires !IsSpace(c) && !IsWord(c) && c != '\'' && [c] !in SIGNS
    ensures Tokens([c] + rest) == None
  {
    hide WordType, WordLen, DigitsLen, QuoteLen;
    var s := [c] + rest;
    assert s[0] == c;
    if |s| > 1 {
      assert s[..2][0] == c;
      assert c != '<' && c != '>' by { assert [c] != "<" && [c] != ">"; }
    }
    assert CharType(c) == None by {
      assert [c] != "," && [c] != ";" && [c] != "(" && [c] != ")" && [c] != "=" && [c] != "<" && [c] != ">";
      assert [c] != "+" && [c] != "-" && [c] != "*" && [c] != "/" && [c] != ".";
    }
  }

  // ---------- precedence ----------

  const COMPARISONS: set<string> := {"=", "<>", "<", ">", "<=", ">="}

  /** Precedences never drop along a chain exactly if no AND or OR comes after a comparison. */
  lemma NeverDropsExact(c: Chain)
    requires ChainOk(c)
    ensures NeverDrops(c) <==>
            forall i, j :: 0 <= i < j < |c| ==> !(c[i].op in COMPARISONS && c[j].op in {"AND", "OR"})
  {
  }
}
