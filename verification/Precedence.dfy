/** Chains of operators without parentheses: what the parser makes of them, what the
    precedences ask for, and when the two are the same. */
module Precedence {
  import opened Expressions
  import opened Parser
  import opened ParserRoundTrip

  /** The table that the parser looks up and does not use. */
  function GetPrecedence(op: string): nat {
    if op == "AND" || op == "OR" then 1
    else if op == "=" || op == "<>" || op == "<" || op == ">" || op == "<=" || op == ">=" then 2
    else 0
  }

  /** An operator and the operand to its right. */
  datatype Link = Link(op: string, e: Expr)

  type Chain = seq<Link>

  predicate ChainOk(c: Chain) {
    forall i :: 0 <= i < |c| ==> IsOperator(c[i].op) && Printable(c[i].e)
  }

  function ChainTokens(first: Expr, c: Chain): seq<Token>
    decreases |c|
  {
    TokensOf(first) + if c == [] then [] else [OpToken(c[0].op)] + ChainTokens(c[0].e, c[1..])
  }

  /** Everything after an operator is its right operand. */
  function RightTree(first: Expr, c: Chain): Expr
    decreases |c|
  {
    if c == [] then first else BinaryOp(c[0].op, first, RightTree(c[0].e, c[1..]))
  }

  /** The first of the operators that bind least. */
  function FirstLowest(c: Chain): (k: nat)
    requires c != []
    ensures k < |c|
    ensures forall i :: 0 <= i < |c| ==> GetPrecedence(c[k].op) <= GetPrecedence(c[i].op)
    ensures forall i :: 0 <= i < k ==> GetPrecedence(c[k].op) < GetPrecedence(c[i].op)
  {
    if |c| == 1 then 0
    else
      var k := FirstLowest(c[1..]);
      if GetPrecedence(c[0].op) <= GetPrecedence(c[1..][k].op) then 0 else k + 1
  }

  /** The operator that binds least is at the top; each side likewise. */
  function PrecedenceTree(first: Expr, c: Chain): Expr
    decreases |c|
  {
    if c == [] then first
    else
      var k := FirstLowest(c);
      BinaryOp(c[k].op, PrecedenceTree(first, c[..k]), PrecedenceTree(c[k].e, c[k + 1..]))
  }

  /** No operator binds less than one before it: no AND or OR after a comparison. */
  predicate NeverDrops(c: Chain) {
    forall i, j :: 0 <= i < j < |c| ==> GetPrecedence(c[i].op) <= GetPrecedence(c[j].op)
  }

  /** The parser gives the right-nested tree of every chain. */
  lemma {:induction false} ParsesToTheRight(first: Expr, c: Chain)
    requires Printable(first) && ChainOk(c)
    ensures ParseExpression(ChainTokens(first, c) + [THE_END]) == Parsed(RightTree(first, c), [THE_END])
    decreases |c|
  {
    hide ParseExpression, ParsePrimary, TokensOf, OpToken, Printable, IsOperator;
    if c == [] {
      assert ChainTokens(first, c) == TokensOf(first);
      PrimaryOf(first, [THE_END]);
      ExpressionStops(TokensOf(first) + [THE_END], first, [THE_END]);
    } else {
      var more := ChainTokens(c[0].e, c[1..]) + [THE_END];
      ParsesToTheRight(c[0].e, c[1..]);
      NestsToTheRight(first, c[0].op, more);
      assert ChainTokens(first, c) + [THE_END] == TokensOf(first) + ([OpToken(c[0].op)] + more);
    }
  }

  function Size(e: Expr): nat {
    if e.BinaryOp? then 1 + Size(e.left) + Size(e.right) else 1
  }

  lemma {:induction false} LargerThanFirst(first: Expr, c: Chain)
    ensures Size(PrecedenceTree(first, c)) >= Size(first)
    ensures c != [] ==> Size(PrecedenceTree(first, c)) > Size(first)
    decreases |c|
  {
    if c != [] { LargerThanFirst(first, c[..FirstLowest(c)]); }
  }

  /** Nesting to the right is what the precedences ask for exactly if they never drop along
      the chain. */
  lemma {:induction false} RightIsPrecedence(first: Expr, c: Chain)
    ensures RightTree(first, c) == PrecedenceTree(first, c) <==> NeverDrops(c)
    decreases |c|
  {
    if c != [] {
      var k, tl := FirstLowest(c), c[1..];
      if k == 0 {
        RightIsPrecedence(c[0].e, tl);
        assert c[..0] == [] && c[0 + 1..] == tl;
        assert forall i :: 0 <= i < |tl| ==> tl[i] == c[i + 1];
        assert forall i :: 1 <= i < |c| ==> c[i] == tl[i - 1];
      } else {
        LargerThanFirst(first, c[..k]);
      }
    }
  }

  /** So the parser respects the precedences of exactly these chains. */
  lemma RespectsPrecedence(first: Expr, c: Chain)
    requires Printable(first) && ChainOk(c)
    ensures ParseExpression(ChainTokens(first, c) + [THE_END]) == Parsed(PrecedenceTree(first, c), [THE_END])
            <==> NeverDrops(c)
  {
    hide ParseExpression, ChainTokens, RightTree, PrecedenceTree;
    ParsesToTheRight(first, c);
    RightIsPrecedence(first, c);
  }
}
