/** Expressions and their evaluation on one row. */
module Expressions {
  import opened Common

  datatype Expr =
    | ColumnRef(name: string)
    | IntLit(v: int)
    | StrLit(s: string)
    | BinaryOp(op: string, left: Expr, right: Expr)

  /** Where each column name is found in a row. */
  type ColIdx = map<string, int>

  const INT_MIN: int := -0x8000_0000
  const INT_MAX: int := 0x7fff_ffff

  /** int32 overflow has no defined result. */
  function Int32(x: int): Option<FieldValue> {
    if INT_MIN <= x <= INT_MAX then Some(IntV(x)) else None
  }

  /** Division that truncates towards zero. */
  function Quotient(a: int, b: int): int
    requires b != 0
  {
    if a >= 0 then (if b > 0 then a / b else -(a / -b)) else if b > 0 then -(-a / b) else -a / -b
  }

  function Truth(b: bool): FieldValue { IntV(if b then 1 else 0) }

  predicate StrLess(a: string, b: string) {
    b != [] && (a == [] || a[0] < b[0] || (a[0] == b[0] && StrLess(a[1..], b[1..])))
  }

  function IntOp(op: string, a: int, b: int): Option<FieldValue> {
    if op == "+" then Int32(a + b)
    else if op == "-" then Int32(a - b)
    else if op == "*" then Int32(a * b)
    else if op == "/" then (if b == 0 then None else Int32(Quotient(a, b)))
    else if op == "=" then Some(Truth(a == b))
    else if op == "<>" then Some(Truth(a != b))
    else if op == "<" then Some(Truth(a < b))
    else if op == ">" then Some(Truth(a > b))
    else if op == "<=" then Some(Truth(a <= b))
    else if op == ">=" then Some(Truth(a >= b))
    else LogicOp(op, IntV(a), IntV(b))
  }

  function StrOp(op: string, a: string, b: string): Option<FieldValue> {
    if op == "=" then Some(Truth(a == b))
    else if op == "<>" then Some(Truth(a != b))
    else if op == "<" then Some(Truth(StrLess(a, b)))
    else if op == ">" then Some(Truth(StrLess(b, a)))
    else if op == "<=" then Some(Truth(!StrLess(b, a)))
    else if op == ">=" then Some(Truth(!StrLess(a, b)))
    else LogicOp(op, StrV(a), StrV(b))
  }

  function AsBool(v: FieldValue): Option<bool> {
    if v.IntV? then Some(v.i != 0) else None
  }

  /** Both operands have been evaluated; the right one is asked for its truth only if the
      left one does not decide. */
  function LogicOp(op: string, l: FieldValue, r: FieldValue): Option<FieldValue> {
    if op != "AND" && op != "OR" then None
    else match AsBool(l)
      case None => None
      case Some(b) =>
        if b == (op == "OR") then Some(Truth(b))
        else match AsBool(r)
          case None => None
          case Some(c) => Some(Truth(c))
  }

  /** What a column name stands for. */
  type Env = string -> Option<FieldValue>

  function EnvOf(row: Row, colIdx: ColIdx): Env {
    (c: string) => if c in colIdx && 0 <= colIdx[c] < |row| then Some(row[colIdx[c]]) else None
  }

  /** None where the source throws or has no defined result. */
  function EvalIn(e: Expr, env: Env): Option<FieldValue> {
    match e
    case IntLit(v) => Some(IntV(v))
    case StrLit(s) => Some(StrV(s))
    case ColumnRef(c) => env(c)
    case BinaryOp(op, left, right) =>
      match (EvalIn(left, env), EvalIn(right, env))
      case (Some(IntV(a)), Some(IntV(b))) => IntOp(op, a, b)
      case (Some(StrV(a)), Some(StrV(b))) => StrOp(op, a, b)
      case (Some(l), Some(r)) => LogicOp(op, l, r)
      case _ => None
  }

  function Eval(e: Expr, row: Row, colIdx: ColIdx): Option<FieldValue> {
    EvalIn(e, EnvOf(row, colIdx))
  }

  function TruthIn(e: Expr, env: Env): Option<bool> {
    match EvalIn(e, env)
    case None => None
    case Some(v) => AsBool(v)
  }

  function EvalBoolean(e: Expr, row: Row, colIdx: ColIdx): Option<bool> {
    TruthIn(e, EnvOf(row, colIdx))
  }

  function EvalAllIn(exprs: seq<Expr>, env: Env): Option<Row> {
    if exprs == [] then Some([])
    else match (EvalAllIn(exprs[..|exprs| - 1], env), EvalIn(exprs[|exprs| - 1], env))
      case (Some(vs), Some(v)) => Some(vs + [v])
      case _ => None
  }

  /** The row of all values; it exists exactly if each of them does. */
  lemma {:induction false} EvalAllMeaning(exprs: seq<Expr>, env: Env)
    ensures EvalAllIn(exprs, env).Some? <==> forall i :: 0 <= i < |exprs| ==> EvalIn(exprs[i], env).Some?
    ensures EvalAllIn(exprs, env).Some? ==>
              |EvalAllIn(exprs, env).value| == |exprs|
              && forall i :: 0 <= i < |exprs| ==> EvalIn(exprs[i], env) == Some(EvalAllIn(exprs, env).value[i])
    decreases |exprs|
  {
    if exprs != [] {
      EvalAllMeaning(exprs[..|exprs| - 1], env);
      assert forall i :: 0 <= i < |exprs| - 1 ==> exprs[..|exprs| - 1][i] == exprs[i];
    }
  }

  function Columns(e: Expr): set<string> {
    match e
    case ColumnRef(c) => {c}
    case BinaryOp(_, l, r) => Columns(l) + Columns(r)
    case _ => {}
  }

  /** Evaluation depends on nothing but the columns that the expression names. */
  lemma {:induction false} EvalNames(e: Expr, env: Env, env': Env)
    requires forall c :: c in Columns(e) ==> env(c) == env'(c)
    ensures EvalIn(e, env) == EvalIn(e, env')
  {
    match e
    case BinaryOp(_, l, r) =>
      EvalNames(l, env, env');
      EvalNames(r, env, env');
    case ColumnRef(c) => assert c in Columns(e);
    case _ =>
  }

  /** Evaluation is strict: one column that does not resolve, anywhere, and there is no
      value. */
  lemma {:induction false} EvalStrict(e: Expr, env: Env, c: string)
    requires c in Columns(e) && env(c) == None
    ensures EvalIn(e, env) == None
  {
    if e.BinaryOp? {
      if c in Columns(e.left) { EvalStrict(e.left, env, c); } else { EvalStrict(e.right, env, c); }
    }
  }

  /** AND and OR, exactly.  A left operand that decides does not shield a right one that
      has no value; but it does shield one that has a value and is no truth value. */
  lemma NoShortCircuit(op: string, l: Expr, r: Expr, env: Env)
    requires op == "AND" || op == "OR"
    ensures var decided := TruthIn(l, env) == Some(op == "OR");
            EvalIn(BinaryOp(op, l, r), env)
            == if EvalIn(r, env).None? || TruthIn(l, env).None? then None
               else if decided then Some(Truth(op == "OR"))
               else if TruthIn(r, env).None? then None
               else Some(Truth(TruthIn(r, env).value))
  {
  }

  /** Strings are totally ordered, so of the six comparisons exactly the right ones hold. */
  lemma {:induction false} StrTotal(a: string, b: string)
    ensures StrLess(a, b) ==> a != b && !StrLess(b, a)
    ensures a != b ==> StrLess(a, b) || StrLess(b, a)
  {
    if a != [] && b != [] {
      StrTotal(a[1..], b[1..]);
      if a[0] == b[0] && a[1..] == b[1..] { assert a == [a[0]] + a[1..] == b; }
    }
  }

  lemma {:induction false} StrTransitive(a: string, b: string, c: string)
    requires StrLess(a, b) && StrLess(b, c)
    ensures StrLess(a, c)
  {
    if a != [] && a[0] == b[0] == c[0] { StrTransitive(a[1..], b[1..], c[1..]); }
  }

  /** The remainder of truncated division has the sign of the dividend. */
  lemma QuotientTruncates(a: int, b: int)
    requires b != 0
    ensures var r := a - Quotient(a, b) * b;
            (a >= 0 ==> 0 <= r) && (a <= 0 ==> r <= 0) && -(if b < 0 then -b else b) < r < (if b < 0 then -b else b)
  {
    var p, q := if a < 0 then -a else a, if b < 0 then -b else b;
    assert p == (p / q) * q + p % q;
    assert Quotient(a, b) * b == if a < 0 then -((p / q) * q) else (p / q) * q;
  }

  // ---------- what each operator means ----------

  /** The value of a truth: 1 or 0. */
  predicate Says(v: Option<FieldValue>, b: bool) { v == Some(IntV(if b then 1 else 0)) }

  /** The comparisons of two integers, wherever the operands come from. */
  lemma IntComparisons(l: Expr, r: Expr, env: Env, a: int, b: int)
    requires EvalIn(l, env) == Some(IntV(a)) && EvalIn(r, env) == Some(IntV(b))
    ensures Says(EvalIn(BinaryOp("=", l, r), env), a == b) && Says(EvalIn(BinaryOp("<>", l, r), env), a != b)
    ensures Says(EvalIn(BinaryOp("<", l, r), env), a < b) && Says(EvalIn(BinaryOp(">", l, r), env), a > b)
    ensures Says(EvalIn(BinaryOp("<=", l, r), env), a <= b) && Says(EvalIn(BinaryOp(">=", l, r), env), a >= b)
  {
  }

  /** The arithmetic of two 32-bit integers: the exact result, or none if it has no 32 bits.
      A quotient leaves a remainder that is smaller than the divisor and has the sign of
      the dividend; it exists except by 0 and for the lowest number by -1. */
  lemma IntArithmetic(l: Expr, r: Expr, env: Env, a: int, b: int)
    requires EvalIn(l, env) == Some(IntV(a)) && EvalIn(r, env) == Some(IntV(b))
    requires -0x8000_0000 <= a < 0x8000_0000 && -0x8000_0000 <= b < 0x8000_0000
    ensures EvalIn(BinaryOp("+", l, r), env) == if -0x8000_0000 <= a + b < 0x8000_0000 then Some(IntV(a + b)) else None
    ensures EvalIn(BinaryOp("-", l, r), env) == if -0x8000_0000 <= a - b < 0x8000_0000 then Some(IntV(a - b)) else None
    ensures EvalIn(BinaryOp("*", l, r), env) == if -0x8000_0000 <= a * b < 0x8000_0000 then Some(IntV(a * b)) else None
    ensures EvalIn(BinaryOp("/", l, r), env).None? <==> b == 0 || (a == -0x8000_0000 && b == -1)
    ensures EvalIn(BinaryOp("/", l, r), env).Some? ==>
              EvalIn(BinaryOp("/", l, r), env).value.IntV?
              && var rest := a - EvalIn(BinaryOp("/", l, r), env).value.i * b;
                 (if b < 0 then b < rest < -b else -b < rest < b) && (a >= 0 ==> rest >= 0) && (a <= 0 ==> rest <= 0)
  {
    if b != 0 {
      QuotientTruncates(a, b);
      QuotientSize(a, b);
    }
  }

  lemma QuotientSize(a: int, b: int)
    requires b != 0 && -0x8000_0000 <= a < 0x8000_0000
    ensures -0x8000_0000 <= Quotient(a, b) <= 0x8000_0000
    ensures Quotient(a, b) == 0x8000_0000 <==> a == -0x8000_0000 && b == -1
  {
    var p, q := if a < 0 then -a else a, if b < 0 then -b else b;
    DivSize(p, q);
  }

  lemma DivSize(p: nat, q: nat)
    requires q > 0
    ensures if q == 1 then p / q == p else 0 <= 2 * (p / q) <= p
  {
    WholeTimes(p, q);
    if q > 1 { Twice(p / q, q); }
  }

  lemma WholeTimes(p: nat, q: nat)
    requires q > 0
    ensures 0 <= p / q && (p / q) * q <= p && (q == 1 ==> p / q == p)
  {
    assert p == (p / q) * q + p % q;
  }

  lemma Twice(d: nat, q: nat)
    requires q > 1
    ensures 2 * d <= d * q
  {
    assert d * q - 2 * d == d * (q - 2);
  }

  /** String order: a is a proper prefix of b, or smaller at the first place where they
      differ. */
  ghost predicate Precedes(a: string, b: string) {
    (a <= b && a != b)
    || exists k :: 0 <= k < |a| && k < |b| && a[..k] == b[..k] && a[k] < b[k]
  }

  lemma {:induction false} LessExact(a: string, b: string)
    ensures StrLess(a, b) <==> Precedes(a, b)
    decreases |a|
  {
    hide Precedes;
    if a == [] || b == [] || a[0] != b[0] {
      HeadDecides(a, b);
    } else {
      LessExact(a[1..], b[1..]);
      assert a == [a[0]] + a[1..] && b == [b[0]] + b[1..];
      HeadAside(a[0], a[1..], b[1..]);
    }
  }

  lemma HeadDecides(a: string, b: string)
    requires a == [] || b == [] || a[0] != b[0]
    ensures Precedes(a, b) <==> b != [] && (a == [] || a[0] < b[0])
  {
    forall k | 0 < k < |a| && k < |b| && a[..k] == b[..k] { SameHead(a, b, k); }
    assert a != [] && b != [] && a[0] < b[0] ==> a[..0] == b[..0];
  }

  lemma HeadAside(c: char, a: string, b: string)
    ensures Precedes([c] + a, [c] + b) <==> Precedes(a, b)
  {
    var a', b' := [c] + a, [c] + b;
    assert a'[1..] == a && b'[1..] == b;
    assert a' <= b' <==> a <= b;
    forall k | 0 <= k < |a| && k < |b|
      ensures a[..k] == b[..k] && a[k] < b[k] <==> a'[..k + 1] == b'[..k + 1] && a'[k + 1] < b'[k + 1]
    {
      assert a'[..k + 1] == [c] + a[..k] && b'[..k + 1] == [c] + b[..k];
      assert a[..k] == a'[..k + 1][1..] && b[..k] == b'[..k + 1][1..];
    }
    if k :| 0 <= k < |a'| && k < |b'| && a'[..k] == b'[..k] && a'[k] < b'[k] {
      assert k > 0;
      assert a[..k - 1] == b[..k - 1] && a[k - 1] < b[k - 1];
    }
  }

  lemma SameHead(a: string, b: string, k: nat)
    requires 0 < k <= |a| && k <= |b| && a[..k] == b[..k]
    ensures a[0] == b[0]
  {
    assert a[..k][0] == b[..k][0];
  }

  /** The comparisons of two strings, by that order. */
  lemma StrComparisons(l: Expr, r: Expr, env: Env, a: string, b: string)
    requires EvalIn(l, env) == Some(StrV(a)) && EvalIn(r, env) == Some(StrV(b))
    ensures Says(EvalIn(BinaryOp("=", l, r), env), a == b) && Says(EvalIn(BinaryOp("<>", l, r), env), a != b)
    ensures Says(EvalIn(BinaryOp("<", l, r), env), Precedes(a, b))
    ensures Says(EvalIn(BinaryOp(">", l, r), env), Precedes(b, a))
    ensures Says(EvalIn(BinaryOp("<=", l, r), env), a == b || Precedes(a, b))
    ensures Says(EvalIn(BinaryOp(">=", l, r), env), a == b || Precedes(b, a))
  {
    LessExact(a, b);
    LessExact(b, a);
    StrTotal(a, b);
  }

  /** Anything else throws: an operator that is none of the twelve, arithmetic on strings,
      and a comparison of an integer with a string. */
  lemma NoOtherOperator(op: string, l: Expr, r: Expr, env: Env)
    requires op != "AND" && op != "OR" && EvalIn(l, env).Some? && EvalIn(r, env).Some?
    ensures EvalIn(BinaryOp(op, l, r), env).Some? ==>
              (op in {"=", "<>", "<", ">", "<=", ">="} && EvalIn(l, env).value.IntV? == EvalIn(r, env).value.IntV?)
              || (op in {"+", "-", "*", "/"} && EvalIn(l, env).value.IntV? && EvalIn(r, env).value.IntV?)
  {
  }

  /** Leaves of an expression, and the truth of a value: an integer that is not 0. */
  lemma LeafValues(c: string, v: int, t: string, env: Env)
    ensures EvalIn(ColumnRef(c), env) == env(c)
    ensures EvalIn(IntLit(v), env) == Some(IntV(v)) && EvalIn(StrLit(t), env) == Some(StrV(t))
    ensures TruthIn(IntLit(v), env) == Some(v != 0) && TruthIn(StrLit(t), env) == None
  {
  }
}
