/** What a pass of the rewriter does to the shape of a plan: nothing is lost, filters move
    down, and a pass that changes nothing has nothing left to do. */
module RewriteEffect {
  import opened Common
  import opened Expressions
  import opened Plans

  // ---------- what a plan is made of ----------

  function Scans(p: Plan): seq<string> {
    match p
    case SeqScan(t) => [t]
    case Filter(_, c) => Scans(c)
    case Project(_, c) => Scans(c)
    case Join(l, r) => Scans(l) + Scans(r)
  }

  function Filters(p: Plan): multiset<Expr> {
    match p
    case SeqScan(_) => multiset{}
    case Filter(pred, c) => multiset{pred} + Filters(c)
    case Project(_, c) => Filters(c)
    case Join(l, r) => Filters(l) + Filters(r)
  }

  function Lists(p: Plan): multiset<seq<Expr>> {
    match p
    case SeqScan(_) => multiset{}
    case Filter(_, c) => Lists(c)
    case Project(es, c) => multiset{es} + Lists(c)
    case Join(l, r) => Lists(l) + Lists(r)
  }

  /** Over all filters, the projections below them. */
  function Above(p: Plan): nat {
    match p
    case SeqScan(_) => 0
    case Filter(_, c) => |Lists(c)| + Above(c)
    case Project(_, c) => Above(c)
    case Join(l, r) => Above(l) + Above(r)
  }

  /** A filter stands directly on a projection somewhere. */
  predicate HasPair(p: Plan) {
    match p
    case SeqScan(_) => false
    case Filter(_, c) => c.Project? || HasPair(c)
    case Project(_, c) => HasPair(c)
    case Join(l, r) => HasPair(l) || HasPair(r)
  }

  /** A pass keeps the scans and their order, the filters and the projections, each as
      often; and it changes the plan, with fewer projections below filters, exactly if some
      filter stands directly on a projection. */
  lemma {:induction false} PushDownExact(p: Plan)
    ensures Scans(PushDown(p)) == Scans(p)
    ensures Filters(PushDown(p)) == Filters(p) && Lists(PushDown(p)) == Lists(p)
    ensures if HasPair(p) then Above(PushDown(p)) < Above(p) else PushDown(p) == p
  {
    match p
    case SeqScan(_) =>
    case Filter(_, c) => PushDownExact(c);
    case Project(_, c) => PushDownExact(c);
    case Join(l, r) =>
      PushDownExact(l);
      PushDownExact(r);
  }

  /** The filter goes below the projection. */
  lemma OneStep(pred: Expr, es: seq<Expr>, c: Plan)
    requires !HasPair(c)
    ensures PushDown(Filter(pred, Project(es, c))) == Project(es, Filter(pred, c))
  {
    PushDownExact(c);
  }
}
