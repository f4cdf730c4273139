/** The rewriter at work: plan nodes whose child pointers are rewired in place. */
module Rewriter {
  import opened Common
  import opened Expressions
  import opened Plans

  // ---------- several passes ----------

  function Pass(p: Plan): Plan { Prune(PushDown(p)) }

  function Passes(p: Plan, k: nat): Plan {
    if k == 0 then p else Pass(Passes(p, k - 1))
  }

  /** Whenever the identity test could accept a projection list, the table is one for
      which it is right to. */
  ghost predicate SafeLists(p: Plan, cat: Catalog) {
    match p
    case SeqScan(_) => true
    case Filter(_, c) => SafeLists(c, cat)
    case Join(l, r) => SafeLists(l, cat) && SafeLists(r, cat)
    case Project(es, c) =>
      SafeLists(c, cat) && forall t :: t in cat && LooksIdentical(es, t) ==> NumberedTable(es, cat[t])
  }

  lemma {:induction false} SafePushDown(p: Plan, cat: Catalog)
    requires SafeLists(p, cat)
    ensures SafeLists(PushDown(p), cat)
  {
    match p
    case SeqScan(_) =>
    case Filter(_, c) => SafePushDown(c, cat);
    case Project(_, c) => SafePushDown(c, cat);
    case Join(l, r) =>
      SafePushDown(l, cat);
      SafePushDown(r, cat);
  }

  lemma {:induction false} SafePrune(p: Plan, cat: Catalog)
    requires SafeLists(p, cat)
    ensures SafeLists(Prune(p), cat) && PruneSafe(p, cat)
  {
    match p
    case SeqScan(_) =>
    case Filter(_, c) => SafePrune(c, cat);
    case Project(_, c) => SafePrune(c, cat);
    case Join(l, r) =>
      SafePrune(l, cat);
      SafePrune(r, cat);
  }

  /** However many passes are made, the plan means what it meant. */
  lemma {:induction false} RewriteMeaning(p: Plan, k: nat, cat: Catalog, db: Database)
    requires Fits(cat, db) && DistinctColumns(cat) && Bound(p, cat) && SafeLists(p, cat)
    ensures Meaning(Passes(p, k), cat, db) == Meaning(p, cat, db)
    ensures Bound(Passes(p, k), cat) && SafeLists(Passes(p, k), cat)
  {
    if k > 0 {
      var q := Passes(p, k - 1);
      RewriteMeaning(p, k - 1, cat, db);
      PushDownMeaning(q, cat, db);
      SafePushDown(q, cat);
      SafePrune(PushDown(q), cat);
      PruneMeaning(PushDown(q), cat, db);
    }
  }

  /** A filter goes below the projection under it, so another node is on top. */
  predicate Swaps(p: Plan) { p.Filter? && PushDown(p.child).Project? }

  /** The projection is dropped, so its scan is on top. */
  predicate IsDropped(p: Plan) {
    p.Project? && Prune(p.input).SeqScan? && LooksIdentical(p.exprs, Prune(p.input).table)
  }

  /** A pass leaves the same node on top. */
  predicate RootKept(p: Plan) { !Swaps(p) && !IsDropped(PushDown(p)) }

  /** How many passes are made in all, if i have been made: up to the first that keeps the
      node on top, and at most five. */
  function PassCount(p: Plan, i: nat): (n: nat)
    requires i <= 5
    ensures i <= n <= 5 && (i < 5 ==> i < n)
    ensures forall j :: i <= j < n - 1 ==> RootKept(Passes(p, j)) == false
    ensures i < n < 5 ==> RootKept(Passes(p, n - 1)) == true
    decreases 5 - i
  {
    if i == 5 then 5 else if RootKept(Passes(p, i)) then i + 1 else PassCount(p, i + 1)
  }

  lemma OneMorePass(p: Plan, i: nat)
    ensures Passes(p, i + 1) == Prune(PushDown(Passes(p, i))) && Passes(p, 0) == p
  {
  }

  // ---------- the nodes ----------

  datatype OpType = SeqScanOp | FilterOp | ProjectOp | JoinOp

  class LogicalOperator {
    const opType: OpType
    const tableName: string
    const exprs: seq<Expr>
    var child: LogicalOperator?
    var right: LogicalOperator?
    ghost var tree: Plan
    ghost var Repr: set<object>

    /** The node and everything below it, as a tree without sharing. */
    ghost predicate Valid()
      reads this, Repr
      decreases tree, 0
    {
      this in Repr
      && match tree
         case SeqScan(t) => opType == SeqScanOp && tableName == t && child == null && right == null
         case Filter(e, t) =>
           opType == FilterOp && exprs == [e] && right == null
           && child != null && child in Repr && child.Repr <= Repr && this !in child.Repr
           && child.tree == t && child.Valid()
         case Project(es, t) =>
           opType == ProjectOp && exprs == es && right == null
           && child != null && child in Repr && child.Repr <= Repr && this !in child.Repr
           && child.tree == t && child.Valid()
         case Join(t, u) =>
           opType == JoinOp
           && child != null && child in Repr && child.Repr <= Repr && this !in child.Repr
           && child.tree == t && child.Valid()
           && right != null && right in Repr && right.Repr <= Repr && this !in right.Repr
           && right.tree == u && right.Valid()
           && child.Repr !! right.Repr
    }

    constructor SeqScan(t: string)
      ensures Valid() && fresh(Repr) && tree == Plan.SeqScan(t)
    {
      opType, tableName, exprs, child, right := SeqScanOp, t, [], null, null;
      tree, Repr := Plan.SeqScan(t), {this};
    }

    constructor Filter(e: Expr, c: LogicalOperator)
      requires c.Valid()
      ensures Valid() && fresh(Repr - c.Repr) && tree == Plan.Filter(e, c.tree)
    {
      opType, tableName, exprs, child, right := FilterOp, "", [e], c, null;
      tree, Repr := Plan.Filter(e, c.tree), {this} + c.Repr;
    }

    constructor Project(es: seq<Expr>, c: LogicalOperator)
      requires c.Valid()
      ensures Valid() && fresh(Repr - c.Repr) && tree == Plan.Project(es, c.tree)
    {
      opType, tableName, exprs, child, right := ProjectOp, "", es, c, null;
      tree, Repr := Plan.Project(es, c.tree), {this} + c.Repr;
    }

    constructor Join(l: LogicalOperator, r: LogicalOperator)
      requires l.Valid() && r.Valid() && l.Repr !! r.Repr
      ensures Valid() && fresh(Repr - l.Repr - r.Repr) && tree == Plan.Join(l.tree, r.tree)
    {
      opType, tableName, exprs, child, right := JoinOp, "", [], l, r;
      tree, Repr := Plan.Join(l.tree, r.tree), {this} + l.Repr + r.Repr;
    }

    /** A new child, made from the nodes of the old one. */
    method SetChild(c: LogicalOperator)
      requires opType == FilterOp || opType == ProjectOp
      requires c.Valid() && this !in c.Repr && right == null && (opType == FilterOp ==> |exprs| == 1)
      modifies this
      ensures Valid() && child == c && Repr == {this} + c.Repr
      ensures tree == if opType == FilterOp then Plan.Filter(exprs[0], c.tree) else Plan.Project(exprs, c.tree)
    {
      child := c;
      Repr := {this} + c.Repr;
      tree := if opType == FilterOp then Plan.Filter(exprs[0], c.tree) else Plan.Project(exprs, c.tree);
    }

    method SetChildren(l: LogicalOperator, r: LogicalOperator)
      requires opType == JoinOp && l.Valid() && r.Valid() && l.Repr !! r.Repr && this !in l.Repr && this !in r.Repr
      modifies this
      ensures Valid() && child == l && right == r && Repr == {this} + l.Repr + r.Repr
      ensures tree == Plan.Join(l.tree, r.tree)
    {
      child, right := l, r;
      Repr := {this} + l.Repr + r.Repr;
      tree := Plan.Join(l.tree, r.tree);
    }
  }

  // ---------- the rules ----------

  method PushDownPredicates(root: LogicalOperator) returns (r: LogicalOperator)
    requires root.Valid()
    modifies root.Repr
    ensures r.Valid() && r.Repr <= old(root.Repr) && r.tree == PushDown(old(root.tree))
    ensures (r != root <==> Swaps(old(root.tree))) && (r != root ==> root.opType == FilterOp)
    decreases root.tree
  {
    match root.opType
    case SeqScanOp => r := root;
    case JoinOp =>
      var right := root.right;
      var l := PushDownPredicates(root.child);
      var u := PushDownPredicates(right);
      root.SetChildren(l, u);
      r := root;
    case ProjectOp =>
      var c := PushDownPredicates(root.child);
      root.SetChild(c);
      r := root;
    case FilterOp =>
      var proj := PushDownPredicates(root.child);
      if proj.opType == ProjectOp {
        // detach the filter from the projection, reattach it below
        root.SetChild(proj.child);
        proj.SetChild(root);
        r := proj;
      } else {
        root.SetChild(proj);
        r := root;
      }
  }

  method PruneProjections(root: LogicalOperator) returns (r: LogicalOperator)
    requires root.Valid()
    modifies root.Repr
    ensures r.Valid() && r.Repr <= old(root.Repr) && r.tree == Prune(old(root.tree))
    ensures (r != root <==> IsDropped(old(root.tree))) && (r != root ==> r.opType == SeqScanOp)
    decreases root.tree
  {
    match root.opType
    case SeqScanOp => r := root;
    case JoinOp =>
      var right := root.right;
      var l := PruneProjections(root.child);
      var u := PruneProjections(right);
      root.SetChildren(l, u);
      r := root;
    case FilterOp =>
      var c := PruneProjections(root.child);
      root.SetChild(c);
      r := root;
    case ProjectOp =>
      var c := PruneProjections(root.child);
      if c.opType == SeqScanOp {
        var identity := true;
        var i := 0;
        while i < |root.exprs|
          invariant 0 <= i <= |root.exprs|
          invariant identity <==> LooksIdentical(root.exprs[..i], c.tableName)
        {
          var e := root.exprs[i];
          assert root.exprs[..i + 1] == root.exprs[..i] + [e];
          if !e.ColumnRef? || e.name != c.tableName + "." + Decimal(i) {
            assert !LooksIdentical(root.exprs[..i + 1], c.tableName) && !LooksIdentical(root.exprs, c.tableName) by {
              assert root.exprs[..i + 1][i] == e;
            }
            identity := false;
            break;
          }
          i := i + 1;
        }
        if identity {
          assert root.exprs[..|root.exprs|] == root.exprs;
          return c;
        }
      }
      root.SetChild(c);
      r := root;
  }

  /** Passes until one returns the node that it was given, at most five.  That node may be
      kept while something below it has changed: then the rewriter stops all the same. */
  method RewritePlan(plan: LogicalOperator) returns (root: LogicalOperator)
    requires plan.Valid()
    modifies plan.Repr
    ensures root.Valid() && root.Repr <= old(plan.Repr)
    ensures root.tree == Passes(old(plan.tree), PassCount(old(plan.tree), 0))
  {
    hide PushDown, Prune, Passes;
    root := plan;
    ghost var tree := plan.tree;
    OneMorePass(tree, 0);
    for i := 0 to 5
      invariant root.Valid() && root.Repr <= old(plan.Repr) && root.tree == Passes(tree, i)
      invariant PassCount(tree, 0) == PassCount(tree, i)
    {
      var pushed := PushDownPredicates(root);
      var newRoot := PruneProjections(pushed);
      OneMorePass(tree, i);
      if newRoot == root { return; }
      root := newRoot;
    }
  }
}
