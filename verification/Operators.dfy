/** Pull-based operators and the executor that drains them. */
module Operators {
  import opened Common
  import opened Expressions

  // ---------- what a plan denotes ----------

  /** A tree of physical operators; a scan yields the given rows. */
  datatype Phys =
    | TableScan(rows: seq<Row>)
    | Filter(pred: Expr, colIdx: ColIdx, child: Phys)
    | Project(exprs: seq<Expr>, inIdx: ColIdx, input: Phys)
    | Join(left: Phys, right: Phys)

  /** Rows to come, and whether the end comes after them (or an exception). */
  datatype Feed = Feed(rows: seq<Row>, ends: bool)

  /** Opening may already throw, because a join fetches its first left row. */
  datatype Stream = Stream(opens: bool, feed: Feed)

  function FilterFeed(pred: Expr, colIdx: ColIdx, feed: Feed): Feed
    decreases |feed.rows|
  {
    if feed.rows == [] then feed
    else match EvalBoolean(pred, feed.rows[0], colIdx)
      case None => Feed([], false)
      case Some(keep) =>
        var rest := FilterFeed(pred, colIdx, Feed(feed.rows[1..], feed.ends));
        if keep then Feed([feed.rows[0]] + rest.rows, rest.ends) else rest
  }

  function EvalAll(exprs: seq<Expr>, row: Row, colIdx: ColIdx): Option<Row> {
    EvalAllIn(exprs, EnvOf(row, colIdx))
  }

  function ProjectFeed(exprs: seq<Expr>, colIdx: ColIdx, feed: Feed): Feed
    decreases |feed.rows|
  {
    if feed.rows == [] then feed
    else match EvalAll(exprs, feed.rows[0], colIdx)
      case None => Feed([], false)
      case Some(row) =>
        var rest := ProjectFeed(exprs, colIdx, Feed(feed.rows[1..], feed.ends));
        Feed([row] + rest.rows, rest.ends)
  }

  /** One left row with each of the right rows. */
  function Pairs(l: Row, rs: seq<Row>): seq<Row> {
    if rs == [] then [] else [l + rs[0]] + Pairs(l, rs[1..])
  }

  /** Left-major cross product. */
  function Cross(ls: seq<Row>, rs: seq<Row>): seq<Row> {
    if ls == [] then [] else Pairs(ls[0], rs) + Cross(ls[1..], rs)
  }

  /** The join while it is at left row l: right rows still to come, left rows after it,
      and the right side's full stream. */
  function JoinFeed(l: Row, right: Feed, left: Feed, full: seq<Row>): Feed {
    if right.ends then Feed(Pairs(l, right.rows) + Cross(left.rows, full), left.ends)
    else Feed(Pairs(l, right.rows), false)
  }

  /** How the join moves on. */
  lemma JoinSteps(l: Row, r: Feed, left: Feed, full: seq<Row>)
    ensures r.rows != [] ==>
              var tl := JoinFeed(l, Feed(r.rows[1..], r.ends), left, full);
              JoinFeed(l, r, left, full) == Feed([l + r.rows[0]] + tl.rows, tl.ends)
    ensures r.rows == [] && !r.ends ==> JoinFeed(l, r, left, full) == Feed([], false)
    ensures r.rows == [] && r.ends && left.rows == [] ==> JoinFeed(l, r, left, full) == Feed([], left.ends)
    ensures r.rows == [] && r.ends && left.rows != [] ==>
              JoinFeed(l, r, left, full)
              == JoinFeed(left.rows[0], Feed(full, true), Feed(left.rows[1..], left.ends), full)
  {
    assert [] + Cross(left.rows, full) == Cross(left.rows, full);
    if r.rows != [] {
      assert [l + r.rows[0]] + Pairs(l, r.rows[1..]) + Cross(left.rows, full)
          == [l + r.rows[0]] + (Pairs(l, r.rows[1..]) + Cross(left.rows, full));
    }
  }

  function JoinStream(l: Stream, r: Stream): Stream {
    if !l.opens || !r.opens || (l.feed.rows == [] && !l.feed.ends) then Stream(false, Feed([], false))
    else if l.feed.rows == [] then Stream(true, Feed([], true))
    else Stream(true, JoinFeed(l.feed.rows[0], r.feed, Feed(l.feed.rows[1..], l.feed.ends), r.feed.rows))
  }

  function Denote(p: Phys): Stream {
    match p
    case TableScan(rows) => Stream(true, Feed(rows, true))
    case Filter(pred, colIdx, child) =>
      var s := Denote(child);
      s.(feed := FilterFeed(pred, colIdx, s.feed))
    case Project(exprs, colIdx, child) =>
      var s := Denote(child);
      s.(feed := ProjectFeed(exprs, colIdx, s.feed))
    case Join(l, r) => JoinStream(Denote(l), Denote(r))
  }

  // ---------- without exceptions: the list denotation ----------

  function FilterRows(pred: Expr, colIdx: ColIdx, rows: seq<Row>): seq<Row> {
    if rows == [] then []
    else
      var rest := FilterRows(pred, colIdx, rows[1..]);
      if EvalBoolean(pred, rows[0], colIdx) == Some(true) then [rows[0]] + rest else rest
  }

  function ProjectRows(exprs: seq<Expr>, colIdx: ColIdx, rows: seq<Row>): seq<Row> {
    if rows == [] then []
    else
      (match EvalAll(exprs, rows[0], colIdx)
       case Some(row) => [row]
       case None => []) + ProjectRows(exprs, colIdx, rows[1..])
  }

  function Rows(p: Phys): seq<Row> {
    match p
    case TableScan(rows) => rows
    case Filter(pred, colIdx, child) => FilterRows(pred, colIdx, Rows(child))
    case Project(exprs, colIdx, child) => ProjectRows(exprs, colIdx, Rows(child))
    case Join(l, r) => Cross(Rows(l), Rows(r))
  }

  /** Every expression can be evaluated on every row that reaches it. */
  ghost predicate Evaluates(p: Phys) {
    match p
    case TableScan(_) => true
    case Filter(pred, colIdx, child) =>
      Evaluates(child) && forall i :: 0 <= i < |Rows(child)| ==> EvalBoolean(pred, Rows(child)[i], colIdx).Some?
    case Project(exprs, colIdx, child) =>
      Evaluates(child) && forall i :: 0 <= i < |Rows(child)| ==> EvalAll(exprs, Rows(child)[i], colIdx).Some?
    case Join(l, r) => Evaluates(l) && Evaluates(r)
  }

  lemma {:induction false} FilterFeedEnds(pred: Expr, colIdx: ColIdx, feed: Feed)
    ensures FilterFeed(pred, colIdx, feed).ends <==>
            feed.ends && forall i :: 0 <= i < |feed.rows| ==> EvalBoolean(pred, feed.rows[i], colIdx).Some?
    ensures FilterFeed(pred, colIdx, feed).ends ==>
              FilterFeed(pred, colIdx, feed).rows == FilterRows(pred, colIdx, feed.rows)
    decreases |feed.rows|
  {
    if feed.rows != [] {
      var tl := feed.rows[1..];
      FilterFeedEnds(pred, colIdx, Feed(tl, feed.ends));
      assert forall i :: 0 <= i < |tl| ==> tl[i] == feed.rows[i + 1];
      assert forall i :: 1 <= i < |feed.rows| ==> feed.rows[i] == tl[i - 1];
    }
  }

  lemma {:induction false} ProjectFeedEnds(exprs: seq<Expr>, colIdx: ColIdx, feed: Feed)
    ensures ProjectFeed(exprs, colIdx, feed).ends <==>
            feed.ends && forall i :: 0 <= i < |feed.rows| ==> EvalAll(exprs, feed.rows[i], colIdx).Some?
    ensures ProjectFeed(exprs, colIdx, feed).ends ==>
              ProjectFeed(exprs, colIdx, feed).rows == ProjectRows(exprs, colIdx, feed.rows)
    decreases |feed.rows|
  {
    if feed.rows != [] {
      var tl := feed.rows[1..];
      ProjectFeedEnds(exprs, colIdx, Feed(tl, feed.ends));
      assert forall i :: 0 <= i < |tl| ==> tl[i] == feed.rows[i + 1];
      assert forall i :: 1 <= i < |feed.rows| ==> feed.rows[i] == tl[i - 1];
    }
  }

  /** If evaluation never throws, the stream is the list: scans, filtered and mapped rows
      in order, left-major cross products. */
  lemma {:induction false} DenoteRows(p: Phys)
    requires Evaluates(p)
    ensures Denote(p) == Stream(true, Feed(Rows(p), true))
  {
    match p
    case TableScan(_) =>
    case Filter(pred, colIdx, child) =>
      DenoteRows(child);
      FilterFeedEnds(pred, colIdx, Feed(Rows(child), true));
    case Project(exprs, colIdx, child) =>
      DenoteRows(child);
      ProjectFeedEnds(exprs, colIdx, Feed(Rows(child), true));
    case Join(l, r) =>
      DenoteRows(l);
      DenoteRows(r);
  }

  // ---------- the operators ----------

  datatype Kind = ScanKind | FilterKind | ProjectKind | JoinKind

  /** One class for the four kinds of operator, which share one interface.  Fields that a
      kind does not use are empty. */
  class Operator {
    const kind: Kind
    const child: Operator?
    const right: Operator?
    // table scan: what the storage engine says
    const live: seq<RecordID>
    const heap: map<RecordID, Row>
    var rids: seq<RecordID>
    var idx: nat
    // filter and project
    const exprs: seq<Expr>
    const colIdx: ColIdx
    // nested loop join
    var leftRow: Row
    var leftDone: bool

    ghost const plan: Phys
    ghost const Repr: set<object>

    /** The object tree is built for its plan. */
    ghost predicate Wf()
      decreases plan
    {
      this in Repr
      && match plan
         case TableScan(rows) => kind == ScanKind && Stored(live) && rows == Fetched(live)
         case Filter(p, m, c) =>
           kind == FilterKind && child != null && child.plan == c && child.Repr <= Repr && this !in child.Repr
           && child.Wf() && exprs == [p] && colIdx == m
         case Project(es, m, c) =>
           kind == ProjectKind && child != null && child.plan == c && child.Repr <= Repr && this !in child.Repr
           && child.Wf() && exprs == es && colIdx == m
         case Join(l, r) =>
           kind == JoinKind && child != null && right != null && child.plan == l && right.plan == r
           && child.Repr <= Repr && right.Repr <= Repr && child.Repr !! right.Repr
           && this !in child.Repr && this !in right.Repr && child.Wf() && right.Wf()
    }

    ghost predicate Stored(rs: seq<RecordID>) {
      forall i :: 0 <= i < |rs| ==> rs[i] in heap
    }

    ghost function Fetched(rs: seq<RecordID>): seq<Row>
      requires Stored(rs)
    {
      seq(|rs|, i requires 0 <= i < |rs| => heap[rs[i]])
    }

    /** Ready to deliver rows. */
    ghost predicate Ready()
      requires Wf()
      reads Repr
      decreases plan, 0
    {
      match plan
      case TableScan(_) => idx <= |rids| && Stored(rids)
      case Filter(_, _, _) => child.Ready()
      case Project(_, _, _) => child.Ready()
      case Join(_, r) =>
        child.Ready() && right.Ready()
        && Denote(r).opens && right.Rest().ends == Denote(r).feed.ends
    }

    /** The rows still to come. */
    ghost function Rest(): Feed
      requires Wf() && Ready()
      reads Repr
      decreases plan, 1
    {
      match plan
      case TableScan(_) => Feed(Fetched(rids)[idx..], true)
      case Filter(p, m, _) => FilterFeed(p, m, child.Rest())
      case Project(es, m, _) => ProjectFeed(es, m, child.Rest())
      case Join(_, r) =>
        if leftDone then Feed([], true)
        else JoinFeed(leftRow, right.Rest(), child.Rest(), Denote(r).feed.rows)
    }

    /** Ready and Rest of a join, one level deep. */
    lemma JoinState()
      requires Wf() && kind == JoinKind
      ensures plan.Join? && child != null && right != null && child.plan == plan.left && right.plan == plan.right
      ensures this in Repr && child.Repr <= Repr && right.Repr <= Repr && child.Repr !! right.Repr
      ensures this !in child.Repr && this !in right.Repr && child.Wf() && right.Wf()
      ensures Ready() <==> child.Ready() && right.Ready()
                           && Denote(plan.right).opens && right.Rest().ends == Denote(plan.right).feed.ends
      ensures Denote(plan) == JoinStream(Denote(plan.left), Denote(plan.right))
      ensures Ready() ==> Rest() == if leftDone then Feed([], true)
                                    else JoinFeed(leftRow, right.Rest(), child.Rest(), Denote(plan.right).feed.rows)
    {
    }

    constructor TableScan(ids: seq<RecordID>, fetch: map<RecordID, Row>)
      requires forall i :: 0 <= i < |ids| ==> ids[i] in fetch
      ensures Wf() && fresh(Repr) && plan == Phys.TableScan(seq(|ids|, i requires 0 <= i < |ids| => fetch[ids[i]]))
    {
      kind, child, right, exprs, colIdx := ScanKind, null, null, [], map[];
      live, heap, rids, idx, leftRow, leftDone := ids, fetch, [], 0, [], false;
      plan := Phys.TableScan(seq(|ids|, i requires 0 <= i < |ids| => fetch[ids[i]]));
      Repr := {this};
    }

    constructor Filter(c: Operator, pred: Expr, m: ColIdx)
      requires c.Wf()
      ensures Wf() && fresh(Repr - c.Repr) && plan == Phys.Filter(pred, m, c.plan)
    {
      kind, child, right, exprs, colIdx := FilterKind, c, null, [pred], m;
      live, heap, rids, idx, leftRow, leftDone := [], map[], [], 0, [], false;
      plan := Phys.Filter(pred, m, c.plan);
      Repr := {this} + c.Repr;
    }

    constructor Project(c: Operator, es: seq<Expr>, m: ColIdx)
      requires c.Wf()
      ensures Wf() && fresh(Repr - c.Repr) && plan == Phys.Project(es, m, c.plan)
    {
      kind, child, right, exprs, colIdx := ProjectKind, c, null, es, m;
      live, heap, rids, idx, leftRow, leftDone := [], map[], [], 0, [], false;
      plan := Phys.Project(es, m, c.plan);
      Repr := {this} + c.Repr;
    }

    constructor Join(l: Operator, r: Operator)
      requires l.Wf() && r.Wf() && l.Repr !! r.Repr
      ensures Wf() && fresh(Repr - l.Repr - r.Repr) && plan == Phys.Join(l.plan, r.plan)
    {
      kind, child, right, exprs, colIdx := JoinKind, l, r, [], map[];
      live, heap, rids, idx, leftRow, leftDone := [], map[], [], 0, [], false;
      plan := Phys.Join(l.plan, r.plan);
      Repr := {this} + l.Repr + r.Repr;
    }

    /** Whatever the operator did before, opening it starts its full stream. */
    method Open() returns (ok: bool)
      requires Wf()
      modifies Repr
      ensures ok == Denote(plan).opens
      ensures ok ==> Ready() && Rest() == Denote(plan).feed
      decreases plan, 1
    {
      match kind
      case ScanKind =>
        rids, idx := live, 0;
        assert Fetched(live)[0..] == Fetched(live);
        return true;
      case FilterKind => ok := child.Open();
      case ProjectKind => ok := child.Open();
      case JoinKind => ok := OpenJoin();
    }

    /** A join fetches its first left row at once. */
    method OpenJoin() returns (ok: bool)
      requires Wf() && kind == JoinKind
      modifies Repr
      ensures ok == Denote(plan).opens
      ensures ok ==> Ready() && Rest() == Denote(plan).feed
      decreases plan, 0
    {
      hide Ready, Rest, Wf, JoinFeed, Denote;
      JoinState();
      ok := child.Open();
      if !ok { return; }
      ok := right.Open();
      if !ok { return; }
      var more, row;
      ok, more, row := child.Next();
      if !ok { return; }
      leftDone := !more;
      if more { leftRow := row; }
      JoinState();
    }

    /** The next row; more == false at the end; ok == false where the source throws. */
    method Next() returns (ok: bool, more: bool, row: Row)
      requires Wf() && Ready()
      modifies Repr
      ensures old(Rest()).rows != [] ==>
                ok && more && row == old(Rest()).rows[0]
                && Ready() && Rest() == Feed(old(Rest()).rows[1..], old(Rest()).ends)
      ensures old(Rest()).rows == [] && old(Rest()).ends ==> ok && !more && Ready() && Rest() == old(Rest())
      ensures old(Rest()).rows == [] && !old(Rest()).ends ==> !ok
      decreases plan, 2
    {
      match kind
      case ScanKind =>
        if idx < |rids| {
          ghost var rest := Fetched(rids)[idx..];
          var rid := rids[idx];
          idx := idx + 1;
          assert rest[1..] == Fetched(rids)[idx..];
          return true, true, heap[rid];
        }
        return true, false, [];
      case FilterKind => ok, more, row := NextFilter();
      case ProjectKind => ok, more, row := NextProject();
      case JoinKind => ok, more, row := NextJoin();
    }

    method NextFilter() returns (ok: bool, more: bool, row: Row)
      requires Wf() && Ready() && kind == FilterKind
      modifies Repr
      ensures old(Rest()).rows != [] ==>
                ok && more && row == old(Rest()).rows[0]
                && Ready() && Rest() == Feed(old(Rest()).rows[1..], old(Rest()).ends)
      ensures old(Rest()).rows == [] && old(Rest()).ends ==> ok && !more && Ready() && Rest() == old(Rest())
      ensures old(Rest()).rows == [] && !old(Rest()).ends ==> !ok
      decreases plan, 1
    {
      while true
        invariant Ready() && Rest() == old(Rest())
        decreases |child.Rest().rows|
      {
        ghost var feed := child.Rest();
        ok, more, row := child.Next();
        if !ok || !more { return; }
        var keep := EvalBoolean(exprs[0], row, colIdx);
        if keep.None? { return false, false, []; }
        if keep.value { return; }
      }
    }

    method NextProject() returns (ok: bool, more: bool, row: Row)
      requires Wf() && Ready() && kind == ProjectKind
      modifies Repr
      ensures old(Rest()).rows != [] ==>
                ok && more && row == old(Rest()).rows[0]
                && Ready() && Rest() == Feed(old(Rest()).rows[1..], old(Rest()).ends)
      ensures old(Rest()).rows == [] && old(Rest()).ends ==> ok && !more && Ready() && Rest() == old(Rest())
      ensures old(Rest()).rows == [] && !old(Rest()).ends ==> !ok
      decreases plan, 1
    {
      ghost var feed := child.Rest();
      var inRow;
      ok, more, inRow := child.Next();
      if !ok || !more { return ok, more, []; }
      row := [];
      for i := 0 to |exprs|
        invariant EvalAll(exprs[..i], inRow, colIdx) == Some(row)
      {
        assert exprs[..i + 1][..i] == exprs[..i];
        var v := Eval(exprs[i], inRow, colIdx);
        if v.None? {
          EvalAllMeaning(exprs, EnvOf(inRow, colIdx));
          return false, false, [];
        }
        row := row + [v.value];
      }
      assert exprs[..|exprs|] == exprs;
    }

    method NextJoin() returns (ok: bool, more: bool, row: Row)
      requires Wf() && Ready() && kind == JoinKind
      modifies Repr
      ensures old(Rest()).rows != [] ==>
                ok && more && row == old(Rest()).rows[0]
                && Ready() && Rest() == Feed(old(Rest()).rows[1..], old(Rest()).ends)
      ensures old(Rest()).rows == [] && old(Rest()).ends ==> ok && !more && Ready() && Rest() == old(Rest())
      ensures old(Rest()).rows == [] && !old(Rest()).ends ==> !ok
      decreases plan, 1
    {
      hide Ready, Rest, Wf, JoinFeed, Denote;
      JoinState();
      if leftDone { return true, false, []; }
      while true
        invariant Ready() && child.Ready() && right.Ready() && !leftDone && Rest() == old(Rest())
        decreases |child.Rest().rows|
      {
        JoinState();
        JoinSteps(leftRow, right.Rest(), child.Rest(), Denote(plan.right).feed.rows);
        var rightRow;
        ok, more, rightRow := right.Next();
        JoinState();
        if !ok { return false, false, []; }
        if more { return true, true, leftRow + rightRow; }
        ok, more := NextLeft(child.Rest());
        if !ok || !more { return ok, false, []; }
        JoinState();
      }
    }

    /** The right side is exhausted: start it again, and take the next left row. */
    method NextLeft(ghost lefts: Feed) returns (ok: bool, more: bool)
      requires Wf() && Ready() && kind == JoinKind && !leftDone
      requires right.Ready() && right.Rest() == Feed([], true) && child.Ready() && child.Rest() == lefts
      modifies Repr
      ensures lefts.rows != [] ==>
                ok && more && !leftDone && Ready() && child.Ready() && child.Rest() == Feed(lefts.rows[1..], lefts.ends)
                && Rest() == JoinFeed(lefts.rows[0], Denote(plan.right).feed, child.Rest(),
                          Denote(plan.right).feed.rows)
      ensures lefts.rows == [] && lefts.ends ==> ok && !more && Ready() && Rest() == Feed([], true)
      ensures lefts.rows == [] && !lefts.ends ==> !ok
      decreases plan, 0
    {
      hide Ready, Rest, Wf, JoinFeed, Denote;
      JoinState();
      right.Close();
      var reopened := right.Open();
      var l;
      ok, more, l := child.Next();
      if !ok { return; }
      if more { leftRow := l; } else { leftDone := true; }
      JoinState();
    }

    method Close()
      requires Wf()
      modifies Repr
      decreases plan
    {
      match kind
      case ScanKind => rids, idx := [], 0;
      case FilterKind => child.Close();
      case ProjectKind => child.Close();
      case JoinKind =>
        child.Close();
        right.Close();
    }
  }

  lemma MoveOver(done: seq<Row>, rest: seq<Row>)
    requires rest != []
    ensures done + rest == done + [rest[0]] + rest[1..]
  {
  }

  /** Drain a plan: exactly its denotation, or an exception exactly where that has one. */
  method Execute(root: Operator) returns (ok: bool, results: seq<Row>)
    requires root.Wf()
    modifies root.Repr
    ensures ok == (Denote(root.plan).opens && Denote(root.plan).feed.ends)
    ensures ok ==> results == Denote(root.plan).feed.rows
  {
    hide Operator.Ready, Operator.Rest, Operator.Wf, Denote;
    results := [];
    ok := root.Open();
    if !ok { return; }
    while true
      invariant root.Ready() && Denote(root.plan).feed == Feed(results + root.Rest().rows, root.Rest().ends)
      decreases |root.Rest().rows|
    {
      ghost var rest := root.Rest().rows;
      var more, row;
      ok, more, row := root.Next();
      if !ok { return; }
      if !more { break; }
      MoveOver(results, rest);
      results := results + [row];
    }
    root.Close();
  }
}
