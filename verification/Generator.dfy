/** The physical plan generator, and a SELECT statement from its text's tree to its rows. */
module Generator {
  import opened Common
  import opened Expressions
  import opened Plans
  import opened Rewriter
  import opened Planner
  import opened Answers
  import O = Operators

  // ---------- the join's column map, as written ----------

  /** Positions handed out in the order in which the two hash maps happen to be visited. */
  function HashOrder(ls: seq<string>, rs: seq<string>): ColIdx {
    IndexMap(ls + rs)
  }

  ghost predicate Visits(names: seq<string>, m: ColIdx) {
    (forall x :: x in m <==> x in names) && forall i, j :: 0 <= i < j < |names| ==> names[i] != names[j]
  }

  /** Of a name that both sides have, as in a self-join, the right one counts. */
  lemma {:induction false} HashOrderParts(ls: seq<string>, rs: seq<string>)
    ensures HashOrder(ls, rs) == Combined(IndexMap(ls), IndexMap(rs), |ls|)
    decreases |rs|
  {
    if rs == [] {
      assert ls + rs == ls;
    } else {
      var n := |rs| - 1;
      HashOrderParts(ls, rs[..n]);
      assert (ls + rs)[..|ls| + n] == ls + rs[..n];
    }
  }

  lemma VisitedAt(names: seq<string>, m: ColIdx, i: nat)
    requires Visits(names, m) && i < |names|
    ensures names[i] in m && names[i] in IndexMap(names) && IndexMap(names)[names[i]] == i
  {
    IndexMapMeaning(names, names[i]);
  }

  lemma VisitedKeys(names: seq<string>, m: ColIdx)
    requires Visits(names, m)
    ensures IndexMap(names).Keys == m.Keys
  {
    forall x
      ensures x in IndexMap(names) <==> x in m
    {
      IndexMapMeaning(names, x);
    }
  }

  /** The map as written is the intended one, for a left side of the given width, exactly if
      the left map is visited in the order of its columns, as far as the right side does
      not have the same names, and the right one too, and the left has that many names. */
  lemma HashOrderExact(l: ColIdx, r: ColIdx, ls: seq<string>, rs: seq<string>, width: nat)
    requires Visits(ls, l) && Visits(rs, r)
    ensures HashOrder(ls, rs) == Combined(l, r, width)
            <==> (forall i :: 0 <= i < |ls| && ls[i] !in rs ==> l[ls[i]] == i)
                 && (forall i :: 0 <= i < |rs| ==> width + r[rs[i]] == |ls| + i)
  {
    hide HashOrder, IndexMap, Visits;
    var h, c, a, b := HashOrder(ls, rs), Combined(l, r, width), IndexMap(ls), IndexMap(rs);
    HashOrderParts(ls, rs);
    VisitedKeys(ls, l);
    VisitedKeys(rs, r);
    assert forall x :: (x in ls <==> x in l) && (x in rs <==> x in r) by { SameNames(ls, l); SameNames(rs, r); }
    forall i | 0 <= i < |ls|
      ensures ls[i] in c && c[ls[i]] == if ls[i] in rs then width + r[ls[i]] else l[ls[i]]
      ensures ls[i] !in rs ==> h[ls[i]] == i
    {
      VisitedAt(ls, l, i);
    }
    forall i | 0 <= i < |rs|
      ensures rs[i] in c && c[rs[i]] == width + r[rs[i]] && h[rs[i]] == |ls| + i
    {
      VisitedAt(rs, r, i);
    }
    assert h.Keys == c.Keys;
    if (forall i :: 0 <= i < |ls| && ls[i] !in rs ==> l[ls[i]] == i)
       && (forall i :: 0 <= i < |rs| ==> width + r[rs[i]] == |ls| + i) {
      forall x | x in c
        ensures h[x] == c[x]
      {
        if x in rs {
          var i :| 0 <= i < |rs| && rs[i] == x;
        } else {
          var i :| 0 <= i < |ls| && ls[i] == x;
        }
      }
    }
  }

  lemma SameNames(names: seq<string>, m: ColIdx)
    requires Visits(names, m)
    ensures forall x :: x in names <==> x in m
  {
  }

  /** Two columns visited the other way round: the first name is given the second field. */
  lemma HashOrderSwapsFields(a: FieldValue, b: FieldValue)
    requires a != b
    ensures var l: ColIdx := map["t.a" := 0, "t.b" := 1];
            Visits(["t.b", "t.a"], l)
            && EnvOf([a, b], Combined(l, map[], 2))("t.a") == Some(a)
            && EnvOf([a, b], HashOrder(["t.b", "t.a"], []))("t.a") == Some(b)
  {
    var names := ["t.b", "t.a"];
    assert names + [] == names;
    IndexMapMeaning(names, "t.a");
    assert IndexOf(names, "t.a") == 1 by { assert names[1..] == ["t.a"]; }
  }

  // ---------- the generator ----------

  /** What the storage engine has of a table: live ids in scan order, and their rows. */
  datatype StoredTable = StoredTable(live: seq<RecordID>, heap: map<RecordID, Row>)

  type Store = map<string, StoredTable>

  ghost predicate Sound(t: StoredTable) {
    forall i :: 0 <= i < |t.live| ==> t.live[i] in t.heap
  }

  ghost function RowsOf(t: StoredTable): seq<Row>
    requires Sound(t)
  {
    seq(|t.live|, i requires 0 <= i < |t.live| => t.heap[t.live[i]])
  }

  ghost predicate Holds(store: Store, db: Database) {
    store.Keys == db.Keys && forall t :: t in store ==> Sound(store[t]) && db[t] == RowsOf(store[t])
  }

  method NumberNames(names: seq<string>) returns (m: ColIdx)
    ensures m == IndexMap(names)
  {
    m := map[];
    for i := 0 to |names|
      invariant m == IndexMap(names[..i])
    {
      assert names[..i + 1][..i] == names[..i];
      m := m[names[i] := i];
    }
    assert names[..|names|] == names;
  }

  /** Fails (the source throws) if a table is unknown.  The operators use the intended
      positions at a join. */
  method Generate(node: LogicalOperator, cat: Catalog, store: Store, ghost db: Database)
    returns (ok: bool, op: O.Operator?, colIdx: ColIdx, width: nat)
    requires node.Valid() && Holds(store, db)
    ensures ok <==> Known(node.tree, cat, db)
    ensures ok ==> op != null && op.Wf() && fresh(op.Repr)
    ensures ok ==> Generated(op.plan, colIdx, width) == Gen(node.tree, cat, db)
    decreases node.tree
  {
    hide Gen, IndexMap, Combined, O.Operator.Wf;
    if Known(node.tree, cat, db) { GenOpen(node.tree, cat, db); }
    if node.opType == SeqScanOp {
      var t := node.tableName;
      if t !in cat || t !in store { return false, null, map[], 0; }
      op := new O.Operator.TableScan(store[t].live, store[t].heap);
      colIdx := NumberNames(TableNames(t, cat[t]));
      return true, op, colIdx, |cat[t]|;
    }
    var c;
    ok, c, colIdx, width := Generate(node.child, cat, store, db);
    if !ok { return false, null, map[], 0; }
    if node.opType == FilterOp {
      op := new O.Operator.Filter(c, node.exprs[0], colIdx);
    } else if node.opType == ProjectOp {
      op := new O.Operator.Project(c, node.exprs, colIdx);
      colIdx := NumberNames(ColNames(|node.exprs|));
      width := |node.exprs|;
    } else {
      var r, rightIdx, rightWidth;
      ok, r, rightIdx, rightWidth := Generate(node.right, cat, store, db);
      if !ok { return false, null, map[], 0; }
      op := new O.Operator.Join(c, r);
      colIdx := Combined(colIdx, rightIdx, width);
      width := width + rightWidth;
    }
  }

  lemma GenOpen(p: Plan, cat: Catalog, db: Database)
    requires Known(p, cat, db)
    ensures match p
            case SeqScan(t) =>
              Gen(p, cat, db) == Generated(O.TableScan(db[t]), IndexMap(TableNames(t, cat[t])), |cat[t]|)
            case Filter(e, c) =>
              var g := Gen(c, cat, db);
              Gen(p, cat, db) == Generated(O.Filter(e, g.colIdx, g.phys), g.colIdx, g.width)
            case Project(es, c) =>
              var g := Gen(c, cat, db);
              Gen(p, cat, db) == Generated(O.Project(es, g.colIdx, g.phys), IndexMap(ColNames(|es|)), |es|)
            case Join(l, r) =>
              var a, b := Gen(l, cat, db), Gen(r, cat, db);
              Gen(p, cat, db)
              == Generated(O.Join(a.phys, b.phys), Combined(a.colIdx, b.colIdx, a.width), a.width + b.width)
  {
  }

  // ---------- a whole SELECT ----------

  /** The rewriter drops the projection of this statement. */
  predicate Drops(s: Select) {
    |s.tables| == 1 && s.where.None? && LooksIdentical(s.selectList, s.tables[0])
  }

  /** What rewriting does to a planned SELECT: nothing, or it drops the projection of a bare
      scan. */
  lemma {:induction false} RewrittenSelect(s: Select, k: nat)
    requires s.tables != [] && k >= 1
    ensures Passes(SelectPlan(s), k) == if Drops(s) then SeqScan(s.tables[0]) else SelectPlan(s)
  {
    hide LooksIdentical;
    LeftDeepFixed(s.tables);
    assert PushDown(SelectPlan(s)) == SelectPlan(s);
    assert Prune(Filtered(s)) == Filtered(s);
    if k > 1 {
      RewrittenSelect(s, k - 1);
    } else {
      assert Passes(SelectPlan(s), 0) == SelectPlan(s);
    }
  }

  lemma {:induction false} LeftDeepFixed(tables: seq<string>)
    requires tables != []
    ensures PushDown(LeftDeep(tables)) == LeftDeep(tables) && Prune(LeftDeep(tables)) == LeftDeep(tables)
    ensures if |tables| == 1 then LeftDeep(tables) == SeqScan(tables[0]) else LeftDeep(tables).Join?
    decreases |tables|
  {
    if |tables| > 1 { LeftDeepFixed(tables[..|tables| - 1]); }
  }

  lemma {:induction false} BareScan(s: Select, t: string, cat: Catalog, rows: seq<Row>)
    requires s.tables == [t] && s.where.None? && t in cat && RowsFit(|cat[t]|, rows)
    ensures SelectRows(Extend1([], rows), s, cat) == MapRows(s.selectList, TableNames(t, cat[t]), rows)
    decreases |rows|
  {
    if rows != [] {
      var c: Combo, tl := [] + [rows[0]], Extend1([], rows[1..]);
      BareScan(s, t, cat, rows[1..]);
      assert ([c] + tl)[1..] == tl && c == [rows[0]];
      assert s.tables[..0] == [];
      forall x
        ensures ComboEnv(s.tables, cat, c)(x) == NamedEnv(TableNames(t, cat[t]), rows[0])(x)
      {
        assert ComboField(s.tables[..0], cat, c[..0], x) == None;
      }
      EvalAllSame(s.selectList, ComboEnv(s.tables, cat, c), NamedEnv(TableNames(t, cat[t]), rows[0]));
    }
  }

  lemma BareSelect(s: Select, cat: Catalog, db: Database)
    requires |s.tables| == 1 && s.where.None? && AllKnown(s.tables, cat, db) && Fits(cat, db)
    ensures var t := s.tables[0];
            SelectRows(Combos(s.tables, db), s, cat) == MapRows(s.selectList, TableNames(t, cat[t]), db[t])
  {
    var t := s.tables[0];
    assert s.tables == [t] && s.tables[..0] == [];
    var one: seq<Combo> := [[]];
    assert Combos([], db) == one && one[1..] == [];
    assert Combos(s.tables, db) == Extend(one, db[t]);
    assert Extend(one, db[t]) == Extend1([], db[t]) + Extend([], db[t]) == Extend1([], db[t]);
    BareScan(s, t, cat, db[t]);
  }

  /** Where the projection is rightly dropped, the statement asked for the table as it is. */
  lemma DroppedProjection(s: Select, cat: Catalog, db: Database)
    requires Drops(s) && AllKnown(s.tables, cat, db) && Fits(cat, db) && DistinctColumns(cat)
    requires NumberedTable(s.selectList, cat[s.tables[0]])
    ensures SelectRows(Combos(s.tables, db), s, cat) == Some(db[s.tables[0]])
  {
    var t := s.tables[0];
    BareSelect(s, cat, db);
    NamesDistinct(t, cat);
    assert OutputNames(s.selectList) == TableNames(t, cat[t]);
    MapAll(s.selectList, TableNames(t, cat[t]), db[t]);
  }

  /** What executing the statement gives: what it says, or, if the projection is dropped,
      the rows of the table. */
  function Answer(s: Select, cat: Catalog, db: Database): Option<seq<Row>>
    requires forall i :: 0 <= i < |s.tables| ==> s.tables[i] in db
  {
    if Drops(s) then Some(db[s.tables[0]]) else SelectRows(Combos(s.tables, db), s, cat)
  }

  /** Plan, rewrite, generate, execute: the answer, and an exception exactly if there is
      none. */
  method ExecuteSelect(s: Select, cat: Catalog, store: Store, ghost db: Database) returns (ok: bool, rows: seq<Row>)
    requires Holds(store, db) && Fits(cat, db) && DistinctColumns(cat)
    ensures ok <==> s.tables != [] && AllKnown(s.tables, cat, db) && Answer(s, cat, db).Some?
    ensures ok ==> Some(rows) == Answer(s, cat, db)
    ensures ok <==> s.tables != [] && AllKnown(s.tables, cat, db)
                    && (Drops(s) || forall k :: 0 <= k < |Combos(s.tables, db)| ==>
                          Defined(s, cat, Combos(s.tables, db)[k]))
    ensures ok ==> if Drops(s) then rows == db[s.tables[0]]
                   else exists picks :: Picked(s, cat, Combos(s.tables, db), rows, picks)
  {
    hide SelectRows, Gen, O.Denote, Fits, DistinctColumns, LooksIdentical, Combos, Defined, Picked, Drops;
    var plan := BuildLogicalPlan(s);
    if plan == null { return false, []; }
    var root := RewritePlan(plan);
    ghost var k := PassCount(SelectPlan(s), 0);
    RewrittenSelect(s, k);
    KnownTables(s, cat, db);
    var op, colIdx, width;
    ok, op, colIdx, width := Generate(root, cat, store, db);
    if !ok { return false, []; }
    ghost var picks := [];
    if Drops(s) {
      OneScan(s);
      ScanRows(s.tables[0], cat, db);
    } else {
      SelectMeaning(s, cat, db);
      picks := SelectRowsExact(Combos(s.tables, db), s, cat);
    }
    ok, rows := O.Execute(op);
    assert ok && !Drops(s) ==> Picked(s, cat, Combos(s.tables, db), rows, picks);
  }

  lemma OneScan(s: Select)
    requires Drops(s)
    ensures |s.tables| == 1
  {
  }

  /** SELECT all columns WHERE column < literal: exactly the rows with a smaller value, in
      the order of the table, and never an exception. */
  method SelectBelow(t: string, j: nat, v: int, cat: Catalog, store: Store, ghost db: Database)
    returns (ok: bool, rows: seq<Row>)
    requires Holds(store, db) && Fits(cat, db) && DistinctColumns(cat)
    requires t in cat && '.' !in t && j < |cat[t]| && forall i :: 0 <= i < |db[t]| ==> db[t][i][j].IntV?
    ensures ok
    ensures exists picks ::
              |picks| == |rows| && Rising(picks)
              && (forall i :: 0 <= i < |picks| ==> picks[i] < |db[t]| && rows[i] == db[t][picks[i]])
              && forall k: nat :: k in picks <==> k < |db[t]| && db[t][k][j].i < v
  {
    hide SelectRows, Combos;
    ghost var picks := BelowExact(t, cat, db, j, v);
    ok, rows := ExecuteSelect(Below(t, cat, j, v), cat, store, db);
  }

  /** A row that tells its columns apart. */
  function Numbers(n: nat): Row { seq(n, i requires 0 <= i < n => IntV(i)) }

  /** A table with one such row. */
  function OneRow(cat: Catalog, t: string): Database {
    map u | u in cat :: if u == t then [Numbers(|cat[t]|)] else []
  }

  lemma ToldApart(es: seq<Expr>, t: string, columns: seq<string>)
    requires LooksIdentical(es, t)
    requires MapRows(es, TableNames(t, columns), [Numbers(|columns|)]) == Some([Numbers(|columns|)])
    ensures NumberedTable(es, columns)
  {
    var names, row := TableNames(t, columns), Numbers(|columns|);
    assert [row] + [] == [row];
    MapCons(es, names, row, []);
    assert EvalAllIn(es, NamedEnv(names, row)) == Some(row);
    EvalAllMeaning(es, NamedEnv(names, row));
    forall i | 0 <= i < |columns|
      ensures columns[i] == Decimal(i)
    {
      var x := Qualified(t, Decimal(i));
      assert es[i] == ColumnRef(x) && EvalIn(es[i], NamedEnv(names, row)) == Some(IntV(i));
      assert names[i] == x && x[|t| + 1..] == Decimal(i) && names[i][|t| + 1..] == columns[i];
    }
  }

  /** The answer is what the statement says, whatever the tables hold, exactly if the
      projection is not dropped, or it is the whole table with columns 0, 1, and so on. */
  lemma AnswerExact(s: Select, cat: Catalog)
    requires DistinctColumns(cat) && forall i :: 0 <= i < |s.tables| ==> s.tables[i] in cat
    ensures (forall db :: Fits(cat, db) ==> Answer(s, cat, db) == SelectRows(Combos(s.tables, db), s, cat))
            <==> (Drops(s) ==> NumberedTable(s.selectList, cat[s.tables[0]]))
  {
    hide SelectRows, NumberedTable, LooksIdentical, DistinctColumns;
    if Drops(s) {
      var t := s.tables[0];
      if NumberedTable(s.selectList, cat[t]) {
        forall db | Fits(cat, db)
          ensures Answer(s, cat, db) == SelectRows(Combos(s.tables, db), s, cat)
        {
          DroppedProjection(s, cat, db);
        }
      } else {
        var db := OneRow(cat, t);
        assert Fits(cat, db) && db[t] == [Numbers(|cat[t]|)];
        BareSelect(s, cat, db);
        if MapRows(s.selectList, TableNames(t, cat[t]), db[t]) == Some(db[t]) { ToldApart(s.selectList, t, cat[t]); }
      }
    }
  }

  lemma ScanRows(t: string, cat: Catalog, db: Database)
    requires Known(SeqScan(t), cat, db)
    ensures O.Denote(Gen(SeqScan(t), cat, db).phys) == O.Stream(true, O.Feed(db[t], true))
  {
  }

  lemma KnownTables(s: Select, cat: Catalog, db: Database)
    requires s.tables != []
    ensures Known(SelectPlan(s), cat, db) <==> AllKnown(s.tables, cat, db)
    ensures |s.tables| == 1 ==> (Known(SeqScan(s.tables[0]), cat, db) <==> AllKnown(s.tables, cat, db))
  {
    KnownLeftDeep(s.tables, cat, db);
  }

  lemma {:induction false} KnownLeftDeep(tables: seq<string>, cat: Catalog, db: Database)
    requires tables != []
    ensures Known(LeftDeep(tables), cat, db) <==> AllKnown(tables, cat, db)
    decreases |tables|
  {
    var n := |tables| - 1;
    if n > 0 {
      var init := tables[..n];
      KnownLeftDeep(init, cat, db);
      assert forall i :: 0 <= i < n ==> init[i] == tables[i];
      assert AllKnown(tables, cat, db) <==> AllKnown(init, cat, db) && tables[n] in cat && tables[n] in db;
    }
  }
}
