/** Logical plans, what they mean, and the rewriter's two rules. */
module Plans {
  import opened Common
  import opened Expressions
  import O = Operators

  datatype Plan =
    | SeqScan(table: string)
    | Filter(pred: Expr, child: Plan)
    | Project(exprs: seq<Expr>, input: Plan)
    | Join(left: Plan, right: Plan)

  /** Column names of each table. */
  type Catalog = map<string, seq<string>>

  type Database = map<string, seq<Row>>

  function Qualified(table: string, column: string): string { table + "." + column }

  function TableNames(table: string, columns: seq<string>): seq<string> {
    seq(|columns|, i requires 0 <= i < |columns| => Qualified(table, columns[i]))
  }

  /** Every table of the catalog is there, and its rows have one field for each column. */
  ghost predicate Fits(cat: Catalog, db: Database) {
    forall t :: t in cat ==> t in db && RowsFit(|cat[t]|, db[t])
  }

  ghost predicate RowsFit(n: nat, rows: seq<Row>) {
    forall i :: 0 <= i < |rows| ==> |rows[i]| == n
  }

  // ---------- named relations ----------

  /** Rows whose fields have names. */
  datatype Relation = Relation(names: seq<string>, rows: seq<Row>)

  function IndexOf(names: seq<string>, c: string): (i: nat)
    ensures i <= |names| && (i < |names| ==> names[i] == c)
    ensures c in names <==> i < |names|
  {
    if names == [] then 0 else if names[0] == c then 0 else 1 + IndexOf(names[1..], c)
  }

  function NamedEnv(names: seq<string>, row: Row): Env {
    (c: string) =>
      var i := IndexOf(names, c);
      if i < |names| && i < |row| then Some(row[i]) else None
  }

  function KeepRows(pred: Expr, names: seq<string>, rows: seq<Row>): Option<seq<Row>>
    decreases |rows|
  {
    if rows == [] then Some([])
    else match (TruthIn(pred, NamedEnv(names, rows[0])), KeepRows(pred, names, rows[1..]))
      case (Some(keep), Some(rest)) => Some((if keep then [rows[0]] else []) + rest)
      case _ => None
  }

  function MapRows(exprs: seq<Expr>, names: seq<string>, rows: seq<Row>): Option<seq<Row>>
    decreases |rows|
  {
    if rows == [] then Some([])
    else match (EvalAllIn(exprs, NamedEnv(names, rows[0])), MapRows(exprs, names, rows[1..]))
      case (Some(row), Some(rest)) => Some([row] + rest)
      case _ => None
  }

  /** A plain column keeps its name; other expressions are named by their position. */
  function OutputName(e: Expr, i: nat): string {
    if e.ColumnRef? then e.name else "col" + Decimal(i)
  }

  function OutputNames(exprs: seq<Expr>): seq<string> {
    seq(|exprs|, i requires 0 <= i < |exprs| => OutputName(exprs[i], i))
  }

  /** None: some expression cannot be evaluated on some row, or a table is missing. */
  function Meaning(p: Plan, cat: Catalog, db: Database): Option<Relation> {
    match p
    case SeqScan(t) => if t in cat && t in db then Some(Relation(TableNames(t, cat[t]), db[t])) else None
    case Filter(pred, c) =>
      (match Meaning(c, cat, db)
       case None => None
       case Some(r) =>
         match KeepRows(pred, r.names, r.rows)
         case None => None
         case Some(rows) => Some(Relation(r.names, rows)))
    case Project(es, c) =>
      (match Meaning(c, cat, db)
       case None => None
       case Some(r) =>
         match MapRows(es, r.names, r.rows)
         case None => None
         case Some(rows) => Some(Relation(OutputNames(es), rows)))
    case Join(l, r) =>
      match (Meaning(l, cat, db), Meaning(r, cat, db))
      case (Some(a), Some(b)) => Some(Relation(a.names + b.names, O.Cross(a.rows, b.rows)))
      case _ => None
  }

  // ---------- plans whose names resolve ----------

  predicate Plain(es: seq<Expr>) { forall i :: 0 <= i < |es| ==> es[i].ColumnRef? }

  function Outputs(p: Plan, cat: Catalog): seq<string> {
    match p
    case SeqScan(t) => if t in cat then TableNames(t, cat[t]) else []
    case Filter(_, c) => Outputs(c, cat)
    case Project(es, _) => OutputNames(es)
    case Join(l, r) => Outputs(l, cat) + Outputs(r, cat)
  }

  /** Projections are plain columns, and every column that is used is produced below. */
  predicate Bound(p: Plan, cat: Catalog) {
    match p
    case SeqScan(t) => t in cat
    case Filter(pred, c) => Bound(c, cat) && forall x :: x in Columns(pred) ==> x in Outputs(c, cat)
    case Project(es, c) =>
      Bound(c, cat) && Plain(es) && forall i :: 0 <= i < |es| ==> es[i].name in Outputs(c, cat)
    case Join(l, r) => Bound(l, cat) && Bound(r, cat)
  }

  lemma {:induction false} KeepRowsFit(pred: Expr, names: seq<string>, rows: seq<Row>, n: nat)
    requires RowsFit(n, rows) && KeepRows(pred, names, rows).Some?
    ensures RowsFit(n, KeepRows(pred, names, rows).value)
    decreases |rows|
  {
    if rows != [] { KeepRowsFit(pred, names, rows[1..], n); }
  }

  lemma {:induction false} MapRowsFit(es: seq<Expr>, names: seq<string>, rows: seq<Row>)
    requires MapRows(es, names, rows).Some?
    ensures RowsFit(|es|, MapRows(es, names, rows).value)
    decreases |rows|
  {
    if rows != [] {
      EvalAllMeaning(es, NamedEnv(names, rows[0]));
      MapRowsFit(es, names, rows[1..]);
    }
  }

  lemma {:induction false} CrossFit(ls: seq<Row>, rs: seq<Row>, n: nat, m: nat)
    requires RowsFit(n, ls) && RowsFit(m, rs)
    ensures RowsFit(n + m, O.Cross(ls, rs))
    decreases |ls|
  {
    if ls != [] {
      PairsFit(ls[0], rs, n, m);
      CrossFit(ls[1..], rs, n, m);
    }
  }

  lemma {:induction false} PairsFit(l: Row, rs: seq<Row>, n: nat, m: nat)
    requires |l| == n && RowsFit(m, rs)
    ensures RowsFit(n + m, O.Pairs(l, rs))
    decreases |rs|
  {
    if rs != [] { PairsFit(l, rs[1..], n, m); }
  }

  /** A relation has the names that the plan promises, and rows as wide as its names. */
  lemma {:induction false} MeaningFits(p: Plan, cat: Catalog, db: Database)
    requires Fits(cat, db) && Meaning(p, cat, db).Some?
    ensures Meaning(p, cat, db).value.names == Outputs(p, cat)
    ensures RowsFit(|Outputs(p, cat)|, Meaning(p, cat, db).value.rows)
  {
    match p
    case SeqScan(_) =>
    case Filter(pred, c) =>
      MeaningFits(c, cat, db);
      var r := Meaning(c, cat, db).value;
      KeepRowsFit(pred, r.names, r.rows, |r.names|);
    case Project(es, c) =>
      MeaningFits(c, cat, db);
      var r := Meaning(c, cat, db).value;
      MapRowsFit(es, r.names, r.rows);
    case Join(l, r) =>
      MeaningFits(l, cat, db);
      MeaningFits(r, cat, db);
      CrossFit(Meaning(l, cat, db).value.rows, Meaning(r, cat, db).value.rows, |Outputs(l, cat)|, |Outputs(r, cat)|);
  }

  // ---------- swapping a filter with the projection below it ----------

  /** A projected row shows the kept columns as they were. */
  lemma ProjectedEnv(es: seq<Expr>, names: seq<string>, row: Row, c: string)
    requires Plain(es) && |row| == |names| && (forall i :: 0 <= i < |es| ==> es[i].name in names)
    ensures EvalAllIn(es, NamedEnv(names, row)).Some?
    ensures c in OutputNames(es) ==>
              NamedEnv(OutputNames(es), EvalAllIn(es, NamedEnv(names, row)).value)(c) == NamedEnv(names, row)(c)
  {
    EvalAllMeaning(es, NamedEnv(names, row));
    assert forall i :: 0 <= i < |es| ==> IndexOf(names, es[i].name) < |names|;
    if c in OutputNames(es) {
      var k := IndexOf(OutputNames(es), c);
      assert es[k].name == c;
    }
  }

  lemma KeepCons(pred: Expr, names: seq<string>, row: Row, rows: seq<Row>)
    ensures KeepRows(pred, names, [row] + rows)
         == match (TruthIn(pred, NamedEnv(names, row)), KeepRows(pred, names, rows))
            case (Some(keep), Some(rest)) => Some(if keep then [row] + rest else rest)
            case _ => None
  {
    assert ([row] + rows)[1..] == rows;
    match KeepRows(pred, names, rows)
    case None =>
    case Some(rest) => assert [] + rest == rest;
  }

  lemma MapCons(es: seq<Expr>, names: seq<string>, row: Row, rows: seq<Row>)
    ensures MapRows(es, names, [row] + rows)
         == match (EvalAllIn(es, NamedEnv(names, row)), MapRows(es, names, rows))
            case (Some(m), Some(ms)) => Some([m] + ms)
            case _ => None
  {
    assert ([row] + rows)[1..] == rows;
  }

  lemma {:induction false} SwapRows(pred: Expr, es: seq<Expr>, names: seq<string>, rows: seq<Row>)
    requires Plain(es) && RowsFit(|names|, rows) && (forall i :: 0 <= i < |es| ==> es[i].name in names)
    requires forall c :: c in Columns(pred) ==> c in OutputNames(es)
    ensures MapRows(es, names, rows).Some?
    ensures KeepRows(pred, OutputNames(es), MapRows(es, names, rows).value)
         == match KeepRows(pred, names, rows) case None => None case Some(kept) => MapRows(es, names, kept)
    decreases |rows|
  {
    if rows == [] {
      assert MapRows(es, names, rows).value == [];
    } else {
      hide KeepRows, MapRows, NamedEnv;
      var hd, tl := rows[0], rows[1..];
      assert rows == [hd] + tl;
      SwapRows(pred, es, names, tl);
      forall c { ProjectedEnv(es, names, hd, c); }
      var row, mapped := EvalAllIn(es, NamedEnv(names, hd)).value, MapRows(es, names, tl).value;
      EvalNames(pred, NamedEnv(OutputNames(es), row), NamedEnv(names, hd));
      KeepCons(pred, names, hd, tl);
      MapCons(es, names, hd, tl);
      KeepCons(pred, OutputNames(es), row, mapped);
      if KeepRows(pred, names, tl).Some? { MapCons(es, names, hd, KeepRows(pred, names, tl).value); }
    }
  }

  lemma SwapBound(pred: Expr, es: seq<Expr>, c: Plan, cat: Catalog)
    requires Bound(Filter(pred, Project(es, c)), cat)
    ensures Bound(Project(es, Filter(pred, c)), cat)
    ensures Bound(c, cat) && Plain(es) && (forall i :: 0 <= i < |es| ==> es[i].name in Outputs(c, cat))
    ensures forall x :: x in Columns(pred) ==> x in OutputNames(es)
  {
    hide Columns;
    forall x | x in Columns(pred)
      ensures x in Outputs(c, cat)
    {
      assert x in OutputNames(es);
      var i :| 0 <= i < |es| && OutputNames(es)[i] == x;
      assert es[i].name == x;
    }
  }

  /** Filter over Project is Project over Filter, if the filter uses kept columns only. */
  lemma Swap(pred: Expr, es: seq<Expr>, c: Plan, cat: Catalog, db: Database)
    requires Fits(cat, db) && Bound(Filter(pred, Project(es, c)), cat)
    ensures Meaning(Project(es, Filter(pred, c)), cat, db) == Meaning(Filter(pred, Project(es, c)), cat, db)
    ensures Bound(Project(es, Filter(pred, c)), cat)
  {
    hide KeepRows, MapRows, Columns, TableNames, Fits, Plain, OutputNames, Bound, Outputs;
    SwapBound(pred, es, c, cat);
    if Meaning(c, cat, db).Some? {
      MeaningFits(c, cat, db);
      SwapRows(pred, es, Outputs(c, cat), Meaning(c, cat, db).value.rows);
    }
  }

  /** A filter on a column that the projection drops has no value on any row. */
  lemma DroppedColumn(pred: Expr, names: seq<string>, rows: seq<Row>, x: string)
    requires x in Columns(pred) && x !in names
    ensures KeepRows(pred, names, rows) == if rows == [] then Some([]) else None
  {
    if rows != [] { EvalStrict(pred, NamedEnv(names, rows[0]), x); }
  }

  lemma {:induction false} MapAlways(es: seq<Expr>, names: seq<string>, rows: seq<Row>)
    requires Plain(es) && RowsFit(|names|, rows) && forall i :: 0 <= i < |es| ==> es[i].name in names
    ensures MapRows(es, names, rows).Some? && |MapRows(es, names, rows).value| == |rows|
    decreases |rows|
  {
    if rows != [] {
      ProjectedEnv(es, names, rows[0], "");
      MapAlways(es, names, rows[1..]);
    }
  }

  /** The swap is right exactly if the filter uses kept columns only, or there are no rows,
      or the filter cannot be evaluated below the projection either. */
  lemma SwapExact(pred: Expr, es: seq<Expr>, c: Plan, cat: Catalog, db: Database)
    requires Fits(cat, db) && Bound(Project(es, c), cat) && Meaning(c, cat, db).Some?
    ensures Meaning(Project(es, Filter(pred, c)), cat, db) == Meaning(Filter(pred, Project(es, c)), cat, db)
            <==> (forall x :: x in Columns(pred) ==> x in OutputNames(es))
                 || Meaning(c, cat, db).value.rows == [] || Meaning(Filter(pred, c), cat, db).None?
  {
    hide KeepRows, MapRows, Columns, TableNames, Fits, Plain, OutputNames, Bound, Outputs;
    var names, rows := Outputs(c, cat), Meaning(c, cat, db).value.rows;
    MeaningFits(c, cat, db);
    PlainProject(es, c, cat);
    MapAlways(es, names, rows);
    if forall x :: x in Columns(pred) ==> x in OutputNames(es) {
      SwapRows(pred, es, names, rows);
    } else {
      var x :| x in Columns(pred) && x !in OutputNames(es);
      DroppedColumn(pred, OutputNames(es), MapRows(es, names, rows).value, x);
      if rows == [] {
        NoRows(pred, es, names);
      } else if KeepRows(pred, names, rows).Some? {
        KeepRowsFit(pred, names, rows, |names|);
        MapAlways(es, names, KeepRows(pred, names, rows).value);
      }
    }
  }

  lemma NoRows(pred: Expr, es: seq<Expr>, names: seq<string>)
    ensures KeepRows(pred, names, []) == Some([]) && MapRows(es, names, []) == Some([])
  {
  }

  lemma PlainProject(es: seq<Expr>, c: Plan, cat: Catalog)
    requires Bound(Project(es, c), cat)
    ensures Plain(es) && forall i :: 0 <= i < |es| ==> es[i].name in Outputs(c, cat)
  {
  }

  /** One bottom-up pass: children first, then this node. */
  function PushDown(p: Plan): Plan {
    match p
    case SeqScan(_) => p
    case Filter(pred, c) =>
      var c' := PushDown(c);
      if c'.Project? then Project(c'.exprs, Filter(pred, c'.input)) else Filter(pred, c')
    case Project(es, c) => Project(es, PushDown(c))
    case Join(l, r) => Join(PushDown(l), PushDown(r))
  }

  /** The pass preserves the meaning of plans of any shape and depth. */
  lemma {:induction false} PushDownMeaning(p: Plan, cat: Catalog, db: Database)
    requires Fits(cat, db) && Bound(p, cat)
    ensures Meaning(PushDown(p), cat, db) == Meaning(p, cat, db)
    ensures Bound(PushDown(p), cat) && Outputs(PushDown(p), cat) == Outputs(p, cat)
  {
    hide KeepRows, MapRows, Plain, OutputNames, Columns, TableNames, Fits;
    match p
    case SeqScan(_) =>
    case Filter(pred, c) =>
      PushDownMeaning(c, cat, db);
      var c' := PushDown(c);
      if c'.Project? { Swap(pred, c'.exprs, c'.input, cat, db); }
    case Project(es, c) => PushDownMeaning(c, cat, db);
    case Join(l, r) =>
      PushDownMeaning(l, cat, db);
      PushDownMeaning(r, cat, db);
  }

  // ---------- dropping an identity projection ----------

  /** The rewriter's test, as written: column i is called table.i; the length is not
      compared. */
  predicate LooksIdentical(es: seq<Expr>, table: string) {
    forall i :: 0 <= i < |es| ==> es[i] == ColumnRef(Qualified(table, Decimal(i)))
  }

  function Prune(p: Plan): Plan {
    match p
    case SeqScan(_) => p
    case Filter(pred, c) => Filter(pred, Prune(c))
    case Join(l, r) => Join(Prune(l), Prune(r))
    case Project(es, c) =>
      var c' := Prune(c);
      if c'.SeqScan? && LooksIdentical(es, c'.table) then c' else Project(es, c')
  }

  lemma {:induction false} MapAll(es: seq<Expr>, names: seq<string>, rows: seq<Row>)
    requires Plain(es) && OutputNames(es) == names && RowsFit(|names|, rows)
    requires forall i, j :: 0 <= i < j < |names| ==> names[i] != names[j]
    ensures MapRows(es, names, rows) == Some(rows)
    decreases |rows|
  {
    if rows != [] {
      MapAll(es, names, rows[1..]);
      assert rows == [rows[0]] + rows[1..];
      var env := NamedEnv(names, rows[0]);
      forall i | 0 <= i < |es|
        ensures EvalIn(es[i], env) == Some(rows[0][i])
      {
        assert names[i] == es[i].name && IndexOf(names, names[i]) == i;
      }
      EvalAllMeaning(es, env);
      assert EvalAllIn(es, env).value == rows[0];
    }
  }

  ghost predicate DistinctColumns(cat: Catalog) {
    forall t :: t in cat ==> forall i, j :: 0 <= i < j < |cat[t]| ==> cat[t][i] != cat[t][j]
  }

  /** Dropping a projection of plain columns is right exactly if its list is the table's
      full column list in order. */
  lemma DropExact(es: seq<Expr>, t: string, cat: Catalog, db: Database)
    requires Fits(cat, db) && DistinctColumns(cat) && t in cat && Bound(Project(es, SeqScan(t)), cat)
    ensures Meaning(Project(es, SeqScan(t)), cat, db) == Meaning(SeqScan(t), cat, db)
            <==> OutputNames(es) == TableNames(t, cat[t])
  {
    var names := TableNames(t, cat[t]);
    if OutputNames(es) == names {
      forall i, j | 0 <= i < j < |names|
        ensures names[i] != names[j]
      {
        assert names[i][|t| + 1..] == cat[t][i] && names[j][|t| + 1..] == cat[t][j];
      }
      MapAll(es, names, db[t]);
    }
  }

  /** The columns of the table are called 0, 1, and so on, and the projection has them all. */
  predicate NumberedTable(es: seq<Expr>, columns: seq<string>) {
    |es| == |columns| && forall i :: 0 <= i < |columns| ==> columns[i] == Decimal(i)
  }

  /** Where the rewriter's test succeeds, dropping is right exactly for such tables. */
  lemma TestExact(es: seq<Expr>, t: string, cat: Catalog, db: Database)
    requires Fits(cat, db) && DistinctColumns(cat) && t in cat && Bound(Project(es, SeqScan(t)), cat)
              && LooksIdentical(es, t)
    ensures Meaning(Project(es, SeqScan(t)), cat, db) == Meaning(SeqScan(t), cat, db) <==> NumberedTable(es, cat[t])
  {
    DropExact(es, t, cat, db);
    var names, columns := TableNames(t, cat[t]), cat[t];
    if OutputNames(es) == names {
      forall i | 0 <= i < |columns|
        ensures columns[i] == Decimal(i)
      {
        assert OutputNames(es)[i] == Qualified(t, Decimal(i)) && names[i] == Qualified(t, columns[i]);
        assert names[i][|t| + 1..] == columns[i] && OutputNames(es)[i][|t| + 1..] == Decimal(i);
      }
    }
  }

  /** Every projection that the test accepts has all columns of such a table. */
  ghost predicate PruneSafe(p: Plan, cat: Catalog) {
    match p
    case SeqScan(_) => true
    case Filter(_, c) => PruneSafe(c, cat)
    case Join(l, r) => PruneSafe(l, cat) && PruneSafe(r, cat)
    case Project(es, c) =>
      PruneSafe(c, cat)
      && (Prune(c).SeqScan? && Prune(c).table in cat && LooksIdentical(es, Prune(c).table)
          ==> NumberedTable(es, cat[Prune(c).table]))
  }

  lemma {:induction false} PruneMeaning(p: Plan, cat: Catalog, db: Database)
    requires Fits(cat, db) && DistinctColumns(cat) && Bound(p, cat) && PruneSafe(p, cat)
    ensures Meaning(Prune(p), cat, db) == Meaning(p, cat, db)
    ensures Bound(Prune(p), cat) && Outputs(Prune(p), cat) == Outputs(p, cat)
  {
    hide KeepRows, MapRows, Columns, TableNames, Fits, DistinctColumns, NumberedTable, LooksIdentical;
    match p
    case SeqScan(_) =>
    case Filter(_, c) => PruneMeaning(c, cat, db);
    case Join(l, r) =>
      PruneMeaning(l, cat, db);
      PruneMeaning(r, cat, db);
    case Project(es, c) =>
      PruneMeaning(c, cat, db);
      var c' := Prune(c);
      if c'.SeqScan? && LooksIdentical(es, c'.table) {
        TestExact(es, c'.table, cat, db);
        DropExact(es, c'.table, cat, db);
      }
  }

  /** The test accepts the empty list: dropping that projection widens the rows. */
  lemma EmptyListIsDropped()
    ensures var cat: Catalog := map["t" := ["a"]]; var db: Database := map["t" := [[IntV(1)]]];
            var p := Project([], SeqScan("t"));
            Prune(p) == SeqScan("t") && Meaning(Prune(p), cat, db) != Meaning(p, cat, db)
  {
    var cat: Catalog := map["t" := ["a"]];
    assert |TableNames("t", cat["t"])| == 1 && |OutputNames([])| == 0;
  }
}
