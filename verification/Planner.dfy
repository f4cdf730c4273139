/** From a SELECT statement to operators: the planner, the physical plan generator, and
    why the operators compute what the statement says. */
module Planner {
  import opened Common
  import opened Expressions
  import opened Plans
  import opened Rewriter
  import O = Operators

  datatype Select = Select(selectList: seq<Expr>, tables: seq<string>, where: Option<Expr>)

  // ---------- what a SELECT says ----------

  /** A choice of one row from each table. */
  type Combo = seq<Row>

  function Extend1(c: Combo, rows: seq<Row>): seq<Combo> {
    if rows == [] then [] else [c + [rows[0]]] + Extend1(c, rows[1..])
  }

  function Extend(cs: seq<Combo>, rows: seq<Row>): seq<Combo> {
    if cs == [] then [] else Extend1(cs[0], rows) + Extend(cs[1..], rows)
  }

  /** All choices; those of earlier tables vary slowest. */
  function Combos(tables: seq<string>, db: Database): seq<Combo>
    requires forall i :: 0 <= i < |tables| ==> tables[i] in db
  {
    if tables == [] then [[]] else Extend(Combos(tables[..|tables| - 1], db), db[tables[|tables| - 1]])
  }

  /** A qualified name stands for its field of its table's row. */
  function ComboEnv(tables: seq<string>, cat: Catalog, c: Combo): Env {
    (x: string) => ComboField(tables, cat, c, x)
  }

  function ComboField(tables: seq<string>, cat: Catalog, c: Combo, x: string): Option<FieldValue> {
    if tables == [] || |c| != |tables| then None
    else
      var t, row := tables[|tables| - 1], c[|c| - 1];
      var names := if t in cat then TableNames(t, cat[t]) else [];
      if x in names then (if IndexOf(names, x) < |row| then Some(row[IndexOf(names, x)]) else None)
      else ComboField(tables[..|tables| - 1], cat, c[..|c| - 1], x)
  }

  /** For every choice that WHERE accepts, the values of the select list.  None: some
      expression that is needed cannot be evaluated. */
  function SelectRows(cs: seq<Combo>, s: Select, cat: Catalog): Option<seq<Row>>
    decreases |cs|
  {
    if cs == [] then Some([])
    else
      var env := ComboEnv(s.tables, cat, cs[0]);
      match (Accepts(s.where, env), SelectRows(cs[1..], s, cat))
      case (Some(true), Some(rest)) =>
        (match EvalAllIn(s.selectList, env)
         case None => None
         case Some(row) => Some([row] + rest))
      case (Some(false), Some(rest)) => Some(rest)
      case _ => None
  }

  function Accepts(where: Option<Expr>, env: Env): Option<bool> {
    if where.None? then Some(true) else TruthIn(where.value, env)
  }

  /** A name stands for its own field, whatever other tables there are. */
  lemma {:induction false} OwnField(tables: seq<string>, cat: Catalog, c: Combo, i: nat, j: nat)
    requires |c| == |tables| && i < |tables|
    requires forall k :: 0 <= k < |tables| ==> tables[k] in cat && '.' !in tables[k]
    requires forall k, l :: 0 <= k < l < |tables| ==> tables[k] != tables[l]
    requires DistinctColumns(cat) && j < |cat[tables[i]]| && |c[i]| == |cat[tables[i]]|
    ensures ComboField(tables, cat, c, Qualified(tables[i], cat[tables[i]][j])) == Some(c[i][j])
    decreases |tables|
  {
    var n := |tables| - 1;
    var t := tables[n];
    var names, x := TableNames(t, cat[t]), Qualified(tables[i], cat[tables[i]][j]);
    if i == n {
      assert names[j] == x;
      NamesDistinct(t, cat);
      assert IndexOf(names, x) == j;
    } else {
      forall k | 0 <= k < |names|
        ensures names[k] != x
      {
        TableOfName(t, cat[t][k], tables[i], cat[tables[i]][j]);
      }
      OwnField(tables[..n], cat, c[..n], i, j);
    }
  }

  lemma NamesDistinct(t: string, cat: Catalog)
    requires DistinctColumns(cat) && t in cat
    ensures forall i, j :: 0 <= i < j < |cat[t]| ==> TableNames(t, cat[t])[i] != TableNames(t, cat[t])[j]
  {
    var names := TableNames(t, cat[t]);
    forall i, j | 0 <= i < j < |names|
      ensures names[i] != names[j]
    {
      assert names[i][|t| + 1..] == cat[t][i] && names[j][|t| + 1..] == cat[t][j];
    }
  }

  /** The first dot of a qualified name ends the table name. */
  lemma TableOfName(t: string, c: string, u: string, d: string)
    requires '.' !in t && '.' !in u && t != u
    ensures Qualified(t, c) != Qualified(u, d)
  {
    var a, b := Qualified(t, c), Qualified(u, d);
    assert a[|t|] == '.' && a[..|t|] == t && b[|u|] == '.' && b[..|u|] == u;
    if |t| < |u| {
      assert b[|t|] == u[|t|];
    } else if |u| < |t| {
      assert a[|u|] == t[|u|];
    }
  }

  // ---------- planning ----------

  function LeftDeep(tables: seq<string>): Plan
    requires tables != []
  {
    if |tables| == 1 then SeqScan(tables[0]) else Join(LeftDeep(tables[..|tables| - 1]), SeqScan(tables[|tables| - 1]))
  }

  function Filtered(s: Select): Plan
    requires s.tables != []
  {
    if s.where.Some? then Filter(s.where.value, LeftDeep(s.tables)) else LeftDeep(s.tables)
  }

  function SelectPlan(s: Select): Plan
    requires s.tables != []
  {
    Project(s.selectList, Filtered(s))
  }

  /** Scans joined from the left, the filter above them, the projection on top.  Fails (the
      source throws) without a table. */
  method BuildLogicalPlan(s: Select) returns (plan: LogicalOperator?)
    ensures plan == null <==> s.tables == []
    ensures plan != null ==> plan.Valid() && fresh(plan.Repr) && plan.tree == SelectPlan(s)
  {
    if s.tables == [] { return null; }
    var p := new LogicalOperator.SeqScan(s.tables[0]);
    for i := 1 to |s.tables|
      invariant p.Valid() && fresh(p.Repr) && p.tree == LeftDeep(s.tables[..i])
    {
      var rhsScan := new LogicalOperator.SeqScan(s.tables[i]);
      assert s.tables[..i + 1][..i] == s.tables[..i];
      p := new LogicalOperator.Join(p, rhsScan);
    }
    assert s.tables[..|s.tables|] == s.tables;
    if s.where.Some? {
      p := new LogicalOperator.Filter(s.where.value, p);
    }
    plan := new LogicalOperator.Project(s.selectList, p);
  }

  // ---------- generating operators ----------

  /** Position of each name; of equal names the last counts. */
  function IndexMap(names: seq<string>): ColIdx {
    if names == [] then map[] else IndexMap(names[..|names| - 1])[names[|names| - 1] := |names| - 1]
  }

  /** Left positions, then right positions shifted by the left width. */
  function Combined(l: ColIdx, r: ColIdx, width: nat): ColIdx {
    map x | x in l.Keys + r.Keys :: if x in r then width + r[x] else l[x]
  }

  function ColNames(n: nat): seq<string> {
    seq(n, i requires 0 <= i < n => "col" + Decimal(i))
  }

  /** The operators of a plan, where each name is found in its rows, and their width. */
  datatype Generated = Generated(phys: O.Phys, colIdx: ColIdx, width: nat)

  ghost predicate Known(p: Plan, cat: Catalog, db: Database) {
    match p
    case SeqScan(t) => t in cat && t in db
    case Filter(_, c) => Known(c, cat, db)
    case Project(_, c) => Known(c, cat, db)
    case Join(l, r) => Known(l, cat, db) && Known(r, cat, db)
  }

  ghost function Gen(p: Plan, cat: Catalog, db: Database): Generated
    requires Known(p, cat, db)
  {
    match p
    case SeqScan(t) => Generated(O.TableScan(db[t]), IndexMap(TableNames(t, cat[t])), |cat[t]|)
    case Filter(e, c) =>
      var g := Gen(c, cat, db);
      Generated(O.Filter(e, g.colIdx, g.phys), g.colIdx, g.width)
    case Project(es, c) =>
      var g := Gen(c, cat, db);
      Generated(O.Project(es, g.colIdx, g.phys), IndexMap(ColNames(|es|)), |es|)
    case Join(l, r) =>
      var a, b := Gen(l, cat, db), Gen(r, cat, db);
      Generated(O.Join(a.phys, b.phys), Combined(a.colIdx, b.colIdx, a.width), a.width + b.width)
  }

  // ---------- why the operators are right ----------

  function Flat(c: Combo): Row {
    if c == [] then [] else Flat(c[..|c| - 1]) + c[|c| - 1]
  }

  function FlatAll(cs: seq<Combo>): seq<Row> {
    if cs == [] then [] else [Flat(cs[0])] + FlatAll(cs[1..])
  }

  lemma {:induction false} FlatAppend(a: seq<Combo>, b: seq<Combo>)
    ensures FlatAll(a + b) == FlatAll(a) + FlatAll(b)
    decreases |a|
  {
    if a == [] {
      assert a + b == b;
    } else {
      assert (a + b)[1..] == a[1..] + b;
      FlatAppend(a[1..], b);
    }
  }

  lemma {:induction false} FlatExtend1(c: Combo, rows: seq<Row>)
    ensures FlatAll(Extend1(c, rows)) == O.Pairs(Flat(c), rows)
    decreases |rows|
  {
    if rows != [] {
      var e, tl := c + [rows[0]], Extend1(c, rows[1..]);
      FlatExtend1(c, rows[1..]);
      assert e[..|e| - 1] == c && ([e] + tl)[1..] == tl;
    }
  }

  /** Choosing one more row is the left-major cross product. */
  lemma {:induction false} FlatExtend(cs: seq<Combo>, rows: seq<Row>)
    ensures FlatAll(Extend(cs, rows)) == O.Cross(FlatAll(cs), rows)
    decreases |cs|
  {
    if cs != [] {
      FlatExtend1(cs[0], rows);
      FlatExtend(cs[1..], rows);
      FlatAppend(Extend1(cs[0], rows), Extend(cs[1..], rows));
      assert FlatAll(cs)[1..] == FlatAll(cs[1..]);
    }
  }

  ghost predicate AllKnown(tables: seq<string>, cat: Catalog, db: Database) {
    forall i :: 0 <= i < |tables| ==> tables[i] in cat && tables[i] in db
  }

  lemma {:induction false} LeftDeepRows(tables: seq<string>, cat: Catalog, db: Database)
    requires tables != [] && AllKnown(tables, cat, db)
    ensures Known(LeftDeep(tables), cat, db)
    ensures O.Denote(Gen(LeftDeep(tables), cat, db).phys) == O.Stream(true, O.Feed(FlatAll(Combos(tables, db)), true))
    decreases |tables|
  {
    var n := |tables| - 1;
    FlatExtend(Combos(tables[..n], db), db[tables[n]]);
    if n == 0 {
      assert Combos(tables[..0], db) == [[]];
      assert Flat([]) == [] && FlatAll([[]]) == [[]];
      CrossOne(db[tables[0]]);
    } else {
      LeftDeepRows(tables[..n], cat, db);
      JoinRows(FlatAll(Combos(tables[..n], db)), db[tables[n]]);
    }
  }

  lemma JoinRows(ls: seq<Row>, rs: seq<Row>)
    ensures O.JoinStream(O.Stream(true, O.Feed(ls, true)), O.Stream(true, O.Feed(rs, true)))
         == O.Stream(true, O.Feed(O.Cross(ls, rs), true))
  {
  }

  lemma CrossOne(rows: seq<Row>)
    ensures O.Cross([[]], rows) == rows
  {
    var one: seq<Row> := [[]];
    assert one[1..] == [] && O.Cross(one, rows) == O.Pairs([], rows) + [];
    PairsEmpty(rows);
  }

  lemma {:induction false} PairsEmpty(rows: seq<Row>)
    ensures O.Pairs([], rows) == rows
    decreases |rows|
  {
    if rows != [] {
      PairsEmpty(rows[1..]);
      assert [] + rows[0] == rows[0] && rows == [rows[0]] + rows[1..];
    }
  }

  lemma {:induction false} IndexMapMeaning(names: seq<string>, x: string)
    requires forall i, j :: 0 <= i < j < |names| ==> names[i] != names[j]
    ensures x in IndexMap(names) <==> x in names
    ensures x in names ==> IndexMap(names)[x] == IndexOf(names, x)
    decreases |names|
  {
    if names != [] {
      var n := |names| - 1;
      assert names == names[..n] + [names[n]];
      IndexMapMeaning(names[..n], x);
      if x in names[..n] { IndexOfPrefix(names, n, x); }
      else if x == names[n] { assert IndexOf(names, x) == n; }
    }
  }

  lemma IndexOfPrefix(names: seq<string>, n: nat, x: string)
    requires n <= |names| && x in names[..n]
    requires forall i, j :: 0 <= i < j < |names| ==> names[i] != names[j]
    ensures IndexOf(names[..n], x) == IndexOf(names, x)
  {
    var k := IndexOf(names[..n], x);
    assert names[k] == x;
  }

  /** Every choice has one row for each table, as wide as the table. */
  ghost predicate ComboFits(tables: seq<string>, cat: Catalog, c: Combo) {
    |c| == |tables| && forall i :: 0 <= i < |tables| ==> tables[i] in cat && |c[i]| == |cat[tables[i]]|
  }

  lemma PositionStep(pre: Row, a: ColIdx, names: seq<string>, row: Row, x: string)
    requires |row| == |names| && (x in a ==> 0 <= a[x] < |pre|)
    requires forall i, j :: 0 <= i < j < |names| ==> names[i] != names[j]
    ensures var m := Combined(a, IndexMap(names), |pre|);
            (x in m ==> 0 <= m[x] < |pre| + |row|)
            && EnvOf(pre + row, m)(x) == if x in names then Some(row[IndexOf(names, x)]) else EnvOf(pre, a)(x)
  {
    IndexMapMeaning(names, x);
  }

  /** In the joined row, each name is at the position that the generator gave it. */
  lemma {:induction false} PositionsOwn(tables: seq<string>, cat: Catalog, db: Database, c: Combo, x: string)
    requires tables != [] && AllKnown(tables, cat, db) && Known(LeftDeep(tables), cat, db)
    requires DistinctColumns(cat) && ComboFits(tables, cat, c)
    ensures var g := Gen(LeftDeep(tables), cat, db);
            |Flat(c)| == g.width && (x in g.colIdx ==> 0 <= g.colIdx[x] < g.width)
            && EnvOf(Flat(c), g.colIdx)(x) == ComboField(tables, cat, c, x)
    decreases |tables|
  {
    hide Combined, IndexMap, EnvOf, DistinctColumns;
    var n := |tables| - 1;
    var t := tables[n];
    var names := TableNames(t, cat[t]);
    NamesDistinct(t, cat);
    if n == 0 {
      assert c[..0] == [] && tables[..0] == [] && Flat(c) == [] + c[0];
      assert Flat(c) == c[0];
      PositionFirst(names, c[0], x);
    } else {
      var init := tables[..n];
      assert AllKnown(init, cat, db) && ComboFits(init, cat, c[..n]);
      PositionsOwn(init, cat, db, c[..n], x);
      PositionStep(Flat(c[..n]), Gen(LeftDeep(init), cat, db).colIdx, names, c[n], x);
    }
  }

  lemma PositionFirst(names: seq<string>, row: Row, x: string)
    requires |row| == |names| && forall i, j :: 0 <= i < j < |names| ==> names[i] != names[j]
    ensures x in IndexMap(names) ==> 0 <= IndexMap(names)[x] < |row|
    ensures EnvOf(row, IndexMap(names))(x) == if x in names then Some(row[IndexOf(names, x)]) else None
  {
    IndexMapMeaning(names, x);
  }

  lemma {:induction false} Extend1Fits(tables: seq<string>, cat: Catalog, c: Combo, rows: seq<Row>, t: string)
    requires ComboFits(tables, cat, c) && t in cat && RowsFit(|cat[t]|, rows)
    ensures forall i :: 0 <= i < |Extend1(c, rows)| ==> ComboFits(tables + [t], cat, Extend1(c, rows)[i])
    decreases |rows|
  {
    if rows != [] { Extend1Fits(tables, cat, c, rows[1..], t); }
  }

  lemma {:induction false} ExtendFits(tables: seq<string>, cat: Catalog, cs: seq<Combo>, rows: seq<Row>, t: string)
    requires (forall i :: 0 <= i < |cs| ==> ComboFits(tables, cat, cs[i])) && t in cat && RowsFit(|cat[t]|, rows)
    ensures forall i :: 0 <= i < |Extend(cs, rows)| ==> ComboFits(tables + [t], cat, Extend(cs, rows)[i])
    decreases |cs|
  {
    if cs != [] {
      Extend1Fits(tables, cat, cs[0], rows, t);
      ExtendFits(tables, cat, cs[1..], rows, t);
    }
  }

  lemma {:induction false} CombosFit(tables: seq<string>, cat: Catalog, db: Database)
    requires AllKnown(tables, cat, db) && Fits(cat, db)
    ensures forall i :: 0 <= i < |Combos(tables, db)| ==> ComboFits(tables, cat, Combos(tables, db)[i])
    decreases |tables|
  {
    if tables != [] {
      var n := |tables| - 1;
      CombosFit(tables[..n], cat, db);
      ExtendFits(tables[..n], cat, Combos(tables[..n], db), db[tables[n]], tables[n]);
      assert tables[..n] + [tables[n]] == tables;
    }
  }

  ghost predicate SameEnvs(s: Select, cat: Catalog, colIdx: ColIdx, cs: seq<Combo>) {
    forall i, x :: 0 <= i < |cs| ==> EnvOf(Flat(cs[i]), colIdx)(x) == ComboField(s.tables, cat, cs[i], x)
  }

  /** The filter and the projection, on the rows of the join. */
  function Delivered(s: Select, colIdx: ColIdx, rows: seq<Row>): O.Feed {
    var kept := if s.where.Some? then O.FilterFeed(s.where.value, colIdx, O.Feed(rows, true)) else O.Feed(rows, true);
    O.ProjectFeed(s.selectList, colIdx, kept)
  }

  lemma DeliveredCons(s: Select, colIdx: ColIdx, row: Row, rows: seq<Row>)
    ensures var d, rest := Delivered(s, colIdx, [row] + rows), Delivered(s, colIdx, rows);
            d.ends <==> rest.ends && match Accepts(s.where, EnvOf(row, colIdx))
                                     case None => false
                                     case Some(b) => b ==> EvalAllIn(s.selectList, EnvOf(row, colIdx)).Some?
    ensures var d, rest := Delivered(s, colIdx, [row] + rows), Delivered(s, colIdx, rows);
            d.ends ==> d.rows == if Accepts(s.where, EnvOf(row, colIdx)) == Some(true)
                                 then [EvalAllIn(s.selectList, EnvOf(row, colIdx)).value] + rest.rows else rest.rows
  {
    assert ([row] + rows)[1..] == rows;
    if s.where.Some? {
      var f := O.FilterFeed(s.where.value, colIdx, O.Feed(rows, true));
      assert ([row] + f.rows)[1..] == f.rows;
      O.ProjectFeedEnds(s.selectList, colIdx, f);
      O.ProjectFeedEnds(s.selectList, colIdx, O.Feed([], false));
    }
  }

  lemma {:induction false} DeliveredRows(s: Select, cat: Catalog, colIdx: ColIdx, cs: seq<Combo>)
    requires SameEnvs(s, cat, colIdx, cs)
    ensures Delivered(s, colIdx, FlatAll(cs)).ends <==> SelectRows(cs, s, cat).Some?
    ensures Delivered(s, colIdx, FlatAll(cs)).ends ==>
              Some(Delivered(s, colIdx, FlatAll(cs)).rows) == SelectRows(cs, s, cat)
    decreases |cs|
  {
    if cs != [] {
      hide Delivered;
      var env, env' := EnvOf(Flat(cs[0]), colIdx), ComboEnv(s.tables, cat, cs[0]);
      assert forall x :: env(x) == env'(x);
      if s.where.Some? { EvalNames(s.where.value, env, env'); }
      EvalAllSame(s.selectList, env, env');
      DeliveredCons(s, colIdx, Flat(cs[0]), FlatAll(cs[1..]));
      assert forall i :: 0 <= i < |cs[1..]| ==> cs[1..][i] == cs[i + 1];
      DeliveredRows(s, cat, colIdx, cs[1..]);
    }
  }

  lemma {:induction false} EvalAllSame(es: seq<Expr>, env: Env, env': Env)
    requires forall x :: env(x) == env'(x)
    ensures EvalAllIn(es, env) == EvalAllIn(es, env')
    decreases |es|
  {
    if es != [] {
      EvalAllSame(es[..|es| - 1], env, env');
      EvalNames(es[|es| - 1], env, env');
    }
  }

  /** Executing the generated operators gives what the statement says, and throws exactly
      if an expression cannot be evaluated where the statement needs it. */
  lemma SelectMeaning(s: Select, cat: Catalog, db: Database)
    requires s.tables != [] && AllKnown(s.tables, cat, db) && Fits(cat, db) && DistinctColumns(cat)
    ensures Known(SelectPlan(s), cat, db)
    ensures var d := O.Denote(Gen(SelectPlan(s), cat, db).phys); var rows := SelectRows(Combos(s.tables, db), s, cat);
            d.opens && (d.feed.ends <==> rows.Some?) && (d.feed.ends ==> Some(d.feed.rows) == rows)
  {
    var cs := Combos(s.tables, db);
    LeftDeepRows(s.tables, cat, db);
    CombosFit(s.tables, cat, db);
    var g := Gen(LeftDeep(s.tables), cat, db);
    forall i, x | 0 <= i < |cs|
      ensures EnvOf(Flat(cs[i]), g.colIdx)(x) == ComboField(s.tables, cat, cs[i], x)
    {
      PositionsOwn(s.tables, cat, db, cs[i], x);
    }
    DeliveredRows(s, cat, g.colIdx, cs);
    assert O.Denote(Gen(SelectPlan(s), cat, db).phys).feed == Delivered(s, g.colIdx, FlatAll(cs));
  }
}
