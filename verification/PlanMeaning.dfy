/** The relation that a plan means is what executing its statement delivers: the rewriter's
    notion of meaning and the executor's are the same. */
module PlanMeaning {
  import opened Common
  import opened Expressions
  import opened Plans
  import opened Planner
  import O = Operators

  /** Different tables, whose names have no dot. */
  ghost predicate Apart(tables: seq<string>) {
    (forall i :: 0 <= i < |tables| ==> '.' !in tables[i])
    && forall i, j :: 0 <= i < j < |tables| ==> tables[i] != tables[j]
  }

  lemma {:induction false} IndexOfSum(a: seq<string>, b: seq<string>, x: string)
    ensures IndexOf(a + b, x) == if x in a then IndexOf(a, x) else |a| + IndexOf(b, x)
    decreases |a|
  {
    if a == [] {
      assert a + b == b;
    } else {
      assert (a + b)[1..] == a[1..] + b;
      if a[0] != x { IndexOfSum(a[1..], b, x); }
    }
  }

  /** Every output of a join of tables is a column of one of them. */
  lemma {:induction false} OutputOf(tables: seq<string>, cat: Catalog, x: string) returns (i: nat, j: nat)
    requires tables != [] && (forall i :: 0 <= i < |tables| ==> tables[i] in cat)
    requires x in Outputs(LeftDeep(tables), cat)
    ensures i < |tables| && j < |cat[tables[i]]| && x == Qualified(tables[i], cat[tables[i]][j])
    decreases |tables|
  {
    var n := |tables| - 1;
    var names := TableNames(tables[n], cat[tables[n]]);
    if x in names {
      i := n;
      j :| 0 <= j < |names| && names[j] == x;
    } else {
      i, j := OutputOf(tables[..n], cat, x);
    }
  }

  lemma NotShared(tables: seq<string>, cat: Catalog, x: string)
    requires |tables| > 1 && Apart(tables) && forall i :: 0 <= i < |tables| ==> tables[i] in cat
    requires x in Outputs(LeftDeep(tables[..|tables| - 1]), cat)
    ensures x !in TableNames(tables[|tables| - 1], cat[tables[|tables| - 1]])
  {
    var n := |tables| - 1;
    var i, j := OutputOf(tables[..n], cat, x);
    var names := TableNames(tables[n], cat[tables[n]]);
    forall k | 0 <= k < |names|
      ensures names[k] != x
    {
      TableOfName(tables[n], cat[tables[n]][k], tables[i], cat[tables[i]][j]);
    }
  }

  /** By name, the joined row gives what the choice of rows gives. */
  lemma {:induction false} SameFields(tables: seq<string>, cat: Catalog, c: Combo, x: string)
    requires tables != [] && Apart(tables) && ComboFits(tables, cat, c)
    ensures |Flat(c)| == |Outputs(LeftDeep(tables), cat)|
    ensures NamedEnv(Outputs(LeftDeep(tables), cat), Flat(c))(x) == ComboField(tables, cat, c, x)
    decreases |tables|
  {
    hide TableNames;
    var n := |tables| - 1;
    var t := tables[n];
    var names := TableNames(t, cat[t]);
    if n == 0 {
      assert c[..0] == [] && tables[..0] == [] && Flat(c) == [] + c[0];
      assert Flat(c) == c[0] && Outputs(LeftDeep(tables), cat) == names;
      NamesCount(t, cat);
    } else {
      SameFields(tables[..n], cat, c[..n], x);
      NamesCount(t, cat);
      var before := Outputs(LeftDeep(tables[..n]), cat);
      if x in before { NotShared(tables, cat, x); }
      LastFields(before, names, Flat(c[..n]), c[n], x);
      assert Flat(c) == Flat(c[..n]) + c[n];
    }
  }

  lemma NamesCount(t: string, cat: Catalog)
    requires t in cat
    ensures |TableNames(t, cat[t])| == |cat[t]|
  {
  }

  lemma LastFields(a: seq<string>, b: seq<string>, row: Row, last: Row, x: string)
    requires |a| == |row| && |b| == |last| && (x in a ==> x !in b)
    ensures NamedEnv(a + b, row + last)(x) == if x in b then NamedEnv(b, last)(x) else NamedEnv(a, row)(x)
  {
    IndexOfSum(a, b, x);
  }

  // ---------- filter, then project ----------

  function KeepThenMap(s: Select, names: seq<string>, rows: seq<Row>): Option<seq<Row>> {
    var kept := if s.where.None? then Some(rows) else KeepRows(s.where.value, names, rows);
    if kept.None? then None else MapRows(s.selectList, names, kept.value)
  }

  lemma {:induction false} ChoicesOrRows(cs: seq<Combo>, s: Select, cat: Catalog)
    requires s.tables != [] && Apart(s.tables) && forall i :: 0 <= i < |cs| ==> ComboFits(s.tables, cat, cs[i])
    ensures KeepThenMap(s, Outputs(LeftDeep(s.tables), cat), FlatAll(cs)) == SelectRows(cs, s, cat)
    decreases |cs|
  {
    if cs != [] {
      hide KeepRows, MapRows, SelectRows, Outputs, LeftDeep, Flat;
      var names, row, rows := Outputs(LeftDeep(s.tables), cat), Flat(cs[0]), FlatAll(cs[1..]);
      ChoicesOrRows(cs[1..], s, cat);
      SameValues(cs[0], s, cat);
      assert FlatAll(cs) == [row] + rows;
      FirstRow(s, names, row, rows);
      FirstChoice(cs, s, cat);
    }
  }

  lemma SameValues(c: Combo, s: Select, cat: Catalog)
    requires s.tables != [] && Apart(s.tables) && ComboFits(s.tables, cat, c)
    ensures var env, env' := NamedEnv(Outputs(LeftDeep(s.tables), cat), Flat(c)), ComboEnv(s.tables, cat, c);
            EvalAllIn(s.selectList, env) == EvalAllIn(s.selectList, env')
            && (s.where.Some? ==> TruthIn(s.where.value, env) == TruthIn(s.where.value, env'))
  {
    var env, env' := NamedEnv(Outputs(LeftDeep(s.tables), cat), Flat(c)), ComboEnv(s.tables, cat, c);
    forall x
      ensures env(x) == env'(x)
    {
      SameFields(s.tables, cat, c, x);
    }
    EvalAllSame(s.selectList, env, env');
    if s.where.Some? { EvalNames(s.where.value, env, env'); }
  }

  lemma FirstRow(s: Select, names: seq<string>, row: Row, rows: seq<Row>)
    ensures var env := NamedEnv(names, row); var rest := KeepThenMap(s, names, rows);
            KeepThenMap(s, names, [row] + rows)
            == if rest.None? then None
               else match Accepts(s.where, env)
                 case None => None
                 case Some(false) => rest
                 case Some(true) =>
                   if EvalAllIn(s.selectList, env).None? then None
                   else Some([EvalAllIn(s.selectList, env).value] + rest.value)
  {
    if s.where.Some? { KeepCons(s.where.value, names, row, rows); }
    MapCons(s.selectList, names, row, rows);
    if s.where.Some? && KeepRows(s.where.value, names, rows).Some? {
      MapCons(s.selectList, names, row, KeepRows(s.where.value, names, rows).value);
    }
  }

  lemma FirstChoice(cs: seq<Combo>, s: Select, cat: Catalog)
    requires cs != []
    ensures var env := ComboEnv(s.tables, cat, cs[0]); var rest := SelectRows(cs[1..], s, cat);
            SelectRows(cs, s, cat)
            == if rest.None? then None
               else match Accepts(s.where, env)
                 case None => None
                 case Some(false) => rest
                 case Some(true) =>
                   if EvalAllIn(s.selectList, env).None? then None
                   else Some([EvalAllIn(s.selectList, env).value] + rest.value)
  {
  }

  // ---------- the theorem ----------

  lemma {:induction false} JoinedMeaning(tables: seq<string>, cat: Catalog, db: Database)
    requires tables != [] && AllKnown(tables, cat, db)
    ensures Meaning(LeftDeep(tables), cat, db)
         == Some(Relation(Outputs(LeftDeep(tables), cat), FlatAll(Combos(tables, db))))
    decreases |tables|
  {
    var n := |tables| - 1;
    FlatExtend(Combos(tables[..n], db), db[tables[n]]);
    if n == 0 {
      assert Combos(tables[..0], db) == [[]];
      assert Flat([]) == [] && FlatAll([[]]) == [[]];
      CrossOne(db[tables[0]]);
    } else {
      JoinedMeaning(tables[..n], cat, db);
    }
  }

  /** Over different tables, the relation that the planned statement means has exactly the
      rows that the statement asks for, and none if it has no answer. */
  lemma SelectPlanMeaning(s: Select, cat: Catalog, db: Database)
    requires s.tables != [] && Apart(s.tables) && AllKnown(s.tables, cat, db) && Fits(cat, db)
    ensures var m := Meaning(SelectPlan(s), cat, db);
            SelectRows(Combos(s.tables, db), s, cat) == if m.None? then None else Some(m.value.rows)
  {
    JoinedMeaning(s.tables, cat, db);
    CombosFit(s.tables, cat, db);
    ChoicesOrRows(Combos(s.tables, db), s, cat);
  }
}
