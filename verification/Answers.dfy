/** The answer of a SELECT, row by row: which choices of rows it is made from, and which
    choices there are. */
module Answers {
  import opened Common
  import opened Expressions
  import opened Plans
  import opened Planner

  // ---------- all choices ----------

  lemma {:induction false} Extend1At(c: Combo, rows: seq<Row>, q: nat)
    requires q < |rows|
    ensures |Extend1(c, rows)| == |rows| && Extend1(c, rows)[q] == c + [rows[q]]
    decreases |rows|
  {
    if |rows| > 1 { Extend1At(c, rows[1..], if q == 0 then 0 else q - 1); }
  }

  lemma {:induction false} Extend1Len(c: Combo, rows: seq<Row>)
    ensures |Extend1(c, rows)| == |rows|
    decreases |rows|
  {
    if rows != [] { Extend1Len(c, rows[1..]); }
  }

  lemma {:induction false} ExtendAt(cs: seq<Combo>, rows: seq<Row>, p: nat, q: nat)
    requires p < |cs| && q < |rows|
    ensures |Extend(cs, rows)| == |cs| * |rows| && p * |rows| + q < |cs| * |rows|
    ensures Extend(cs, rows)[p * |rows| + q] == cs[p] + [rows[q]]
    decreases |cs|
  {
    var n, tl := |rows|, cs[1..];
    ExtendLen(cs, rows);
    Extend1Len(cs[0], rows);
    RowMajor(p, q, |cs|, n);
    var i := p * n + q;
    if p == 0 {
      Extend1At(cs[0], rows, q);
      assert i == q;
    } else {
      ExtendAt(tl, rows, p - 1, q);
      assert i == n + ((p - 1) * n + q);
      assert Extend(cs, rows)[i] == Extend(tl, rows)[i - n];
    }
  }

  lemma {:induction false} ExtendLen(cs: seq<Combo>, rows: seq<Row>)
    ensures |Extend(cs, rows)| == |cs| * |rows|
    decreases |cs|
  {
    if cs != [] {
      Extend1Len(cs[0], rows);
      ExtendLen(cs[1..], rows);
      assert |cs| * |rows| == |rows| + (|cs| - 1) * |rows|;
    }
  }

  lemma RowMajor(p: nat, q: nat, m: nat, n: nat)
    requires p < m && q < n
    ensures 0 <= p * n + q < m * n && p * n == (if p == 0 then 0 else n + (p - 1) * n)
  {
    Distribute(p, n);
    Monotone(p + 1, m, n);
    if p > 0 { Distribute(p - 1, n); }
  }

  lemma Distribute(p: nat, n: nat)
    ensures (p + 1) * n == p * n + n && p * n >= 0
  {
  }

  lemma Monotone(a: nat, b: nat, n: nat)
    requires a <= b
    ensures a * n <= b * n
  {
  }

  /** The choices over all tables: each choice over the earlier tables with each row of the
      last one, which varies fastest. */
  lemma ComboAt(tables: seq<string>, db: Database, p: nat, q: nat)
    requires tables != [] && forall i :: 0 <= i < |tables| ==> tables[i] in db
    requires var k := |tables| - 1; p < |Combos(tables[..k], db)| && q < |db[tables[k]]|
    ensures var k := |tables| - 1; var n := |db[tables[k]]|;
            |Combos(tables, db)| == |Combos(tables[..k], db)| * n && p * n + q < |Combos(tables, db)|
            && Combos(tables, db)[p * n + q] == Combos(tables[..k], db)[p] + [db[tables[k]][q]]
  {
    var k := |tables| - 1;
    ExtendAt(Combos(tables[..k], db), db[tables[k]], p, q);
  }

  /** Over one table, the choices are its rows. */
  lemma OneTable(t: string, db: Database)
    requires t in db
    ensures |Combos([t], db)| == |db[t]| && forall i :: 0 <= i < |db[t]| ==> Combos([t], db)[i] == [db[t][i]]
  {
    var one: seq<Combo> := [[]];
    assert [t][..0] == [] && Combos([], db) == one;
    ExtendLen(one, db[t]);
    forall i | 0 <= i < |db[t]|
      ensures Combos([t], db)[i] == [db[t][i]]
    {
      ExtendAt(one, db[t], 0, i);
    }
  }

  // ---------- the rows that are delivered ----------

  /** WHERE lets the choice through. */
  ghost predicate Accepted(s: Select, cat: Catalog, c: Combo) {
    s.where.None? || TruthIn(s.where.value, ComboEnv(s.tables, cat, c)) == Some(true)
  }

  /** The row holds the values of the select list for this choice, in order. */
  ghost predicate ValuesOf(s: Select, cat: Catalog, c: Combo, row: Row) {
    |row| == |s.selectList|
    && forall j :: 0 <= j < |row| ==> EvalIn(s.selectList[j], ComboEnv(s.tables, cat, c)) == Some(row[j])
  }

  ghost predicate Rising(picks: seq<nat>) {
    forall i, j :: 0 <= i < j < |picks| ==> picks[i] < picks[j]
  }

  /** The rows are those of the choices that pass, one for each, in their order. */
  ghost predicate Picked(s: Select, cat: Catalog, cs: seq<Combo>, rows: seq<Row>, picks: seq<nat>) {
    |picks| == |rows| && Rising(picks)
    && (forall i :: 0 <= i < |picks| ==> picks[i] < |cs| && ValuesOf(s, cat, cs[picks[i]], rows[i]))
    && forall k: nat :: k in picks <==> k < |cs| && Accepted(s, cat, cs[k])
  }

  /** WHERE has a truth value for the choice, and if it passes, each expression of the list
      has a value. */
  ghost predicate Defined(s: Select, cat: Catalog, c: Combo) {
    (s.where.Some? ==> TruthIn(s.where.value, ComboEnv(s.tables, cat, c)).Some?)
    && (Accepted(s, cat, c) ==>
          forall j :: 0 <= j < |s.selectList| ==> EvalIn(s.selectList[j], ComboEnv(s.tables, cat, c)).Some?)
  }

  function Shifted(picks: seq<nat>): seq<nat> { seq(|picks|, i requires 0 <= i < |picks| => picks[i] + 1) }

  lemma ShiftedHas(picks: seq<nat>, k: nat)
    ensures k in Shifted(picks) <==> k > 0 && k - 1 in picks
  {
    if k > 0 && k - 1 in picks {
      var i :| 0 <= i < |picks| && picks[i] == k - 1;
      assert Shifted(picks)[i] == k;
    }
  }

  /** A SELECT has an answer exactly if it is defined for every choice; and then it delivers
      exactly the rows of those that pass, in order. */
  lemma {:induction false} SelectRowsExact(cs: seq<Combo>, s: Select, cat: Catalog) returns (picks: seq<nat>)
    ensures SelectRows(cs, s, cat).Some? <==> forall k :: 0 <= k < |cs| ==> Defined(s, cat, cs[k])
    ensures SelectRows(cs, s, cat).Some? ==> Picked(s, cat, cs, SelectRows(cs, s, cat).value, picks)
    decreases |cs|
  {
    if cs == [] {
      picks := [];
    } else {
      var tl := cs[1..];
      var more := SelectRowsExact(tl, s, cat);
      assert forall k :: 0 <= k < |tl| ==> tl[k] == cs[k + 1];
      assert forall k :: 1 <= k < |cs| ==> cs[k] == tl[k - 1];
      FirstChoice(cs, s, cat);
      picks := (if Accepted(s, cat, cs[0]) then [0] else []) + Shifted(more);
      if SelectRows(cs, s, cat).Some? { OneMore(cs, s, cat, more); }
    }
  }

  lemma FirstChoice(cs: seq<Combo>, s: Select, cat: Catalog)
    requires cs != []
    ensures SelectRows(cs, s, cat).Some? <==> Defined(s, cat, cs[0]) && SelectRows(cs[1..], s, cat).Some?
    ensures SelectRows(cs, s, cat).Some? ==>
              var rows, rest := SelectRows(cs, s, cat).value, SelectRows(cs[1..], s, cat).value;
              if Accepted(s, cat, cs[0])
              then |rows| == 1 + |rest| && ValuesOf(s, cat, cs[0], rows[0]) && rows[1..] == rest
              else rows == rest
  {
    EvalAllMeaning(s.selectList, ComboEnv(s.tables, cat, cs[0]));
  }

  lemma OneMore(cs: seq<Combo>, s: Select, cat: Catalog, more: seq<nat>)
    requires cs != [] && SelectRows(cs, s, cat).Some? && SelectRows(cs[1..], s, cat).Some?
    requires Picked(s, cat, cs[1..], SelectRows(cs[1..], s, cat).value, more)
    ensures Picked(s, cat, cs, SelectRows(cs, s, cat).value,
                   (if Accepted(s, cat, cs[0]) then [0] else []) + Shifted(more))
  {
    hide SelectRows, ValuesOf, Accepted, Rising, Shifted, Picked;
    FirstChoice(cs, s, cat);
    var rows, rest := SelectRows(cs, s, cat).value, SelectRows(cs[1..], s, cat).value;
    var first := if Accepted(s, cat, cs[0]) then [0] else [];
    PickedRises(cs[1..], s, cat, rest, more);
    RisingOn(first, more);
    forall i | 0 <= i < |first + Shifted(more)|
      ensures (first + Shifted(more))[i] < |cs| && ValuesOf(s, cat, cs[(first + Shifted(more))[i]], rows[i])
    {
      if i >= |first| {
        assert rows[i] == rest[i - |first|];
        PickedAt(cs, s, cat, rest, more, i - |first|);
      }
    }
    forall k: nat
      ensures k in first + Shifted(more) <==> k < |cs| && Accepted(s, cat, cs[k])
    {
      PickedAlso(cs, s, cat, rest, more, k);
    }
    ThenPicked(cs, s, cat, rows, first + Shifted(more));
  }

  lemma ThenPicked(cs: seq<Combo>, s: Select, cat: Catalog, rows: seq<Row>, picks: seq<nat>)
    requires |picks| == |rows| && Rising(picks)
    requires forall i :: 0 <= i < |picks| ==> picks[i] < |cs| && ValuesOf(s, cat, cs[picks[i]], rows[i])
    requires forall k: nat :: k in picks <==> k < |cs| && Accepted(s, cat, cs[k])
    ensures Picked(s, cat, cs, rows, picks)
  {
  }

  lemma PickedRises(cs: seq<Combo>, s: Select, cat: Catalog, rows: seq<Row>, picks: seq<nat>)
    requires Picked(s, cat, cs, rows, picks)
    ensures Rising(picks) && |picks| == |rows|
  {
  }

  lemma RisingOn(first: seq<nat>, more: seq<nat>)
    requires Rising(more) && (first == [] || first == [0])
    ensures Rising(first + Shifted(more)) && |Shifted(more)| == |more|
  {
  }

  lemma PickedAt(cs: seq<Combo>, s: Select, cat: Catalog, rest: seq<Row>, more: seq<nat>, i: nat)
    requires cs != [] && Picked(s, cat, cs[1..], rest, more) && i < |more|
    ensures |rest| == |more| && Shifted(more)[i] < |cs| && ValuesOf(s, cat, cs[Shifted(more)[i]], rest[i])
  {
    hide ValuesOf;
    assert cs[more[i] + 1] == cs[1..][more[i]];
  }

  lemma PickedAlso(cs: seq<Combo>, s: Select, cat: Catalog, rest: seq<Row>, more: seq<nat>, k: nat)
    requires cs != [] && Picked(s, cat, cs[1..], rest, more)
    ensures k in (if Accepted(s, cat, cs[0]) then [0] else []) + Shifted(more) <==> k < |cs| && Accepted(s, cat, cs[k])
  {
    hide ValuesOf, Accepted, Shifted;
    var first := if Accepted(s, cat, cs[0]) then [0] else [];
    ShiftedHas(more, k);
    assert k in first + Shifted(more) <==> k in first || k in Shifted(more);
    if k > 0 {
      assert k - 1 in more <==> k - 1 < |cs[1..]| && Accepted(s, cat, cs[1..][k - 1]);
      if k < |cs| { assert cs[k] == cs[1..][k - 1]; }
    }
  }

  // ---------- WHERE column < literal ----------

  /** All columns of one table, of the rows with a smaller value in column j. */
  function Below(t: string, cat: Catalog, j: nat, v: int): Select
    requires t in cat && j < |cat[t]|
  {
    Select(seq(|cat[t]|, i requires 0 <= i < |cat[t]| => ColumnRef(Qualified(t, cat[t][i]))), [t],
           Some(BinaryOp("<", ColumnRef(Qualified(t, cat[t][j])), IntLit(v))))
  }

  /** It is answered with exactly those rows, in the order of the table. */
  lemma BelowExact(t: string, cat: Catalog, db: Database, j: nat, v: int) returns (picks: seq<nat>)
    requires t in cat && '.' !in t && j < |cat[t]| && Fits(cat, db) && DistinctColumns(cat)
    requires forall i :: 0 <= i < |db[t]| ==> db[t][i][j].IntV?
    ensures var rows := SelectRows(Combos([t], db), Below(t, cat, j, v), cat);
            rows.Some? && |picks| == |rows.value| && Rising(picks)
            && (forall i :: 0 <= i < |picks| ==> picks[i] < |db[t]| && rows.value[i] == db[t][picks[i]])
            && forall k: nat :: k in picks <==> k < |db[t]| && db[t][k][j].i < v
  {
    hide SelectRows, Combos;
    var s, cs := Below(t, cat, j, v), Combos([t], db);
    OneTable(t, db);
    forall k | 0 <= k < |cs|
      ensures Defined(s, cat, cs[k]) && (Accepted(s, cat, cs[k]) <==> db[t][k][j].i < v)
      ensures forall row :: ValuesOf(s, cat, cs[k], row) ==> row == db[t][k]
    {
      BelowRow(t, cat, db[t][k], j, v);
    }
    picks := SelectRowsExact(cs, s, cat);
  }

  lemma BelowRow(t: string, cat: Catalog, row: Row, j: nat, v: int)
    requires t in cat && '.' !in t && j < |cat[t]| && |row| == |cat[t]| && row[j].IntV? && DistinctColumns(cat)
    ensures var s := Below(t, cat, j, v);
            Defined(s, cat, [row]) && (Accepted(s, cat, [row]) <==> row[j].i < v)
            && forall r :: ValuesOf(s, cat, [row], r) ==> r == row
  {
    var s, env := Below(t, cat, j, v), ComboEnv([t], cat, [row]);
    forall i | 0 <= i < |row|
      ensures EvalIn(s.selectList[i], env) == Some(row[i])
    {
      OwnField([t], cat, [row], 0, i);
    }
    OwnField([t], cat, [row], 0, j);
    IntComparisons(s.where.value.left, s.where.value.right, env, row[j].i, v);
  }
}
