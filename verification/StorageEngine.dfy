/** A table as the storage engine keeps it: a heap of rows and an index on the primary key,
    changed together. */
module StorageEngine {
  import opened Common
  import opened Record
  import F = FileManager
  import H = TableHeap
  import B = BPlusTree
  import S = BTreeSpec

  datatype TableState = TableState(rows: map<RecordID, Row>, index: map<int, RecordID>)

  function KeyOf(pk: nat, row: Row): Option<int> {
    if pk < |row| && row[pk].IntV? then Some(row[pk].i) else None
  }

  // ---------- heap and index agree ----------

  /** Each index entry leads to a live row with that primary key. */
  ghost predicate Agrees(pk: nat, t: TableState) {
    forall k :: k in t.index ==> t.index[k] in t.rows && KeyOf(pk, t.rows[t.index[k]]) == Some(k)
  }

  /** And each live row is the one that its key leads to: the index is a bijection. */
  ghost predicate Exact(pk: nat, t: TableState) {
    Agrees(pk, t) && forall r :: r in t.rows ==> !Lost(pk, t, r)
  }

  /** A row that no lookup by key can find. */
  ghost predicate Lost(pk: nat, t: TableState, r: RecordID)
    requires r in t.rows
  {
    match KeyOf(pk, t.rows[r])
    case None => true
    case Some(k) => k !in t.index || t.index[k] != r
  }

  /** Operations by key; an insert comes with the id that the heap chose. */
  datatype KeyOp = Ins(rid: RecordID, row: Row) | Del(key: int) | Upd(key: int, row: Row)

  /** The heap chooses a dead id; the key of an updated row stays what it is. */
  predicate Allowed(pk: nat, t: TableState, op: KeyOp) {
    match op
    case Ins(rid, _) => rid !in t.rows
    case Del(_) => true
    case Upd(k, row) => KeyOf(pk, row) == Some(k)
  }

  function Apply(pk: nat, t: TableState, op: KeyOp): TableState {
    match op
    case Ins(rid, row) =>
      TableState(t.rows[rid := row], if KeyOf(pk, row).Some? then t.index[KeyOf(pk, row).value := rid] else t.index)
    case Del(k) => if k in t.index then TableState(t.rows - {t.index[k]}, t.index - {k}) else t
    case Upd(k, row) => if k in t.index then t.(rows := t.rows[t.index[k] := row]) else t
  }

  /** The insert hides no other row. */
  predicate Absent(pk: nat, t: TableState, op: KeyOp) {
    op.Ins? ==> KeyOf(pk, op.row).Some? && KeyOf(pk, op.row).value !in t.index
  }

  lemma ApplyAgrees(pk: nat, t: TableState, op: KeyOp)
    requires Agrees(pk, t) && Allowed(pk, t, op)
    ensures Agrees(pk, Apply(pk, t, op))
  {
    if op.Del? && op.key in t.index {
      assert forall k :: k in t.index && k != op.key ==> t.index[k] != t.index[op.key];
    }
  }

  /** A lost row stays lost, whatever is done by key. */
  lemma StaysLost(pk: nat, t: TableState, op: KeyOp, r: RecordID)
    requires Agrees(pk, t) && Allowed(pk, t, op) && r in t.rows && Lost(pk, t, r)
    ensures r in Apply(pk, t, op).rows && Lost(pk, Apply(pk, t, op), r)
  {
  }

  /** One operation keeps the bijection exactly if it does not insert a key that is
      already there (or no integer key at all). */
  lemma ApplyExact(pk: nat, t: TableState, op: KeyOp)
    requires Agrees(pk, t) && Allowed(pk, t, op)
    ensures Exact(pk, Apply(pk, t, op)) <==> Exact(pk, t) && Absent(pk, t, op)
  {
    var u := Apply(pk, t, op);
    ApplyAgrees(pk, t, op);
    if !Exact(pk, t) {
      var r :| r in t.rows && Lost(pk, t, r);
      StaysLost(pk, t, op, r);
    } else if !Absent(pk, t, op) {
      match KeyOf(pk, op.row)
      case None => assert Lost(pk, u, op.rid);
      case Some(k) => assert t.index[k] in u.rows && Lost(pk, u, t.index[k]);
    } else {
      forall r | r in u.rows
        ensures !Lost(pk, u, r)
      {
        if r in t.rows { assert !Lost(pk, t, r); }
      }
    }
  }

  ghost function Run(pk: nat, t: TableState, ops: seq<KeyOp>): TableState {
    if ops == [] then t else Apply(pk, Run(pk, t, ops[..|ops| - 1]), ops[|ops| - 1])
  }

  /** Every operation satisfies the condition in the state that it finds. */
  ghost predicate AllAllowed(pk: nat, t: TableState, ops: seq<KeyOp>) {
    forall i :: 0 <= i < |ops| ==> Allowed(pk, Run(pk, t, ops[..i]), ops[i])
  }

  ghost predicate AllAbsent(pk: nat, t: TableState, ops: seq<KeyOp>) {
    forall i :: 0 <= i < |ops| ==> Absent(pk, Run(pk, t, ops[..i]), ops[i])
  }

  lemma LastStep(pk: nat, t: TableState, ops: seq<KeyOp>)
    requires ops != []
    ensures var n := |ops| - 1;
            (AllAllowed(pk, t, ops) <==> AllAllowed(pk, t, ops[..n]) && Allowed(pk, Run(pk, t, ops[..n]), ops[n]))
            && (AllAbsent(pk, t, ops) <==> AllAbsent(pk, t, ops[..n]) && Absent(pk, Run(pk, t, ops[..n]), ops[n]))
  {
    hide Run, Allowed, Absent;
    var n := |ops| - 1;
    assert forall i :: 0 <= i < n ==> ops[..n][..i] == ops[..i] && ops[..n][i] == ops[i];
  }

  /** After any sequence of operations on an empty table, duplicate keys and reused slots
      included, index entries lead to live rows with their key; and the index is a
      bijection exactly if inserts used absent keys only. */
  lemma {:induction false} RunAgrees(pk: nat, ops: seq<KeyOp>)
    requires AllAllowed(pk, TableState(map[], map[]), ops)
    ensures var t0 := TableState(map[], map[]);
            Agrees(pk, Run(pk, t0, ops)) && (Exact(pk, Run(pk, t0, ops)) <==> AllAbsent(pk, t0, ops))
    decreases |ops|
  {
    if ops != [] {
      hide Agrees, Exact, Allowed, Absent, Apply, AllAllowed, AllAbsent;
      var n, t0 := |ops| - 1, TableState(map[], map[]);
      LastStep(pk, t0, ops);
      RunAgrees(pk, ops[..n]);
      ApplyAgrees(pk, Run(pk, t0, ops[..n]), ops[n]);
      ApplyExact(pk, Run(pk, t0, ops[..n]), ops[n]);
    }
  }

  // ---------- the engine's part for one table ----------

  class TableInfo {
    const heap: H.TableHeap
    const index: B.BPlusTree
    const pkColIdx: nat

    ghost predicate Valid()
      reads this, heap, index
    {
      heap.Valid() && index.Valid() && pkColIdx < |heap.l.schema| && Agrees(pkColIdx, State())
    }

    ghost function State(): TableState
      requires heap.Valid() && index.Valid()
      reads this, heap, index
    {
      TableState(heap.Rows(), index.Entries())
    }

    constructor (schema: Schema, pk: nat)
      requires RecordSize(schema) + 1 <= F.PAGE_SIZE - H.HEADER && pk < |schema|
      ensures Valid() && State() == TableState(map[], map[]) && heap.l.schema == schema && pkColIdx == pk
      ensures fresh(heap) && fresh(index)
    {
      heap := new H.TableHeap(schema, []);
      index := new B.BPlusTree();
      pkColIdx := pk;
      new;
      assert H.Contents(heap.l, []) == map[] by { NoPages(heap.l); }
    }

    /** Heap first, then index.  Fails (the source throws) if the row does not fit, and
        then nothing changes; or if its key is not an INT, and then the row stays. */
    method InsertRecord(values: Row) returns (ok: bool, rid: RecordID)
      requires Valid()
      modifies heap, index
      ensures Valid()
      ensures ok <==> RowOk(heap.l.schema, values) && KeyOf(pkColIdx, values).Some?
      ensures !RowOk(heap.l.schema, values) ==> State() == old(State())
      ensures RowOk(heap.l.schema, values) ==>
                rid !in old(State()).rows && State() == Apply(pkColIdx, old(State()), Ins(rid, CutRow(values)))
      ensures RowOk(heap.l.schema, values) ==>
                var t := old(State());
                State().rows == t.rows[rid := CutRow(values)] && pkColIdx < |values|
                && State().index == if values[pkColIdx].IntV? then t.index[values[pkColIdx].i := rid] else t.index
    {
      hide Agrees, RowOk;
      ok, rid := heap.InsertRecord(values);
      if !ok { return; }
      CutKey(pkColIdx, values, heap.l.schema);
      ApplyAgrees(pkColIdx, old(State()), Ins(rid, CutRow(values)));
      if !values[pkColIdx].IntV? { return false, rid; }
      index.Insert(values[pkColIdx].i, rid);
    }

    method DeleteByKey(key: int) returns (ok: bool)
      requires Valid()
      modifies heap, index
      ensures Valid() && ok == (key in old(State()).index)
      ensures State() == Apply(pkColIdx, old(State()), Del(key))
      ensures ok ==>
                var t := old(State());
                State().rows == t.rows - {t.index[key]} && State().index == t.index - {key}
      ensures !ok ==> State() == old(State())
    {
      ApplyAgrees(pkColIdx, State(), Del(key));
      var rid := index.Find(key);
      if rid.None? { return false; }
      ok := heap.DeleteRecord(rid.value);
      if ok {
        var removed := index.Remove(key);
      }
    }

    /** Throws (or has no defined result) if the row has no key column, the key would
        change, or the row does not fit. */
    method UpdateByKey(key: int, values: Row) returns (a: H.Answer)
      requires Valid()
      modifies heap
      ensures Valid()
      ensures a == H.No <==> key !in old(State()).index
      ensures a == H.Yes <==>
              key in old(State()).index && KeyOf(pkColIdx, values) == Some(key) && RowOk(heap.l.schema, values)
      ensures State() == if a == H.Yes then Apply(pkColIdx, old(State()), Upd(key, CutRow(values))) else old(State())
      ensures a == H.Yes ==>
                var t := old(State());
                pkColIdx < |values| && values[pkColIdx] == IntV(key)
                && State().rows == t.rows[t.index[key] := CutRow(values)] && State().index == t.index
    {
      hide RowOk, CutRow, H.Contents, H.PagesOk, Apply;
      var rid := index.Find(key);
      if rid.None? { return H.No; }
      if pkColIdx >= |values| { return H.Throws; }
      var pkfv := values[pkColIdx];
      if !pkfv.IntV? || pkfv.i != key { return H.Throws; }
      H.LiveId(heap.l, heap.pages, rid.value);
      CutKey(pkColIdx, values, heap.l.schema);
      ApplyAgrees(pkColIdx, State(), Upd(key, CutRow(values)));
      ApplyUpd(pkColIdx, State(), key, CutRow(values));
      a := heap.UpdateRecord(rid.value, values);
    }

    method FindByKey(key: int) returns (rid: Option<RecordID>)
      requires Valid()
      ensures rid == S.Get(State().index, key)
      ensures rid.Some? <==> key in State().index
      ensures rid.Some? ==> rid.value == State().index[key] && rid.value in State().rows
      ensures rid.Some? ==> var row := State().rows[rid.value]; pkColIdx < |row| && row[pkColIdx] == IntV(key)
    {
      rid := index.Find(key);
    }
  }

  lemma ApplyUpd(pk: nat, t: TableState, k: int, row: Row)
    requires Agrees(pk, t) && k in t.index
    ensures t.index[k] in t.rows && Apply(pk, t, Upd(k, row)) == TableState(t.rows[t.index[k] := row], t.index)
  {
  }

  lemma CutKey(pk: nat, row: Row, schema: Schema)
    ensures KeyOf(pk, CutRow(row)) == KeyOf(pk, row)
    ensures RowOk(schema, row) ==> |row| == |schema|
  {
  }

  lemma NoPages(l: H.Layout)
    requires H.Sized(l)
    ensures H.Contents(l, []) == map[]
  {
  }
}
