/** The lock-optimized storage engine and the sessions on top of it.  Each method takes one
    step of the machine in TxMachine, so whatever holds of every history holds of every
    sequence of calls. */
module Engine {
  import opened Common
  import opened TxMachine
  import opened Recovery
  import opened Serializability
  import Trace = LogTrace
  import Rec = Record
  import L = LockManager
  import T = TransactionManager
  import W = WalManager

  // ---------- index entries lead to live rows ----------

  /** Every index entry names a live row, and no two entries name the same one. */
  ghost predicate IndexLive(t: Table) {
    (forall k :: k in t.index ==> t.index[k] in t.rows)
    && forall j, k :: j in t.index && k in t.index && t.index[j] == t.index[k] ==> j == k
  }

  ghost predicate AllLive(d: Data) {
    forall r :: r in d ==> IndexLive(d[r])
  }

  lemma RunKeepsLive(d: Data, e: Event)
    requires IsOp(e) && AllLive(d) && RunOp(d, e).Some?
    ensures AllLive(RunOp(d, e).value)
  {
  }

  lemma LiveEntry(d: Data, table: string, key: int)
    requires AllLive(d)
    ensures table in d && key in d[table].index ==> d[table].index[key] in d[table].rows
  {
  }

  /** After any history, an index lookup never leads to a dead slot. */
  lemma {:induction false} LookupFinds(d0: Data, h: History, table: string, key: int)
    requires AllLive(d0) && After(d0, h).Some?
    ensures AllLive(After(d0, h).value.data)
    ensures table in After(d0, h).value.data ==> Lookup(After(d0, h).value.data[table], key).Some?
    decreases |h|
  {
    if h != [] {
      var g, e := h[..|h| - 1], h[|h| - 1];
      LookupFinds(d0, g, table, key);
      if IsOp(e) { RunKeepsLive(After(d0, g).value.data, e); }
    }
  }

  // ---------- the engine ----------

  datatype Status = Done | LockConflict | UnknownTable | Throws

  /** The step as the engine takes it.  If the log stream has failed, nothing reaches the
      log; all else is the step of the machine. */
  function Taken(s: State, e: Event, failed: bool): State
    requires Can(s, e)
  {
    if failed then Do(s, e).(log := s.log, flushed := s.flushed) else Do(s, e)
  }

  /** Nobody looks at the log to decide whether a step can be taken, or with what result:
      with a failed stream the engine goes on as if nothing had happened. */
  lemma FailureGoesUnnoticed(s: State, e: Event, t: State)
    requires Can(s, e) && t == s.(log := t.log, flushed := t.flushed)
    ensures Can(t, e) && Taken(t, e, true) == Do(s, e).(log := t.log, flushed := t.flushed)
  {
  }

  /** The state t was reached from the tables d0 by the history h; the log apart, unless it
      is sound. */
  ghost predicate Reached(d0: Data, h: History, t: State, sound: bool) {
    After(d0, h).Some?
    && var s := After(d0, h).value;
       t == s.(log := t.log, flushed := t.flushed) && (sound ==> t == s)
  }

  lemma ReachedStep(d0: Data, h: History, t: State, sound: bool, e: Event, failed: bool)
    requires Reached(d0, h, t, sound) && Can(t, e) && (sound ==> !failed)
    ensures Reached(d0, h + [e], Taken(t, e, failed), sound)
  {
    hide After;
    var s := After(d0, h).value;
    AfterLast(d0, h, e);
    FailureGoesUnnoticed(t, e, s);
  }

  // ---------- the row of an INSERT ----------

  /** defaults: what Schema's defaultFor gives for each column. */
  datatype TableDef = TableDef(schema: Rec.Schema, defaults: Row, pkColIdx: nat)

  ghost predicate DefOk(def: TableDef) {
    |def.defaults| == |def.schema| && def.pkColIdx < |def.schema|
  }

  /** c is the first column of that name. */
  ghost predicate IsColumn(schema: Rec.Schema, name: string, c: int) {
    0 <= c < |schema| && schema[c].name == name && forall b :: 0 <= b < c ==> schema[b].name != name
  }

  function ColumnIndex(schema: Rec.Schema, name: string): (r: Option<nat>)
    ensures r.Some? ==> IsColumn(schema, name, r.value)
    ensures r.None? ==> forall i :: 0 <= i < |schema| ==> schema[i].name != name
  {
    if schema == [] then None
    else if schema[0].name == name then Some(0)
    else match ColumnIndex(schema[1..], name)
      case None => None
      case Some(i) => Some(i + 1)
  }

  /** The value given for column c: the last one, if it is named several times. */
  function Given(schema: Rec.Schema, cols: seq<string>, vals: Row, c: nat): Option<FieldValue>
    requires |cols| <= |vals|
  {
    if cols == [] then None
    else
      var n := |cols| - 1;
      if ColumnIndex(schema, cols[n]) == Some(c) then Some(vals[n]) else Given(schema, cols[..n], vals, c)
  }

  predicate AllColumns(schema: Rec.Schema, cols: seq<string>) {
    forall i :: 0 <= i < |cols| ==> ColumnIndex(schema, cols[i]).Some?
  }

  function FullRow(def: TableDef, cols: seq<string>, vals: Row): (fv: Row)
    requires |cols| <= |vals| && |def.defaults| == |def.schema|
    ensures |fv| == |def.schema|
  {
    seq(|def.schema|, c requires 0 <= c < |def.schema| =>
      var g := Given(def.schema, cols, vals, c); if g.Some? then g.value else def.defaults[c])
  }

  /** The name is not given again after i. */
  ghost predicate LastNamed(cols: seq<string>, i: int)
    ensures LastNamed(cols, i) ==> 0 <= i < |cols|
  {
    0 <= i < |cols| && forall j :: i < j < |cols| ==> cols[j] != cols[i]
  }

  /** The row of an INSERT: the last value given for a column, or its default. */
  ghost predicate Filled(def: TableDef, cols: seq<string>, vals: Row, fv: Row)
    requires |cols| <= |vals| && |def.defaults| == |def.schema|
  {
    |fv| == |def.schema|
    && (forall i, c :: LastNamed(cols, i) && IsColumn(def.schema, cols[i], c) ==> fv[c] == vals[i])
    && forall c :: 0 <= c < |fv| && (forall i :: 0 <= i < |cols| ==> !IsColumn(def.schema, cols[i], c)) ==>
         fv[c] == def.defaults[c]
  }

  lemma {:induction false} GivenMeaning(schema: Rec.Schema, cols: seq<string>, vals: Row, c: nat)
    requires |cols| <= |vals|
    ensures forall i :: LastNamed(cols, i) && IsColumn(schema, cols[i], c) ==>
              Given(schema, cols, vals, c) == Some(vals[i])
    ensures (forall i :: 0 <= i < |cols| ==> !IsColumn(schema, cols[i], c)) ==> Given(schema, cols, vals, c) == None
    decreases |cols|
  {
    if cols != [] {
      hide IsColumn, ColumnIndex, LastNamed;
      var n := |cols| - 1;
      GivenMeaning(schema, cols[..n], vals, c);
      OneColumn(schema, cols[n], c);
      assert forall i :: 0 <= i < n ==> cols[..n][i] == cols[i];
      forall i | LastNamed(cols, i) && IsColumn(schema, cols[i], c)
        ensures Given(schema, cols, vals, c) == Some(vals[i])
      {
        EarlierName(schema, cols, i, c);
      }
    }
  }

  /** The last name given: it is at the end, or it was the last before the end. */
  lemma EarlierName(schema: Rec.Schema, cols: seq<string>, i: int, c: int)
    requires LastNamed(cols, i) && IsColumn(schema, cols[i], c)
    ensures var n := |cols| - 1;
            i == n || (LastNamed(cols[..n], i) && cols[..n][i] == cols[i] && !IsColumn(schema, cols[n], c))
  {
  }

  lemma OneColumn(schema: Rec.Schema, name: string, c: nat)
    ensures ColumnIndex(schema, name) == Some(c) <==> IsColumn(schema, name, c)
  {
  }

  lemma FullRowFilled(def: TableDef, cols: seq<string>, vals: Row)
    requires |cols| <= |vals| && |def.defaults| == |def.schema|
    ensures Filled(def, cols, vals, FullRow(def, cols, vals))
  {
    hide Given, IsColumn;
    var fv := FullRow(def, cols, vals);
    forall c | 0 <= c < |fv| { GivenMeaning(def.schema, cols, vals, c); }
    forall i, c | LastNamed(cols, i) && IsColumn(def.schema, cols[i], c)
      ensures 0 <= c < |fv| && fv[c] == vals[i]
    {
      ColumnInside(def.schema, cols[i], c);
    }
  }

  ghost predicate Known(schema: Rec.Schema, name: string) {
    exists c :: 0 <= c < |schema| && schema[c].name == name
  }

  lemma KnownColumns(schema: Rec.Schema, cols: seq<string>)
    ensures AllColumns(schema, cols) <==> forall i :: 0 <= i < |cols| ==> Known(schema, cols[i])
  {
    forall name
      ensures ColumnIndex(schema, name).Some? <==> Known(schema, name)
    {
      var r := ColumnIndex(schema, name);
      if r.Some? { assert schema[r.value].name == name; }
    }
  }

  lemma LastOf(cols: seq<string>, i: nat) returns (k: nat)
    requires i < |cols|
    ensures k < |cols| && cols[k] == cols[i] && LastNamed(cols, k)
    decreases |cols| - i
  {
    if j :| i < j < |cols| && cols[j] == cols[i] { k := LastOf(cols, j); } else { k := i; }
  }

  /** There is only one such row. */
  lemma OneFilled(def: TableDef, cols: seq<string>, vals: Row, a: Row, b: Row)
    requires |cols| <= |vals| && |def.defaults| == |def.schema|
    requires Filled(def, cols, vals, a) && Filled(def, cols, vals, b)
    ensures a == b
  {
    forall c | 0 <= c < |a|
      ensures a[c] == b[c]
    {
      if i :| 0 <= i < |cols| && IsColumn(def.schema, cols[i], c) { var k := LastOf(cols, i); }
    }
  }

  lemma ColumnInside(schema: Rec.Schema, name: string, c: int)
    requires IsColumn(schema, name, c)
    ensures 0 <= c < |schema|
  {
  }

  /** Throws if a column is unknown. */
  method FillRow(def: TableDef, cols: seq<string>, vals: Row) returns (ok: bool, fv: Row)
    requires DefOk(def) && |cols| <= |vals|
    ensures ok <==> forall i :: 0 <= i < |cols| ==> Known(def.schema, cols[i])
    ensures ok ==> Filled(def, cols, vals, fv)
    ensures ok <==> AllColumns(def.schema, cols)
    ensures ok ==> fv == FullRow(def, cols, vals)
  {
    FullRowFilled(def, cols, vals);
    KnownColumns(def.schema, cols);
    var n := |def.schema|;
    var given: seq<Option<FieldValue>> := seq(n, _ => None);
    for i := 0 to |cols|
      invariant |given| == n && AllColumns(def.schema, cols[..i])
      invariant forall c :: 0 <= c < n ==> given[c] == Given(def.schema, cols[..i], vals, c)
    {
      var idx := ColumnIndex(def.schema, cols[i]);
      assert cols[..i + 1][..i] == cols[..i] && cols[..i + 1][i] == cols[i];
      if idx.None? { return false, []; }
      given := given[idx.value := Some(vals[i])];
    }
    assert cols[..|cols|] == cols;
    fv := [];
    for c := 0 to n
      invariant fv == FullRow(def, cols, vals)[..c]
    {
      fv := fv + [if given[c].Some? then given[c].value else def.defaults[c]];
    }
    return true, fv;
  }

  /** The step that an INSERT is.  An unknown column, and a row that does not fit the
      schema, throw once the lock is taken.  A primary key that is no INT throws last, with
      the row in the heap and in the log, but not in the index. */
  function InsertEvent(def: TableDef, table: string, cols: seq<string>, vals: Row, rid: RecordID, tx: int): Event
    requires |cols| <= |vals| && |def.defaults| == |def.schema| && def.pkColIdx < |def.schema|
  {
    var row := FullRow(def, cols, vals);
    if !AllColumns(def.schema, cols) || !Rec.RowOk(def.schema, row) then Failed(tx, table)
    else Insert(tx, table, (if row[def.pkColIdx].IntV? then Some(row[def.pkColIdx].i) else None), rid, row)
  }

  /** Somebody else holds a lock on the table. */
  ghost predicate HeldByOthers(t: L.LockTable, tx: int, table: string) {
    exists o :: o != tx && (L.HoldsX(t, o, table) || L.HoldsS(t, o, table))
  }

  lemma InsertStep(s: State, tx: int, table: string, pk: Option<int>, rid: RecordID, row: Row, failed: bool)
    requires Active(s, tx) && table in s.data && rid !in s.data[table].rows && L.CanOwn(s.locks, tx, table)
    ensures var e, t := Insert(tx, table, pk, rid, row), s.data[table];
            Can(s, e)
            && Taken(s, e, failed)
            == State(s.data[table := Table(t.rows[rid := row],
                                           if pk.Some? then t.index[pk.value := rid] else t.index)],
                     L.Owned(s.locks, tx, table), s.next, s.txs,
                     if failed then s.log else s.log + [LogInsert(tx, table, rid, row)], s.flushed)
    ensures var e := Insert(tx, table, pk, rid, row); RunOp(s.data, e) == Some(Taken(s, e, failed).data)
  {
  }

  lemma OwnExact(t: L.LockTable, tx: int, table: string, next: int, txs: T.TxTable)
    requires T.TxInv(next, txs) && tx in txs
    ensures L.CanOwn(t, tx, table) <==> !HeldByOthers(t, tx, table)
    ensures L.HoldsX(L.Owned(t, tx, table), tx, table)
  {
    hide L.CanOwn;
    L.GrantExact(t, tx, table);
  }

  lemma ConflictStep(s: State, tx: int, table: string, failed: bool)
    requires Active(s, tx) && !L.CanOwn(s.locks, tx, table)
    ensures Can(s, Conflict(tx, table)) && Taken(s, Conflict(tx, table), failed) == s
  {
  }

  lemma FailedStep(s: State, tx: int, table: string, failed: bool)
    requires Active(s, tx) && table in s.data && L.CanOwn(s.locks, tx, table)
    ensures Can(s, Failed(tx, table))
    ensures Taken(s, Failed(tx, table), failed) == s.(locks := L.Owned(s.locks, tx, table))
  {
    assert s.data[table := s.data[table]] == s.data && s.log + [] == s.log;
  }

  class StorageEngine {
    var data: Data
    const catalog: map<string, TableDef>
    const locks: L.LockManager
    const txs: T.TransactionManager
    const wal: W.WALManager

    /** The tables at the start, all that happened since, and whether the log says so. */
    ghost const d0: Data
    ghost var hist: History
    ghost var sound: bool

    ghost predicate Valid()
      reads this, txs, wal, locks
    {
      txs.Valid() && AllLive(data) && (wal.failed ==> wal.Log() == [])
      && (forall t :: t in data ==> t in catalog && DefOk(catalog[t]))
      && (sound ==> !wal.failed) && Reached(d0, hist, Abs(), sound)
    }

    /** What the machine knows of the engine. */
    ghost function Abs(): State
      reads this, locks, txs, wal
    {
      State(data, locks.table, txs.nextTxId, txs.txTable, wal.Log(), |wal.file|)
    }

    /** The step e was taken, and nothing else happened. */
    twostate predicate Step(e: Event)
      reads this, locks, txs, wal
    {
      Can(old(Abs()), e) && Abs() == Taken(old(Abs()), e, wal.failed) && hist == old(hist) + [e] && sound == old(sound)
    }

    twostate predicate Nothing()
      reads this, locks, txs, wal
    {
      Abs() == old(Abs()) && hist == old(hist) && sound == old(sound)
    }

    /** log: the log manager, after the recovery that the source starts with, or fresh. */
    constructor (tables: map<string, TableDef>, d: Data, log: W.WALManager)
      requires AllLive(d) && (log.failed ==> log.Log() == [])
      requires forall t :: t in d ==> t in tables && DefOk(tables[t])
      ensures Valid() && wal == log && Abs() == State(d, map[], 1, map[], log.Log(), |log.file|)
      ensures fresh(locks) && fresh(txs) && d0 == d && hist == [] && (sound <==> !log.failed && log.Log() == [])
    {
      data, catalog, wal := d, tables, log;
      locks := new L.LockManager();
      txs := new T.TransactionManager();
      d0, hist, sound := d, [], !log.failed && log.Log() == [];
    }

    method ScanTable(table: string, tx: int) returns (st: Status, rows: map<RecordID, Row>)
      requires Valid() && Active(Abs(), tx)
      modifies locks, this`hist
      ensures Valid() && st != Throws
      ensures st == UnknownTable <==> table !in data
      ensures st == UnknownTable ==> Nothing()
      ensures st == LockConflict ==> Step(Conflict(tx, table))
      ensures st == Done ==> Step(Scan(tx, table, rows))
      ensures data == old(data) && wal.Log() == old(wal.Log())
      ensures st == LockConflict <==>
              table in data && exists o :: o != tx && L.HoldsX(old(locks.table), o, table)
      ensures st == Done ==> rows == old(data)[table].rows && L.HoldsS(locks.table, tx, table)
    {
      hide AllLive, Reached;
      if table !in data { return UnknownTable, map[]; }
      var granted := locks.LockShared(tx, table);
      if !granted {
        Note(old(Abs()), Conflict(tx, table));
        return LockConflict, map[];
      }
      assert data[table := data[table]] == data;
      rows := data[table].rows;
      Note(old(Abs()), Scan(tx, table, rows));
      return Done, rows;
    }

    /** Put the step that was just taken into the history. */
    ghost method Note(was: State, e: Event)
      requires Reached(d0, hist, was, sound) && Can(was, e) && (sound ==> !wal.failed)
      requires Abs() == Taken(was, e, wal.failed)
      modifies this`hist
      ensures hist == old(hist) + [e] && Reached(d0, hist, Abs(), sound)
    {
      ReachedStep(d0, hist, was, sound, e, wal.failed);
      hist := hist + [e];
    }

    /** The row of the INSERT is at its place and in the log; no other row of the table has
        changed, and no other table. */
    ghost predicate InsertedRow(was: Data, log: seq<LogRec>, table: string, cols: seq<string>, vals: Row,
                                rid: RecordID, tx: int)
      requires |cols| <= |vals| && table in catalog && DefOk(catalog[table])
      reads this`data, wal
    {
      table in was && table in data && rid in data[table].rows
      && var row := data[table].rows[rid];
         Filled(catalog[table], cols, vals, row)
         && data == was[table := data[table]] && data[table].rows == was[table].rows[rid := row]
         && wal.Log() == if wal.failed then [] else log + [LogInsert(tx, table, rid, row)]
    }

    /** Heap, then log, then index; the last throws if the key is no INT. */
    method Place(table: string, rid: RecordID, fv: Row, tx: int) returns (done: bool)
      requires table in data && table in catalog && catalog[table].pkColIdx < |fv|
      modifies this`data, wal`buffer
      ensures var t, pkv := old(data)[table], fv[catalog[table].pkColIdx];
              done == pkv.IntV?
              && data == old(data)[table := Table(t.rows[rid := fv], if done then t.index[pkv.i := rid] else t.index)]
      ensures wal.buffer == if wal.failed then old(wal.buffer) else old(wal.buffer) + [LogInsert(tx, table, rid, fv)]
    {
      var td := data[table];
      td := td.(rows := td.rows[rid := fv]);
      wal.Append(LogInsert(tx, table, rid, fv));
      var pkv := fv[catalog[table].pkColIdx];
      if pkv.IntV? { td := td.(index := td.index[pkv.i := rid]); }
      data := data[table := td];
      return pkv.IntV?;
    }

    /** What an INSERT does once it has the lock. */
    method FillAndPlace(table: string, cols: seq<string>, vals: Row, rid: RecordID, tx: int) returns (st: Status)
      requires table in data && table in catalog && DefOk(catalog[table]) && |cols| <= |vals|
      requires rid !in data[table].rows && (wal.failed ==> wal.Log() == [])
      modifies this`data, wal`buffer
      ensures var e := InsertEvent(catalog[table], table, cols, vals, rid, tx); var t := old(data)[table];
              st == (if e.Insert? && e.pk.Some? then Done else Throws)
              && (e.Failed? ==> e == Failed(tx, table) && data == old(data) && wal.buffer == old(wal.buffer))
              && (!e.Failed? ==>
                    e == Insert(tx, table, e.pk, rid, e.row)
                    && data == old(data)[table := Table(t.rows[rid := e.row],
                                                        if st == Done then t.index[e.pk.value := rid] else t.index)]
                    && wal.buffer == if wal.failed then old(wal.buffer)
                                     else old(wal.buffer) + [LogInsert(tx, table, rid, e.row)])
      ensures st == Done ==>
                InsertedRow(old(data), old(wal.Log()), table, cols, vals, rid, tx)
                && var def, t := catalog[table], data[table];
                   t.rows[rid][def.pkColIdx].IntV?
                   && t.index == old(data)[table].index[t.rows[rid][def.pkColIdx].i := rid]
      ensures st == Throws ==>
                var def := catalog[table];
                if data == old(data) then
                  wal.Log() == old(wal.Log())
                  && forall row :: Filled(def, cols, vals, row) ==>
                       (exists i :: 0 <= i < |cols| && !Known(def.schema, cols[i])) || !Rec.RowOk(def.schema, row)
                else
                  InsertedRow(old(data), old(wal.Log()), table, cols, vals, rid, tx)
                  && !data[table].rows[rid][def.pkColIdx].IntV? && data[table].index == old(data)[table].index
    {
      hide FullRow, AllColumns, Rec.RowOk, Filled, Known;
      var def := catalog[table];
      var ok, fv := FillRow(def, cols, vals);
      if !ok || !Rec.RowOk(def.schema, fv) {
        forall row | ok && Filled(def, cols, vals, row) { OneFilled(def, cols, vals, row, fv); }
        return Throws;
      }
      var done := Place(table, rid, fv, tx);
      assert wal.Log() == if wal.failed then [] else old(wal.Log()) + [LogInsert(tx, table, rid, fv)];
      assert rid in data[table].rows && rid !in old(data)[table].rows;
      return if done then Done else Throws;
    }

    /** rid is the heap's choice of a free slot.  Lock, row, heap, then log, then index. */
    method InsertRecord(table: string, cols: seq<string>, vals: Row, rid: RecordID, tx: int) returns (st: Status)
      requires Valid() && Active(Abs(), tx) && |cols| <= |vals| && (table in data ==> rid !in data[table].rows)
      modifies this`data, this`hist, locks, wal`buffer
      ensures Valid()
      ensures st == UnknownTable <==> table !in old(data)
      ensures st == UnknownTable ==> Nothing()
      ensures st == LockConflict ==> Step(Conflict(tx, table))
      ensures st == Done || st == Throws ==>
                var e := InsertEvent(catalog[table], table, cols, vals, rid, tx);
                Step(e) && (st == Done <==> e.Insert? && e.pk.Some?)
      ensures st == LockConflict <==> table in old(data) && HeldByOthers(old(locks.table), tx, table)
      ensures st == Done || st == Throws ==> L.HoldsX(locks.table, tx, table)
      ensures st == UnknownTable || st == LockConflict ==> data == old(data) && wal.Log() == old(wal.Log())
      ensures st == Done ==>
                InsertedRow(old(data), old(wal.Log()), table, cols, vals, rid, tx)
                && var def, t := catalog[table], data[table];
                   t.rows[rid][def.pkColIdx].IntV?
                   && t.index == old(data)[table].index[t.rows[rid][def.pkColIdx].i := rid]
      ensures st == Throws ==>
                var def := catalog[table];
                if data == old(data) then
                  wal.Log() == old(wal.Log())
                  && forall row :: Filled(def, cols, vals, row) ==>
                       (exists i :: 0 <= i < |cols| && !Known(def.schema, cols[i])) || !Rec.RowOk(def.schema, row)
                else
                  InsertedRow(old(data), old(wal.Log()), table, cols, vals, rid, tx)
                  && !data[table].rows[rid][def.pkColIdx].IntV? && data[table].index == old(data)[table].index
    {
      hide Reached, FullRow, AllColumns, Rec.RowOk, AllLive, L.CanOwn, L.Owned, L.CanShare, Filled, Known;
      hide Can, Taken, RunOp, L.HoldsX, L.HoldsS, HeldByOthers, InsertedRow, InsertEvent;
      if table !in data { return UnknownTable; }
      OwnExact(locks.table, tx, table, txs.nextTxId, txs.txTable);
      var granted := locks.LockExclusive(tx, table);
      if !granted {
        ConflictStep(old(Abs()), tx, table, wal.failed);
        Note(old(Abs()), Conflict(tx, table));
        return LockConflict;
      }
      ghost var e := InsertEvent(catalog[table], table, cols, vals, rid, tx);
      st := FillAndPlace(table, cols, vals, rid, tx);
      if e.Failed? {
        FailedStep(old(Abs()), tx, table, wal.failed);
      } else {
        assert wal.Log() == if wal.failed then [] else old(wal.Log()) + [LogInsert(tx, table, rid, e.row)];
        InsertStep(old(Abs()), tx, table, e.pk, rid, e.row, wal.failed);
        RunKeepsLive(old(data), e);
      }
      Note(old(Abs()), e);
    }

    /** The key comes from WHERE pk = literal.  Log, then heap, then index. */
    method DeleteRecords(table: string, key: int, tx: int) returns (st: Status, hit: Hit)
      requires Valid() && Active(Abs(), tx)
      modifies this`data, this`hist, locks, wal`buffer
      ensures Valid() && st != Throws
      ensures st == UnknownTable <==> table !in old(data)
      ensures st == UnknownTable ==> Nothing()
      ensures st == LockConflict ==> Step(Conflict(tx, table))
      ensures st == Done ==> Step(Delete(tx, table, key, hit))
      ensures st == LockConflict <==> table in old(data) && HeldByOthers(old(locks.table), tx, table)
      ensures st == Done ==> L.HoldsX(locks.table, tx, table)
      ensures st == Done ==> (hit == Miss <==> key !in old(data)[table].index)
      ensures st != Done || hit == Miss ==> data == old(data) && wal.Log() == old(wal.Log())
      ensures st == Done && hit.At? ==>
                var t := old(data)[table];
                t.index[key] == hit.rid && hit.rid in t.rows && t.rows[hit.rid] == hit.row
                && data == old(data)[table := Table(t.rows - {hit.rid}, t.index - {key})]
                && wal.Log() == if wal.failed then [] else old(wal.Log()) + [LogDelete(tx, table, hit.rid, hit.row)]
    {
      hide Reached, AllLive, L.CanOwn, L.Owned, L.CanShare;
      LiveEntry(data, table, key);
      if table !in data { return UnknownTable, Miss; }
      var granted := locks.LockExclusive(tx, table);
      if !granted {
        Note(old(Abs()), Conflict(tx, table));
        return LockConflict, Miss;
      }
      var td := data[table];
      if key !in td.index {
        assert data[table := td] == data && wal.Log() == old(wal.Log()) + [];
        Note(old(Abs()), Delete(tx, table, key, Miss));
        return Done, Miss;
      }
      var rid := td.index[key];
      var was := td.rows[rid];
      wal.Append(LogDelete(tx, table, rid, was));
      td := td.(rows := td.rows - {rid});
      td := td.(index := td.index - {key});
      data := data[table := td];
      assert wal.Log() == if wal.failed then [] else old(wal.Log()) + [LogDelete(tx, table, rid, was)];
      RunKeepsLive(old(data), Delete(tx, table, key, At(rid, was)));
      Note(old(Abs()), Delete(tx, table, key, At(rid, was)));
      return Done, At(rid, was);
    }

    /** assign computes the new values from the old row; None: an expression cannot be
        evaluated.  Log, then heap.  A row that the heap refuses is in the log by then. */
    method UpdateRecords(table: string, key: int, assign: Row -> Option<Row>, tx: int) returns (st: Status, hit: Hit)
      requires Valid() && Active(Abs(), tx)
      modifies this`data, this`hist, this`sound, locks, wal`buffer
      ensures Valid()
      ensures st == UnknownTable <==> table !in old(data)
      ensures st == UnknownTable ==> Nothing()
      ensures st == LockConflict ==> Step(Conflict(tx, table))
      ensures st == Done && hit == Miss ==> Step(Update(tx, table, key, Miss, []))
      ensures st == Done && hit.At? ==>
                var new_ := assign(hit.row);
                new_.Some? && Rec.RowOk(catalog[table].schema, new_.value)
                && Step(Update(tx, table, key, hit, new_.value))
      ensures st == LockConflict <==> table in old(data) && HeldByOthers(old(locks.table), tx, table)
      ensures st == Done || st == Throws ==> L.HoldsX(locks.table, tx, table)
      ensures st == Done || st == Throws ==> (hit == Miss <==> key !in old(data)[table].index)
      ensures (st == Done || st == Throws) && hit.At? ==>
                var t := old(data)[table];
                t.index[key] == hit.rid && hit.rid in t.rows && t.rows[hit.rid] == hit.row
      ensures st != Done || hit == Miss ==> data == old(data)
      ensures st == UnknownTable || st == LockConflict || hit == Miss ==> wal.Log() == old(wal.Log())
      ensures st == Done && hit.At? ==>
                var t, new_ := old(data)[table], assign(hit.row).value;
                data == old(data)[table := Table(t.rows[hit.rid := new_], t.index)]
                && wal.Log() == if wal.failed then []
                                else old(wal.Log()) + [LogUpdate(tx, table, hit.rid, hit.row, new_)]
      ensures st == Throws ==> hit.At? && Can(old(Abs()), Failed(tx, table)) && hist == old(hist) + [Failed(tx, table)]
      ensures st == Throws && assign(hit.row).None? ==> Step(Failed(tx, table))
      ensures st == Throws && assign(hit.row).Some? ==>
                var new_ := assign(hit.row).value;
                var t := Taken(old(Abs()), Failed(tx, table), wal.failed);
                !Rec.RowOk(catalog[table].schema, new_) && !sound
                && Abs() == if wal.failed then t else t.(log := t.log + [LogUpdate(tx, table, hit.rid, hit.row, new_)])
    {
      hide Reached, Rec.RowOk, AllLive, L.CanOwn, L.Owned, L.CanShare;
      LiveEntry(data, table, key);
      if table !in data { return UnknownTable, Miss; }
      var granted := locks.LockExclusive(tx, table);
      if !granted {
        Note(old(Abs()), Conflict(tx, table));
        return LockConflict, Miss;
      }
      var td := data[table];
      assert data[table := td] == data && wal.Log() == old(wal.Log()) + [];
      if key !in td.index {
        Note(old(Abs()), Update(tx, table, key, Miss, []));
        return Done, Miss;
      }
      var rid := td.index[key];
      var was := td.rows[rid];
      var new_ := assign(was);
      if new_.None? {
        Note(old(Abs()), Failed(tx, table));
        return Throws, At(rid, was);
      }
      wal.Append(LogUpdate(tx, table, rid, was, new_.value));
      assert wal.Log() == if wal.failed then [] else old(wal.Log()) + [LogUpdate(tx, table, rid, was, new_.value)];
      if !Rec.RowOk(catalog[table].schema, new_.value) {
        Stray(old(Abs()), tx, table);
        return Throws, At(rid, was);
      }
      data := data[table := td.(rows := td.rows[rid := new_.value])];
      RunKeepsLive(old(data), Update(tx, table, key, At(rid, was), new_.value));
      Note(old(Abs()), Update(tx, table, key, At(rid, was), new_.value));
      return Done, At(rid, was);
    }

    /** A step that failed, but has left something in the log. */
    ghost method Stray(was: State, tx: int, table: string)
      requires Reached(d0, hist, was, sound) && Can(was, Failed(tx, table))
      requires var t := Do(was, Failed(tx, table)); Abs() == t.(log := Abs().log, flushed := Abs().flushed)
      modifies this`hist, this`sound
      ensures hist == old(hist) + [Failed(tx, table)] && !sound && Reached(d0, hist, Abs(), sound)
    {
      ReachedStep(d0, hist, was, false, Failed(tx, table), true);
      hist, sound := hist + [Failed(tx, table)], false;
    }
  }

  // ---------- what holds of every engine ----------

  /** Whatever methods were called on the engine by whatever sessions, its tables are those
      of running the committed transactions one by one, wherever nobody holds X. */
  lemma EngineSerializable(e: StorageEngine)
    requires e.Valid() && HarmlessRollbacks(e.d0, e.hist)
    ensures RunOps(e.d0, Serial(e.hist)).Some?
    ensures var c := RunOps(e.d0, Serial(e.hist)).value;
            e.data.Keys == c.Keys
            && (forall r :: r in c && L.InfoOf(e.locks.table, r).xHolder == 0 ==> e.data[r] == c[r])
            && ((forall t :: !Active(e.Abs(), t)) ==> e.data == c)
  {
    hide RunOps, HarmlessRollbacks, After;
    Serializable(e.d0, e.hist);
    assert forall t :: Active(e.Abs(), t) <==> Active(After(e.d0, e.hist).value, t);
  }

  /** If its log is sound, then at any moment a crash leaves a log file and pages from which
      recovery gives the committed rows. */
  lemma EngineRecovers(e: StorageEngine, base: Disk, disk: Disk, n: nat)
    requires e.Valid() && e.sound && NoRollback(e.hist) && Trace.DiskShows(base, e.d0)
    requires |e.wal.file| <= n <= |e.wal.Log()| && PrefixDisk(base, e.wal.Log()[..n], disk)
    ensures After(e.d0, e.hist).Some?
    ensures Trace.DiskShows(Recovery.Recover(disk, e.wal.Log()[..n]), CommittedData(e.d0, e.hist))
  {
    hide After, Recovery.Recover, PrefixDisk, CommittedData;
    Trace.CrashRecovery(e.d0, e.hist, base, disk, n);
  }

  /** The engine as the source opens it: recover first, with no table registered.  If that
      gets through, the engine works, on a log stream that has failed. */
  method OpenAsWritten(tables: map<string, TableDef>, found: seq<LogRec>, disk: Disk, d: Data)
    returns (e: StorageEngine?)
    requires AllLive(d) && forall t :: t in d ==> t in tables && DefOk(tables[t])
    ensures e != null <==> forall r :: r in found && IsRow(r) ==> W.AbortedOnly(found, r.tx)
    ensures e != null ==> e.Valid() && e.wal.failed
  {
    var wal := new W.WALManager(found);
    var storage := new W.Storage(disk, {});
    W.RecoveryCompletes(found, {});
    var ok := wal.Recover(storage);
    if !ok { return null; }
    e := new StorageEngine(tables, d, wal);
  }

  // ---------- sessions: BEGIN, COMMIT, ROLLBACK ----------

  class QueryEngine {
    const storage: StorageEngine
    var currentTxId: int

    /** A session without a transaction has id 0. */
    ghost predicate Valid()
      reads this, storage, storage.txs, storage.locks, storage.wal
    {
      storage.Valid() && (currentTxId != 0 ==> Active(storage.Abs(), currentTxId))
    }

    constructor (s: StorageEngine)
      requires s.Valid()
      ensures Valid() && storage == s && currentTxId == 0
    {
      storage, currentTxId := s, 0;
    }

    /** Fails (the source throws) if a transaction is open. */
    method ExecuteBegin() returns (ok: bool)
      requires Valid()
      modifies this, storage`hist, storage.txs
      ensures Valid() && ok == (old(currentTxId) == 0)
      ensures !ok ==> storage.Nothing() && currentTxId == old(currentTxId)
      ensures ok ==> currentTxId != 0 && storage.Step(Begin(currentTxId))
      ensures ok ==> currentTxId !in old(storage.txs.txTable)
      ensures ok ==> storage.txs.txTable == old(storage.txs.txTable)[currentTxId := T.ACTIVE]
    {
      if currentTxId != 0 { return false; }
      currentTxId := storage.txs.BeginTransaction();
      storage.Note(old(storage.Abs()), Begin(currentTxId));
      return true;
    }

    /** Log, flush, mark, release: the COMMIT record is durable before any lock goes, unless
        the log stream has failed. */
    method ExecuteCommit() returns (ok: bool)
      requires Valid()
      modifies this, storage`hist, storage.txs, storage.locks, storage.wal
      ensures Valid() && ok == (old(currentTxId) != 0) && currentTxId == 0
      ensures !ok ==> storage.Nothing()
      ensures ok ==> storage.Step(Commit(old(currentTxId)))
      ensures ok ==> storage.txs.txTable == old(storage.txs.txTable)[old(currentTxId) := T.COMMITTED]
      ensures ok ==>
                forall o, q :: L.HoldsX(storage.locks.table, o, q) <==>
                  L.HoldsX(old(storage.locks.table), o, q) && o != old(currentTxId)
      ensures ok ==>
                forall o, q :: L.HoldsS(storage.locks.table, o, q) <==>
                  L.HoldsS(old(storage.locks.table), o, q) && o != old(currentTxId)
      ensures storage.data == old(storage.data)
      ensures ok ==> (LogCommit(old(currentTxId)) in storage.wal.file <==> !storage.wal.failed)
    {
      if currentTxId == 0 { return false; }
      storage.wal.Append(LogCommit(currentTxId));
      assert storage.wal.Log() == if storage.wal.failed then [] else old(storage.wal.Log()) + [LogCommit(currentTxId)];
      storage.wal.Flush();
      assert storage.wal.Log() == storage.wal.file;
      var marked := storage.txs.CommitTransaction(currentTxId);
      storage.locks.ReleaseTransactionLocks(currentTxId);
      storage.Note(old(storage.Abs()), Commit(currentTxId));
      currentTxId := 0;
      return true;
    }

    method ExecuteRollback() returns (ok: bool)
      requires Valid()
      modifies this, storage`hist, storage.txs, storage.locks, storage.wal
      ensures Valid() && ok == (old(currentTxId) != 0) && currentTxId == 0
      ensures !ok ==> storage.Nothing()
      ensures ok ==> storage.Step(Event.Rollback(old(currentTxId)))
      ensures ok ==> storage.txs.txTable == old(storage.txs.txTable)[old(currentTxId) := T.ABORTED]
      ensures ok ==>
                forall o, q :: L.HoldsX(storage.locks.table, o, q) <==>
                  L.HoldsX(old(storage.locks.table), o, q) && o != old(currentTxId)
      ensures ok ==>
                forall o, q :: L.HoldsS(storage.locks.table, o, q) <==>
                  L.HoldsS(old(storage.locks.table), o, q) && o != old(currentTxId)
      ensures storage.data == old(storage.data)
    {
      if currentTxId == 0 { return false; }
      storage.wal.Append(LogAbort(currentTxId));
      assert storage.wal.Log() == if storage.wal.failed then [] else old(storage.wal.Log()) + [LogAbort(currentTxId)];
      storage.wal.Flush();
      assert storage.wal.Log() == storage.wal.file;
      var marked := storage.txs.AbortTransaction(currentTxId);
      storage.locks.ReleaseTransactionLocks(currentTxId);
      storage.Note(old(storage.Abs()), Event.Rollback(currentTxId));
      currentTxId := 0;
      return true;
    }
  }
}
