/** What transactions see: the steps and the serial execution in terms of single rows and
    single events, and what a scan shows after any history. */
module Visibility {
  import opened Common
  import opened LockManager
  import opened TransactionManager
  import opened TxMachine
  import opened Serializability
  import opened LogTrace

  // ---------- one operation ----------

  /** The index entry of a key. */
  ghost function GetEntry(d: Data, table: string, key: int): Option<RecordID> {
    if table in d && key in d[table].index then Some(d[table].index[key]) else None
  }

  /** An operation can return what it recorded exactly if the tables say so: a scan all live
      rows of its table, an insert a dead place, a lookup by key the row that the index
      leads to. */
  lemma ReturnsExact(d: Data, e: Event)
    requires IsOp(e)
    ensures RunOp(d, e).Some? <==>
            e.table in d
            && (e.Scan? ==> forall rid ::
                  GetRow(d, (e.table, rid)) == if rid in e.rows then Some(e.rows[rid]) else None)
            && (e.Insert? ==> GetRow(d, (e.table, e.rid)) == None)
            && (e.Delete? || e.Update? ==>
                  if e.hit.Miss? then GetEntry(d, e.table, e.key) == None
                  else
                    GetEntry(d, e.table, e.key) == Some(e.hit.rid)
                    && GetRow(d, (e.table, e.hit.rid)) == Some(e.hit.row))
  {
    if e.Scan? && e.table in d {
      if forall rid :: GetRow(d, (e.table, rid)) == if rid in e.rows then Some(e.rows[rid]) else None {
        forall rid
          ensures rid in e.rows <==> rid in d[e.table].rows
          ensures rid in e.rows ==> e.rows[rid] == d[e.table].rows[rid]
        {
          assert GetRow(d, (e.table, rid)) == if rid in e.rows then Some(e.rows[rid]) else None;
        }
        assert e.rows == d[e.table].rows;
      }
    }
  }

  /** Does the event write this place? */
  predicate Wrote(e: Event, table: string, rid: RecordID) {
    (e.Insert? && e.table == table && e.rid == rid)
    || ((e.Delete? || e.Update?) && e.table == table && e.hit.At? && e.hit.rid == rid)
  }

  /** The row that it leaves there. */
  function Leaves(e: Event): Option<Row>
    requires e.Insert? || e.Delete? || e.Update?
  {
    if e.Delete? then None else Some(e.row)
  }

  /** What an operation leaves in every place and every index entry of every table. */
  lemma EffectExact(d: Data, e: Event, table: string, rid: RecordID, key: int)
    requires IsOp(e) && RunOp(d, e).Some?
    ensures RunOp(d, e).value.Keys == d.Keys
    ensures GetRow(RunOp(d, e).value, (table, rid))
         == if Wrote(e, table, rid) then Leaves(e) else GetRow(d, (table, rid))
    ensures GetEntry(RunOp(d, e).value, table, key)
         == if e.Insert? && e.table == table && e.pk == Some(key) then Some(e.rid)
            else if e.Delete? && e.hit.At? && e.table == table && e.key == key then None
            else GetEntry(d, table, key)
  {
  }

  // ---------- the serial execution ----------

  /** The operations of a transaction are exactly its own, each as often as it happened, and
      in that order: those of a shorter history come first. */
  lemma {:induction false} OpsOfExact(h: History, t: int, e: Event)
    ensures multiset(OpsOf(h, t))[e] == if IsOp(e) && e.tx == t then multiset(h)[e] else 0
    ensures forall k :: 0 <= k <= |h| ==> OpsOf(h[..k], t) <= OpsOf(h, t)
    decreases |h|
  {
    if h != [] {
      var n := |h| - 1;
      OpsOfExact(h[..n], t, e);
      assert h == h[..n] + [h[n]];
      forall k | 0 <= k <= |h|
        ensures OpsOf(h[..k], t) <= OpsOf(h, t)
      {
        hide OpsOf;
        OpsGrow(h, k, t);
      }
    } else {
      assert forall k :: 0 <= k <= |h| ==> h[..k] == h;
    }
  }

  lemma {:induction false} OpsGrow(h: History, k: nat, t: int)
    requires k <= |h|
    ensures OpsOf(h[..k], t) <= OpsOf(h, t)
    decreases |h|
  {
    var n := |h| - 1;
    if k == |h| {
      assert h[..k] == h;
    } else {
      assert h[..n][..k] == h[..k];
      OpsGrow(h[..n], k, t);
    }
  }

  /** Where a COMMIT happens, the operations of that transaction are next in the serial
      execution, all of them, after those that were committed before. */
  lemma {:induction false} SerialExact(h: History, i: nat)
    requires i < |h| && h[i].Commit?
    ensures Serial(h[..i]) + OpsOf(h[..i], h[i].tx) <= Serial(h)
    decreases |h|
  {
    hide OpsOf;
    var n := |h| - 1;
    if i < n {
      SerialExact(h[..n], i);
      assert h[..n][..i] == h[..i] && h[..n][i] == h[i];
    }
  }

  /** And nothing else is in it. */
  lemma {:induction false} SerialOnly(h: History, e: Event)
    requires e in Serial(h)
    ensures IsOp(e) && exists i, j :: 0 <= i < j < |h| && h[i] == e && h[j] == Commit(e.tx)
    decreases |h|
  {
    var n := |h| - 1;
    if e in Serial(h[..n]) {
      SerialOnly(h[..n], e);
      var i, j :| 0 <= i < j < n && h[..n][i] == e && h[..n][j] == Commit(e.tx);
      assert h[i] == e && h[j] == Commit(e.tx);
    } else {
      var ops := OpsOf(h[..n], h[n].tx);
      assert h[n].Commit? && e in ops;
      OpsOfExact(h[..n], h[n].tx, e);
      assert multiset(ops)[e] > 0 && multiset(h[..n])[e] > 0;
      assert e in h[..n];
      var i :| 0 <= i < n && h[..n][i] == e;
      assert h[i] == e && h[n] == Commit(e.tx);
    }
  }

  // ---------- what a scan shows ----------

  /** The last of the events that write the place. */
  predicate Last(h: History, i: int, table: string, rid: RecordID) {
    0 <= i < |h| && Wrote(h[i], table, rid) && forall j :: i < j < |h| ==> !Wrote(h[j], table, rid)
  }

  /** After any history, interleaved and with rollbacks as it may be, a place holds what the
      last event that wrote it has left there; and if there is none, what was there. */
  lemma {:induction false} PlaceShows(d0: Data, h: History, table: string, rid: RecordID)
    requires After(d0, h).Some?
    ensures forall i :: Last(h, i, table, rid) ==> GetRow(After(d0, h).value.data, (table, rid)) == Leaves(h[i])
    ensures (forall i :: !Last(h, i, table, rid)) ==>
              GetRow(After(d0, h).value.data, (table, rid)) == GetRow(d0, (table, rid))
    decreases |h|
  {
    if h != [] {
      var g, e := h[..|h| - 1], h[|h| - 1];
      PlaceShows(d0, g, table, rid);
      assert h == g + [e];
      assert forall i :: Last(g, i, table, rid) ==> h[i] == g[i];
      LastOfMore(g, e, table, rid);
      StepShows(After(d0, g).value, e, table, rid);
      hide Can, Do, Wrote, Leaves, GetRow, Last;
      if Wrote(e, table, rid) {
        assert Last(h, |g|, table, rid);
      } else if forall i :: !Last(h, i, table, rid) {
        assert forall i :: !Last(g, i, table, rid);
      }
    }
  }

  lemma StepShows(s: State, e: Event, table: string, rid: RecordID)
    requires Can(s, e)
    ensures GetRow(Do(s, e).data, (table, rid))
         == if Wrote(e, table, rid) then Leaves(e) else GetRow(s.data, (table, rid))
  {
    if IsOp(e) { EffectExact(s.data, e, table, rid, 0); }
  }

  lemma LastOfMore(g: History, e: Event, table: string, rid: RecordID)
    ensures forall i :: Last(g + [e], i, table, rid) <==>
              if Wrote(e, table, rid) then i == |g| else Last(g, i, table, rid)
  {
    var h := g + [e];
    assert forall i :: 0 <= i < |g| ==> h[i] == g[i];
    assert h[|g|] == e;
    forall i
      ensures Last(h, i, table, rid) <==> if Wrote(e, table, rid) then i == |g| else Last(g, i, table, rid)
    {
    }
  }

  lemma {:induction false} IdsKept(d0: Data, h: History)
    requires After(d0, h).Some?
    ensures LockInv(After(d0, h).value.locks) && TxInv(After(d0, h).value.next, After(d0, h).value.txs)
    ensures forall i :: 0 <= i < |h| ==> h[i].tx in After(d0, h).value.txs
    decreases |h|
  {
    if h != [] {
      var g, e := h[..|h| - 1], h[|h| - 1];
      IdsKept(d0, g);
      assert forall i :: 0 <= i < |g| ==> h[i] == g[i];
      var s := After(d0, g).value;
      if IsOp(e) {
        assert Active(s, e.tx) && e.tx in s.txs;
        LockingKeeps(s.locks, e.tx, e.table);
      } else if e.Commit? || e.Rollback? {
        ReleasingKeeps(s.locks, e.tx, "");
      }
    }
  }

  /** Whoever has written a table and is still running holds its X lock. */
  lemma {:induction false} WriterHolds(d0: Data, h: History, i: nat)
    requires After(d0, h).Some? && i < |h| && IsWrite(h[i]) && Active(After(d0, h).value, h[i].tx)
    ensures HoldsX(After(d0, h).value.locks, h[i].tx, h[i].table)
    decreases |h|
  {
    var g, e := h[..|h| - 1], h[|h| - 1];
    var s, tx, r := After(d0, g).value, h[i].tx, h[i].table;
    IdsKept(d0, g);
    if i == |g| {
      assert 1 <= tx;
      LocksAfter(s.locks, tx, r, tx, r);
    } else {
      assert g[i] == h[i];
      if e.Begin? { assert tx in s.txs; }
      WriterHolds(d0, g, i);
      if IsOp(e) {
        LocksAfter(s.locks, e.tx, e.table, tx, r);
        GrantExact(s.locks, e.tx, e.table);
      } else if e.Commit? || e.Rollback? {
        LocksAfter(s.locks, e.tx, "", tx, r);
      }
    }
  }

  /** A scan after any history shows, of each place, what the last event that wrote it has
      left there; and whoever else wrote the table is not running any more. */
  lemma ScanShows(d0: Data, h: History, tx: int, table: string, rows: map<RecordID, Row>, rid: RecordID)
    requires After(d0, h + [Scan(tx, table, rows)]).Some?
    ensures After(d0, h).Some?
    ensures var shown := if rid in rows then Some(rows[rid]) else None;
            (forall i :: Last(h, i, table, rid) ==> shown == Leaves(h[i]))
            && ((forall i :: !Last(h, i, table, rid)) ==> shown == GetRow(d0, (table, rid)))
    ensures forall i :: 0 <= i < |h| && IsWrite(h[i]) && h[i].table == table && h[i].tx != tx ==>
              !Active(After(d0, h).value, h[i].tx)
  {
    var e := Scan(tx, table, rows);
    AfterLast(d0, h, e);
    var s := After(d0, h).value;
    assert Can(s, e);
    ReturnsExact(s.data, e);
    PlaceShows(d0, h, table, rid);
    assert GetRow(s.data, (table, rid)) == if rid in rows then Some(rows[rid]) else None;
    GrantExact(s.locks, tx, table);
    forall i | 0 <= i < |h| && IsWrite(h[i]) && h[i].table == table && h[i].tx != tx
      ensures !Active(s, h[i].tx)
    {
      if Active(s, h[i].tx) { WriterHolds(d0, h, i); }
    }
  }
}
