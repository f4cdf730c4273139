/** Every history whose rollbacks change nothing is equivalent to running its committed transactions
    one after the other in COMMIT order: same reads, same final tables. */
module Serializability {
  import opened Common
  import opened LockManager
  import opened TransactionManager
  import opened TxMachine

  ghost predicate OpsOnly(es: History) { forall i :: 0 <= i < |es| ==> IsOp(es[i]) }

  ghost predicate Touches(es: History, r: string)
    requires OpsOnly(es)
  {
    exists i :: 0 <= i < |es| && es[i].table == r
  }

  ghost predicate Writes(es: History, r: string)
    requires OpsOnly(es)
  {
    exists i :: 0 <= i < |es| && IsWrite(es[i]) && es[i].table == r
  }

  // ---------- operations are local to their tables ----------

  lemma {:induction false} RunOpsDomain(d: Data, es: History)
    requires OpsOnly(es) && RunOps(d, es).Some?
    ensures RunOps(d, es).value.Keys == d.Keys
    decreases |es|
  {
    if es != [] { RunOpsDomain(d, es[..|es| - 1]); }
  }

  /** A table that is not written does not change. */
  lemma {:induction false} RunOpsUnwritten(d: Data, es: History, r: string)
    requires OpsOnly(es) && RunOps(d, es).Some? && r in d && !Writes(es, r)
    ensures r in RunOps(d, es).value && RunOps(d, es).value[r] == d[r]
    decreases |es|
  {
    if es != [] {
      var was := es[..|es| - 1];
      assert forall i :: 0 <= i < |was| ==> was[i] == es[i];
      RunOpsUnwritten(d, was, r);
    }
  }

  /** What operations return and leave in a table depends only on the tables they touch. */
  lemma {:induction false} RunOpsLocal(d: Data, m: Data, es: History, r: string)
    requires OpsOnly(es) && RunOps(d, es).Some? && d.Keys == m.Keys
    requires forall q :: q in d && (Touches(es, q) || q == r) ==> d[q] == m[q]
    ensures RunOps(m, es).Some?
    ensures r in d ==> r in RunOps(d, es).value && r in RunOps(m, es).value
    ensures r in d ==> RunOps(m, es).value[r] == RunOps(d, es).value[r]
    decreases |es|
  {
    if es != [] {
      var was, e := es[..|es| - 1], es[|es| - 1];
      forall q | Touches(was, q)
        ensures Touches(es, q)
      {
        var i :| 0 <= i < |was| && was[i].table == q;
        assert es[i].table == q;
      }
      assert Touches(es, e.table);
      RunOpsDomain(d, was);
      RunOpsLocal(d, m, was, e.table);
      RunOpsLocal(d, m, was, r);
      RunOpsDomain(m, was);
    }
  }

  // ---------- the invariant ----------

  /** The transaction holds a lock for everything it has done. */
  ghost predicate Covered(locks: LockTable, tx: int, es: History)
    requires OpsOnly(es)
  {
    forall i :: 0 <= i < |es| ==>
      HoldsX(locks, tx, es[i].table) || (es[i].Scan? && HoldsS(locks, tx, es[i].table))
  }

  ghost predicate HoldersActive(s: State) {
    forall r :: r in s.locks ==>
      (s.locks[r].xHolder != 0 ==> Active(s, s.locks[r].xHolder))
      && forall t :: t in s.locks[r].sHolders ==> Active(s, t)
  }

  /** An active transaction could be run now, alone, on the committed tables. */
  ghost predicate Rerunnable(h: History, s: State, c: Data, t: int) {
    Covered(s.locks, t, OpsOf(h, t)) && RunOps(c, OpsOf(h, t)).Some?
  }

  /** The committed tables, with the operations of x on top if there is such an x. */
  ghost function Ahead(c: Data, h: History, x: int): Data {
    if x == 0 || RunOps(c, OpsOf(h, x)).None? then c else RunOps(c, OpsOf(h, x)).value
  }

  /** A table shows the committed state, and what the holder of its X lock has done to it. */
  ghost predicate Shows(h: History, s: State, c: Data, r: string)
    requires s.data.Keys == c.Keys
  {
    r in s.data ==>
      var m := Ahead(c, h, InfoOf(s.locks, r).xHolder);
      r in m && s.data[r] == m[r]
  }

  ghost predicate LocksOk(s: State) {
    LockInv(s.locks) && TxInv(s.next, s.txs) && HoldersActive(s)
  }

  ghost predicate NoneAhead(h: History, next: int) {
    forall t :: t >= next ==> OpsOf(h, t) == []
  }

  ghost predicate AllRerunnable(h: History, s: State, c: Data) {
    forall t :: Active(s, t) ==> Rerunnable(h, s, c, t)
  }

  ghost predicate AllShow(h: History, s: State, c: Data) {
    s.data.Keys == c.Keys && forall r :: Shows(h, s, c, r)
  }

  /** c is what the committed transactions leave when they run serially. */
  ghost predicate Inv(d0: Data, h: History, s: State, c: Data) {
    LocksOk(s) && NoneAhead(h, s.next) && RunOps(d0, Serial(h)) == Some(c)
    && AllRerunnable(h, s, c) && AllShow(h, s, c)
  }

  lemma OpsOfLast(h: History, e: Event, t: int)
    ensures OpsOf(h + [e], t) == OpsOf(h, t) + if IsOp(e) && e.tx == t then [e] else []
  {
    assert (h + [e])[..|h + [e]| - 1] == h;
  }

  lemma SerialLast(h: History, e: Event)
    ensures Serial(h + [e]) == Serial(h) + if e.Commit? then OpsOf(h, e.tx) else []
  {
    assert (h + [e])[..|h + [e]| - 1] == h;
  }

  lemma InitInv(d0: Data)
    ensures Inv(d0, [], After(d0, []).value, d0)
  {
  }

  lemma ActiveNotZero(s: State, t: int)
    requires LocksOk(s) && Active(s, t)
    ensures 1 <= t < s.next
  {
  }

  /** A transaction writes only where it holds X. */
  lemma NotWritten(locks: LockTable, t: int, es: History, r: string)
    requires OpsOnly(es) && Covered(locks, t, es) && InfoOf(locks, r).xHolder != t
    ensures !Writes(es, r)
  {
    forall i | 0 <= i < |es| && IsWrite(es[i])
      ensures es[i].table != r
    {
    }
  }

  // ---------- BEGIN ----------

  lemma BeginKeeps(d0: Data, h: History, s: State, c: Data, e: Event)
    requires Inv(d0, h, s, c) && e.Begin? && Can(s, e)
    ensures Inv(d0, h + [e], Do(s, e), c)
  {
    hide RunOps, OpsOf, Serial, Covered;
    var h', s' := h + [e], Do(s, e);
    SerialLast(h, e);
    forall t
      ensures OpsOf(h', t) == OpsOf(h, t)
    {
      OpsOfLast(h, e, t);
    }
    assert Serial(h) + [] == Serial(h);
    forall t | Active(s', t)
      ensures Rerunnable(h', s', c, t)
    {
      if t == e.tx {
        assert OpsOf(h, t) == [];
        NothingRerunnable(h', s', c, t);
      } else {
        assert Active(s, t);
      }
    }
    forall r
      ensures Shows(h', s', c, r)
    {
      assert Shows(h, s, c, r);
    }
    BeginLocks(s, e);
  }

  lemma BeginLocks(s: State, e: Event)
    requires LocksOk(s) && e.Begin? && Can(s, e)
    ensures LocksOk(Do(s, e))
  {
  }

  lemma NothingRerunnable(h: History, s: State, c: Data, t: int)
    requires OpsOf(h, t) == []
    ensures Rerunnable(h, s, c, t)
  {
  }

  // ---------- a read or a write ----------

  /** An operation that the locks let through finds the table as its transaction, run alone
      on the committed tables, would find it. */
  lemma OpAhead(h: History, s: State, c: Data, e: Event)
    requires IsOp(e) && Can(s, e) && e.tx != 0 && s.data.Keys == c.Keys
    requires Rerunnable(h, s, c, e.tx) && Shows(h, s, c, e.table)
    ensures var m := RunOps(c, OpsOf(h, e.tx)).value;
            m.Keys == c.Keys && e.table in s.data && s.data[e.table] == m[e.table]
  {
    var es := OpsOf(h, e.tx);
    RunOpsDomain(c, es);
    var x := InfoOf(s.locks, e.table).xHolder;
    assert x == 0 || x == e.tx;
    if x == 0 {
      NotWritten(s.locks, e.tx, es, e.table);
      RunOpsUnwritten(c, es, e.table);
    }
  }

  lemma OpRuns(d: Data, m: Data, e: Event)
    requires IsOp(e) && d.Keys == m.Keys && e.table in d && d[e.table] == m[e.table] && RunOp(d, e).Some?
    ensures RunOp(m, e).Some? && RunOp(m, e).value.Keys == m.Keys && RunOp(d, e).value.Keys == d.Keys
    ensures RunOp(m, e).value[e.table] == RunOp(d, e).value[e.table]
    ensures forall r :: r in d && r != e.table ==>
              RunOp(m, e).value[r] == m[r] && RunOp(d, e).value[r] == d[r]
  {
  }

  /** The history of the acting transaction gets one operation longer. */
  lemma OpExtends(h: History, s: State, c: Data, e: Event)
    requires IsOp(e) && Can(s, e) && e.tx != 0 && s.data.Keys == c.Keys
    requires Rerunnable(h, s, c, e.tx) && Shows(h, s, c, e.table)
    ensures var m := RunOps(c, OpsOf(h, e.tx)).value;
            e.table in m && m.Keys == c.Keys && s.data[e.table] == m[e.table] && RunOp(m, e).Some?
            && RunOps(c, OpsOf(h + [e], e.tx)) == RunOp(m, e)
  {
    var es := OpsOf(h, e.tx);
    OpAhead(h, s, c, e);
    OpRuns(s.data, RunOps(c, es).value, e);
    OpsOfLast(h, e, e.tx);
    RunOpsAppend(c, es, [e]);
    RunOpsOne(RunOps(c, es).value, e);
  }

  lemma RunOpsOne(d: Data, e: Event)
    requires IsOp(e)
    ensures RunOps(d, [e]) == RunOp(d, e)
  {
    assert [e][..0] == [];
    assert RunOps(d, []) == Some(d);
  }

  lemma OpLocks(s: State, e: Event, t: int, es: History)
    requires LockInv(s.locks) && IsOp(e) && Can(s, e) && e.tx != 0 && OpsOnly(es)
    requires Covered(s.locks, t, es)
    ensures Covered(Do(s, e).locks, t, es)
    ensures t == e.tx ==> Covered(Do(s, e).locks, t, es + [e])
  {
    var locks' := Do(s, e).locks;
    LockingKeeps(s.locks, e.tx, e.table);
    forall i | 0 <= i < |es|
      ensures HoldsX(locks', t, es[i].table) || (es[i].Scan? && HoldsS(locks', t, es[i].table))
    {
      if t != e.tx || es[i].table != e.table { LockingFrame(s.locks, e.tx, e.table, t, es[i].table); }
    }
  }

  lemma OpShows(h: History, s: State, c: Data, e: Event, r: string)
    requires IsOp(e) && Can(s, e) && e.tx != 0 && s.data.Keys == c.Keys
    requires Rerunnable(h, s, c, e.tx) && Shows(h, s, c, e.table) && Shows(h, s, c, r)
    ensures Do(s, e).data.Keys == c.Keys && Shows(h + [e], Do(s, e), c, r)
  {
    hide RunOps, OpsOf, Covered;
    var h', s' := h + [e], Do(s, e);
    OpExtends(h, s, c, e);
    var m := RunOps(c, OpsOf(h, e.tx)).value;
    OpRuns(s.data, m, e);
    var x, x' := InfoOf(s.locks, r).xHolder, InfoOf(s'.locks, r).xHolder;
    OpsOfLast(h, e, x');
    if r in s.data && r == e.table {
      assert x == 0 || x == e.tx;
      if x' == 0 {
        assert e.Scan? && x == 0;
      } else {
        assert x' == e.tx;
      }
    } else if r in s.data {
      assert x' == x;
      if x == e.tx {
        assert s.data[r] == m[r];
      } else {
        assert OpsOf(h', x) == OpsOf(h, x) + [] == OpsOf(h, x);
      }
    }
  }

  lemma OpKeeps(d0: Data, h: History, s: State, c: Data, e: Event)
    requires Inv(d0, h, s, c) && IsOp(e) && Can(s, e)
    ensures Inv(d0, h + [e], Do(s, e), c)
  {
    hide RunOps, OpsOf, Serial, Covered, RunOp;
    var h', s' := h + [e], Do(s, e);
    ActiveNotZero(s, e.tx);
    SerialLast(h, e);
    assert Serial(h) + [] == Serial(h);
    assert Rerunnable(h, s, c, e.tx) && Shows(h, s, c, e.table);
    assert s'.next == s.next;
    forall t | t >= s.next
      ensures OpsOf(h', t) == []
    {
      OpsOfLast(h, e, t);
      assert OpsOf(h, t) == [];
    }
    OpHolders(s, e);
    OpShows(h, s, c, e, e.table);
    forall t | Active(s', t)
      ensures Rerunnable(h', s', c, t)
    {
      OpRerunnable(h, s, c, e, t);
    }
    forall r
      ensures s'.data.Keys == c.Keys && Shows(h', s', c, r)
    {
      assert Shows(h, s, c, r);
      OpShows(h, s, c, e, r);
    }
  }

  lemma OpRerunnable(h: History, s: State, c: Data, e: Event, t: int)
    requires LocksOk(s) && AllRerunnable(h, s, c) && AllShow(h, s, c) && IsOp(e) && Can(s, e)
    requires Active(Do(s, e), t)
    ensures Rerunnable(h + [e], Do(s, e), c, t)
  {
    hide RunOps, OpsOf, Covered, RunOp;
    ActiveNotZero(s, e.tx);
    assert Active(s, t) && Rerunnable(h, s, c, t);
    OpLocks(s, e, t, OpsOf(h, t));
    OpsOfLast(h, e, t);
    if t == e.tx {
      assert Shows(h, s, c, e.table);
      OpExtends(h, s, c, e);
    } else {
      assert OpsOf(h, t) + [] == OpsOf(h, t);
    }
  }

  lemma OpHolders(s: State, e: Event)
    requires LocksOk(s) && IsOp(e) && Can(s, e)
    ensures LocksOk(Do(s, e))
  {
    ActiveNotZero(s, e.tx);
    LockingKeeps(s.locks, e.tx, e.table);
    var s' := Do(s, e);
    forall r | r in s'.locks
      ensures s'.locks[r].xHolder != 0 ==> Active(s', s'.locks[r].xHolder)
      ensures forall t :: t in s'.locks[r].sHolders ==> Active(s', t)
    {
      if r != e.table { assert r in s.locks; }
    }
  }

  // ---------- COMMIT ----------

  /** The committing transaction wrote only what it holds exclusively. */
  lemma CommitFrame(h: History, s: State, c: Data, t: int, r: string)
    requires Rerunnable(h, s, c, t) && r in c && InfoOf(s.locks, r).xHolder != t
    ensures var m := RunOps(c, OpsOf(h, t)).value; m.Keys == c.Keys && m[r] == c[r]
  {
    var es := OpsOf(h, t);
    RunOpsDomain(c, es);
    NotWritten(s.locks, t, es, r);
    RunOpsUnwritten(c, es, r);
  }

  /** What another active transaction has touched does not change when t commits. */
  lemma CommitOther(h: History, s: State, c: Data, t: int, u: int, r: string)
    requires LockInv(s.locks) && t != u && t != 0 && Rerunnable(h, s, c, t) && Rerunnable(h, s, c, u)
    requires r in c && (InfoOf(s.locks, r).xHolder == u || Touches(OpsOf(h, u), r))
    ensures var m := RunOps(c, OpsOf(h, t)).value; r in m && m[r] == c[r]
  {
    var es := OpsOf(h, u);
    if Touches(es, r) {
      var i :| 0 <= i < |es| && es[i].table == r;
      if HoldsX(s.locks, t, r) { NoConflict(s.locks, t, u, r); }
    }
    CommitFrame(h, s, c, t, r);
  }

  lemma CommitRerun(h: History, s: State, c: Data, t: int, u: int, r: string)
    requires LockInv(s.locks) && t != u && t != 0 && Rerunnable(h, s, c, t) && Rerunnable(h, s, c, u)
    requires r in c ==> InfoOf(s.locks, r).xHolder == u || Touches(OpsOf(h, u), r)
    ensures var m := RunOps(c, OpsOf(h, t)).value;
            m.Keys == c.Keys && RunOps(m, OpsOf(h, u)).Some?
            && (r in c ==> r in RunOps(c, OpsOf(h, u)).value && r in RunOps(m, OpsOf(h, u)).value
                           && RunOps(m, OpsOf(h, u)).value[r] == RunOps(c, OpsOf(h, u)).value[r])
  {
    var m := RunOps(c, OpsOf(h, t)).value;
    RunOpsDomain(c, OpsOf(h, t));
    forall q | q in c && (Touches(OpsOf(h, u), q) || q == r)
      ensures c[q] == m[q]
    {
      CommitOther(h, s, c, t, u, q);
    }
    RunOpsLocal(c, m, OpsOf(h, u), r);
  }

  /** COMMIT and ROLLBACK release the same locks and leave the same tables. */
  predicate Ends(e: Event) { e.Commit? || e.Rollback? }

  lemma CommitLocks(s: State, e: Event)
    requires LocksOk(s) && Ends(e) && Can(s, e)
    ensures LocksOk(Do(s, e))
  {
    var s' := Do(s, e);
    ActiveNotZero(s, e.tx);
    ReleasingKeeps(s.locks, e.tx, "");
    forall r | r in s'.locks
      ensures s'.locks[r].xHolder != 0 ==> Active(s', s'.locks[r].xHolder)
      ensures forall t :: t in s'.locks[r].sHolders ==> Active(s', t)
    {
      assert r in s.locks && s'.locks[r] == Dropped(s.locks[r], e.tx);
    }
  }

  lemma CommitCovered(s: State, t: int, u: int, es: History)
    requires OpsOnly(es) && t != u && t != 0 && Covered(s.locks, u, es)
    ensures Covered(Released(s.locks, t), u, es)
  {
    forall i | 0 <= i < |es|
      ensures HoldsX(Released(s.locks, t), u, es[i].table)
              || (es[i].Scan? && HoldsS(Released(s.locks, t), u, es[i].table))
    {
      ReleasedMeaning(s.locks, t, u, es[i].table);
    }
  }

  lemma CommitShows(h: History, s: State, c: Data, e: Event, r: string)
    requires LocksOk(s) && AllRerunnable(h, s, c) && AllShow(h, s, c) && Ends(e) && Can(s, e)
    ensures var m := RunOps(c, OpsOf(h, e.tx)).value;
            m.Keys == c.Keys && Shows(h + [e], Do(s, e), m, r)
  {
    hide RunOps, OpsOf, Covered;
    var t, s' := e.tx, Do(s, e);
    ActiveNotZero(s, t);
    assert Rerunnable(h, s, c, t) && Shows(h, s, c, r);
    var m := RunOps(c, OpsOf(h, t)).value;
    RunOpsDomain(c, OpsOf(h, t));
    var x := InfoOf(s.locks, r).xHolder;
    ReleasedMeaning(s.locks, t, t, r);
    OpsOfLast(h, e, x);
    assert OpsOf(h, x) + [] == OpsOf(h, x);
    if r in s.data && x != t {
      CommitFrame(h, s, c, t, r);
      if x != 0 {
        assert r in s.locks && Active(s, x);
        assert Rerunnable(h, s, c, x);
        CommitRerun(h, s, c, t, x, r);
      }
    }
  }

  lemma CommitRerunnable(h: History, s: State, c: Data, e: Event, u: int)
    requires LocksOk(s) && AllRerunnable(h, s, c) && Ends(e) && Can(s, e)
    requires Active(Do(s, e), u)
    ensures Rerunnable(h + [e], Do(s, e), RunOps(c, OpsOf(h, e.tx)).value, u)
  {
    hide RunOps, OpsOf, Covered;
    var t := e.tx;
    ActiveNotZero(s, t);
    assert u != t && Active(s, u);
    assert Rerunnable(h, s, c, t) && Rerunnable(h, s, c, u);
    OpsOfLast(h, e, u);
    assert OpsOf(h, u) + [] == OpsOf(h, u);
    CommitCovered(s, t, u, OpsOf(h, u));
    CommitRerun2(h, s, c, t, u);
  }

  lemma CommitRerun2(h: History, s: State, c: Data, t: int, u: int)
    requires LockInv(s.locks) && t != u && t != 0 && Rerunnable(h, s, c, t) && Rerunnable(h, s, c, u)
    ensures RunOps(RunOps(c, OpsOf(h, t)).value, OpsOf(h, u)).Some?
  {
    var es := OpsOf(h, u);
    if es != [] {
      assert Touches(es, es[0].table);
      CommitRerun(h, s, c, t, u, es[0].table);
    }
  }

  /** COMMIT appends the transaction to the serial execution. */
  lemma CommitKeeps(d0: Data, h: History, s: State, c: Data, e: Event)
    requires Inv(d0, h, s, c) && e.Commit? && Can(s, e)
    ensures RunOps(c, OpsOf(h, e.tx)).Some?
    ensures Inv(d0, h + [e], Do(s, e), RunOps(c, OpsOf(h, e.tx)).value)
  {
    hide RunOps, OpsOf, Serial, Covered;
    var h', s' := h + [e], Do(s, e);
    assert Rerunnable(h, s, c, e.tx);
    var m := RunOps(c, OpsOf(h, e.tx)).value;
    SerialLast(h, e);
    RunOpsAppend(d0, Serial(h), OpsOf(h, e.tx));
    CommitLocks(s, e);
    forall t | t >= s'.next
      ensures OpsOf(h', t) == []
    {
      OpsOfLast(h, e, t);
    }
    forall u | Active(s', u)
      ensures Rerunnable(h', s', m, u)
    {
      CommitRerunnable(h, s, c, e, u);
    }
    CommitShows(h, s, c, e, "");
    forall r
      ensures Shows(h', s', m, r)
    {
      CommitShows(h, s, c, e, r);
    }
  }

  /** ROLLBACK of a transaction that changed nothing leaves the serial execution as it is. */
  lemma RollbackKeeps(d0: Data, h: History, s: State, c: Data, e: Event)
    requires Inv(d0, h, s, c) && e.Rollback? && Can(s, e) && RunOps(c, OpsOf(h, e.tx)) == Some(c)
    ensures Inv(d0, h + [e], Do(s, e), c)
  {
    hide RunOps, OpsOf, Serial, Covered;
    var h', s' := h + [e], Do(s, e);
    SerialLast(h, e);
    assert Serial(h) + [] == Serial(h);
    CommitLocks(s, e);
    forall t | t >= s'.next
      ensures OpsOf(h', t) == []
    {
      OpsOfLast(h, e, t);
    }
    forall u | Active(s', u)
      ensures Rerunnable(h', s', c, u)
    {
      CommitRerunnable(h, s, c, e, u);
    }
    forall r
      ensures Shows(h', s', c, r)
    {
      CommitShows(h, s, c, e, r);
    }
  }

  // ---------- conflicts ----------

  lemma ConflictKeeps(d0: Data, h: History, s: State, c: Data, e: Event)
    requires Inv(d0, h, s, c) && e.Conflict? && Can(s, e)
    ensures Inv(d0, h + [e], Do(s, e), c)
  {
    hide RunOps, OpsOf, Serial, Covered;
    var h' := h + [e];
    SerialLast(h, e);
    assert Serial(h) + [] == Serial(h);
    forall t
      ensures OpsOf(h', t) == OpsOf(h, t)
    {
      OpsOfLast(h, e, t);
    }
    forall t | Active(s, t)
      ensures Rerunnable(h', s, c, t)
    {
      assert Rerunnable(h, s, c, t);
    }
    forall r
      ensures Shows(h', s, c, r)
    {
      assert Shows(h, s, c, r);
    }
  }

  // ---------- the theorem ----------

  /** Run alone on the committed tables, the transaction leaves them as they are. */
  ghost predicate Harmless(d0: Data, g: History, tx: int) {
    match RunOps(d0, Serial(g))
    case None => false
    case Some(c) => RunOps(c, OpsOf(g, tx)) == Some(c)
  }

  /** Only transactions that changed nothing are rolled back (see Rollback.RollbackExact). */
  ghost predicate HarmlessRollbacks(d0: Data, h: History) {
    forall i :: 0 <= i < |h| && h[i].Rollback? ==> Harmless(d0, h[..i], h[i].tx)
  }

  lemma HarmlessPrefix(d0: Data, g: History, e: Event)
    requires HarmlessRollbacks(d0, g + [e])
    ensures HarmlessRollbacks(d0, g) && (e.Rollback? ==> Harmless(d0, g, e.tx))
  {
    hide Harmless;
    var h := g + [e];
    assert forall i :: 0 <= i < |g| ==> g[i] == h[i] && g[..i] == h[..i];
    assert h[|g|] == e && h[..|g|] == g;
  }

  /** Every history with harmless rollbacks only keeps the invariant. */
  lemma {:induction false} Reachable(d0: Data, h: History)
    requires After(d0, h).Some? && HarmlessRollbacks(d0, h)
    ensures RunOps(d0, Serial(h)).Some?
    ensures Inv(d0, h, After(d0, h).value, RunOps(d0, Serial(h)).value)
    decreases |h|
  {
    if h == [] {
      InitInv(d0);
    } else {
      hide Inv, Can, Do, RunOps, OpsOf, Serial, Harmless, HarmlessRollbacks;
      var n := |h| - 1;
      var g, e := h[..n], h[n];
      assert h == g + [e];
      HarmlessPrefix(d0, g, e);
      Reachable(d0, g);
      StepKeeps(d0, g, After(d0, g).value, RunOps(d0, Serial(g)).value, e);
    }
  }

  /** What the committed transactions leave when they run serially. */
  ghost function CommittedData(d0: Data, h: History): Data
    requires After(d0, h).Some? && HarmlessRollbacks(d0, h)
  {
    Reachable(d0, h);
    RunOps(d0, Serial(h)).value
  }

  lemma StepKeeps(d0: Data, g: History, s: State, c: Data, e: Event)
    requires Inv(d0, g, s, c) && Can(s, e) && (e.Rollback? ==> Harmless(d0, g, e.tx))
    ensures RunOps(d0, Serial(g + [e])).Some? && Inv(d0, g + [e], Do(s, e), RunOps(d0, Serial(g + [e])).value)
  {
    hide Do, Can, RunOps, OpsOf, Serial;
    if e.Begin? { BeginKeeps(d0, g, s, c, e); }
    else if e.Commit? { CommitKeeps(d0, g, s, c, e); }
    else if e.Conflict? { ConflictKeeps(d0, g, s, c, e); }
    else if e.Rollback? { RollbackKeeps(d0, g, s, c, e); }
    else { OpKeeps(d0, g, s, c, e); }
  }

  /** Serializability.  Run the committed transactions one after the other in the order of
      their COMMITs, without locks: every operation returns what it returned in the
      interleaved history, and every table that no running transaction holds exclusively
      ends up the same.  With no transaction running, that is all tables. */
  lemma Serializable(d0: Data, h: History)
    requires After(d0, h).Some? && HarmlessRollbacks(d0, h)
    ensures RunOps(d0, Serial(h)).Some?
    ensures var s, c := After(d0, h).value, RunOps(d0, Serial(h)).value;
            s.data.Keys == c.Keys
            && (forall r :: r in c && InfoOf(s.locks, r).xHolder == 0 ==> s.data[r] == c[r])
            && ((forall t :: !Active(s, t)) ==> s.data == c)
  {
    Reachable(d0, h);
    var s, c := After(d0, h).value, RunOps(d0, Serial(h)).value;
    forall r | r in c && InfoOf(s.locks, r).xHolder == 0
      ensures s.data[r] == c[r]
    {
      assert Shows(h, s, c, r);
    }
    if forall t :: !Active(s, t) {
      forall r | r in c
        ensures s.data[r] == c[r]
      {
        assert Shows(h, s, c, r);
        if r in s.locks { assert !Active(s, s.locks[r].xHolder); }
      }
    }
  }

  /** Transactions that are still running see their own writes and committed data only. */
  lemma ReadsOwnOrCommitted(d0: Data, h: History, t: int)
    requires After(d0, h).Some? && HarmlessRollbacks(d0, h) && Active(After(d0, h).value, t)
    ensures RunOps(d0, Serial(h) + OpsOf(h, t)).Some?
  {
    Reachable(d0, h);
    RunOpsAppend(d0, Serial(h), OpsOf(h, t));
    assert Rerunnable(h, After(d0, h).value, RunOps(d0, Serial(h)).value, t);
  }
}
