/** Where the guarantees end: ROLLBACK takes nothing back, and pages must not reach the
    disk before their log records. */
module Rollback {
  import opened Common
  import opened LockManager
  import opened TransactionManager
  import opened TxMachine
  import opened Serializability
  import opened Recovery
  import opened LogTrace

  /** Every table that nobody holds exclusively shows the committed state. */
  ghost predicate ShowsCommitted(s: State, c: Data) {
    s.data.Keys == c.Keys
    && forall r :: r in c && InfoOf(s.locks, r).xHolder == 0 ==> s.data[r] == c[r]
  }

  /** ROLLBACK leaves committed data behind exactly if the operations of the transaction,
      run alone on the committed tables, change nothing.  (Before it, the tables show the
      committed state by Serializable.) */
  lemma RollbackExact(d0: Data, h: History, tx: int)
    requires After(d0, h).Some? && HarmlessRollbacks(d0, h) && Active(After(d0, h).value, tx)
    ensures var c := CommittedData(d0, h);
            ShowsCommitted(Do(After(d0, h).value, Event.Rollback(tx)), c) <==> RunOps(c, OpsOf(h, tx)) == Some(c)
  {
    hide RunOps, OpsOf, Covered, RunOp;
    Reachable(d0, h);
    var s, c, e := After(d0, h).value, CommittedData(d0, h), Event.Rollback(tx);
    var s' := Do(s, e);
    assert Rerunnable(h, s, c, tx);
    var m := RunOps(c, OpsOf(h, tx)).value;
    RunOpsDomain(c, OpsOf(h, tx));
    ActiveNotZero(s, tx);
    forall r | r in c
      ensures InfoOf(s.locks, r).xHolder == tx ==> InfoOf(s'.locks, r).xHolder == 0 && s.data[r] == m[r]
      ensures InfoOf(s.locks, r).xHolder != tx ==>
                m[r] == c[r] && InfoOf(s'.locks, r).xHolder == InfoOf(s.locks, r).xHolder
      ensures InfoOf(s.locks, r).xHolder == 0 ==> s.data[r] == c[r]
    {
      assert Shows(h, s, c, r);
      ReleasedMeaning(s.locks, tx, tx, r);
      if InfoOf(s.locks, r).xHolder != tx { CommitFrame(h, s, c, tx, r); }
    }
    if ShowsCommitted(s', c) { assert m == c; }
  }

  const T: string := "t"
  const PLACE: RecordID := RecordID(0, 0)
  const ROW: Row := [IntV(7)]

  // ---------- recovery after ROLLBACK ----------

  /** The liveness that the last insert or delete sets. */
  function LastLive(ws: seq<LogRec>): Option<bool> {
    if ws == [] then None
    else match ws[|ws| - 1]
      case LogInsert(_, _, _, _) => Some(true)
      case LogDelete(_, _, _, _) => Some(false)
      case _ => LastLive(ws[..|ws| - 1])
  }

  /** The row that the last insert or update writes. */
  function LastRow(ws: seq<LogRec>): Option<Row> {
    if ws == [] then None
    else match ws[|ws| - 1]
      case LogInsert(_, _, _, v) => Some(v)
      case LogUpdate(_, _, _, _, v) => Some(v)
      case _ => LastRow(ws[..|ws| - 1])
  }

  function Or<T>(o: Option<T>, t: T): T { if o.Some? then o.value else t }

  lemma {:induction false} RedoLast(x: Slot, ws: seq<LogRec>)
    ensures RedoAll(x, ws) == Slot(Or(LastLive(ws), x.alive), Or(LastRow(ws), x.data))
    decreases |ws|
  {
    if ws != [] {
      var init := ws[..|ws| - 1];
      RedoLast(x, init);
      RedoSnoc(x, init, ws[|ws| - 1]);
      assert ws == init + [ws[|ws| - 1]];
    }
  }

  lemma {:induction false} RedoSnoc(x: Slot, ws: seq<LogRec>, r: LogRec)
    ensures RedoAll(x, ws + [r]) == Redo1(RedoAll(x, ws), r)
    decreases |ws|
  {
    if ws == [] {
      assert ws + [r] == [r] && [r][1..] == [];
    } else {
      assert (ws + [r])[1..] == ws[1..] + [r];
      RedoSnoc(Redo1(x, ws[0]), ws[1..], r);
    }
  }

  /** The liveness before the first insert or delete. */
  function FirstLive(ws: seq<LogRec>): Option<bool> {
    if ws == [] then None
    else match ws[0]
      case LogInsert(_, _, _, _) => Some(false)
      case LogDelete(_, _, _, _) => Some(true)
      case _ => FirstLive(ws[1..])
  }

  /** The row before the first delete or update. */
  function FirstRow(ws: seq<LogRec>): Option<Row> {
    if ws == [] then None
    else match ws[0]
      case LogDelete(_, _, _, v) => Some(v)
      case LogUpdate(_, _, _, v, _) => Some(v)
      case _ => FirstRow(ws[1..])
  }

  lemma {:induction false} UndoFirst(x: Slot, ws: seq<LogRec>)
    ensures UndoAll(x, ws) == Slot(Or(FirstLive(ws), x.alive), Or(FirstRow(ws), x.data))
    decreases |ws|
  {
    if ws != [] { UndoFirst(x, ws[1..]); }
  }

  /** What recovery makes of any place under any log, whoever committed, aborted or was
      running, in any order: it gives the value v exactly if liveness and row make up v.
      The liveness is that before the first insert or delete of a transaction that was
      running; without one, that of the last committed insert or delete; without one, that
      on disk.  In the same way for the row.  Records of aborted transactions are skipped. */
  lemma PlaceExact(lg: seq<LogRec>, d: Disk, a: Addr, v: Option<Row>)
    ensures var cs, ls, x := Winners(lg, Proj(lg, a)), Losers(lg, Proj(lg, a)), SlotAt(d, a);
            Val(SlotAt(Recover(d, lg), a)) == v
            <==> Or(FirstLive(ls), Or(LastLive(cs), x.alive)) == v.Some?
                 && (v.Some? ==> Or(FirstRow(ls), Or(LastRow(cs), x.data)) == v.value)
  {
    hide Recover, Proj, Winners, Losers;
    RecoveredSlot(d, lg, a);
    RedoLast(SlotAt(d, a), Winners(lg, Proj(lg, a)));
    UndoFirst(RedoAll(SlotAt(d, a), Winners(lg, Proj(lg, a))), Losers(lg, Proj(lg, a)));
  }

  lemma {:induction false} NoLosers(all: seq<LogRec>, ws: seq<LogRec>)
    requires forall r :: r in ws ==> CommittedIn(all, r.tx) || AbortedIn(all, r.tx)
    ensures Losers(all, ws) == []
    decreases |ws|
  {
    if ws != [] {
      assert ws[0] in ws && forall r :: r in ws[1..] ==> r in ws;
      NoLosers(all, ws[1..]);
    }
  }

  // ---------- a committed update lost through another transaction's ROLLBACK ----------

  const NEW_ROW: Row := [IntV(8)]
  const UPDATED: LogRec := LogUpdate(2, T, PLACE, ROW, NEW_ROW)
  const EMPTY: Data := map[T := Table(map[], map[])]
  const LOST: History := [
    Begin(1), Insert(1, T, Some(7), PLACE, ROW), Event.Rollback(1),
    Begin(2), Update(2, T, 7, At(PLACE, ROW), NEW_ROW), Commit(2)
  ]
  const LOST_LOG: seq<LogRec> := [INSERTED, LogAbort(1), UPDATED, LogCommit(2)]

  const ONE_ROW: Data := map[T := Table(map[PLACE := ROW], map[7 := PLACE])]
  const LATER_ROW: Data := map[T := Table(map[PLACE := NEW_ROW], map[7 := PLACE])]
  const AT_START: State := State(EMPTY, map[], 1, map[], [], 0)
  const INSERTING: State := State(ONE_ROW, map[T := LockInfo(1, {})], 2, map[1 := ACTIVE], [INSERTED], 0)
  const ROLLED_BACK: State := State(ONE_ROW, map[], 2, map[1 := ABORTED], [INSERTED, LogAbort(1)], 2)
  const UPDATING: State := State(LATER_ROW, map[T := LockInfo(2, {})], 3, map[1 := ABORTED, 2 := ACTIVE],
                                 [INSERTED, LogAbort(1), UPDATED], 2)

  lemma InsertStep()
    ensures Can(AT_START, LOST[0]) && Can(Do(AT_START, LOST[0]), LOST[1])
    ensures Do(Do(AT_START, LOST[0]), LOST[1]) == INSERTING
  {
    var s := Do(AT_START, LOST[0]);
    var t := Table(map[PLACE := ROW], map[7 := PLACE]);
    assert EMPTY[T].rows[PLACE := ROW] == t.rows && EMPTY[T].index[7 := PLACE] == t.index && EMPTY[T := t] == ONE_ROW;
    assert RunOnTable(EMPTY[T], LOST[1]) == Some(t);
    var none: set<int> := {};
    assert none - {1} == none && InfoOf(map[], T) == FREE;
    assert Locked(s, LOST[1]) == map[T := LockInfo(1, {})];
    assert [] + [INSERTED] == [INSERTED];
  }

  lemma RollbackStep()
    ensures Can(INSERTING, LOST[2]) && Do(INSERTING, LOST[2]) == ROLLED_BACK
  {
    assert [INSERTED] + [LogAbort(1)] == [INSERTED, LogAbort(1)];
    assert Released(INSERTING.locks, 1) == map[];
  }

  lemma UpdateStep()
    ensures Can(ROLLED_BACK, LOST[3]) && Can(Do(ROLLED_BACK, LOST[3]), LOST[4])
    ensures Do(Do(ROLLED_BACK, LOST[3]), LOST[4]) == UPDATING
  {
    var s := Do(ROLLED_BACK, LOST[3]);
    var t := Table(map[PLACE := NEW_ROW], map[7 := PLACE]);
    assert ONE_ROW[T].rows[PLACE := NEW_ROW] == t.rows && ONE_ROW[T := t] == LATER_ROW;
    assert RunOnTable(ONE_ROW[T], LOST[4]) == Some(t);
    var none: set<int> := {};
    assert none - {2} == none && InfoOf(map[], T) == FREE;
    assert Locked(s, LOST[4]) == map[T := LockInfo(2, {})];
    assert [INSERTED, LogAbort(1)] + [UPDATED] == [INSERTED, LogAbort(1), UPDATED];
  }

  lemma CommitStep()
    ensures Can(UPDATING, LOST[5])
    ensures Do(UPDATING, LOST[5]).log == LOST_LOG && Do(UPDATING, LOST[5]).data == LATER_ROW
  {
    assert [INSERTED, LogAbort(1), UPDATED] + [LogCommit(2)] == LOST_LOG;
  }

  lemma TwoSteps(d0: Data, g: History, s: State, e: Event, f: Event)
    requires After(d0, g) == Some(s) && Can(s, e) && Can(Do(s, e), f)
    ensures After(d0, g + [e, f]) == Some(Do(Do(s, e), f))
  {
    hide Can, Do;
    AfterLast(d0, g, e);
    AfterLast(d0, g + [e], f);
    assert g + [e] + [f] == g + [e, f];
  }

  lemma RolledBack()
    ensures After(EMPTY, LOST[..3]) == Some(ROLLED_BACK)
  {
    hide After, Can, Do;
    AfterNothing(EMPTY);
    InsertStep();
    TwoSteps(EMPTY, [], AT_START, LOST[0], LOST[1]);
    assert [] + [LOST[0], LOST[1]] == LOST[..2];
    RollbackStep();
    AfterLast(EMPTY, LOST[..2], LOST[2]);
    assert LOST[..2] + [LOST[2]] == LOST[..3];
  }

  /** A concrete run: BEGIN, INSERT, ROLLBACK.  Nothing is committed and nobody is running,
      but the row is there, for every later reader. */
  lemma RollbackKeepsTheRow()
    ensures var h := [Begin(1), Insert(1, T, Some(7), PLACE, ROW), Event.Rollback(1)];
            After(EMPTY, h).Some? && RunOps(EMPTY, Serial(h)) == Some(EMPTY)
            && (forall t :: !Active(After(EMPTY, h).value, t))
            && T in After(EMPTY, h).value.data && After(EMPTY, h).value.data[T].rows == map[PLACE := ROW]
  {
    hide After, Can, Do;
    RolledBack();
    var e1, e2, e3 := LOST[0], LOST[1], LOST[2];
    SerialLast([], e1);
    SerialLast([e1], e2);
    SerialLast([e1, e2], e3);
    assert [e1] == [] + [e1] && [e1, e2] == [e1] + [e2] && [e1, e2, e3] == [e1, e2] + [e3];
    assert LOST[..3] == [e1, e2, e3];
  }

  lemma LostHappens()
    ensures After(EMPTY, LOST).Some?
    ensures After(EMPTY, LOST).value.log == LOST_LOG && After(EMPTY, LOST).value.data == LATER_ROW
  {
    hide After, Can, Do;
    RolledBack();
    UpdateStep();
    TwoSteps(EMPTY, LOST[..3], ROLLED_BACK, LOST[3], LOST[4]);
    assert LOST[..3] + [LOST[3], LOST[4]] == LOST[..5];
    CommitStep();
    AfterLast(EMPTY, LOST[..5], LOST[5]);
    assert LOST[..5] + [LOST[5]] == LOST;
  }

  lemma AfterNothing(d0: Data)
    ensures After(d0, []) == Some(State(d0, map[], 1, map[], [], 0))
  {
  }

  /** Transaction 2 updates the row that transaction 1 inserted and rolled back, and
      commits.  If no page was written, recovery leaves no row at all. */
  lemma CommittedUpdateLost()
    ensures After(EMPTY, LOST).Some? && After(EMPTY, LOST).value.log == LOST_LOG
    ensures GetRow(After(EMPTY, LOST).value.data, (T, PLACE)) == Some(NEW_ROW)
    ensures PrefixDisk(map[], LOST_LOG, map[]) && Val(SlotAt(Recover(map[], LOST_LOG), (T, PLACE))) == None
  {
    hide After, Recover, Winners, Proj, OnPrefix;
    LostHappens();
    var a: Addr := (T, PLACE);
    forall q: Addr
      ensures OnPrefix(SlotAt(map[], q), Proj(LOST_LOG, q), SlotAt(map[], q))
    {
      NothingWritten(SlotAt(map[], q), Proj(LOST_LOG, q));
    }
    LostPlace();
    LostWinners();
    assert [UPDATED][..0] == [] && LastLive([UPDATED]) == None;
    NoLosers(LOST_LOG, Proj(LOST_LOG, a));
    PlaceExact(LOST_LOG, map[], a, None);
  }

  lemma NothingWritten(b: Slot, ws: seq<LogRec>)
    ensures OnPrefix(b, ws, b)
  {
    assert RedoAll(b, ws[..0]) == b;
  }

  lemma LostPlace()
    ensures Proj(LOST_LOG, (T, PLACE)) == [INSERTED, UPDATED]
  {
    hide Proj;
    var a := (T, PLACE);
    var two := [INSERTED] + [LogAbort(1)];
    assert LOST_LOG == two + [UPDATED] + [LogCommit(2)];
    ProjAppend(two + [UPDATED], [LogCommit(2)], a);
    ProjAppend(two, [UPDATED], a);
    ProjAppend([INSERTED], [LogAbort(1)], a);
    ProjOne(INSERTED, a);
    ProjOne(LogAbort(1), a);
    ProjOne(UPDATED, a);
    ProjOne(LogCommit(2), a);
  }

  lemma LostWinners()
    ensures Winners(LOST_LOG, [INSERTED, UPDATED]) == [UPDATED]
    ensures CommittedIn(LOST_LOG, 2) && AbortedIn(LOST_LOG, 1)
  {
    assert LOST_LOG[3] == LogCommit(2) && LOST_LOG[1] == LogAbort(1) && LogCommit(1) !in LOST_LOG;
    var lg := LOST_LOG;
    assert CommittedIn(lg, 2) && !CommittedIn(lg, 1);
    TwoWinners(lg, INSERTED, UPDATED);
  }

  lemma TwoWinners(lg: seq<LogRec>, r: LogRec, q: LogRec)
    requires !CommittedIn(lg, r.tx) && CommittedIn(lg, q.tx)
    ensures Winners(lg, [r, q]) == [q]
  {
    assert [r, q] == [r] + [q] && [r][1..] == [];
    WinnersAll(lg, [q]);
    WinnersAppend(lg, [r], [q]);
    assert Winners(lg, [r]) == [];
  }

  lemma {:induction false} NeitherAll(all: seq<LogRec>, ws: seq<LogRec>)
    requires forall i :: 0 <= i < |ws| ==> !CommittedIn(all, ws[i].tx) && AbortedIn(all, ws[i].tx)
    ensures Winners(all, ws) == [] && Losers(all, ws) == []
    decreases |ws|
  {
    if ws != [] { NeitherAll(all, ws[1..]); }
  }

  const INSERTED: LogRec := LogInsert(1, T, PLACE, ROW)

  /** The row of a rolled-back insert that reached the disk survives recovery. */
  lemma AbortedInsertSurvives()
    ensures var d: Disk := map[(T, PLACE) := Slot(true, ROW)];
            PrefixDisk(map[], [INSERTED, LogAbort(1)], d)
            && Val(SlotAt(Recover(d, [INSERTED, LogAbort(1)]), (T, PLACE))) == Some(ROW)
  {
    hide OnPrefix, Redo, Undo;
    var lg := [INSERTED, LogAbort(1)];
    var d: Disk := map[(T, PLACE) := Slot(true, ROW)];
    assert LogAbort(1) == lg[1] && LogCommit(1) !in lg;
    NeitherAll(lg, Proj(lg, (T, PLACE)));
    RedoProj(d, lg, lg, (T, PLACE));
    UndoProj(Redo(d, lg, lg), lg, lg, (T, PLACE));
    forall a
      ensures OnPrefix(SlotAt(map[], a), Proj(lg, a), SlotAt(d, a))
    {
      InsertReached(a);
    }
  }

  lemma InsertReached(a: Addr)
    ensures OnPrefix(SlotAt(map[], a), Proj([INSERTED, LogAbort(1)], a), SlotAt(map[(T, PLACE) := Slot(true, ROW)], a))
  {
    assert [INSERTED, LogAbort(1)] == [INSERTED] + [LogAbort(1)];
    ProjAppend([INSERTED], [LogAbort(1)], a);
    ProjOne(INSERTED, a);
    ProjOne(LogAbort(1), a);
    var ws := Proj([INSERTED, LogAbort(1)], a);
    assert ws == if a == (T, PLACE) then [INSERTED] else [];
    assert ws[..|ws|] == ws && (ws != [] ==> ws[1..] == []);
    var b: Slot := SlotAt(map[], a);
    assert RedoAll(b, ws) == if a == (T, PLACE) then Slot(true, ROW) else b;
    assert SlotAt(map[(T, PLACE) := Slot(true, ROW)], a) == RedoAll(b, ws[..|ws|]);
  }
}
