/** The log that the step machine writes is one that recovery can rely on, at every crash
    point: this is where locking until COMMIT and recovery meet. */
module LogTrace {
  import opened Common
  import opened LockManager
  import opened TransactionManager
  import opened TxMachine
  import opened Serializability
  import opened Recovery

  ghost function GetRow(d: Data, a: Addr): Option<Row> {
    if a.0 in d && a.1 in d[a.0].rows then Some(d[a.0].rows[a.1]) else None
  }

  lemma {:induction false} ProjAppend(lg: seq<LogRec>, m: seq<LogRec>, a: Addr)
    ensures Proj(lg + m, a) == Proj(lg, a) + Proj(m, a)
    decreases |lg|
  {
    if lg == [] {
      assert lg + m == m;
    } else {
      assert (lg + m)[1..] == lg[1..] + m;
      ProjAppend(lg[1..], m, a);
    }
  }

  lemma ProjOne(r: LogRec, a: Addr)
    ensures Proj([r], a) == if IsRow(r) && AddrOf(r) == a then [r] else []
  {
    assert [r][1..] == [];
  }

  lemma {:induction false} ChainAppend(v: Option<Row>, a: seq<LogRec>, b: seq<LogRec>)
    ensures ChainVal(v, a + b) == match ChainVal(v, a) case None => None case Some(m) => ChainVal(m, b)
    decreases |a|
  {
    if a == [] {
      assert a + b == b;
    } else {
      assert (a + b)[1..] == a[1..] + b;
      if StepVal(v, a[0]).Some? { ChainAppend(StepVal(v, a[0]).value, a[1..], b); }
    }
  }

  lemma ChainOne(v: Option<Row>, r: LogRec)
    ensures ChainVal(v, [r]) == StepVal(v, r)
  {
    assert [r][1..] == [];
  }

  /** Place a: n committed writes lead from the start value to the committed one; the
      rest, all by the holder of the table's X lock, leads to the current value. */
  ghost predicate Track(s: State, c: Data, d0: Data, a: Addr, n: int) {
    var ws, x := Proj(s.log, a), InfoOf(s.locks, a.0).xHolder;
    0 <= n <= |ws|
    && (forall i :: 0 <= i < n ==> CommittedIn(s.log, ws[i].tx))
    && (n < |ws| ==> x != 0) && (forall i :: n <= i < |ws| ==> ws[i].tx == x)
    && ChainVal(GetRow(d0, a), ws[..n]) == Some(GetRow(c, a))
    && ChainVal(GetRow(c, a), ws[n..]) == Some(GetRow(s.data, a))
  }

  ghost predicate Tracked(s: State, c: Data, d0: Data, a: Addr) {
    exists n :: Track(s, c, d0, a, n)
  }

  /** The log says COMMIT of exactly the committed transactions, and ABORT of none. */
  ghost predicate LogTxs(s: State) {
    forall r :: r in s.log ==>
      !r.LogAbort? && (r.LogCommit? ==> r.tx in s.txs && s.txs[r.tx] == COMMITTED)
  }

  ghost predicate TraceInv(s: State, c: Data, d0: Data) {
    LogTxs(s) && forall a :: Tracked(s, c, d0, a)
  }

  // ---------- reads and writes ----------

  /** A logged record fits the value of its place and says what becomes of it. */
  lemma LoggedStep(s: State, e: Event, a: Addr)
    requires IsOp(e) && Can(s, e)
    ensures Proj(Logged(e), a) == [] ==> GetRow(Do(s, e).data, a) == GetRow(s.data, a)
    ensures Proj(Logged(e), a) != [] ==>
              Proj(Logged(e), a) == Logged(e) && |Logged(e)| == 1 && IsWrite(e) && e.table == a.0
                        && Logged(e)[0].tx == e.tx
              && StepVal(GetRow(s.data, a), Logged(e)[0]) == Some(GetRow(Do(s, e).data, a))
  {
    hide RunOp, StepVal, LockFree, Locked;
    LoggedRun(s.data, e, a);
    if |Logged(e)| == 1 {
      ProjOne(Logged(e)[0], a);
      assert Logged(e) == [Logged(e)[0]];
    }
  }

  lemma LoggedRun(d: Data, e: Event, a: Addr)
    requires IsOp(e) && RunOp(d, e).Some?
    ensures if Logged(e) != [] && AddrOf(Logged(e)[0]) == a
            then StepVal(GetRow(d, a), Logged(e)[0]) == Some(GetRow(RunOp(d, e).value, a))
            else GetRow(RunOp(d, e).value, a) == GetRow(d, a)
  {
  }

  lemma OpHolder(s: State, e: Event, r: string)
    requires IsOp(e) && Can(s, e)
    ensures InfoOf(Do(s, e).locks, r).xHolder
         == if IsWrite(e) && e.table == r then e.tx else InfoOf(s.locks, r).xHolder
    ensures IsWrite(e) && e.table == r ==> InfoOf(s.locks, r).xHolder in {0, e.tx}
    ensures Do(s, e).log == s.log + Logged(e)
  {
  }

  lemma OpTracked(s: State, c: Data, d0: Data, e: Event, a: Addr)
    requires LocksOk(s) && IsOp(e) && Can(s, e) && Tracked(s, c, d0, a)
    ensures Tracked(Do(s, e), c, d0, a)
  {
    hide ChainVal, StepVal, RunOp, Can, Do;
    var n :| Track(s, c, d0, a, n);
    var s' := Do(s, e);
    var ws, more := Proj(s.log, a), Proj(Logged(e), a);
    OpActive(s, e);
    ActiveNotZero(s, e.tx);
    OpHolder(s, e, a.0);
    ProjAppend(s.log, Logged(e), a);
    LoggedStep(s, e, a);
    TrackMore(s, s', c, d0, a, n, more);
  }

  lemma OpActive(s: State, e: Event)
    requires IsOp(e) && Can(s, e)
    ensures Active(s, e.tx)
  {
  }

  /** One more record of the lock holder at the end, or none. */
  lemma TrackMore(s: State, s': State, c: Data, d0: Data, a: Addr, n: int, more: seq<LogRec>)
    requires Track(s, c, d0, a, n) && Proj(s'.log, a) == Proj(s.log, a) + more && s.log <= s'.log
    requires var x, x' := InfoOf(s.locks, a.0).xHolder, InfoOf(s'.locks, a.0).xHolder; x == x' || x == 0
    requires if more == [] then GetRow(s'.data, a) == GetRow(s.data, a)
             else |more| == 1 && more[0].tx == InfoOf(s'.locks, a.0).xHolder != 0
                  && StepVal(GetRow(s.data, a), more[0]) == Some(GetRow(s'.data, a))
    ensures Track(s', c, d0, a, n)
  {
    hide ChainVal, StepVal, Proj, GetRow, InfoOf;
    var ws, ws' := Proj(s.log, a), Proj(s'.log, a);
    assert ws'[..n] == ws[..n] && ws'[n..] == ws[n..] + more;
    assert ChainVal(GetRow(c, a), ws[n..]) == Some(GetRow(s.data, a));
    if more == [] {
      assert ws'[n..] == ws[n..];
    } else {
      ChainAppend(GetRow(c, a), ws[n..], more);
      assert more == [more[0]];
      ChainOne(GetRow(s.data, a), more[0]);
      assert ChainVal(GetRow(c, a), ws'[n..]) == Some(GetRow(s'.data, a));
    }
    assert ChainVal(GetRow(d0, a), ws'[..n]) == Some(GetRow(c, a));
    forall i | 0 <= i < n
      ensures CommittedIn(s'.log, ws'[i].tx)
    {
      assert ws'[i] == ws[i];
      assert LogCommit(ws[i].tx) in s.log;
    }
    forall i | n <= i < |ws'|
      ensures ws'[i].tx == InfoOf(s'.locks, a.0).xHolder
    {
      if i < |ws| {
        assert ws'[i] == ws[i];
        assert ws[i].tx == InfoOf(s.locks, a.0).xHolder;
      } else {
        assert ws'[i] == more[0];
      }
    }
  }

  // ---------- COMMIT ----------

  lemma CommitTracked(h: History, s: State, c: Data, d0: Data, e: Event, a: Addr)
    requires LocksOk(s) && AllRerunnable(h, s, c) && AllShow(h, s, c) && e.Commit? && Can(s, e)
    requires Tracked(s, c, d0, a) && LogTxs(s)
    ensures Tracked(Do(s, e), RunOps(c, OpsOf(h, e.tx)).value, d0, a)
  {
    hide ChainVal, StepVal, RunOps, OpsOf, Covered, Proj, RunOp;
    var t, s' := e.tx, Do(s, e);
    var n :| Track(s, c, d0, a, n);
    var ws, x := Proj(s.log, a), InfoOf(s.locks, a.0).xHolder;
    ActiveNotZero(s, t);
    assert Rerunnable(h, s, c, t) && Shows(h, s, c, a.0);
    var m := RunOps(c, OpsOf(h, t)).value;
    RunOpsDomain(c, OpsOf(h, t));
    ProjAppend(s.log, [LogCommit(t)], a);
    ProjOne(LogCommit(t), a);
    assert Proj(s'.log, a) == ws;
    ReleasedMeaning(s.locks, t, t, a.0);
    assert LogCommit(t) == s'.log[|s.log|];
    forall i | 0 <= i < n
      ensures CommittedIn(s'.log, ws[i].tx)
    {
      assert LogCommit(ws[i].tx) in s.log;
    }
    if x == t {
      assert GetRow(m, a) == GetRow(s.data, a);
      assert ws == ws[..n] + ws[n..];
      ChainAppend(GetRow(d0, a), ws[..n], ws[n..]);
      assert ws[..|ws|] == ws && ws[|ws|..] == [];
      ChainNil(GetRow(m, a));
      assert ChainVal(GetRow(d0, a), ws) == Some(GetRow(m, a));
      assert Track(s', m, d0, a, |ws|);
    } else {
      if a.0 in c { CommitFrame(h, s, c, t, a.0); }
      assert GetRow(m, a) == GetRow(c, a);
      assert Track(s', m, d0, a, n);
    }
  }

  lemma ChainNil(v: Option<Row>)
    ensures ChainVal(v, []) == Some(v)
  {
  }

  // ---------- all histories ----------

  lemma OtherTracked(s: State, c: Data, d0: Data, e: Event, a: Addr)
    requires (e.Begin? || e.Conflict?) && Can(s, e) && Tracked(s, c, d0, a)
    ensures Tracked(Do(s, e), c, d0, a)
  {
    var n :| Track(s, c, d0, a, n);
    assert Track(Do(s, e), c, d0, a, n);
  }

  lemma InitTracked(d0: Data, a: Addr)
    ensures Tracked(After(d0, []).value, d0, d0, a)
  {
    assert Track(After(d0, []).value, d0, d0, a, 0);
  }

  lemma LogTxsKept(s: State, e: Event)
    requires LocksOk(s) && LogTxs(s) && Can(s, e) && !e.Rollback?
    ensures LogTxs(Do(s, e))
  {
    if IsOp(e) {
      assert forall r :: r in Logged(e) ==> !r.LogAbort? && !r.LogCommit?;
    }
  }

  lemma {:induction false} Traced(d0: Data, h: History)
    requires After(d0, h).Some? && NoRollback(h)
    ensures TraceInv(After(d0, h).value, CommittedData(d0, h), d0)
    decreases |h|
  {
    hide RunOps, OpsOf, Covered, RunOp, Proj, ChainVal, Inv;
    Reachable(d0, h);
    if h == [] {
      assert RunOps(d0, Serial(h)).value == d0 by { RunNothing(d0); }
      forall a
        ensures Tracked(After(d0, h).value, d0, d0, a)
      {
        InitTracked(d0, a);
      }
    } else {
      var g, e := h[..|h| - 1], h[|h| - 1];
      assert forall i :: 0 <= i < |g| ==> g[i] == h[i];
      Traced(d0, g);
      TracedStep(d0, g, e);
      assert g + [e] == h;
    }
  }

  lemma RunNothing(d0: Data)
    ensures RunOps(d0, Serial([])) == Some(d0)
  {
  }

  lemma TracedStep(d0: Data, g: History, e: Event)
    requires After(d0, g).Some? && NoRollback(g) && Can(After(d0, g).value, e) && !e.Rollback?
    requires After(d0, g + [e]).Some? && NoRollback(g + [e])
    requires TraceInv(After(d0, g).value, CommittedData(d0, g), d0)
    ensures TraceInv(After(d0, g + [e]).value, CommittedData(d0, g + [e]), d0)
  {
    hide RunOps, OpsOf, Serial, Covered, RunOp;
    Reachable(d0, g);
    var s, c := After(d0, g).value, CommittedData(d0, g);
    SerialLast(g, e);
    assert (g + [e])[..|g + [e]| - 1] == g;
    var s', c' := Do(s, e), CommittedData(d0, g + [e]);
    LogTxsKept(s, e);
    if e.Commit? {
      RunOpsAppend(d0, Serial(g), OpsOf(g, e.tx));
    } else {
      assert Serial(g) + [] == Serial(g);
    }
    forall a
      ensures Tracked(s', c', d0, a)
    {
      assert Tracked(s, c, d0, a);
      if e.Commit? { CommitTracked(g, s, c, d0, e, a); }
      else if IsOp(e) { OpTracked(s, c, d0, e, a); }
      else { OtherTracked(s, c, d0, e, a); }
    }
  }

  // ---------- recovery of a history ----------

  lemma TrackedPlace(s: State, c: Data, d0: Data, a: Addr)
    requires LocksOk(s) && LogTxs(s) && Tracked(s, c, d0, a)
    ensures PlaceOk(s.log, a, GetRow(d0, a), GetRow(c, a))
  {
    var n :| Track(s, c, d0, a, n);
    var ws := Proj(s.log, a);
    forall i | n <= i < |ws|
      ensures Loser(s.log, ws[i].tx)
    {
      var x := InfoOf(s.locks, a.0).xHolder;
      assert x != 0 && ws[i].tx == x;
      assert a.0 in s.locks && Active(s, x);
    }
    assert Split(s.log, a, GetRow(d0, a), GetRow(c, a), n);
  }

  /** The disk shows the rows of d0: what recovery has to start from. */
  ghost predicate DiskShows(d: Disk, d0: Data) {
    forall a :: Val(SlotAt(d, a)) == GetRow(d0, a)
  }

  /** Recovery of the log of any history leaves the rows of the committed transactions, run
      serially in COMMIT order, from exactly the crash disks: from every one of them, and
      from no other disk. */
  lemma RecoverHistory(d0: Data, h: History, base: Disk, disk: Disk)
    requires After(d0, h).Some? && NoRollback(h) && DiskShows(base, d0)
    ensures DiskShows(Recover(disk, After(d0, h).value.log), CommittedData(d0, h))
            <==> CrashDisk(base, After(d0, h).value.log, disk)
  {
    hide RunOps, OpsOf, Serial, Recover, Good, Proj, Inv, After;
    var lg, c := After(d0, h).value.log, CommittedData(d0, h);
    forall a
      ensures Val(SlotAt(Recover(disk, lg), a)) == GetRow(c, a) <==> Good(SlotAt(base, a), Proj(lg, a), SlotAt(disk, a))
    {
      HistoryPlace(d0, h, a);
      assert Val(SlotAt(base, a)) == GetRow(d0, a);
      RecoverPlace(base, lg, disk, a, GetRow(c, a));
    }
  }

  lemma HistoryPlace(d0: Data, h: History, a: Addr)
    requires After(d0, h).Some? && NoRollback(h)
    ensures PlaceOk(After(d0, h).value.log, a, GetRow(d0, a), GetRow(CommittedData(d0, h), a))
  {
    hide RunOps, OpsOf, Serial, Proj, After;
    Reachable(d0, h);
    Traced(d0, h);
    assert Tracked(After(d0, h).value, CommittedData(d0, h), d0, a);
    TrackedPlace(After(d0, h).value, CommittedData(d0, h), d0, a);
  }

  // ---------- crash points ----------

  lemma AfterPrefix(d0: Data, h: History, k: nat)
    requires After(d0, h).Some? && k <= |h|
    ensures After(d0, h[..k]).Some?
    decreases |h| - k
  {
    if k < |h| {
      AfterPrefix(d0, h, k + 1);
      assert h[..k + 1][..k] == h[..k];
    } else {
      assert h[..k] == h;
    }
  }

  /** Every prefix of the log is the whole log of some prefix of the history: the log
      grows by at most one record a step. */
  lemma {:induction false} LogPrefix(d0: Data, h: History, n: nat) returns (k: nat)
    requires After(d0, h).Some? && n <= |After(d0, h).value.log|
    ensures k <= |h| && After(d0, h[..k]).Some? && After(d0, h[..k]).value.log == After(d0, h).value.log[..n]
    ensures n >= After(d0, h).value.flushed ==> Serial(h[..k]) == Serial(h)
    decreases |h|
  {
    var s := After(d0, h).value;
    if n == |s.log| {
      k := |h|;
      assert h[..k] == h && s.log[..n] == s.log;
    } else {
      var g, e := h[..|h| - 1], h[|h| - 1];
      var p := After(d0, g).value;
      assert |s.log| <= |p.log| + 1 && s.log[..|p.log|] == p.log;
      k := LogPrefix(d0, g, n);
      assert g[..k] == h[..k];
      assert s.log[..n] == p.log[..n];
      if n >= s.flushed {
        assert !e.Commit?;
        assert s.flushed == p.flushed || s.flushed == |s.log|;
      }
    }
  }

  /** Crash recovery, exactly.  Stop any history without ROLLBACK at any point, with any n
      records of the log durable, at least the flushed ones.  Recovery leaves the live rows
      of all transactions whose COMMIT returned, run serially in COMMIT order, if and only
      if each slot on disk is as alive as before when no durable record switches its
      liveness, and unchanged when no durable record is about it. */
  lemma CrashRecoveryExact(d0: Data, h: History, base: Disk, disk: Disk, n: nat)
    requires After(d0, h).Some? && NoRollback(h) && DiskShows(base, d0)
    requires After(d0, h).value.flushed <= n <= |After(d0, h).value.log|
    ensures var lg := After(d0, h).value.log[..n];
            DiskShows(Recover(disk, lg), CommittedData(d0, h)) <==> CrashDisk(base, lg, disk)
  {
    var k := LogPrefix(d0, h, n);
    assert forall i :: 0 <= i < k ==> h[..k][i] == h[i];
    RecoverHistory(d0, h[..k], base, disk);
  }

  /** Crash recovery.  With every slot on disk holding the effect of some prefix of its
      durable log records (steal and no-force), recovery leaves exactly the committed
      rows. */
  lemma CrashRecovery(d0: Data, h: History, base: Disk, disk: Disk, n: nat)
    requires After(d0, h).Some? && NoRollback(h) && DiskShows(base, d0)
    requires After(d0, h).value.flushed <= n <= |After(d0, h).value.log|
    requires PrefixDisk(base, After(d0, h).value.log[..n], disk)
    ensures DiskShows(Recover(disk, After(d0, h).value.log[..n]), CommittedData(d0, h))
  {
    hide After, Recover;
    PrefixIsCrashDisk(base, After(d0, h).value.log[..n], disk);
    CrashRecoveryExact(d0, h, base, disk, n);
  }

  /** A crash in the middle of that recovery changes nothing: starting it again on what is
      left on disk, with the same log, gives the same live rows. */
  lemma CrashInRecovery(d0: Data, h: History, base: Disk, disk: Disk, disk': Disk, n: nat)
    requires After(d0, h).Some? && NoRollback(h) && DiskShows(base, d0)
    requires After(d0, h).value.flushed <= n <= |After(d0, h).value.log|
    requires PrefixDisk(base, After(d0, h).value.log[..n], disk)
    requires Interrupted(After(d0, h).value.log[..n], disk, disk')
    ensures DiskShows(Recover(disk', After(d0, h).value.log[..n]), CommittedData(d0, h))
  {
    hide After, Recover;
    var lg := After(d0, h).value.log[..n];
    PrefixIsCrashDisk(base, lg, disk);
    InterruptedIsCrashDisk(base, lg, disk, disk');
    CrashRecoveryExact(d0, h, base, disk', n);
  }

  // ---------- a page ahead of its log record ----------

  /** The first record that is not durable is about place a, and its effect is on disk all
      the same; the durable records of a are ws. */
  ghost predicate Overtakes(base: Disk, lg: seq<LogRec>, r: LogRec, a: Addr, disk: Disk) {
    IsRow(r) && AddrOf(r) == a && SlotAt(disk, a) == RedoAll(SlotAt(base, a), Proj(lg, a) + [r])
    && forall q :: q != a ==> Good(SlotAt(base, q), Proj(lg, q), SlotAt(disk, q))
  }

  /** When a page may overtake its log record: recovery is right exactly if the durable log
      already switches the liveness of the place, or the record that is missing is an
      update and the place has durable records or keeps its row. */
  lemma PageOvertakesLog(d0: Data, h: History, base: Disk, disk: Disk, n: nat, a: Addr)
    requires After(d0, h).Some? && NoRollback(h) && DiskShows(base, d0)
    requires After(d0, h).value.flushed <= n < |After(d0, h).value.log|
    requires Overtakes(base, After(d0, h).value.log[..n], After(d0, h).value.log[n], a, disk)
    ensures var lg, r := After(d0, h).value.log[..n], After(d0, h).value.log[n];
            DiskShows(Recover(disk, lg), CommittedData(d0, h))
            <==> HasLive(Proj(lg, a)) || (r.LogUpdate? && (Proj(lg, a) != [] || r.old_ == r.new_))
  {
    hide After, Recover, Good, Proj, HasLive;
    var log := After(d0, h).value.log;
    var lg, r, ws := log[..n], log[n], Proj(log[..n], a);
    CrashRecoveryExact(d0, h, base, disk, n);
    var k := LogPrefix(d0, h, n + 1);
    assert forall i :: 0 <= i < k ==> h[..k][i] == h[i];
    HistoryPlace(d0, h[..k], a);
    assert log[..n + 1] == lg + [r];
    ProjAppend(lg, [r], a);
    ProjOne(r, a);
    PlaceChain(log[..n + 1], a, GetRow(d0, a), GetRow(CommittedData(d0, h[..k]), a));
    assert Val(SlotAt(base, a)) == GetRow(d0, a);
    OneAhead(SlotAt(base, a), ws, r);
  }

  lemma PlaceChain(lg: seq<LogRec>, a: Addr, v0: Option<Row>, com: Option<Row>)
    requires PlaceOk(lg, a, v0, com)
    ensures ChainVal(v0, Proj(lg, a)).Some?
  {
    var ws := Proj(lg, a);
    var n :| Split(lg, a, v0, com, n);
    assert ws == ws[..n] + ws[n..];
    ChainAppend(v0, ws[..n], ws[n..]);
  }

  lemma OneAhead(b: Slot, ws: seq<LogRec>, r: LogRec)
    requires IsRow(r) && ChainVal(Val(b), ws + [r]).Some?
    ensures Good(b, ws, RedoAll(b, ws + [r]))
            <==> HasLive(ws) || (r.LogUpdate? && (ws != [] || r.old_ == r.new_))
  {
    ChainAppend(Val(b), ws, [r]);
    ChainOne(ChainVal(Val(b), ws).value, r);
    RedoVal(Val(b), b, ws + [r]);
    HasLiveAppend(ws, [r]);
    if !r.LogUpdate? { assert HasLive([r]) by { assert !([r])[0].LogUpdate?; } }
    if !HasLive(ws) { RedoAlive(b, ws); }
    if ws == [] {
      assert ws + [r] == [r] && [r][1..] == [];
    } else if !HasLive(ws) {
      RedoVal(Val(b), b, ws);
    }
  }
}
