/** Recovery works on pages in the buffer pool and truncates the log without flushing them.
    For any set of places that had been flushed by then, this is when nothing is lost. */
module Truncation {
  import opened Common
  import opened TxMachine
  import opened Serializability
  import opened Recovery
  import opened LogTrace
  import opened Rollback

  /** Updates of a row to itself. */
  predicate NoChange(r: LogRec) { r.LogUpdate? && r.old_ == r.new_ }

  /** A crash left disk; then recovery ran, its effects reached the places in flushed, and
      as much of them as you like the other ones; and the system crashed with disk'. */
  ghost predicate LeftBehind(base: Disk, lg: seq<LogRec>, flushed: iset<Addr>, disk: Disk, disk': Disk) {
    PrefixDisk(base, lg, disk) && Interrupted(lg, disk, disk')
    && forall a :: a in flushed ==> SlotAt(disk', a) == SlotAt(Recover(disk, lg), a)
  }

  // ---------- places where the log changes nothing ----------

  lemma {:induction false} ChainStays(v: Option<Row>, ws: seq<LogRec>)
    requires ChainVal(v, ws).Some? && forall r :: r in ws ==> NoChange(r)
    ensures ChainVal(v, ws).value == v && forall r :: r in ws ==> NoChange(r) && v == Some(r.new_)
    decreases |ws|
  {
    if ws != [] {
      assert ws[0] in ws && forall r :: r in ws[1..] ==> r in ws;
      ChainStays(v, ws[1..]);
    }
  }

  lemma {:induction false} RedoStays(x: Slot, ws: seq<LogRec>)
    requires forall r :: r in ws ==> NoChange(r) && Val(x) == Some(r.new_)
    ensures RedoAll(x, ws) == x
    decreases |ws|
  {
    if ws != [] { RedoStays(x, ws[1..]); }
  }

  lemma {:induction false} StepsStay(lg: seq<LogRec>, d: Disk, ss: seq<RecStep>, a: Addr)
    requires StepsFrom(lg, ss) && forall r :: r in Proj(lg, a) ==> NoChange(r) && Val(SlotAt(d, a)) == Some(r.new_)
    ensures SlotAt(ApplySteps(d, ss), a) == SlotAt(d, a)
    decreases |ss|
  {
    if ss != [] {
      var was, s := ss[..|ss| - 1], ss[|ss| - 1];
      assert forall i :: 0 <= i < |was| ==> was[i] == ss[i];
      StepsStay(lg, d, was, a);
      if IsRow(s.rec) { ProjHas(lg, s.rec); }
    }
  }

  /** If the log changes nothing at a place, it has its committed value whatever recovery
      got around to doing. */
  lemma QuietPlace(base: Disk, lg: seq<LogRec>, flushed: iset<Addr>, disk: Disk, disk': Disk, a: Addr,
                   com: Option<Row>)
    requires LeftBehind(base, lg, flushed, disk, disk') && PlaceOk(lg, a, Val(SlotAt(base, a)), com)
    requires forall r :: r in Proj(lg, a) ==> NoChange(r)
    ensures Val(SlotAt(disk', a)) == com
  {
    var ws, b, ss := Proj(lg, a), SlotAt(base, a), RecoverySteps(lg);
    PlaceChain(lg, a, Val(b), com);
    ChainStays(Val(b), ws);
    var n :| Split(lg, a, Val(b), com, n);
    ChainStays(Val(b), ws[..n]);
    assert OnPrefix(b, ws, SlotAt(disk, a));
    var m :| 0 <= m <= |ws| && SlotAt(disk, a) == RedoAll(b, ws[..m]);
    RedoStays(b, ws[..m]);
    var k :| 0 <= k <= |ss| && SlotAt(disk', a) == SlotAt(ApplySteps(disk, ss[..k]), a);
    StepsAreLogged(lg, lg);
    assert forall i :: 0 <= i < k ==> ss[..k][i] == ss[i];
    StepsStay(lg, disk, ss[..k], a);
  }

  // ---------- a place that is lost ----------

  /** A run that changes something has, at some point, another value than com. */
  lemma {:induction false} SomePoint(v: Option<Row>, ws: seq<LogRec>, com: Option<Row>) returns (m: nat)
    requires ChainVal(v, ws).Some? && exists r :: r in ws && !NoChange(r)
    ensures m <= |ws| && ChainVal(v, ws[..m]).Some? && ChainVal(v, ws[..m]).value != com
    decreases |ws|
  {
    if v != com {
      m := 0;
    } else {
      var w := StepVal(v, ws[0]).value;
      if w != com {
        m := 1;
        assert ws[..1] == [ws[0]];
        ChainOne(v, ws[0]);
      } else {
        assert NoChange(ws[0]);
        var k := SomePoint(w, ws[1..], com);
        m := k + 1;
        assert ws[..m][1..] == ws[1..][..k];
      }
    }
  }

  /** The disk on which place a, and no other, holds its first m writes. */
  lemma OnePlaceAhead(base: Disk, lg: seq<LogRec>, a: Addr, m: nat) returns (disk: Disk)
    requires m <= |Proj(lg, a)|
    ensures PrefixDisk(base, lg, disk) && SlotAt(disk, a) == RedoAll(SlotAt(base, a), Proj(lg, a)[..m])
  {
    disk := base[a := RedoAll(SlotAt(base, a), Proj(lg, a)[..m])];
    forall q
      ensures OnPrefix(SlotAt(base, q), Proj(lg, q), SlotAt(disk, q))
    {
      if q != a {
        assert Proj(lg, q)[..0] == [];
        assert SlotAt(disk, q) == RedoAll(SlotAt(base, q), Proj(lg, q)[..0]);
      }
    }
  }

  lemma LostPlaces(base: Disk, lg: seq<LogRec>, flushed: iset<Addr>, a: Addr, com: Option<Row>)
      returns (disk: Disk, disk': Disk)
    requires PlaceOk(lg, a, Val(SlotAt(base, a)), com) && a !in flushed
    requires exists r :: r in Proj(lg, a) && !NoChange(r)
    ensures LeftBehind(base, lg, flushed, disk, disk') && Val(SlotAt(disk', a)) != com
  {
    hide Recover, NoChange, PrefixDisk, RecoverySteps, Proj;
    var ws, b, ss := Proj(lg, a), SlotAt(base, a), RecoverySteps(lg);
    PlaceChain(lg, a, Val(b), com);
    var m := SomePoint(Val(b), ws, com);
    disk := OnePlaceAhead(base, lg, a, m);
    RedoVal(Val(b), b, ws[..m]);
    disk' := Recover(disk, lg)[a := SlotAt(disk, a)];
    RecoverIsSteps(disk, lg);
    assert ss[..|ss|] == ss && ss[..0] == [];
    forall q
      ensures exists n :: 0 <= n <= |ss| && SlotAt(disk', q) == SlotAt(ApplySteps(disk, ss[..n]), q)
    {
      assert SlotAt(disk', q) == SlotAt(ApplySteps(disk, ss[..if q == a then 0 else |ss|]), q);
    }
  }

  // ---------- the theorem ----------

  /** Truncation.  The committed rows survive every crash after the log was truncated, if
      and only if every durable record about a place that had not been flushed updates a
      row to itself.  With nothing flushed, as the source has it, that is nearly never;
      with everything flushed, it is always. */
  lemma TruncationExact(d0: Data, h: History, base: Disk, n: nat, flushed: iset<Addr>)
    requires After(d0, h).Some? && NoRollback(h) && DiskShows(base, d0)
    requires After(d0, h).value.flushed <= n <= |After(d0, h).value.log|
    ensures var lg := After(d0, h).value.log[..n];
            (forall disk, disk' :: LeftBehind(base, lg, flushed, disk, disk') ==>
               DiskShows(Recover(disk', []), CommittedData(d0, h)))
            <==> forall r :: r in lg && IsRow(r) && AddrOf(r) !in flushed ==> NoChange(r)
  {
    hide After, Recover, NoChange, LeftBehind, Proj;
    var lg := After(d0, h).value.log[..n];
    if forall r :: r in lg && IsRow(r) && AddrOf(r) !in flushed ==> NoChange(r) {
      forall disk, disk' | LeftBehind(base, lg, flushed, disk, disk')
        ensures DiskShows(Recover(disk', []), CommittedData(d0, h))
      {
        NothingToRecover(disk');
        AllKept(d0, h, base, n, flushed, disk, disk');
      }
    } else {
      var r :| r in lg && IsRow(r) && AddrOf(r) !in flushed && !NoChange(r);
      var a := AddrOf(r);
      ProjHas(lg, r);
      PlaceOfPrefix(d0, h, n, a);
      assert Val(SlotAt(base, a)) == GetRow(d0, a);
      var disk, disk' := LostPlaces(base, lg, flushed, a, GetRow(CommittedData(d0, h), a));
      NothingToRecover(disk');
    }
  }

  lemma PlaceOfPrefix(d0: Data, h: History, n: nat, a: Addr)
    requires After(d0, h).Some? && NoRollback(h)
    requires After(d0, h).value.flushed <= n <= |After(d0, h).value.log|
    ensures PlaceOk(After(d0, h).value.log[..n], a, GetRow(d0, a), GetRow(CommittedData(d0, h), a))
  {
    hide After;
    var k := LogPrefix(d0, h, n);
    assert forall i :: 0 <= i < k ==> h[..k][i] == h[i];
    HistoryPlace(d0, h[..k], a);
  }

  lemma AllKept(d0: Data, h: History, base: Disk, n: nat, flushed: iset<Addr>, disk: Disk, disk': Disk)
    requires After(d0, h).Some? && NoRollback(h) && DiskShows(base, d0)
    requires After(d0, h).value.flushed <= n <= |After(d0, h).value.log|
    requires var lg := After(d0, h).value.log[..n];
             LeftBehind(base, lg, flushed, disk, disk')
             && forall r :: r in lg && IsRow(r) && AddrOf(r) !in flushed ==> NoChange(r)
    ensures DiskShows(disk', CommittedData(d0, h))
  {
    hide After, Recover, NoChange, Interrupted, PrefixDisk;
    var lg := After(d0, h).value.log[..n];
    CrashRecovery(d0, h, base, disk, n);
    forall a
      ensures Val(SlotAt(disk', a)) == GetRow(CommittedData(d0, h), a)
    {
      if a in flushed {
        assert Val(SlotAt(Recover(disk, lg), a)) == GetRow(CommittedData(d0, h), a);
      } else {
        PlaceOfPrefix(d0, h, n, a);
        assert Val(SlotAt(base, a)) == GetRow(d0, a);
        QuietPlace(base, lg, flushed, disk, disk', a, GetRow(CommittedData(d0, h), a));
      }
    }
  }

  lemma NothingToRecover(d: Disk)
    ensures Recover(d, []) == d
  {
  }

  /** A committed insert that was redone but not flushed is gone. */
  lemma TruncationLosesCommit()
    ensures var lg := [INSERTED, LogCommit(1)];
            Val(SlotAt(Recover(map[], lg), (T, PLACE))) == Some(ROW)
                      && Val(SlotAt(Recover(map[], []), (T, PLACE))) == None
  {
    var lg, a := [INSERTED, LogCommit(1)], (T, PLACE);
    NothingToRecover(map[]);
    assert LogCommit(1) == lg[1] && lg == [INSERTED] + [LogCommit(1)];
    ProjAppend([INSERTED], [LogCommit(1)], a);
    ProjOne(INSERTED, a);
    ProjOne(LogCommit(1), a);
    WinnersAll(lg, [INSERTED]);
    RedoLast(SlotAt(map[], a), [INSERTED]);
    RecoveredSlot(map[], lg, a);
  }
}
