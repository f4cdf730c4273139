/** Crash recovery: redo the committed transactions in log order, then undo the others in
    reverse order.

    The disk is a map from record places to slots.  A slot has a liveness byte and the
    bytes of a row; deleting keeps the bytes, and redoing or undoing an update does not
    touch the liveness byte. */
module Recovery {
  import opened Common
  import opened TxMachine

  type Addr = (string, RecordID)

  datatype Slot = Slot(alive: bool, data: Row)

  type Disk = map<Addr, Slot>

  /** A slot that was never written reads as zero bytes: dead. */
  function SlotAt(d: Disk, a: Addr): Slot {
    if a in d then d[a] else Slot(false, [])
  }

  function Val(x: Slot): Option<Row> {
    if x.alive then Some(x.data) else None
  }

  predicate IsRow(r: LogRec) { r.LogInsert? || r.LogDelete? || r.LogUpdate? }

  function AddrOf(r: LogRec): Addr
    requires IsRow(r)
  {
    (r.table, r.rid)
  }

  // ---------- what recovery does ----------

  /** redoInsert, redoDelete, redoUpdate on one slot (insertAt, deleteAt, updateAt). */
  function Redo1(x: Slot, r: LogRec): Slot {
    match r
    case LogInsert(_, _, _, v) => Slot(true, v)
    case LogDelete(_, _, _, _) => x.(alive := false)
    case LogUpdate(_, _, _, _, v) => x.(data := v)
    case _ => x
  }

  function Undo1(x: Slot, r: LogRec): Slot {
    match r
    case LogInsert(_, _, _, _) => x.(alive := false)
    case LogDelete(_, _, _, v) => Slot(true, v)
    case LogUpdate(_, _, _, v, _) => x.(data := v)
    case _ => x
  }

  function RedoRec(d: Disk, r: LogRec): Disk {
    if IsRow(r) then d[AddrOf(r) := Redo1(SlotAt(d, AddrOf(r)), r)] else d
  }

  function UndoRec(d: Disk, r: LogRec): Disk {
    if IsRow(r) then d[AddrOf(r) := Undo1(SlotAt(d, AddrOf(r)), r)] else d
  }

  predicate CommittedIn(lg: seq<LogRec>, tx: int) { LogCommit(tx) in lg }

  predicate AbortedIn(lg: seq<LogRec>, tx: int) { LogAbort(tx) in lg }

  /** all is the whole log, which says who committed; lg is the part to redo. */
  function Redo(d: Disk, all: seq<LogRec>, lg: seq<LogRec>): Disk
    decreases |lg|
  {
    if lg == [] then d
    else Redo(if CommittedIn(all, lg[0].tx) then RedoRec(d, lg[0]) else d, all, lg[1..])
  }

  predicate Loser(all: seq<LogRec>, tx: int) { !CommittedIn(all, tx) && !AbortedIn(all, tx) }

  function Undo(d: Disk, all: seq<LogRec>, lg: seq<LogRec>): Disk {
    if lg == [] then d
    else
      var m := Undo(d, all, lg[1..]);
      if Loser(all, lg[0].tx) then UndoRec(m, lg[0]) else m
  }

  function Recover(d: Disk, lg: seq<LogRec>): Disk {
    Undo(Redo(d, lg, lg), lg, lg)
  }

  // ---------- one slot ----------

  /** The log records of one place. */
  function Proj(lg: seq<LogRec>, a: Addr): (ws: seq<LogRec>)
    ensures forall i :: 0 <= i < |ws| ==> IsRow(ws[i]) && AddrOf(ws[i]) == a && ws[i] in lg
  {
    if lg == [] then []
    else (if IsRow(lg[0]) && AddrOf(lg[0]) == a then [lg[0]] else []) + Proj(lg[1..], a)
  }

  function RedoAll(x: Slot, ws: seq<LogRec>): Slot
    decreases |ws|
  {
    if ws == [] then x else RedoAll(Redo1(x, ws[0]), ws[1..])
  }

  function UndoAll(x: Slot, ws: seq<LogRec>): Slot {
    if ws == [] then x else Undo1(UndoAll(x, ws[1..]), ws[0])
  }

  /** What a write makes of the value of a place; None when the record does not fit. */
  function StepVal(v: Option<Row>, r: LogRec): Option<Option<Row>> {
    match r
    case LogInsert(_, _, _, n) => if v.None? then Some(Some(n)) else None
    case LogDelete(_, _, _, o) => if v == Some(o) then Some(None) else None
    case LogUpdate(_, _, _, o, n) => if v == Some(o) then Some(Some(n)) else None
    case _ => None
  }

  function ChainVal(v: Option<Row>, ws: seq<LogRec>): Option<Option<Row>>
    decreases |ws|
  {
    if ws == [] then Some(v)
    else match StepVal(v, ws[0])
      case None => None
      case Some(w) => ChainVal(w, ws[1..])
  }

  /** Does some record switch the liveness byte? */
  predicate HasLive(ws: seq<LogRec>) {
    exists i :: 0 <= i < |ws| && !ws[i].LogUpdate?
  }

  /** All that recovery needs to know about a slot on disk: if no record switches its
      liveness, it is as alive as it was; if there is no record at all, it is unchanged.
      In between it may hold anything. */
  ghost predicate Good(b: Slot, ws: seq<LogRec>, x: Slot) {
    (!HasLive(ws) ==> x.alive == b.alive) && (ws == [] ==> Val(x) == Val(b))
  }

  lemma HasLiveCons(ws: seq<LogRec>)
    requires ws != []
    ensures HasLive(ws) <==> !ws[0].LogUpdate? || HasLive(ws[1..])
  {
    if HasLive(ws[1..]) {
      var i :| 0 <= i < |ws[1..]| && !ws[1..][i].LogUpdate?;
      assert !ws[i + 1].LogUpdate?;
    }
    if HasLive(ws) && ws[0].LogUpdate? {
      var i :| 0 <= i < |ws| && !ws[i].LogUpdate?;
      assert !ws[1..][i - 1].LogUpdate?;
    }
  }

  lemma HasLiveAppend(a: seq<LogRec>, b: seq<LogRec>)
    ensures HasLive(a + b) <==> HasLive(a) || HasLive(b)
  {
    if HasLive(a) { var i :| 0 <= i < |a| && !a[i].LogUpdate?; assert !(a + b)[i].LogUpdate?; }
    if HasLive(b) { var i :| 0 <= i < |b| && !b[i].LogUpdate?; assert !(a + b)[|a| + i].LogUpdate?; }
  }

  /** Redoing a run of writes over a slot in any state. */
  lemma {:induction false} RedoVal(v0: Option<Row>, x: Slot, ws: seq<LogRec>)
    requires ChainVal(v0, ws).Some?
    ensures var v := ChainVal(v0, ws).value; var y := RedoAll(x, ws);
            if HasLive(ws) then Val(y) == v
            else y.alive == x.alive && v.Some? == v0.Some? && (ws != [] && v.Some? ==> y.data == v.value)
    decreases |ws|
  {
    if ws != [] {
      HasLiveCons(ws);
      var v1, x1 := StepVal(v0, ws[0]).value, Redo1(x, ws[0]);
      RedoVal(v1, x1, ws[1..]);
      if ws[1..] == [] { assert RedoAll(x, ws) == x1; }
    }
  }

  /** Undoing the writes of a loser, last one first, restores the value before the first. */
  lemma {:induction false} UndoVal(v: Option<Row>, x: Slot, ws: seq<LogRec>)
    requires ChainVal(v, ws).Some? && ws != []
    requires HasLive(ws) || x.alive == v.Some?
    ensures Val(UndoAll(x, ws)) == v
    decreases |ws|
  {
    HasLiveCons(ws);
    var v1, tl := StepVal(v, ws[0]).value, ws[1..];
    if tl == [] {
      assert UndoAll(x, tl) == x;
    } else if HasLive(tl) || x.alive == v1.Some? {
      UndoVal(v1, x, tl);
    } else {
      // Only updates follow, so the slot was alive after ws[0], which must be an insert.
      assert tl[0].LogUpdate?;
      assert v1.Some?;
    }
  }

  lemma {:induction false} UndoAlive(x: Slot, ws: seq<LogRec>)
    requires !HasLive(ws)
    ensures UndoAll(x, ws).alive == x.alive
    decreases |ws|
  {
    if ws != [] {
      HasLiveCons(ws);
      UndoAlive(x, ws[1..]);
    }
  }

  lemma {:induction false} RedoAlive(x: Slot, ws: seq<LogRec>)
    requires !HasLive(ws)
    ensures RedoAll(x, ws).alive == x.alive
    decreases |ws|
  {
    if ws != [] {
      HasLiveCons(ws);
      RedoAlive(Redo1(x, ws[0]), ws[1..]);
    }
  }

  /** Redo of the committed writes and undo of the loser's gives the committed value if and
      only if the slot on disk is good. */
  lemma SlotRecovered(b: Slot, cs: seq<LogRec>, ls: seq<LogRec>, x: Slot)
    requires ChainVal(Val(b), cs).Some? && ChainVal(ChainVal(Val(b), cs).value, ls).Some?
    ensures Val(UndoAll(RedoAll(x, cs), ls)) == ChainVal(Val(b), cs).value <==> Good(b, cs + ls, x)
  {
    HasLiveAppend(cs, ls);
    RedoVal(Val(b), x, cs);
    if Good(b, cs + ls, x) {
      if ls != [] {
        UndoVal(ChainVal(Val(b), cs).value, RedoAll(x, cs), ls);
      } else {
        assert cs + ls == cs;
      }
    } else if !HasLive(cs + ls) {
      RedoAlive(x, cs);
      UndoAlive(RedoAll(x, cs), ls);
    }
  }

  // ---------- the whole disk, place by place ----------

  lemma {:induction false} RedoProj(d: Disk, all: seq<LogRec>, lg: seq<LogRec>, a: Addr)
    ensures SlotAt(Redo(d, all, lg), a) == RedoAll(SlotAt(d, a), Winners(all, Proj(lg, a)))
    decreases |lg|
  {
    if lg != [] {
      var m := if CommittedIn(all, lg[0].tx) then RedoRec(d, lg[0]) else d;
      RedoProj(m, all, lg[1..], a);
      var ws, tl := Proj(lg, a), Proj(lg[1..], a);
      if IsRow(lg[0]) && AddrOf(lg[0]) == a {
        assert ws[0] == lg[0] && ws[1..] == tl;
        if CommittedIn(all, lg[0].tx) {
          assert Winners(all, ws)[0] == lg[0] && Winners(all, ws)[1..] == Winners(all, tl);
        } else {
          assert Winners(all, ws) == [] + Winners(all, tl) == Winners(all, tl);
        }
      } else {
        assert ws == tl;
      }
    }
  }

  lemma {:induction false} UndoProj(d: Disk, all: seq<LogRec>, lg: seq<LogRec>, a: Addr)
    ensures SlotAt(Undo(d, all, lg), a) == UndoAll(SlotAt(d, a), Losers(all, Proj(lg, a)))
    decreases |lg|
  {
    if lg != [] {
      UndoProj(d, all, lg[1..], a);
      var ws, tl := Proj(lg, a), Proj(lg[1..], a);
      if IsRow(lg[0]) && AddrOf(lg[0]) == a {
        assert ws[0] == lg[0] && ws[1..] == tl;
        if Loser(all, lg[0].tx) {
          assert Losers(all, ws)[0] == lg[0] && Losers(all, ws)[1..] == Losers(all, tl);
        } else {
          assert Losers(all, ws) == [] + Losers(all, tl) == Losers(all, tl);
        }
      } else {
        assert ws == tl;
      }
    }
  }

  /** The records of committed transactions. */
  function Winners(all: seq<LogRec>, ws: seq<LogRec>): seq<LogRec> {
    if ws == [] then []
    else (if CommittedIn(all, ws[0].tx) then [ws[0]] else []) + Winners(all, ws[1..])
  }

  function Losers(all: seq<LogRec>, ws: seq<LogRec>): seq<LogRec> {
    if ws == [] then []
    else (if Loser(all, ws[0].tx) then [ws[0]] else []) + Losers(all, ws[1..])
  }

  lemma {:induction false} WinnersAll(all: seq<LogRec>, ws: seq<LogRec>)
    requires forall i :: 0 <= i < |ws| ==> CommittedIn(all, ws[i].tx)
    ensures Winners(all, ws) == ws && Losers(all, ws) == []
    decreases |ws|
  {
    if ws != [] { WinnersAll(all, ws[1..]); }
  }

  lemma {:induction false} LosersAll(all: seq<LogRec>, ws: seq<LogRec>)
    requires forall i :: 0 <= i < |ws| ==> Loser(all, ws[i].tx)
    ensures Winners(all, ws) == [] && Losers(all, ws) == ws
    decreases |ws|
  {
    if ws != [] { LosersAll(all, ws[1..]); }
  }

  lemma {:induction false} WinnersAppend(all: seq<LogRec>, a: seq<LogRec>, b: seq<LogRec>)
    ensures Winners(all, a + b) == Winners(all, a) + Winners(all, b)
    ensures Losers(all, a + b) == Losers(all, a) + Losers(all, b)
    decreases |a|
  {
    if a == [] {
      assert a + b == b;
    } else {
      hide CommittedIn, Loser;
      assert (a + b)[1..] == a[1..] + b;
      WinnersAppend(all, a[1..], b);
      var w := if CommittedIn(all, a[0].tx) then [a[0]] else [];
      var l := if Loser(all, a[0].tx) then [a[0]] else [];
      assert w + (Winners(all, a[1..]) + Winners(all, b)) == (w + Winners(all, a[1..])) + Winners(all, b);
      assert l + (Losers(all, a[1..]) + Losers(all, b)) == (l + Losers(all, a[1..])) + Losers(all, b);
    }
  }

  // ---------- logs that recovery can rely on ----------

  /** The log of place a is a run of committed writes followed by writes of losers, and
      the records fit each other, starting from the value v0 and with the value com
      after the committed part. */
  ghost predicate PlaceOk(lg: seq<LogRec>, a: Addr, v0: Option<Row>, com: Option<Row>) {
    exists n :: Split(lg, a, v0, com, n)
  }

  ghost predicate Split(lg: seq<LogRec>, a: Addr, v0: Option<Row>, com: Option<Row>, n: int) {
    var ws := Proj(lg, a);
    0 <= n <= |ws|
    && (forall i :: 0 <= i < n ==> CommittedIn(lg, ws[i].tx))
    && (forall i :: n <= i < |ws| ==> Loser(lg, ws[i].tx))
    && ChainVal(v0, ws[..n]) == Some(com) && ChainVal(com, ws[n..]).Some?
  }

  /** A disk that a crash may leave: each slot, independently, in any good state. */
  ghost predicate CrashDisk(b: Disk, lg: seq<LogRec>, d: Disk) {
    forall a :: Good(SlotAt(b, a), Proj(lg, a), SlotAt(d, a))
  }

  /** Recovery brings a place to its committed value if and only if its slot is good. */
  lemma RecoverPlace(b: Disk, lg: seq<LogRec>, d: Disk, a: Addr, com: Option<Row>)
    requires PlaceOk(lg, a, Val(SlotAt(b, a)), com)
    ensures Val(SlotAt(Recover(d, lg), a)) == com <==> Good(SlotAt(b, a), Proj(lg, a), SlotAt(d, a))
  {
    hide Recover, Good, Redo, Undo, RedoAll, UndoAll, Winners, Losers;
    var ws := Proj(lg, a);
    var n :| Split(lg, a, Val(SlotAt(b, a)), com, n);
    var cs, ls := ws[..n], ws[n..];
    assert ws == cs + ls;
    WinnersAll(lg, cs);
    LosersAll(lg, ls);
    WinnersAppend(lg, cs, ls);
    assert cs + [] == cs && [] + ls == ls;
    RecoveredSlot(d, lg, a);
    SlotRecovered(SlotAt(b, a), cs, ls, SlotAt(d, a));
  }

  /** What recovery makes of any slot, whatever the log. */
  lemma RecoveredSlot(d: Disk, lg: seq<LogRec>, a: Addr)
    ensures SlotAt(Recover(d, lg), a)
         == UndoAll(RedoAll(SlotAt(d, a), Winners(lg, Proj(lg, a))), Losers(lg, Proj(lg, a)))
  {
    RedoProj(d, lg, lg, a);
    UndoProj(Redo(d, lg, lg), lg, lg, a);
  }

  // ---------- steal / no-force ----------

  /** Steal and no-force: each slot holds the effect of some prefix of its logged writes. */
  ghost predicate PrefixDisk(b: Disk, lg: seq<LogRec>, d: Disk) {
    forall a :: OnPrefix(SlotAt(b, a), Proj(lg, a), SlotAt(d, a))
  }

  ghost predicate OnPrefix(b: Slot, ws: seq<LogRec>, x: Slot) {
    exists n :: 0 <= n <= |ws| && x == RedoAll(b, ws[..n])
  }

  /** Every such disk is one that recovery can deal with. */
  lemma PrefixIsCrashDisk(b: Disk, lg: seq<LogRec>, d: Disk)
    requires PrefixDisk(b, lg, d)
    ensures CrashDisk(b, lg, d)
  {
    forall a
      ensures Good(SlotAt(b, a), Proj(lg, a), SlotAt(d, a))
    {
      var ws := Proj(lg, a);
      assert OnPrefix(SlotAt(b, a), ws, SlotAt(d, a));
      var n :| 0 <= n <= |ws| && SlotAt(d, a) == RedoAll(SlotAt(b, a), ws[..n]);
      assert ws == ws[..n] + ws[n..];
      HasLiveAppend(ws[..n], ws[n..]);
      if !HasLive(ws) { RedoAlive(SlotAt(b, a), ws[..n]); }
    }
  }

  // ---------- recovery can be interrupted ----------

  /** One step of recovery: a record is redone or undone. */
  datatype RecStep = DoRedo(rec: LogRec) | DoUndo(rec: LogRec)

  function ApplyStep(d: Disk, s: RecStep): Disk {
    match s
    case DoRedo(r) => RedoRec(d, r)
    case DoUndo(r) => UndoRec(d, r)
  }

  function ApplySteps(d: Disk, ss: seq<RecStep>): Disk {
    if ss == [] then d else ApplyStep(ApplySteps(d, ss[..|ss| - 1]), ss[|ss| - 1])
  }

  function RedoSteps(all: seq<LogRec>, lg: seq<LogRec>): seq<RecStep> {
    if lg == [] then []
    else (if CommittedIn(all, lg[0].tx) then [DoRedo(lg[0])] else []) + RedoSteps(all, lg[1..])
  }

  function UndoSteps(all: seq<LogRec>, lg: seq<LogRec>): seq<RecStep> {
    if lg == [] then []
    else UndoSteps(all, lg[1..]) + if Loser(all, lg[0].tx) then [DoUndo(lg[0])] else []
  }

  function RecoverySteps(lg: seq<LogRec>): seq<RecStep> {
    RedoSteps(lg, lg) + UndoSteps(lg, lg)
  }

  lemma {:induction false} ApplyAppend(d: Disk, a: seq<RecStep>, b: seq<RecStep>)
    ensures ApplySteps(d, a + b) == ApplySteps(ApplySteps(d, a), b)
    decreases |b|
  {
    if b == [] {
      assert a + b == a;
    } else {
      assert (a + b)[..|a + b| - 1] == a + b[..|b| - 1];
      ApplyAppend(d, a, b[..|b| - 1]);
    }
  }

  lemma ApplyOne(d: Disk, s: RecStep)
    ensures ApplySteps(d, [s]) == ApplyStep(d, s) && ApplySteps(d, []) == d
  {
    assert [s][..0] == [];
  }

  lemma {:induction false} RedoIsSteps(d: Disk, all: seq<LogRec>, lg: seq<LogRec>)
    ensures Redo(d, all, lg) == ApplySteps(d, RedoSteps(all, lg))
    decreases |lg|
  {
    if lg != [] {
      var hd := if CommittedIn(all, lg[0].tx) then [DoRedo(lg[0])] else [];
      var m := if CommittedIn(all, lg[0].tx) then RedoRec(d, lg[0]) else d;
      ApplyOne(d, DoRedo(lg[0]));
      ApplyAppend(d, hd, RedoSteps(all, lg[1..]));
      RedoIsSteps(m, all, lg[1..]);
    }
  }

  lemma {:induction false} UndoIsSteps(d: Disk, all: seq<LogRec>, lg: seq<LogRec>)
    ensures Undo(d, all, lg) == ApplySteps(d, UndoSteps(all, lg))
    decreases |lg|
  {
    if lg != [] {
      UndoIsSteps(d, all, lg[1..]);
      var tl := UndoSteps(all, lg[1..]);
      if Loser(all, lg[0].tx) {
        ApplyOne(ApplySteps(d, tl), DoUndo(lg[0]));
        ApplyAppend(d, tl, [DoUndo(lg[0])]);
      } else {
        assert tl + [] == tl;
      }
    }
  }

  /** Recovery is the sequence of these steps. */
  lemma RecoverIsSteps(d: Disk, lg: seq<LogRec>)
    ensures Recover(d, lg) == ApplySteps(d, RecoverySteps(lg))
  {
    RedoIsSteps(d, lg, lg);
    UndoIsSteps(Redo(d, lg, lg), lg, lg);
    ApplyAppend(d, RedoSteps(lg, lg), UndoSteps(lg, lg));
  }

  ghost predicate StepsFrom(lg: seq<LogRec>, ss: seq<RecStep>) {
    forall i :: 0 <= i < |ss| ==> ss[i].rec in lg
  }

  lemma {:induction false} StepsAreLogged(all: seq<LogRec>, lg: seq<LogRec>)
    ensures StepsFrom(lg, RedoSteps(all, lg)) && StepsFrom(lg, UndoSteps(all, lg))
    decreases |lg|
  {
    if lg != [] { StepsAreLogged(all, lg[1..]); }
  }

  lemma {:induction false} ProjHas(lg: seq<LogRec>, r: LogRec)
    requires r in lg && IsRow(r)
    ensures r in Proj(lg, AddrOf(r))
    decreases |lg|
  {
    if lg[0] != r { ProjHas(lg[1..], r); }
  }

  /** A step writes an absolute value, and a crash disk stays a crash disk. */
  lemma StepKeepsGood(b: Disk, lg: seq<LogRec>, d: Disk, s: RecStep, a: Addr)
    requires Good(SlotAt(b, a), Proj(lg, a), SlotAt(d, a)) && s.rec in lg
    ensures Good(SlotAt(b, a), Proj(lg, a), SlotAt(ApplyStep(d, s), a))
  {
    if IsRow(s.rec) && AddrOf(s.rec) == a {
      ProjHas(lg, s.rec);
      var ws := Proj(lg, a);
      var i :| 0 <= i < |ws| && ws[i] == s.rec;
      assert !ws[i].LogUpdate? ==> HasLive(ws);
    }
  }

  lemma {:induction false} StepsKeepGood(b: Disk, lg: seq<LogRec>, d: Disk, ss: seq<RecStep>, a: Addr)
    requires Good(SlotAt(b, a), Proj(lg, a), SlotAt(d, a)) && StepsFrom(lg, ss)
    ensures Good(SlotAt(b, a), Proj(lg, a), SlotAt(ApplySteps(d, ss), a))
    decreases |ss|
  {
    if ss != [] {
      var was := ss[..|ss| - 1];
      assert forall i :: 0 <= i < |was| ==> was[i] == ss[i];
      StepsKeepGood(b, lg, d, was, a);
      StepKeepsGood(b, lg, ApplySteps(d, was), ss[|ss| - 1], a);
    }
  }

  /** A disk left by a crash during recovery: each slot, independently, holds the effect
      of some prefix of the recovery steps. */
  ghost predicate Interrupted(lg: seq<LogRec>, d: Disk, d': Disk) {
    var ss := RecoverySteps(lg);
    forall a :: exists n :: 0 <= n <= |ss| && SlotAt(d', a) == SlotAt(ApplySteps(d, ss[..n]), a)
  }

  lemma InterruptedIsCrashDisk(b: Disk, lg: seq<LogRec>, d: Disk, d': Disk)
    requires CrashDisk(b, lg, d) && Interrupted(lg, d, d')
    ensures CrashDisk(b, lg, d')
  {
    StepsAreLogged(lg, lg);
    var ss := RecoverySteps(lg);
    assert StepsFrom(lg, ss);
    forall a
      ensures Good(SlotAt(b, a), Proj(lg, a), SlotAt(d', a))
    {
      var n :| 0 <= n <= |ss| && SlotAt(d', a) == SlotAt(ApplySteps(d, ss[..n]), a);
      assert Good(SlotAt(b, a), Proj(lg, a), SlotAt(d, a));
      assert forall i :: 0 <= i < n ==> ss[..n][i] == ss[i];
      StepsKeepGood(b, lg, d, ss[..n], a);
    }
  }

  /** Recovery is restartable: interrupted anywhere and started again on the same log, it
      gives every place the value of an uninterrupted recovery. */
  lemma Restartable(b: Disk, lg: seq<LogRec>, d: Disk, d': Disk, a: Addr, com: Option<Row>)
    requires CrashDisk(b, lg, d) && Interrupted(lg, d, d') && PlaceOk(lg, a, Val(SlotAt(b, a)), com)
    ensures Val(SlotAt(Recover(d', lg), a)) == Val(SlotAt(Recover(d, lg), a))
  {
    hide Good, Recover, Proj;
    InterruptedIsCrashDisk(b, lg, d, d');
    assert Good(SlotAt(b, a), Proj(lg, a), SlotAt(d, a)) && Good(SlotAt(b, a), Proj(lg, a), SlotAt(d', a));
    RecoverPlace(b, lg, d, a, com);
    RecoverPlace(b, lg, d', a, com);
  }
}
