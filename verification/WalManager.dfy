/** The write-ahead log and the loops that recover from it. */
module WalManager {
  import opened Common
  import opened TxMachine
  import opened Recovery

  // ---------- recovery that stops at a table it does not know ----------

  predicate Runs(s: RecStep, tables: set<string>) {
    IsRow(s.rec) ==> s.rec.table in tables
  }

  /** How many steps come before the first one whose table is not registered. */
  function Reached(ss: seq<RecStep>, tables: set<string>): (n: nat)
    ensures n <= |ss|
    ensures forall i :: 0 <= i < n ==> Runs(ss[i], tables)
    ensures n < |ss| ==> !Runs(ss[n], tables)
  {
    if ss == [] || !Runs(ss[0], tables) then 0 else 1 + Reached(ss[1..], tables)
  }

  /** Every record that must be redone or undone names a registered table. */
  ghost predicate AllKnown(lg: seq<LogRec>, tables: set<string>) {
    forall i :: 0 <= i < |lg| && IsRow(lg[i]) && !AbortedOnly(lg, lg[i].tx) ==> lg[i].table in tables
  }

  predicate AbortedOnly(lg: seq<LogRec>, tx: int) { AbortedIn(lg, tx) && !CommittedIn(lg, tx) }

  lemma {:induction false} RedoStepsHave(all: seq<LogRec>, lg: seq<LogRec>, r: LogRec)
    ensures DoRedo(r) in RedoSteps(all, lg) <==> r in lg && CommittedIn(all, r.tx)
    ensures DoUndo(r) !in RedoSteps(all, lg)
    ensures DoUndo(r) in UndoSteps(all, lg) <==> r in lg && Loser(all, r.tx)
    ensures DoRedo(r) !in UndoSteps(all, lg)
    decreases |lg|
  {
    if lg != [] {
      RedoStepsHave(all, lg[1..], r);
      assert r in lg <==> r == lg[0] || r in lg[1..];
    }
  }

  /** Recovery gets to its end exactly if all records to redo or undo name registered
      tables; with an empty registry it does so only if there is no such record. */
  lemma RecoveryCompletes(lg: seq<LogRec>, tables: set<string>)
    ensures Reached(RecoverySteps(lg), tables) == |RecoverySteps(lg)| <==> AllKnown(lg, tables)
    ensures AllKnown(lg, {}) <==> forall r :: r in lg && IsRow(r) ==> AbortedOnly(lg, r.tx)
  {
    var ss := RecoverySteps(lg);
    forall r
      ensures DoRedo(r) in ss <==> r in lg && CommittedIn(lg, r.tx)
      ensures DoUndo(r) in ss <==> r in lg && Loser(lg, r.tx)
    {
      RedoStepsHave(lg, lg, r);
    }
    if Reached(ss, tables) == |ss| {
      forall i | 0 <= i < |lg| && IsRow(lg[i]) && !AbortedOnly(lg, lg[i].tx)
        ensures lg[i].table in tables
      {
        var s := if CommittedIn(lg, lg[i].tx) then DoRedo(lg[i]) else DoUndo(lg[i]);
        assert s in ss;
      }
    } else {
      var s := ss[Reached(ss, tables)];
      assert s in ss && s == if s.DoRedo? then DoRedo(s.rec) else DoUndo(s.rec);
    }
  }

  lemma {:induction false} RedoStepsMore(all: seq<LogRec>, lg: seq<LogRec>, i: nat)
    requires i < |lg|
    ensures RedoSteps(all, lg[..i + 1])
         == RedoSteps(all, lg[..i]) + if CommittedIn(all, lg[i].tx) then [DoRedo(lg[i])] else []
    ensures !CommittedIn(all, lg[i].tx) ==> RedoSteps(all, lg[..i + 1]) == RedoSteps(all, lg[..i])
    decreases i
  {
    hide CommittedIn;
    if i == 0 {
      assert lg[..1][1..] == [];
    } else {
      assert lg[..i + 1][1..] == lg[1..][..i] && lg[..i][1..] == lg[1..][..i - 1];
      RedoStepsMore(all, lg[1..], i - 1);
    }
  }

  /** One more step that runs, and the state after it. */
  lemma StepRuns(d: Disk, tables: set<string>, ss: seq<RecStep>, done: seq<RecStep>, s: RecStep, rest: seq<RecStep>)
    requires ss == done + [s] + rest && Reached(ss, tables) >= |done|
    ensures Runs(s, tables) ==> Reached(ss, tables) >= |done| + 1
    ensures !Runs(s, tables) ==> Reached(ss, tables) == |done| && ss[..Reached(ss, tables)] == done
    ensures ApplySteps(d, done + [s]) == ApplyStep(ApplySteps(d, done), s)
  {
    assert ss[|done|] == s;
    assert (done + [s])[..|done|] == done;
  }

  // ---------- the storage engine's part ----------

  /** The slots of all tables.  Like tables_.at, each call fails on an unknown table. */
  class Storage {
    var disk: Disk
    var tables: set<string>

    constructor (d: Disk, registered: set<string>)
      ensures disk == d && tables == registered
    {
      disk, tables := d, registered;
    }

    method RedoInsert(table: string, rid: RecordID, values: Row) returns (ok: bool)
      modifies this`disk
      ensures ok == (table in tables)
      ensures disk == if ok then old(disk)[(table, rid) := Slot(true, values)] else old(disk)
    {
      if table !in tables { return false; }
      disk := disk[(table, rid) := Slot(true, values)];
      return true;
    }

    method RedoDelete(table: string, rid: RecordID) returns (ok: bool)
      modifies this`disk
      ensures ok == (table in tables)
      ensures disk == if ok then old(disk)[(table, rid) := SlotAt(old(disk), (table, rid)).(alive := false)]
                else old(disk)
    {
      if table !in tables { return false; }
      disk := disk[(table, rid) := SlotAt(disk, (table, rid)).(alive := false)];
      return true;
    }

    method RedoUpdate(table: string, rid: RecordID, values: Row) returns (ok: bool)
      modifies this`disk
      ensures ok == (table in tables)
      ensures disk == if ok then old(disk)[(table, rid) := SlotAt(old(disk), (table, rid)).(data := values)]
                else old(disk)
    {
      if table !in tables { return false; }
      disk := disk[(table, rid) := SlotAt(disk, (table, rid)).(data := values)];
      return true;
    }
  }

  // ---------- the log manager ----------

  class WALManager {
    var file: seq<LogRec>
    var buffer: seq<LogRec>
    var failed: bool

    /** All that was logged, in the file or still in the stream's buffer. */
    function Log(): seq<LogRec>
      reads this
    {
      file + buffer
    }

    constructor (found: seq<LogRec>)
      ensures file == found && buffer == [] && !failed
    {
      file, buffer, failed := found, [], false;
    }

    /** One line is appended to the stream, unless the stream has failed. */
    method Append(r: LogRec)
      modifies this`buffer
      ensures buffer == if failed then old(buffer) else old(buffer) + [r]
    {
      if !failed { buffer := buffer + [r]; }
    }

    method Flush()
      modifies this`file, this`buffer
      ensures Log() == old(Log()) && (!failed ==> buffer == [])
      ensures failed ==> file == old(file)
    {
      if !failed { file, buffer := file + buffer, []; }
    }

    method RedoOne(storage: Storage, rec: LogRec) returns (ok: bool)
      modifies storage`disk
      ensures ok == Runs(DoRedo(rec), storage.tables)
      ensures storage.disk == if ok then RedoRec(old(storage.disk), rec) else old(storage.disk)
    {
      match rec
      case LogInsert(_, t, rid, v) => ok := storage.RedoInsert(t, rid, v);
      case LogDelete(_, t, rid, _) => ok := storage.RedoDelete(t, rid);
      case LogUpdate(_, t, rid, _, v) => ok := storage.RedoUpdate(t, rid, v);
      case _ => ok := true;
    }

    method UndoOne(storage: Storage, rec: LogRec) returns (ok: bool)
      modifies storage`disk
      ensures ok == Runs(DoUndo(rec), storage.tables)
      ensures storage.disk == if ok then UndoRec(old(storage.disk), rec) else old(storage.disk)
    {
      match rec
      case LogInsert(_, t, rid, _) => ok := storage.RedoDelete(t, rid);
      case LogDelete(_, t, rid, v) => ok := storage.RedoInsert(t, rid, v);
      case LogUpdate(_, t, rid, v, _) => ok := storage.RedoUpdate(t, rid, v);
      case _ => ok := true;
    }

    /** Pass 1: who committed, who aborted. */
    method Analyse(records: seq<LogRec>) returns (committed: set<int>, aborted: set<int>)
      ensures forall t :: t in committed <==> LogCommit(t) in records
      ensures forall t :: t in aborted <==> LogAbort(t) in records
    {
      committed, aborted := {}, {};
      for i := 0 to |records|
        invariant forall t :: t in committed <==> LogCommit(t) in records[..i]
        invariant forall t :: t in aborted <==> LogAbort(t) in records[..i]
      {
        assert records[..i + 1] == records[..i] + [records[i]];
        if records[i].LogCommit? { committed := committed + {records[i].tx}; }
        if records[i].LogAbort? { aborted := aborted + {records[i].tx}; }
      }
      assert records[..|records|] == records;
    }

    /** Pass 2: forwards. */
    method RedoPass(storage: Storage, records: seq<LogRec>, committed: set<int>) returns (ok: bool)
      requires forall t :: t in committed <==> CommittedIn(records, t)
      modifies storage`disk
      ensures Progress(old(storage.disk), storage.disk, records, storage.tables, RedoSteps(records, records), ok)
    {
      hide Redo, Undo, RedoSteps, Runs, Reached, CommittedIn;
      ghost var d, tables, ss := storage.disk, storage.tables, RecoverySteps(records);
      RedoNothing(records);
      for i := 0 to |records|
        invariant storage.disk == ApplySteps(d, RedoSteps(records, records[..i]))
        invariant RedoSteps(records, records[..i]) <= ss && Reached(ss, tables) >= |RedoSteps(records, records[..i])|
      {
        RedoStepsMore(records, records, i);
        if records[i].tx !in committed { continue; }
        ghost var done := RedoSteps(records, records[..i]);
        RedoPrefix(records, i + 1);
        assert ss == done + [DoRedo(records[i])] + ss[|done| + 1..];
        StepRuns(d, tables, ss, done, DoRedo(records[i]), ss[|done| + 1..]);
        ok := RedoOne(storage, records[i]);
        if !ok { return; }
      }
      return true;
    }

    /** Pass 3: backwards, whatever neither committed nor aborted. */
    method UndoPass(storage: Storage, records: seq<LogRec>, committed: set<int>, aborted: set<int>, ghost d: Disk)
      returns (ok: bool)
      requires forall t :: t in committed <==> CommittedIn(records, t)
      requires forall t :: t in aborted <==> AbortedIn(records, t)
      requires Progress(d, storage.disk, records, storage.tables, RedoSteps(records, records), true)
      modifies storage`disk
      ensures Progress(d, storage.disk, records, storage.tables, RecoverySteps(records), ok)
    {
      hide Redo, Undo, RedoSteps, Runs, Reached, CommittedIn, AbortedIn;
      ghost var tables, ss, redone := storage.tables, RecoverySteps(records), RedoSteps(records, records);
      var j := |records|;
      UndoNothing(records);
      while j > 0
        invariant 0 <= j <= |records|
        invariant storage.disk == ApplySteps(d, redone + UndoSteps(records, records[j..]))
        invariant redone + UndoSteps(records, records[j..]) <= ss
        invariant Reached(ss, tables) >= |redone + UndoSteps(records, records[j..])|
      {
        j := j - 1;
        UndoStepsMore(records, j);
        if records[j].tx in committed || records[j].tx in aborted { continue; }
        ghost var done := redone + UndoSteps(records, records[j + 1..]);
        UndoPrefix(records, j);
        assert done + [DoUndo(records[j])] == redone + UndoSteps(records, records[j..]);
        assert ss == done + [DoUndo(records[j])] + ss[|done| + 1..];
        StepRuns(d, tables, ss, done, DoUndo(records[j]), ss[|done| + 1..]);
        ok := UndoOne(storage, records[j]);
        if !ok { return; }
      }
      assert records[0..] == records;
      return true;
    }

    /** Redo forwards, undo backwards, truncate.  An unknown table ends it (the source
        throws): the steps before it are done, and the log is kept.

        Opening the stream again without closing it makes it fail, so a manager that has
        recovered logs nothing more. */
    method Recover(storage: Storage) returns (ok: bool)
      modifies this, storage`disk
      ensures ok <==> AllKnown(old(file), storage.tables)
      ensures ok ==> storage.disk == Recovery.Recover(old(storage.disk), old(file)) && file == [] && failed
      ensures !ok ==>
                var ss := RecoverySteps(old(file));
                Reached(ss, storage.tables) < |ss|
                && storage.disk == ApplySteps(old(storage.disk), ss[..Reached(ss, storage.tables)])
      ensures !ok ==> file == old(file) && failed == old(failed)
      ensures buffer == old(buffer)
    {
      hide Redo, Undo, RedoSteps, UndoSteps, Runs, AllKnown, AbortedOnly, Reached;
      ghost var d := storage.disk;
      RecoveryCompletes(file, storage.tables);
      RecoverIsSteps(d, file);
      UndoNothing(file);
      var committed, aborted := Analyse(file);
      ok := RedoPass(storage, file, committed);
      if !ok { return; }
      ok := UndoPass(storage, file, committed, aborted, d);
      if ok { file, failed := [], true; }
    }
  }

  /** What the engine's constructor does: recover before any table is registered.  It gets
      through only if nothing has to be redone or undone; and then the first records that
      a transaction logs are lost, even its COMMIT. */
  method StartEngine(found: seq<LogRec>, d: Disk, logged: LogRec) returns (ok: bool, wal: WALManager)
    ensures ok <==> forall r :: r in found && IsRow(r) ==> AbortedOnly(found, r.tx)
    ensures ok ==> wal.Log() == [] && wal.file == []
    ensures !ok ==> wal.file == found
  {
    wal := new WALManager(found);
    var storage := new Storage(d, {});
    RecoveryCompletes(found, {});
    ok := wal.Recover(storage);
    if ok {
      wal.Append(logged);
      wal.Flush();
    }
  }

  /** The steps `to` of a recovery are done, or it stopped at the first that cannot run. */
  ghost predicate Progress(d: Disk, d': Disk, lg: seq<LogRec>, tables: set<string>, to: seq<RecStep>, ok: bool) {
    var ss := RecoverySteps(lg);
    if ok then to <= ss && Reached(ss, tables) >= |to| && d' == ApplySteps(d, to)
    else Reached(ss, tables) < |ss| && d' == ApplySteps(d, ss[..Reached(ss, tables)])
  }

  lemma UndoStepsMore(lg: seq<LogRec>, j: nat)
    requires j < |lg|
    ensures UndoSteps(lg, lg[j..])
         == UndoSteps(lg, lg[j + 1..]) + if Loser(lg, lg[j].tx) then [DoUndo(lg[j])] else []
    ensures CommittedIn(lg, lg[j].tx) || AbortedIn(lg, lg[j].tx) ==>
              UndoSteps(lg, lg[j..]) == UndoSteps(lg, lg[j + 1..])
  {
    assert lg[j..][1..] == lg[j + 1..];
  }

  lemma RedoNothing(lg: seq<LogRec>)
    ensures RedoSteps(lg, lg[..0]) == [] && lg[..|lg|] == lg
  {
  }

  lemma UndoNothing(lg: seq<LogRec>)
    ensures UndoSteps(lg, lg[|lg|..]) == []
    ensures RedoSteps(lg, lg) + UndoSteps(lg, lg[|lg|..]) == RedoSteps(lg, lg)
    ensures RedoSteps(lg, lg) <= RecoverySteps(lg)
  {
  }

  lemma {:induction false} RedoPrefix(lg: seq<LogRec>, i: nat)
    requires i <= |lg|
    ensures RedoSteps(lg, lg[..i]) <= RecoverySteps(lg)
    decreases |lg| - i
  {
    if i == |lg| {
      assert lg[..i] == lg;
    } else {
      RedoPrefix(lg, i + 1);
      RedoStepsMore(lg, lg, i);
    }
  }

  lemma {:induction false} UndoPrefix(lg: seq<LogRec>, j: nat)
    requires j <= |lg|
    ensures RedoSteps(lg, lg) + UndoSteps(lg, lg[j..]) <= RecoverySteps(lg)
    decreases j
  {
    if j == 0 {
      assert lg[0..] == lg;
    } else {
      UndoPrefix(lg, j - 1);
      assert lg[j - 1..][1..] == lg[j..];
      assert UndoSteps(lg, lg[j..]) <= UndoSteps(lg, lg[j - 1..]);
    }
  }
}
