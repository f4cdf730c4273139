/** Transactions as one step machine: begin, locked reads and writes that append to the
    log, commit (log, flush, mark, release), rollback.

    Every step is an event that records what the step returned or read, so that "the same
    reads" can be asked of a serial execution.  A step of a method that holds its latch is
    atomic.  The several steps of COMMIT are one event: a crash between them leaves the
    same log prefix as a crash before or after it. */
module TxMachine {
  import opened Common
  import opened LockManager
  import opened TransactionManager

  /** A table: its live rows and its primary-key index. */
  datatype Table = Table(rows: map<RecordID, Row>, index: map<int, RecordID>)

  /** All registered tables. */
  type Data = map<string, Table>

  datatype LogRec =
    | LogInsert(tx: int, table: string, rid: RecordID, new_: Row)
    | LogDelete(tx: int, table: string, rid: RecordID, old_: Row)
    | LogUpdate(tx: int, table: string, rid: RecordID, old_: Row, new_: Row)
    | LogCommit(tx: int)
    | LogAbort(tx: int)

  /** What an index lookup found: nothing, or a row at some place. */
  datatype Hit = Miss | At(rid: RecordID, row: Row)

  datatype Event =
    | Begin(tx: int)
    | Scan(tx: int, table: string, rows: map<RecordID, Row>)
    | Insert(tx: int, table: string, pk: Option<int>, rid: RecordID, row: Row)
    | Delete(tx: int, table: string, key: int, hit: Hit)
    | Update(tx: int, table: string, key: int, hit: Hit, row: Row)
    | Failed(tx: int, table: string)
    | Conflict(tx: int, table: string)
    | Commit(tx: int)
    | Rollback(tx: int)

  type History = seq<Event>

  datatype State = State(data: Data, locks: LockTable, next: int, txs: TxTable, log: seq<LogRec>, flushed: nat)

  // ---------- one operation on the data alone ----------

  predicate IsOp(e: Event) { e.Scan? || IsWrite(e) }

  predicate IsWrite(e: Event) { e.Insert? || e.Delete? || e.Update? || e.Failed? }

  /** The row that the index leads to.  None: the index names a slot without a live row. */
  function Lookup(t: Table, key: int): Option<Hit> {
    if key !in t.index then Some(Miss)
    else if t.index[key] !in t.rows then None
    else Some(At(t.index[key], t.rows[t.index[key]]))
  }

  /** Run one operation on a table, provided that it returns what the event recorded. */
  function RunOnTable(t: Table, e: Event): Option<Table>
    requires IsOp(e)
  {
    match e
    case Scan(_, _, rows) => if rows == t.rows then Some(t) else None
    case Insert(_, _, key, rid, row) =>
      if rid in t.rows then None
      else Some(Table(t.rows[rid := row], if key.Some? then t.index[key.value := rid] else t.index))
    case Delete(_, _, key, hit) =>
      if Lookup(t, key) != Some(hit) then None
      else (match hit
            case Miss => Some(t)
            case At(rid, _) => Some(Table(t.rows - {rid}, t.index - {key})))
    case Update(_, _, key, hit, row) =>
      if Lookup(t, key) != Some(hit) then None
      else (match hit
            case Miss => Some(t)
            case At(rid, _) => Some(t.(rows := t.rows[rid := row])))
    case Failed(_, _) => Some(t)
  }

  function RunOp(d: Data, e: Event): Option<Data>
    requires IsOp(e)
  {
    if e.table !in d then None
    else match RunOnTable(d[e.table], e)
      case None => None
      case Some(t) => Some(d[e.table := t])
  }

  /** Run operations one after the other, without locks; each must return what it recorded. */
  function RunOps(d: Data, es: History): Option<Data>
    requires forall i :: 0 <= i < |es| ==> IsOp(es[i])
  {
    if es == [] then Some(d)
    else match RunOps(d, es[..|es| - 1])
      case None => None
      case Some(m) => RunOp(m, es[|es| - 1])
  }

  // ---------- steps ----------

  predicate Active(s: State, tx: int) { tx in s.txs && s.txs[tx] == ACTIVE }

  predicate LockFree(s: State, e: Event)
    requires IsOp(e)
  {
    if e.Scan? then CanShare(s.locks, e.tx, e.table) else CanOwn(s.locks, e.tx, e.table)
  }

  function Locked(s: State, e: Event): LockTable
    requires IsOp(e)
  {
    if e.Scan? then Shared(s.locks, e.tx, e.table) else Owned(s.locks, e.tx, e.table)
  }

  function Logged(e: Event): seq<LogRec> {
    match e
    case Insert(tx, table, _, rid, row) => [LogInsert(tx, table, rid, row)]
    case Delete(tx, table, _, At(rid, row)) => [LogDelete(tx, table, rid, row)]
    case Update(tx, table, _, At(rid, row), new_) => [LogUpdate(tx, table, rid, row, new_)]
    case _ => []
  }

  /** Can the event happen in state s, with the results it records? */
  predicate Can(s: State, e: Event) {
    match e
    case Begin(tx) => tx == s.next
    case Conflict(tx, table) => Active(s, tx) && !CanOwn(s.locks, tx, table)
    case Commit(tx) => Active(s, tx)
    case Rollback(tx) => Active(s, tx)
    case _ => Active(s, e.tx) && LockFree(s, e) && RunOp(s.data, e).Some?
  }

  function Do(s: State, e: Event): State
    requires Can(s, e)
  {
    match e
    case Begin(tx) => s.(next := tx + 1, txs := s.txs[tx := ACTIVE])
    case Conflict(_, _) => s
    case Commit(tx) => End(s, tx, LogCommit(tx), COMMITTED)
    case Rollback(tx) => End(s, tx, LogAbort(tx), ABORTED)
    case _ => s.(data := RunOp(s.data, e).value, locks := Locked(s, e), log := s.log + Logged(e))
  }

  /** COMMIT and ROLLBACK differ in the log record and the final state only: in particular
      ROLLBACK takes back nothing. */
  function End(s: State, tx: int, rec: LogRec, st: TxState): State {
    s.(log := s.log + [rec], flushed := |s.log| + 1, txs := s.txs[tx := st], locks := Released(s.locks, tx))
  }

  /** The state after a history that starts from the tables d0, if it can happen. */
  function After(d0: Data, h: History): Option<State> {
    if h == [] then Some(State(d0, map[], 1, map[], [], 0))
    else match After(d0, h[..|h| - 1])
      case None => None
      case Some(s) => if Can(s, h[|h| - 1]) then Some(Do(s, h[|h| - 1])) else None
  }

  lemma AfterLast(d0: Data, h: History, e: Event)
    ensures After(d0, h + [e]) == match After(d0, h)
            case None => None
            case Some(s) => if Can(s, e) then Some(Do(s, e)) else None
  {
    assert (h + [e])[..|h + [e]| - 1] == h;
  }

  ghost predicate NoRollback(h: History) {
    forall i :: 0 <= i < |h| ==> !h[i].Rollback?
  }

  // ---------- the serial execution that a history stands for ----------

  /** The operations of one transaction, in order. */
  function OpsOf(h: History, tx: int): (es: History)
    ensures forall i :: 0 <= i < |es| ==> IsOp(es[i]) && es[i].tx == tx
  {
    if h == [] then []
    else
      var e := h[|h| - 1];
      OpsOf(h[..|h| - 1], tx) + if IsOp(e) && e.tx == tx then [e] else []
  }

  /** All committed transactions, one after the other in the order of their COMMITs. */
  function Serial(h: History): (es: History)
    ensures forall i :: 0 <= i < |es| ==> IsOp(es[i])
  {
    if h == [] then []
    else
      var e := h[|h| - 1];
      Serial(h[..|h| - 1]) + if e.Commit? then OpsOf(h[..|h| - 1], e.tx) else []
  }

  lemma {:induction false} RunOpsAppend(d: Data, a: History, b: History)
    requires forall i :: 0 <= i < |a| ==> IsOp(a[i])
    requires forall i :: 0 <= i < |b| ==> IsOp(b[i])
    ensures RunOps(d, a + b) == match RunOps(d, a) case None => None case Some(m) => RunOps(m, b)
    decreases |b|
  {
    if b == [] {
      assert a + b == a;
    } else {
      var c := b[..|b| - 1];
      assert (a + b)[..|a + b| - 1] == a + c;
      RunOpsAppend(d, a, c);
    }
  }
}
