/** Shared and exclusive locks on named resources. */
module LockManager {

  /** xHolder 0 means that nobody holds the exclusive lock. */
  datatype LockInfo = LockInfo(xHolder: int, sHolders: set<int>)

  type LockTable = map<string, LockInfo>

  const FREE: LockInfo := LockInfo(0, {})

  function InfoOf(t: LockTable, r: string): LockInfo {
    if r in t then t[r] else FREE
  }

  ghost predicate HoldsX(t: LockTable, tx: int, r: string) {
    tx != 0 && InfoOf(t, r).xHolder == tx
  }

  ghost predicate HoldsS(t: LockTable, tx: int, r: string) {
    tx in InfoOf(t, r).sHolders
  }

  /** While a transaction holds X, nobody else holds S.  Entries without a holder are gone. */
  ghost predicate LockInv(t: LockTable) {
    forall r :: r in t ==>
      t[r] != FREE && 0 !in t[r].sHolders && (t[r].xHolder != 0 ==> t[r].sHolders <= {t[r].xHolder})
  }

  predicate CanShare(t: LockTable, tx: int, r: string) {
    var x := InfoOf(t, r).xHolder;
    x == 0 || x == tx
  }

  predicate CanOwn(t: LockTable, tx: int, r: string) {
    CanShare(t, tx, r) && InfoOf(t, r).sHolders <= {tx}
  }

  function Shared(t: LockTable, tx: int, r: string): LockTable {
    t[r := LockInfo(InfoOf(t, r).xHolder, InfoOf(t, r).sHolders + {tx})]
  }

  /** The S lock of the same transaction, if any, is given up for the X lock. */
  function Owned(t: LockTable, tx: int, r: string): LockTable {
    t[r := LockInfo(tx, InfoOf(t, r).sHolders - {tx})]
  }

  function Dropped(info: LockInfo, tx: int): LockInfo {
    LockInfo(if info.xHolder == tx then 0 else info.xHolder, info.sHolders - {tx})
  }

  /** Every lock of tx is gone, and so is every entry that has no holder left. */
  function Released(t: LockTable, tx: int): LockTable {
    map r | r in t && Dropped(t[r], tx) != FREE :: Dropped(t[r], tx)
  }

  function Unlocked(t: LockTable, tx: int, r: string): LockTable {
    if r !in t then t
    else if Dropped(t[r], tx) == FREE then t - {r}
    else t[r := Dropped(t[r], tx)]
  }

  // ---------- what the locks guarantee ----------

  /** Two transactions never hold conflicting locks on the same resource. */
  lemma NoConflict(t: LockTable, a: int, b: int, r: string)
    requires LockInv(t) && a != b && HoldsX(t, a, r)
    ensures !HoldsX(t, b, r) && !HoldsS(t, b, r)
  {
    assert r in t;
  }

  lemma LockingKeeps(t: LockTable, tx: int, r: string)
    requires LockInv(t) && tx != 0
    ensures CanShare(t, tx, r) ==> LockInv(Shared(t, tx, r)) && HoldsS(Shared(t, tx, r), tx, r)
    ensures CanOwn(t, tx, r) ==> LockInv(Owned(t, tx, r)) && HoldsX(Owned(t, tx, r), tx, r)
  {
  }

  lemma ReleasingKeeps(t: LockTable, tx: int, r: string)
    requires LockInv(t)
    ensures LockInv(Released(t, tx)) && LockInv(Unlocked(t, tx, r))
  {
  }

  /** Locking for one transaction leaves the locks of all others, and other resources, alone. */
  lemma LockingFrame(t: LockTable, tx: int, r: string, other: int, q: string)
    requires other != tx || q != r
    ensures HoldsS(Shared(t, tx, r), other, q) == HoldsS(t, other, q)
    ensures HoldsX(Shared(t, tx, r), other, q) == HoldsX(t, other, q)
    ensures HoldsS(Owned(t, tx, r), other, q) == HoldsS(t, other, q)
    ensures CanOwn(t, tx, r) ==> HoldsX(Owned(t, tx, r), other, q) == HoldsX(t, other, q)
  {
  }

  /** After a release the transaction holds nothing; the others hold what they held. */
  lemma ReleasedMeaning(t: LockTable, tx: int, other: int, r: string)
    requires tx != 0
    ensures InfoOf(Released(t, tx), r) == Dropped(InfoOf(t, r), tx)
    ensures !HoldsX(Released(t, tx), tx, r) && !HoldsS(Released(t, tx), tx, r)
    ensures other != tx ==> HoldsX(Released(t, tx), other, r) == HoldsX(t, other, r)
    ensures other != tx ==> HoldsS(Released(t, tx), other, r) == HoldsS(t, other, r)
  {
  }

  /** Id 0 would not be protected: its exclusive lock keeps nobody out. */
  lemma ZeroIsNoHolder(r: string, other: int)
    requires other != 0
    ensures CanOwn(Owned(map[], 0, r), other, r)
  {
  }

  /** Who may be granted what, in terms of the locks held by others. */
  lemma GrantExact(t: LockTable, tx: int, r: string)
    ensures CanShare(t, tx, r) <==> forall o :: o != tx ==> !HoldsX(t, o, r)
    ensures CanOwn(t, tx, r) <==> forall o :: o != tx ==> !HoldsX(t, o, r) && !HoldsS(t, o, r)
  {
    var info := InfoOf(t, r);
    if !CanShare(t, tx, r) { assert HoldsX(t, info.xHolder, r); }
    if o :| o in info.sHolders && o != tx {
      assert HoldsS(t, o, r);
      assert !(info.sHolders <= {tx});
    } else {
      assert forall o :: o in info.sHolders ==> o == tx;
    }
  }

  /** The locks of every transaction on every resource, after each of the four operations. */
  lemma LocksAfter(t: LockTable, tx: int, r: string, o: int, q: string)
    ensures HoldsX(Shared(t, tx, r), o, q) <==> HoldsX(t, o, q)
    ensures HoldsS(Shared(t, tx, r), o, q) <==> HoldsS(t, o, q) || (o == tx && q == r)
    ensures HoldsX(Owned(t, tx, r), o, q) <==> if q == r then o == tx && tx != 0 else HoldsX(t, o, q)
    ensures HoldsS(Owned(t, tx, r), o, q) <==> HoldsS(t, o, q) && !(o == tx && q == r)
    ensures HoldsX(Unlocked(t, tx, r), o, q) <==> HoldsX(t, o, q) && !(o == tx && q == r)
    ensures HoldsS(Unlocked(t, tx, r), o, q) <==> HoldsS(t, o, q) && !(o == tx && q == r)
    ensures HoldsX(Released(t, tx), o, q) <==> HoldsX(t, o, q) && o != tx
    ensures HoldsS(Released(t, tx), o, q) <==> HoldsS(t, o, q) && o != tx
  {
  }

  // ---------- the lock manager ----------

  class LockManager {
    var table: LockTable

    constructor ()
      ensures table == map[]
    {
      table := map[];
    }

    /** Returns false where the source throws LockConflictException; then nothing changes. */
    method LockShared(tx: int, resource: string) returns (granted: bool)
      modifies this
      ensures granted <==> forall o :: o != tx ==> !HoldsX(old(table), o, resource)
      ensures granted ==> forall o, q :: HoldsX(table, o, q) <==> HoldsX(old(table), o, q)
      ensures granted ==>
                forall o, q :: HoldsS(table, o, q) <==> HoldsS(old(table), o, q) || (o == tx && q == resource)
      ensures granted == CanShare(old(table), tx, resource)
      ensures table == if granted then Shared(old(table), tx, resource) else old(table)
    {
      GrantExact(table, tx, resource);
      forall o, q { LocksAfter(table, tx, resource, o, q); }
      var info := InfoOf(table, resource);
      if info.xHolder != 0 && info.xHolder != tx { return false; }
      table := table[resource := info.(sHolders := info.sHolders + {tx})];
      return true;
    }

    method LockExclusive(tx: int, resource: string) returns (granted: bool)
      modifies this
      ensures granted <==> forall o :: o != tx ==> !HoldsX(old(table), o, resource) && !HoldsS(old(table), o, resource)
      ensures granted ==>
                forall o, q :: HoldsX(table, o, q) <==>
                  if q == resource then o == tx && tx != 0 else HoldsX(old(table), o, q)
      ensures granted ==>
                forall o, q :: HoldsS(table, o, q) <==> HoldsS(old(table), o, q) && !(o == tx && q == resource)
      ensures granted == CanOwn(old(table), tx, resource)
      ensures table == if granted then Owned(old(table), tx, resource) else old(table)
    {
      GrantExact(table, tx, resource);
      forall o, q { LocksAfter(table, tx, resource, o, q); }
      var info := InfoOf(table, resource);
      if info.xHolder != 0 && info.xHolder != tx { return false; }
      if exists other :: other in info.sHolders && other != tx { return false; }
      table := table[resource := LockInfo(tx, info.sHolders - {tx})];
      return true;
    }

    method Unlock(tx: int, resource: string)
      modifies this
      ensures forall o, q :: HoldsX(table, o, q) <==> HoldsX(old(table), o, q) && !(o == tx && q == resource)
      ensures forall o, q :: HoldsS(table, o, q) <==> HoldsS(old(table), o, q) && !(o == tx && q == resource)
      ensures table == Unlocked(old(table), tx, resource)
    {
      forall o, q { LocksAfter(table, tx, resource, o, q); }
      if resource !in table { return; }
      var info := table[resource];
      if info.xHolder == tx { info := info.(xHolder := 0); }
      info := info.(sHolders := info.sHolders - {tx});
      if info.xHolder == 0 && info.sHolders == {} {
        table := table - {resource};
      } else {
        table := table[resource := info];
      }
    }

    /** Visits the entries in any order, erasing those that lose their last holder. */
    method ReleaseTransactionLocks(tx: int)
      modifies this
      ensures forall o, q :: HoldsX(table, o, q) <==> HoldsX(old(table), o, q) && o != tx
      ensures forall o, q :: HoldsS(table, o, q) <==> HoldsS(old(table), o, q) && o != tx
      ensures table == Released(old(table), tx)
    {
      forall o, q { LocksAfter(table, tx, "", o, q); }
      var todo := table.Keys;
      while todo != {}
        invariant todo <= old(table).Keys && table.Keys <= old(table).Keys
        invariant forall r :: r in todo ==> r in table && table[r] == old(table)[r]
        invariant forall r :: r in old(table) && r !in todo ==>
                    if Dropped(old(table)[r], tx) == FREE then r !in table
                    else r in table && table[r] == Dropped(old(table)[r], tx)
        decreases todo
      {
        var r :| r in todo;
        todo := todo - {r};
        var info := table[r];
        if info.xHolder == tx { info := info.(xHolder := 0); }
        info := info.(sHolders := info.sHolders - {tx});
        if info.xHolder == 0 && info.sHolders == {} {
          table := table - {r};
        } else {
          table := table[r := info];
        }
      }
    }
  }
}
