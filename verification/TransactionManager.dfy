/** Transaction ids and states. */
module TransactionManager {
  import opened Common

  datatype TxState = ACTIVE | COMMITTED | ABORTED

  type TxTable = map<int, TxState>

  ghost predicate TxInv(next: int, t: TxTable) {
    next >= 1 && forall x :: x in t <==> 1 <= x < next
  }

  class TransactionManager {
    var nextTxId: int
    var txTable: TxTable

    ghost predicate Valid()
      reads this
    {
      TxInv(nextTxId, txTable)
    }

    constructor ()
      ensures Valid() && nextTxId == 1 && txTable == map[]
    {
      nextTxId, txTable := 1, map[];
    }

    /** Ids are never reused and never 0. */
    method BeginTransaction() returns (txId: int)
      requires Valid()
      modifies this
      ensures Valid() && txId == old(nextTxId) && txId != 0 && txId !in old(txTable)
      ensures nextTxId == old(nextTxId) + 1 && txTable == old(txTable)[txId := ACTIVE]
    {
      txId := nextTxId;
      nextTxId := nextTxId + 1;
      txTable := txTable[txId := ACTIVE];
    }

    /** Fails (the source throws) unless the transaction is active. */
    method CommitTransaction(txId: int) returns (ok: bool)
      requires Valid()
      modifies this`txTable
      ensures Valid() && ok == (txId in old(txTable) && old(txTable)[txId] == ACTIVE)
      ensures txTable == if ok then old(txTable)[txId := COMMITTED] else old(txTable)
    {
      if txId !in txTable || txTable[txId] != ACTIVE { return false; }
      txTable := txTable[txId := COMMITTED];
      return true;
    }

    method AbortTransaction(txId: int) returns (ok: bool)
      requires Valid()
      modifies this`txTable
      ensures Valid() && ok == (txId in old(txTable) && old(txTable)[txId] == ACTIVE)
      ensures txTable == if ok then old(txTable)[txId := ABORTED] else old(txTable)
    {
      if txId !in txTable || txTable[txId] != ACTIVE { return false; }
      txTable := txTable[txId := ABORTED];
      return true;
    }

    /** Every id that was handed out has a state, and no other id has: an unknown id (the
        source throws) was never returned by BeginTransaction. */
    method GetState(txId: int) returns (r: Option<TxState>)
      requires Valid()
      ensures r.None? <==> !(1 <= txId < nextTxId)
      ensures r.Some? ==> txId in txTable && r.value == txTable[txId]
    {
      if txId !in txTable { return None; }
      return Some(txTable[txId]);
    }
  }
}
