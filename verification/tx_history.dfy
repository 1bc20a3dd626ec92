/**
 * The history of src/account/tx_history.rs: one record per completed deposit
 * or withdrawal, keyed by transaction id and shared by every account, so that
 * later disputes, resolves and chargebacks can find what they refer to.
 */
module TxHistory {
  import opened Wrappers
  import opened Money
  import opened Transaction

  /** `CompletedTxKind`: which kind of transaction completed. */
  datatype CompletedTxKind = Withdrawn | Deposited

  /** `CompletedTx`: the record kept for a completed transaction. */
  datatype CompletedTx = CompletedTx(kind: CompletedTxKind, amount: Money, disputed: bool)

  /** `TxHistory(HashMap<TxId, CompletedTx>)`; the `Default` value is the empty map. */
  type TxHistory = map<TxId, CompletedTx>

  const EMPTY: TxHistory := map[]

  /**
   * `record_transaction`: inserts an undisputed record under a fresh id
   * (`Some` of the new history, for `Ok(())`); an id already present is
   * refused (`None`, for `Err(())`) and the history is left as it was.
   */
  function Record(h: TxHistory, id: TxId, amount: Money, kind: CompletedTxKind): (r: Option<TxHistory>)
    ensures r.Some? <==> id !in h
    ensures r.Some? ==> r.value.Keys == h.Keys + {id}
    ensures r.Some? ==> r.value[id] == CompletedTx(kind, amount, false)
    ensures r.Some? ==> forall k | k in h :: r.value[k] == h[k]
  {
    if id in h then None else Some(h[id := CompletedTx(kind, amount, false)])
  }

  /** `past_transaction`: the record under `id`, if any. */
  function PastTransaction(h: TxHistory, id: TxId): (r: Option<CompletedTx>)
    ensures r.Some? <==> id in h
    ensures r.Some? ==> r.value == h[id]
  {
    if id in h then Some(h[id]) else None
  }

  /**
   * Writing through the `&mut CompletedTx` that `past_transaction` hands out:
   * only the record under `id` changes, and no id is added or removed.
   */
  function Amend(h: TxHistory, id: TxId, tx: CompletedTx): (r: TxHistory)
    requires id in h
    ensures r.Keys == h.Keys
    ensures r[id] == tx
    ensures forall k | k in h && k != id :: r[k] == h[k]
  {
    h[id := tx]
  }

  /** A recorded transaction is found again, exactly as recorded and undisputed. */
  lemma RecordThenLookup(h: TxHistory, id: TxId, amount: Money, kind: CompletedTxKind)
    requires id !in h
    ensures PastTransaction(Record(h, id, amount, kind).value, id) == Some(CompletedTx(kind, amount, false))
  {
  }

  /** Recording never disturbs what other ids look up. */
  lemma RecordKeepsOthers(h: TxHistory, id: TxId, amount: Money, kind: CompletedTxKind, other: TxId)
    requires id != other
    ensures Record(h, id, amount, kind).Some? ==>
              PastTransaction(Record(h, id, amount, kind).value, other) == PastTransaction(h, other)
  {
  }

  /** An id can be recorded only once: a second record under it is refused, whatever it carries. */
  lemma RecordOnce(h: TxHistory, id: TxId, a: Money, k: CompletedTxKind, b: Money, l: CompletedTxKind)
    requires id !in h
    ensures Record(Record(h, id, a, k).value, id, b, l).None?
  {
  }

  /** Amending a record and looking it up gives the amended record; other ids look up as before. */
  lemma AmendThenLookup(h: TxHistory, id: TxId, tx: CompletedTx, other: TxId)
    requires id in h
    ensures PastTransaction(Amend(h, id, tx), id) == Some(tx)
    ensures other != id ==> PastTransaction(Amend(h, id, tx), other) == PastTransaction(h, other)
  {
  }
}
