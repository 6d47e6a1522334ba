/** The ledger as the contract sees it through its transaction stub: the
    world state (key to stored text) and, per key, the history of every
    write and delete the ledger recorded for it, kept oldest first. The
    transaction's id and timestamp come from the runtime and are passed in. */
module Store {
  import opened Wrappers

  /** A protobuf timestamp, as the runtime stamps each transaction. */
  datatype Timestamp = Timestamp(seconds: int, nanos: int)

  /** What the runtime tells the contract about the running transaction. */
  datatype Tx = Tx(txId: string, timestamp: Timestamp)

  /** One entry of a key's history: the transaction that touched the key,
      whether it deleted it, and the value it wrote (empty for a delete). */
  datatype KeyModification = KeyModification(txId: string, timestamp: Timestamp, isDelete: bool, value: string)

  datatype Ledger = Ledger(world: map<string, string>, history: map<string, seq<KeyModification>>)

  /** The ledger before any transaction. */
  const Genesis: Ledger := Ledger(map[], map[])

  /** The stored value, or None where the stub answers undefined. */
  function GetState(l: Ledger, key: string): (r: Option<string>)
    ensures r.None? <==> key !in l.world
    ensures r.Some? ==> r.value == l.world[key]
  {
    if key in l.world then Some(l.world[key]) else None
  }

  /** The records getHistoryForKey iterates over. The model keeps them
      oldest first; the order the runtime reports them in is not part of
      the contract. */
  function HistoryFor(l: Ledger, key: string): (r: seq<KeyModification>)
    ensures key !in l.history ==> r == []
    ensures key in l.history ==> r == l.history[key]
  {
    if key in l.history then l.history[key] else []
  }

  function PutRecord(tx: Tx, value: string): KeyModification {
    KeyModification(tx.txId, tx.timestamp, false, value)
  }

  function DeleteRecord(tx: Tx): KeyModification {
    KeyModification(tx.txId, tx.timestamp, true, [])
  }

  /** The world-state value the history of a key implies: the last write's
      value, or nothing if the key was never written or last deleted. */
  function Latest(h: seq<KeyModification>): Option<string> {
    if |h| == 0 || h[|h| - 1].isDelete then None else Some(h[|h| - 1].value)
  }

  /** World state and history agree at every key. */
  ghost predicate Consistent(l: Ledger) {
    forall key :: GetState(l, key) == Latest(HistoryFor(l, key))
  }

  /** Neither the value nor the history of key differs between l and l'. */
  ghost predicate Untouched(l: Ledger, l': Ledger, key: string) {
    GetState(l', key) == GetState(l, key) && HistoryFor(l', key) == HistoryFor(l, key)
  }

  /** Every key other than key is untouched. */
  ghost predicate OnlyKeyChanged(l: Ledger, l': Ledger, key: string) {
    forall k :: k != key ==> Untouched(l, l', k)
  }

  /** putState: overwrites the value at key, whatever was there, and the
      ledger appends one write record to the key's history. */
  function PutState(l: Ledger, tx: Tx, key: string, value: string): (r: Ledger)
    ensures GetState(r, key) == Some(value)
    ensures HistoryFor(r, key) == HistoryFor(l, key) + [PutRecord(tx, value)]
    ensures OnlyKeyChanged(l, r, key)
    ensures Consistent(l) ==> Consistent(r)
  {
    var r := Ledger(l.world[key := value], l.history[key := HistoryFor(l, key) + [PutRecord(tx, value)]]);
    assert Consistent(l) ==> Consistent(r) by {
      if Consistent(l) {
        forall k ensures GetState(r, k) == Latest(HistoryFor(r, k)) {
          if k != key {
            assert GetState(l, k) == Latest(HistoryFor(l, k));
          }
        }
      }
    }
    r
  }

  /** deleteState: removes key from the world state; the history keeps
      every earlier record and gains one delete record. */
  function DeleteState(l: Ledger, tx: Tx, key: string): (r: Ledger)
    ensures GetState(r, key) == None
    ensures HistoryFor(r, key) == HistoryFor(l, key) + [DeleteRecord(tx)]
    ensures OnlyKeyChanged(l, r, key)
    ensures Consistent(l) ==> Consistent(r)
  {
    var r := Ledger(l.world - {key}, l.history[key := HistoryFor(l, key) + [DeleteRecord(tx)]]);
    assert Consistent(l) ==> Consistent(r) by {
      if Consistent(l) {
        forall k ensures GetState(r, k) == Latest(HistoryFor(r, k)) {
          if k != key {
            assert GetState(l, k) == Latest(HistoryFor(l, k));
          }
        }
      }
    }
    r
  }

  /** getState after putState: the value just put at that key, and what
      was there before at any other key. */
  lemma {:induction false} GetAfterPut(l: Ledger, tx: Tx, key: string, value: string, k: string)
    ensures GetState(PutState(l, tx, key, value), k) == if k == key then Some(value) else GetState(l, k)
  {
    if k != key {
      assert Untouched(l, PutState(l, tx, key, value), k);
    }
  }

  /** getState after deleteState: undefined at the deleted key, and what
      was there before at any other key. */
  lemma {:induction false} GetAfterDelete(l: Ledger, tx: Tx, key: string, k: string)
    ensures GetState(DeleteState(l, tx, key), k) == if k == key then None else GetState(l, k)
  {
    if k != key {
      assert Untouched(l, DeleteState(l, tx, key), k);
    }
  }
}
