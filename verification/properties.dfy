/** Properties that relate several calls of the asset contract: reading
    back what was written, idempotence of InitLedger, the history growing
    by exactly one entry per write, and the invariant that every ledger the
    contract can produce holds only parsable records. */
module AssetProperties {
  import opened Wrappers
  import opened Json
  import opened Assets
  import opened Store
  import opened AssetContract

  // ----- reading back what was written -----

  /** After a successful CreateAsset, ReadAsset returns the stored text,
      and that text parses back to the eight arguments, in order. */
  lemma {:induction false} CreateThenRead(
    l: Ledger, tx: Tx, id: string,
    dealerId: Value, msisdn: Value, mpin: Value, balance: Value,
    status: Value, transAmount: Value, transType: Value, remarks: Value)
    requires CreateAsset(l, tx, id, dealerId, msisdn, mpin, balance, status, transAmount, transType, remarks).Success?
    ensures
      var l' := CreateAsset(l, tx, id, dealerId, msisdn, mpin, balance, status, transAmount, transType, remarks).value.0;
      && ReadAsset(l', id).Success?
      && Decode(ReadAsset(l', id).value)
         == Some(Asset(dealerId, msisdn, mpin, balance, status, transAmount, transType, remarks))
  {
    var l' := CreateAsset(l, tx, id, dealerId, msisdn, mpin, balance, status, transAmount, transType, remarks).value.0;
    ReadBackWritten(l, l', tx, id, Asset(dealerId, msisdn, mpin, balance, status, transAmount, transType, remarks));
  }

  /** After a successful UpdateAsset, the record read back has the five new
      values and the three identity fields it had before. */
  lemma {:induction false} UpdateThenRead(
    l: Ledger, tx: Tx, id: string,
    balance: Value, status: Value, transAmount: Value, transType: Value, remarks: Value)
    requires UpdateAsset(l, tx, id, balance, status, transAmount, transType, remarks).Success?
    ensures
      var l' := UpdateAsset(l, tx, id, balance, status, transAmount, transType, remarks).value.0;
      var before := Decode(GetState(l, id).value).value;
      && ReadAsset(l', id).Success?
      && Decode(ReadAsset(l', id).value).Some?
      && var after := Decode(ReadAsset(l', id).value).value;
         && after.dealerId == before.dealerId
         && after.msisdn == before.msisdn
         && after.mpin == before.mpin
         && after.balance == balance
         && after.status == status
         && after.transAmount == transAmount
         && after.transType == transType
         && after.remarks == remarks
  {
    var l' := UpdateAsset(l, tx, id, balance, status, transAmount, transType, remarks).value.0;
    var before := Decode(GetState(l, id).value).value;
    ReadBackWritten(l, l', tx, id, Asset(before.dealerId, before.msisdn, before.mpin,
                                         balance, status, transAmount, transType, remarks));
  }

  /** A key just written with a record's encoding reads back as that record. */
  lemma {:induction false} ReadBackWritten(l: Ledger, l': Ledger, tx: Tx, key: string, a: Asset)
    requires Wrote(l, l', tx, key, Encode(a))
    ensures ReadAsset(l', key) == Success(Encode(a))
    ensures Decode(ReadAsset(l', key).value) == Some(a)
  {
    DecodeEncode(a);
  }

  /** The record InitLedger leaves at ASSET0 reads back as the bootstrap record. */
  lemma {:induction false} InitLedgerThenRead(l: Ledger, tx: Tx)
    ensures ReadAsset(InitLedger(l, tx).0, "ASSET0").Success?
    ensures Decode(ReadAsset(InitLedger(l, tx).0, "ASSET0").value) == Some(Bootstrap[0])
  {
    ReadBackWritten(l, InitLedger(l, tx).0, tx, "ASSET0", Bootstrap[0]);
  }

  // ----- InitLedger -----

  lemma {:induction false} SameWorld(a: Ledger, b: Ledger)
    requires forall k :: GetState(a, k) == GetState(b, k)
    ensures a.world == b.world
  {
    assert a.world.Keys == b.world.Keys by {
      forall k ensures k in a.world <==> k in b.world {
        assert GetState(a, k) == GetState(b, k);
      }
    }
    forall k | k in a.world ensures a.world[k] == b.world[k] {
      assert GetState(a, k) == GetState(b, k);
    }
  }

  /** Calling InitLedger a second time leaves the same world state as
      calling it once (the history, though, records both writes). */
  lemma {:induction false} InitLedgerIdempotent(l: Ledger, tx1: Tx, tx2: Tx)
    ensures InitLedger(InitLedger(l, tx1).0, tx2).0.world == InitLedger(l, tx1).0.world
  {
    var l1 := InitLedger(l, tx1).0;
    var l2 := InitLedger(l1, tx2).0;
    forall k ensures GetState(l2, k) == GetState(l1, k) {
      if k != "ASSET0" {
        assert Untouched(l1, l2, k);
      }
    }
    SameWorld(l2, l1);
  }

  // ----- the well-formedness invariant -----

  /** World state agrees with history, and every write record in every
      history holds a record's encoding. */
  ghost predicate WellFormed(l: Ledger) {
    && Consistent(l)
    && forall k :: Readable(HistoryFor(l, k))
  }

  lemma {:induction false} GenesisWellFormed()
    ensures WellFormed(Genesis)
  {
  }

  /** On a well-formed ledger every stored value parses. */
  lemma {:induction false} StoredDecodes(l: Ledger, id: string)
    requires WellFormed(l) && GetState(l, id).Some?
    ensures Decode(GetState(l, id).value).Some?
  {
    var h := HistoryFor(l, id);
    StoredIsLastWrite(l, id);
    assert Readable(h);
    LastWriteDecodes(h);
  }

  /** In a consistent ledger a stored value is the key's last write. */
  lemma {:induction false} StoredIsLastWrite(l: Ledger, id: string)
    requires Consistent(l) && GetState(l, id).Some?
    ensures var h := HistoryFor(l, id);
      0 < |h| && !h[|h| - 1].isDelete && h[|h| - 1].value == GetState(l, id).value
  {
    assert GetState(l, id) == Latest(HistoryFor(l, id));
  }

  lemma {:induction false} LastWriteDecodes(h: seq<KeyModification>)
    requires Readable(h) && 0 < |h| && !h[|h| - 1].isDelete
    ensures Decode(h[|h| - 1].value).Some?
  {
  }

  lemma {:induction false} ReadableAppend(h: seq<KeyModification>, m: KeyModification)
    requires Readable(h) && (m.isDelete || Decode(m.value).Some?)
    ensures Readable(h + [m])
  {
    forall i | 0 <= i < |h| + 1 && !(h + [m])[i].isDelete
      ensures Decode((h + [m])[i].value).Some?
    {
      if i < |h| {
        assert (h + [m])[i] == h[i];
      }
    }
  }

  /** Writing a record's encoding keeps a ledger well formed. */
  lemma {:induction false} WriteKeepsWellFormed(l: Ledger, l': Ledger, tx: Tx, key: string, a: Asset)
    requires WellFormed(l) && Consistent(l')
    requires Wrote(l, l', tx, key, Encode(a))
    ensures WellFormed(l')
  {
    forall k ensures Readable(HistoryFor(l', k)) {
      if k == key {
        assert Readable(HistoryFor(l, k));
        DecodeEncode(a);
        ReadableAppend(HistoryFor(l, k), PutRecord(tx, Encode(a)));
      } else {
        assert Untouched(l, l', k);
        assert Readable(HistoryFor(l, k));
      }
    }
  }

  /** Every transaction, committed or refused, leaves a well-formed ledger well formed. */
  lemma {:induction false} CommitKeepsWellFormed(l: Ledger, tx: Tx, c: Call)
    requires WellFormed(l)
    ensures WellFormed(Commit(l, tx, c))
  {
    match c
    case InitLedgerCall =>
      WriteKeepsWellFormed(l, InitLedger(l, tx).0, tx, "ASSET0", Bootstrap[0]);
    case CreateAssetCall(id, d, ms, mp, b, s, ta, tt, rm) =>
      var r := CreateAsset(l, tx, id, d, ms, mp, b, s, ta, tt, rm);
      if r.Success? {
        WriteKeepsWellFormed(l, r.value.0, tx, id, Asset(d, ms, mp, b, s, ta, tt, rm));
      }
    case UpdateAssetCall(id, b, s, ta, tt, rm) =>
      var r := UpdateAsset(l, tx, id, b, s, ta, tt, rm);
      if r.Success? {
        var before := Decode(GetState(l, id).value).value;
        WriteKeepsWellFormed(l, r.value.0, tx, id,
                             Asset(before.dealerId, before.msisdn, before.mpin, b, s, ta, tt, rm));
      }
  }

  lemma {:induction false} RunKeepsWellFormed(l: Ledger, txs: seq<(Tx, Call)>)
    requires WellFormed(l)
    ensures WellFormed(Run(l, txs))
    decreases |txs|
  {
    if 0 < |txs| {
      CommitKeepsWellFormed(l, txs[0].0, txs[0].1);
      RunKeepsWellFormed(Commit(l, txs[0].0, txs[0].1), txs[1..]);
    }
  }

  /** Every ledger the contract can produce from the empty one is well formed. */
  lemma {:induction false} ReachableWellFormed(txs: seq<(Tx, Call)>)
    ensures WellFormed(Run(Genesis, txs))
  {
    GenesisWellFormed();
    RunKeepsWellFormed(Genesis, txs);
  }

  /** On a well-formed ledger the JSON.parse in UpdateAsset never throws:
      UpdateAsset succeeds exactly when the asset exists. */
  lemma {:induction false} UpdateSucceedsIffExists(
    l: Ledger, tx: Tx, id: string,
    balance: Value, status: Value, transAmount: Value, transType: Value, remarks: Value)
    requires WellFormed(l)
    ensures UpdateAsset(l, tx, id, balance, status, transAmount, transType, remarks).Success?
            <==> AssetExits(l, id)
  {
    if AssetExits(l, id) {
      StoredDecodes(l, id);
    }
  }

  /** On a well-formed ledger GetAssetHistory never throws and reports
      one entry per history record. */
  lemma {:induction false} HistoryAlwaysReported(l: Ledger, id: string)
    requires WellFormed(l)
    ensures GetAssetHistory(l, id).Success?
    ensures |GetAssetHistory(l, id).value| == |HistoryFor(l, id)|
  {
    assert Readable(HistoryFor(l, id));
  }

  // ----- history -----

  /** Projecting one more record appends exactly that record's entry. */
  lemma {:induction false} ProjectAppend(id: string, h: seq<KeyModification>, m: KeyModification)
    requires Readable(h) && (m.isDelete || Decode(m.value).Some?)
    ensures ProjectHistory(id, h + [m]).Success?
    ensures ProjectHistory(id, h + [m]).value
            == ProjectHistory(id, h).value + [ProjectRecord(id, m).value]
  {
    ReadableAppend(h, m);
    var r := ProjectHistory(id, h + [m]).value;
    var before := ProjectHistory(id, h).value;
    var e := ProjectRecord(id, m).value;
    forall i | 0 <= i < |r| ensures r[i] == (before + [e])[i] {
      if i < |h| {
        assert (h + [m])[i] == h[i];
      } else {
        assert (h + [m])[i] == m;
      }
    }
  }

  /** A successful CreateAsset adds one entry, for its own transaction and
      holding the new record, after all earlier entries of the key. */
  lemma {:induction false} CreateAppendsHistory(
    l: Ledger, tx: Tx, id: string,
    dealerId: Value, msisdn: Value, mpin: Value, balance: Value,
    status: Value, transAmount: Value, transType: Value, remarks: Value)
    requires WellFormed(l)
    requires CreateAsset(l, tx, id, dealerId, msisdn, mpin, balance, status, transAmount, transType, remarks).Success?
    ensures
      var l' := CreateAsset(l, tx, id, dealerId, msisdn, mpin, balance, status, transAmount, transType, remarks).value.0;
      var a := Asset(dealerId, msisdn, mpin, balance, status, transAmount, transType, remarks);
      && GetAssetHistory(l', id).Success?
      && GetAssetHistory(l', id).value
         == GetAssetHistory(l, id).value + [HistoryEntry(tx.txId, tx.timestamp, Snapshot(a))]
  {
    var a := Asset(dealerId, msisdn, mpin, balance, status, transAmount, transType, remarks);
    DecodeEncode(a);
    assert Readable(HistoryFor(l, id));
    ProjectAppend(id, HistoryFor(l, id), PutRecord(tx, Encode(a)));
  }

  /** A successful UpdateAsset adds one entry holding the updated record. */
  lemma {:induction false} UpdateAppendsHistory(
    l: Ledger, tx: Tx, id: string,
    balance: Value, status: Value, transAmount: Value, transType: Value, remarks: Value)
    requires WellFormed(l)
    requires UpdateAsset(l, tx, id, balance, status, transAmount, transType, remarks).Success?
    ensures
      var l' := UpdateAsset(l, tx, id, balance, status, transAmount, transType, remarks).value.0;
      var before := Decode(GetState(l, id).value).value;
      var a := Asset(before.dealerId, before.msisdn, before.mpin,
                     balance, status, transAmount, transType, remarks);
      && GetAssetHistory(l', id).Success?
      && GetAssetHistory(l', id).value
         == GetAssetHistory(l, id).value + [HistoryEntry(tx.txId, tx.timestamp, Snapshot(a))]
  {
    var before := Decode(GetState(l, id).value).value;
    var a := Asset(before.dealerId, before.msisdn, before.mpin,
                   balance, status, transAmount, transType, remarks);
    DecodeEncode(a);
    assert Readable(HistoryFor(l, id));
    ProjectAppend(id, HistoryFor(l, id), PutRecord(tx, Encode(a)));
  }

  /** After the store deletes a key, the asset no longer exists, but its
      history keeps every earlier entry and ends with the 'Deleted' marker. */
  lemma {:induction false} DeleteKeepsHistory(l: Ledger, tx: Tx, id: string)
    requires WellFormed(l)
    ensures
      var l' := DeleteState(l, tx, id);
      && !AssetExits(l', id)
      && ReadAsset(l', id) == Failure(DoesNotExist(id))
      && GetAssetHistory(l', id).Success?
      && GetAssetHistory(l', id).value
         == GetAssetHistory(l, id).value + [HistoryEntry(tx.txId, tx.timestamp, Marker(DeletedMarker))]
  {
    assert Readable(HistoryFor(l, id));
    ProjectAppend(id, HistoryFor(l, id), DeleteRecord(tx));
  }

  /** No transaction removes or alters a history record: each key's history
      before is a prefix of its history after. */
  lemma {:induction false} CommitExtendsHistory(l: Ledger, tx: Tx, c: Call, k: string)
    ensures HistoryFor(l, k) <= HistoryFor(Commit(l, tx, c), k)
  {
    match c
    case InitLedgerCall =>
      WroteExtends(l, InitLedger(l, tx).0, tx, "ASSET0", Encode(Bootstrap[0]), k);
    case CreateAssetCall(id, d, ms, mp, b, s, ta, tt, rm) =>
      var r := CreateAsset(l, tx, id, d, ms, mp, b, s, ta, tt, rm);
      if r.Success? {
        WroteExtends(l, r.value.0, tx, id, Encode(Asset(d, ms, mp, b, s, ta, tt, rm)), k);
      }
    case UpdateAssetCall(id, b, s, ta, tt, rm) =>
      var r := UpdateAsset(l, tx, id, b, s, ta, tt, rm);
      if r.Success? {
        var before := Decode(GetState(l, id).value).value;
        WroteExtends(l, r.value.0, tx, id,
                     Encode(Asset(before.dealerId, before.msisdn, before.mpin, b, s, ta, tt, rm)), k);
      }
  }

  /** A single write leaves every key's old history a prefix of its new one. */
  lemma {:induction false} WroteExtends(l: Ledger, l': Ledger, tx: Tx, key: string, value: string, k: string)
    requires Wrote(l, l', tx, key, value)
    ensures HistoryFor(l, k) <= HistoryFor(l', k)
  {
    if k != key {
      assert Untouched(l, l', k);
    }
  }


  lemma {:induction false} RunExtendsHistory(l: Ledger, txs: seq<(Tx, Call)>, k: string)
    ensures HistoryFor(l, k) <= HistoryFor(Run(l, txs), k)
    decreases |txs|
  {
    if 0 < |txs| {
      var l1 := Commit(l, txs[0].0, txs[0].1);
      CommitExtendsHistory(l, txs[0].0, txs[0].1, k);
      RunExtendsHistory(l1, txs[1..], k);
    }
  }
}
