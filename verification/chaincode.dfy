/** The asset contract: each transaction function is a pure transition
    from the ledger before the transaction to either a failure or the
    ledger after it together with the function's return value. A failed
    transaction carries no ledger: the runtime commits none of its writes. */
module AssetContract {
  import opened Wrappers
  import opened Json
  import opened Assets
  import opened Store

  /** Why a transaction function throws. The first two are the contract's
      own errors; the third is JSON.parse throwing on a stored value that is
      not a record's encoding. */
  datatype Error =
    | AlreadyExists(id: string)
    | DoesNotExist(id: string)
    | Unparsable(id: string)

  /** The message the contract's own errors carry: it names the asset,
      and its ending tells the two errors apart. */
  function Message(e: Error): (r: string)
    requires !e.Unparsable?
    ensures |r| > 10 + |e.id| && r[..10] == "The asset " && r[10..10 + |e.id|] == e.id
    ensures r[|r| - 1] == (if e.AlreadyExists? then 's' else 't')
  {
    if e.AlreadyExists? then "The asset " + e.id + " already exists"
    else "The asset " + e.id + " does not exist"
  }

  /** Different errors never carry the same message. */
  lemma {:induction false} MessageDistinguishes(e1: Error, e2: Error)
    requires !e1.Unparsable? && !e2.Unparsable?
    ensures Message(e1) == Message(e2) ==> e1 == e2
  {
    if Message(e1) == Message(e2) {
      var m := Message(e1);
      assert e1.AlreadyExists? == e2.AlreadyExists?;
      assert |e1.id| == |e2.id|;
      assert e1.id == m[10..10 + |e1.id|] == e2.id;
    }
  }

  /** The write was the only change: key now holds value, its history gained
      exactly one write record, and every other key is untouched. */
  ghost predicate Wrote(l: Ledger, l': Ledger, tx: Tx, key: string, value: string) {
    && GetState(l', key) == Some(value)
    && HistoryFor(l', key) == HistoryFor(l, key) + [PutRecord(tx, value)]
    && OnlyKeyChanged(l, l', key)
  }

  // ----- InitLedger -----

  /** The records InitLedger writes; the i-th goes to key ASSET<i>. */
  const Bootstrap: seq<Asset> := [
    Asset(Str("0001"), Str("9876543210"), Str("1212"), Num(10000),
          Str("active"), Num(0), Str("NA"), Str("Initial Balance"))
  ]

  function BootstrapKey(i: nat): string {
    "ASSET" + NatText(i)
  }

  lemma {:induction false} BootstrapKeysDistinct(i: nat, j: nat)
    ensures BootstrapKey(i) == BootstrapKey(j) ==> i == j
  {
    if BootstrapKey(i) == BootstrapKey(j) {
      assert NatText(i) == BootstrapKey(i)[5..];
      assert NatText(j) == BootstrapKey(j)[5..];
      NatTextValue(i);
      NatTextValue(j);
    }
  }

  ghost predicate SeededKey(k: string, n: nat, i: nat) {
    exists j :: i <= j < n && k == BootstrapKey(j)
  }

  /** The loop of InitLedger from index i on: writes records[j] at
      ASSET<j> for every j >= i, with no existence check. */
  function SeedFrom(l: Ledger, tx: Tx, records: seq<Asset>, i: nat): (r: Ledger)
    requires i <= |records|
    ensures forall j :: i <= j < |records| ==>
      && GetState(r, BootstrapKey(j)) == Some(Encode(records[j]))
      && HistoryFor(r, BootstrapKey(j)) == HistoryFor(l, BootstrapKey(j)) + [PutRecord(tx, Encode(records[j]))]
    ensures forall k :: !SeededKey(k, |records|, i) ==> Untouched(l, r, k)
    ensures Consistent(l) ==> Consistent(r)
    decreases |records| - i
  {
    if i == |records| then l
    else
      var key := BootstrapKey(i);
      var l1 := PutState(l, tx, key, Encode(records[i]));
      var r := SeedFrom(l1, tx, records, i + 1);
      SeedStep(l, l1, r, tx, records, i);
      r
  }

  /** One round of the loop: writing record i at ASSET<i> before the rounds
      from i + 1 on gives the effect of the rounds from i on. */
  lemma {:induction false} SeedStep(l: Ledger, l1: Ledger, r: Ledger, tx: Tx, records: seq<Asset>, i: nat)
    requires i < |records|
    requires Wrote(l, l1, tx, BootstrapKey(i), Encode(records[i]))
    requires forall j :: i + 1 <= j < |records| ==>
      && GetState(r, BootstrapKey(j)) == Some(Encode(records[j]))
      && HistoryFor(r, BootstrapKey(j)) == HistoryFor(l1, BootstrapKey(j)) + [PutRecord(tx, Encode(records[j]))]
    requires forall k :: !SeededKey(k, |records|, i + 1) ==> Untouched(l1, r, k)
    ensures forall j :: i <= j < |records| ==>
      && GetState(r, BootstrapKey(j)) == Some(Encode(records[j]))
      && HistoryFor(r, BootstrapKey(j)) == HistoryFor(l, BootstrapKey(j)) + [PutRecord(tx, Encode(records[j]))]
    ensures forall k :: !SeededKey(k, |records|, i) ==> Untouched(l, r, k)
  {
    var key := BootstrapKey(i);
    forall j | i <= j < |records|
      ensures GetState(r, BootstrapKey(j)) == Some(Encode(records[j]))
      ensures HistoryFor(r, BootstrapKey(j)) == HistoryFor(l, BootstrapKey(j)) + [PutRecord(tx, Encode(records[j]))]
    {
      if j == i {
        forall j' | i + 1 <= j' < |records| ensures key != BootstrapKey(j') {
          BootstrapKeysDistinct(i, j');
        }
        assert !SeededKey(key, |records|, i + 1);
        assert Untouched(l1, r, key);
      } else {
        BootstrapKeysDistinct(i, j);
        assert Untouched(l, l1, BootstrapKey(j));
      }
    }
    forall k | !SeededKey(k, |records|, i) ensures Untouched(l, r, k) {
      assert k != key;
      assert !SeededKey(k, |records|, i + 1);
      assert Untouched(l, l1, k) && Untouched(l1, r, k);
    }
  }

  lemma {:induction false} OnlyFirstKeySeeded()
    ensures BootstrapKey(0) == "ASSET0"
    ensures forall k :: SeededKey(k, |Bootstrap|, 0) <==> k == "ASSET0"
  {
    assert NatText(0) == "0";
  }

  /** InitLedger: always succeeds and overwrites ASSET0 with the bootstrap
      record, whatever was stored there. */
  function InitLedger(l: Ledger, tx: Tx): (r: (Ledger, string))
    ensures r.1 == "Ledger Initialized Successfully"
    ensures Wrote(l, r.0, tx, "ASSET0", Encode(Bootstrap[0]))
    ensures Consistent(l) ==> Consistent(r.0)
  {
    var l' := SeedFrom(l, tx, Bootstrap, 0);
    OnlyFirstKeySeeded();
    assert OnlyKeyChanged(l, l', "ASSET0");
    (l', "Ledger Initialized Successfully")
  }

  // ----- existence and reads -----

  /** AssetExits: the key holds a value and the value is not empty. */
  function AssetExits(l: Ledger, id: string): (r: bool)
    ensures r <==> ReadAsset(l, id).Success?
    ensures r ==> id in l.world
  {
    match GetState(l, id)
    case None => false
    case Some(v) => 0 < |v|
  }

  /** ReadAsset: the stored text, or DoesNotExist when the key holds no
      value or an empty one. Reads change nothing. */
  function ReadAsset(l: Ledger, id: string): (r: Result<string, Error>)
    ensures r.Failure? <==> GetState(l, id).None? || GetState(l, id) == Some("")
    ensures r.Failure? ==> r.error == DoesNotExist(id)
    ensures r.Success? ==> GetState(l, id) == Some(r.value)
  {
    match GetState(l, id)
    case None => Failure(DoesNotExist(id))
    case Some(v) => if |v| == 0 then Failure(DoesNotExist(id)) else Success(v)
  }

  // ----- CreateAsset -----

  /** CreateAsset: refuses a key that already holds a value; otherwise
      stores the record made of the eight arguments, in order. */
  function CreateAsset(
    l: Ledger, tx: Tx, id: string,
    dealerId: Value, msisdn: Value, mpin: Value, balance: Value,
    status: Value, transAmount: Value, transType: Value, remarks: Value
  ): (r: Result<(Ledger, string), Error>)
    ensures r.Failure? <==> AssetExits(l, id)
    ensures r.Failure? ==> r.error == AlreadyExists(id)
    ensures r.Success? ==>
      && Wrote(l, r.value.0, tx, id,
               Encode(Asset(dealerId, msisdn, mpin, balance, status, transAmount, transType, remarks)))
      && r.value.1 == "Asset " + id + " created successfully"
    ensures r.Success? && Consistent(l) ==> Consistent(r.value.0)
  {
    if AssetExits(l, id) then Failure(AlreadyExists(id))
    else
      var asset := Asset(dealerId, msisdn, mpin, balance, status, transAmount, transType, remarks);
      Success((PutState(l, tx, id, Encode(asset)), "Asset " + id + " created successfully"))
  }

  // ----- UpdateAsset -----

  /** UpdateAsset: refuses an absent key; otherwise parses the stored
      record, replaces its last five fields and stores it again. */
  function UpdateAsset(
    l: Ledger, tx: Tx, id: string,
    balance: Value, status: Value, transAmount: Value, transType: Value, remarks: Value
  ): (r: Result<(Ledger, string), Error>)
    ensures !AssetExits(l, id) ==> r == Failure(DoesNotExist(id))
    ensures AssetExits(l, id) ==>
      (r.Success? <==> Decode(GetState(l, id).value).Some?)
    ensures AssetExits(l, id) && r.Failure? ==> r.error == Unparsable(id)
    ensures r.Success? ==>
      && AssetExits(l, id)
      && Decode(GetState(l, id).value).Some?
      && (var before := Decode(GetState(l, id).value).value;
          Wrote(l, r.value.0, tx, id,
                Encode(Asset(before.dealerId, before.msisdn, before.mpin,
                             balance, status, transAmount, transType, remarks))))
      && r.value.1 == "Asset " + id + " updated successfully"
    ensures r.Success? && Consistent(l) ==> Consistent(r.value.0)
  {
    if !AssetExits(l, id) then Failure(DoesNotExist(id))
    else
      match ReadAsset(l, id)
      case Failure(e) => Failure(e)
      case Success(text) =>
        match Decode(text)
        case None => Failure(Unparsable(id))
        case Some(asset) =>
          var updated := asset.(balance := balance, status := status, transAmount := transAmount,
                                transType := transType, remarks := remarks);
          Success((PutState(l, tx, id, Encode(updated)), "Asset " + id + " updated successfully"))
  }

  // ----- GetAssetHistory -----

  /** The literal GetAssetHistory reports for a delete record. */
  const DeletedMarker: string := "Deleted"

  datatype EntryData = Marker(text: string) | Snapshot(asset: Asset)

  datatype HistoryEntry = HistoryEntry(txId: string, timestamp: Timestamp, data: EntryData)

  /** Every write record in h holds a record's encoding. */
  ghost predicate Readable(h: seq<KeyModification>) {
    forall i :: 0 <= i < |h| && !h[i].isDelete ==> Decode(h[i].value).Some?
  }

  function ProjectRecord(id: string, m: KeyModification): Result<HistoryEntry, Error> {
    if m.isDelete then Success(HistoryEntry(m.txId, m.timestamp, Marker(DeletedMarker)))
    else
      match Decode(m.value)
      case None => Failure(Unparsable(id))
      case Some(a) => Success(HistoryEntry(m.txId, m.timestamp, Snapshot(a)))
  }

  /** The loop of GetAssetHistory over the records of key id: one entry per
      record, in the same order, each keeping the record's transaction id
      and timestamp, with the marker for a delete and the parsed record
      otherwise. Throws if some write record does not parse. */
  function ProjectHistory(id: string, h: seq<KeyModification>): (r: Result<seq<HistoryEntry>, Error>)
    ensures r.Success? <==> Readable(h)
    ensures r.Failure? ==> r.error == Unparsable(id)
    ensures r.Success? ==> |r.value| == |h|
    ensures r.Success? ==> forall i :: 0 <= i < |h| ==>
      && r.value[i].txId == h[i].txId
      && r.value[i].timestamp == h[i].timestamp
      && (h[i].isDelete ==> r.value[i].data == Marker(DeletedMarker))
      && (!h[i].isDelete ==> r.value[i].data == Snapshot(Decode(h[i].value).value))
  {
    if |h| == 0 then Success([])
    else
      var first :- ProjectRecord(id, h[0]);
      var rest :- ProjectHistory(id, h[1..]);
      assert forall i :: 1 <= i < |h| ==> h[1..][i - 1] == h[i];
      Success([first] + rest)
  }

  /** GetAssetHistory: the key's history as the runtime reports it. A key
      never written has an empty history, and the result is then empty. */
  function GetAssetHistory(l: Ledger, id: string): (r: Result<seq<HistoryEntry>, Error>)
    ensures r.Success? <==> Readable(HistoryFor(l, id))
    ensures r.Failure? ==> r.error == Unparsable(id)
    ensures r.Success? ==> |r.value| == |HistoryFor(l, id)|
    ensures id !in l.history ==> r == Success([])
  {
    ProjectHistory(id, HistoryFor(l, id))
  }

  // ----- transactions -----

  /** A submitted transaction: one of the contract's writing functions with its arguments. */
  datatype Call =
    | InitLedgerCall
    | CreateAssetCall(id: string, dealerId: Value, msisdn: Value, mpin: Value, balance: Value,
                      status: Value, transAmount: Value, transType: Value, remarks: Value)
    | UpdateAssetCall(id: string, balance: Value, status: Value, transAmount: Value,
                      transType: Value, remarks: Value)

  function Submit(l: Ledger, tx: Tx, c: Call): Result<(Ledger, string), Error> {
    match c
    case InitLedgerCall => Success(InitLedger(l, tx))
    case CreateAssetCall(id, d, ms, mp, b, s, ta, tt, rm) => CreateAsset(l, tx, id, d, ms, mp, b, s, ta, tt, rm)
    case UpdateAssetCall(id, b, s, ta, tt, rm) => UpdateAsset(l, tx, id, b, s, ta, tt, rm)
  }

  /** The ledger after the transaction: its writes on success, nothing on failure. */
  function Commit(l: Ledger, tx: Tx, c: Call): Ledger {
    match Submit(l, tx, c)
    case Success(p) => p.0
    case Failure(_) => l
  }

  /** The ledger after a sequence of transactions, in commit order. */
  function Run(l: Ledger, txs: seq<(Tx, Call)>): Ledger
    decreases |txs|
  {
    if |txs| == 0 then l else Run(Commit(l, txs[0].0, txs[0].1), txs[1..])
  }
}
