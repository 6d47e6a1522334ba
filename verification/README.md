# Asset contract ledger model

A Dafny model of `AssetContract`, the Hyperledger Fabric chaincode in
`lib/chaincode.js`. The contract keeps dealer balance records ("assets") in
the ledger's world state, one record per key. The ledger also keeps a
per-key history of every write. The model proves what each transaction
function does to both.

Each transaction function is a pure function. It takes the ledger before
the transaction and the transaction's id and timestamp. It returns either
an `Error` or the ledger after the transaction together with the function's
return value. A failed transaction carries no ledger, because the runtime
commits none of its writes.

Files, in dependency order:

- `wrappers.dfy` (`Wrappers`): `Option` and `Result`.
- `json.dfy` (`Json`): the JSON the contract reads and writes. Field values
  are strings or integers. They are written the way `JSON.stringify` writes
  them: short escapes, lower-case `\u00XX` for other control characters,
  and integers without leading zeros. A strict parser reads them back.
- `assets.dfy` (`Assets`): the eight-field `Asset` record. Its stored form
  is the JSON object with the keys in source order. `Decode(s) == Some(a)`
  holds exactly when `s == Encode(a)`.
- `store.dfy` (`Store`): the ledger. The world state maps a key to its
  stored text. Each key has a history of `KeyModification` records, oldest
  first. `PutState` and `DeleteState` each append one record.
  `Consistent` says the world state is what the histories imply.
- `chaincode.dfy` (`AssetContract`): `InitLedger`, `AssetExits`,
  `ReadAsset`, `CreateAsset`, `UpdateAsset` and `GetAssetHistory`.
  `Submit`, `Commit` and `Run` apply a sequence of transactions.
- `properties.dfy` (`AssetProperties`): properties that relate several
  calls. They cover create-then-read, update-then-read, idempotence of
  `InitLedger` and how each write extends the history. They also prove one
  invariant, `WellFormed`: every ledger reachable from the empty one
  holds only parsable records. So on those ledgers the `JSON.parse` calls
  in `UpdateAsset` and `GetAssetHistory` never throw.

Inputs that come from outside the contract are parameters:

- The transaction id and timestamp (`Tx`).
- The history records, which the Fabric runtime produces (`Ledger.history`).

Points where `lib/chaincode.js` behaves in a way a reader might not expect,
and which the model keeps:

- `CreateAsset` and `UpdateAsset` do not validate `BALANCE` or `TRANSAMOUNT`
  (lines 31-48 and 66-79). Values are stored as given.
- `GetAssetHistory` on a key that was never written returns an empty list,
  not an error (lines 90-105): the loop simply runs zero times.
- `InitLedger` overwrites `ASSET0` unconditionally, with no existence check
  (lines 20-25).
- The contract throws plain `Error`s whose only content is a message
  (lines 35, 57 and 69). The model gives each a kind (`AlreadyExists`,
  `DoesNotExist`, `Unparsable`). `AssetContract.Message` gives the message
  text of the first two.

## Model

| member | source | states |
|---|---|---|
| `Json.NatText` | lib/chaincode.js:22-23 | the decimal text of a non-negative integer is non-empty, all digits, and begins with '0' only for zero |
| `Json.ValueNatText` | lib/chaincode.js:22-23 | every canonical digit run is the text of the number it denotes, so printing is onto the canonical texts |
| `Json.ParseEncodedValue` | lib/chaincode.js:72-79 | parsing a written string or integer value gives the value back and leaves the rest of the text unread |
| `Json.EncodedValueOfParse` | lib/chaincode.js:100 | every value the parser accepts is exactly the text written for it, followed by the unread rest |
| `Json.ParseEscaped` | lib/chaincode.js:23 | a string literal body written with the stringify escapes parses back to the original characters, for every string |
| `Json.EscapedOfParse` | lib/chaincode.js:100 | every string body the parser accepts is the escaped form of what it returns |
| `Assets.Encode` | lib/chaincode.js:48 | `JSON.stringify` of a record, as at lines 23, 48 and 79: the text opens with '{' and is not empty; with `Assets.DecodeIffEncode` it is the one text that parses back to the record |
| `Assets.Decode` | lib/chaincode.js:72 | `JSON.parse` of a stored record, as at lines 72 and 100: it accepts only text that opens with '{' and ends with '}'; `Assets.DecodeIffEncode` states exactly which texts it accepts |
| `Assets.DecodeEncode` | lib/chaincode.js:72-79 | parsing a stored record gives back the record whose encoding was stored |
| `Assets.EncodeDecode` | lib/chaincode.js:100 | any text that parses as a record is that record's encoding, so different records never share a stored form |
| `Assets.DecodeIffEncode` | lib/chaincode.js:38-48 | a text parses to record a exactly when it is a's encoding |
| `Store.PutState` | test/test-chaincode.js:36-41 | putState overwrites the key's value whatever it held, appends one write record to that key's history, touches no other key, and keeps world state and history consistent |
| `Store.DeleteState` | test/test-chaincode.js:51-56 | deleteState removes the key, appends one delete record to its history, touches no other key, and keeps world state and history consistent |
| `Store.GetState` | test/test-chaincode.js:43-49 | getState yields nothing exactly for a key absent from the world state, and otherwise the text stored there |
| `Store.HistoryFor` | lib/chaincode.js:91 | getHistoryForKey yields the key's recorded list, and the empty list for a key never written |
| `Store.GetAfterPut` | test/test-chaincode.js:36-49 | after putState, getState returns the value just put at that key and the old value at every other key |
| `Store.GetAfterDelete` | test/test-chaincode.js:43-56 | after deleteState, getState yields nothing at that key and the old value at every other key |
| `AssetContract.Message` | lib/chaincode.js:35 | the error text, as at lines 35, 57 and 69: it starts "The asset " followed by the id, and ends in 's' for "already exists" and in 't' for "does not exist"; the two phrases themselves come from its definition |
| `AssetContract.MessageDistinguishes` | lib/chaincode.js:35 | two errors with the same message text are the same error: the text determines both the kind and the asset id |
| `AssetContract.BootstrapKeysDistinct` | lib/chaincode.js:20-24 | the keys ASSET<i> written by the loop are pairwise different |
| `AssetContract.OnlyFirstKeySeeded` | lib/chaincode.js:7-22 | with the one bootstrap record, the loop writes only the key ASSET0 |
| `AssetContract.SeedFrom` | lib/chaincode.js:20-25 | from index i on, the loop leaves record j encoded at ASSET<j> with exactly one new write record per key, and changes no other key |
| `AssetContract.InitLedger` | lib/chaincode.js:6-27 | always succeeds with 'Ledger Initialized Successfully'; ASSET0 holds the bootstrap record's encoding whatever it held before, its history gains one record, and no other key changes |
| `AssetContract.AssetExits` | lib/chaincode.js:83-86 | holds exactly when ReadAsset succeeds, that is, when the key holds a non-empty value; it never holds for a key absent from the world state |
| `AssetContract.ReadAsset` | lib/chaincode.js:54-61 | fails with DoesNotExist(id) exactly when the key holds no value or an empty one, and otherwise returns the stored text unchanged |
| `AssetContract.CreateAsset` | lib/chaincode.js:31-50 | fails with AlreadyExists(id) exactly when the asset exists; otherwise stores the encoding of the record made of the eight arguments in order, appends one history record for id, changes no other key, and returns 'Asset <id> created successfully' |
| `AssetContract.UpdateAsset` | lib/chaincode.js:66-81 | fails with DoesNotExist(id) when the asset does not exist and with Unparsable(id) when the stored text does not parse; otherwise stores the record with the five new values and the previous DEALERID, MSISDN and MPIN, appends one history record, changes no other key |
| `AssetContract.ProjectHistory` | lib/chaincode.js:90-105 | succeeds exactly when every write record holds a record's canonical encoding; then gives one entry per record in the same order, with the record's txId and timestamp, 'Deleted' for a delete and the parsed record otherwise |
| `AssetContract.GetAssetHistory` | lib/chaincode.js:90-105 | succeeds exactly when every write record of the key holds a record's canonical encoding, else fails with Unparsable(id) (weaker than the source for valid non-canonical JSON, see Left out); reports one entry per record; a key never written gives an empty list |
| `AssetProperties.CreateThenRead` | lib/chaincode.js:38-60 | after a successful create, reading the key succeeds and its text parses to the eight arguments in order |
| `AssetProperties.UpdateThenRead` | lib/chaincode.js:72-79 | after a successful update, the record read back has the five new values and the previous DEALERID, MSISDN and MPIN |
| `AssetProperties.InitLedgerThenRead` | lib/chaincode.js:8-24 | after InitLedger, ASSET0 reads back as the bootstrap record with its eight values |
| `AssetProperties.InitLedgerIdempotent` | lib/chaincode.js:20-25 | calling InitLedger twice leaves the same world state as calling it once |
| `AssetProperties.StoredDecodes` | lib/chaincode.js:72 | on a well-formed ledger every stored value parses |
| `AssetProperties.WriteKeepsWellFormed` | lib/chaincode.js:48 | writing a record's encoding keeps a ledger well formed |
| `AssetProperties.CommitKeepsWellFormed` | lib/chaincode.js:6-81 | every transaction, committed or refused, keeps a ledger well formed |
| `AssetProperties.RunKeepsWellFormed` | lib/chaincode.js:6-81 | any sequence of transactions keeps a ledger well formed |
| `AssetProperties.ReachableWellFormed` | lib/chaincode.js:6-81 | every ledger the contract can produce from the empty ledger is well formed |
| `AssetProperties.UpdateSucceedsIffExists` | lib/chaincode.js:66-79 | on a well-formed ledger the parse in UpdateAsset never throws, so UpdateAsset succeeds exactly when the asset exists |
| `AssetProperties.HistoryAlwaysReported` | lib/chaincode.js:90-105 | on a well-formed ledger GetAssetHistory never throws and reports one entry per history record |
| `AssetProperties.ProjectAppend` | lib/chaincode.js:94-103 | one more history record gives exactly one more entry at the end, and earlier entries stay as they were |
| `AssetProperties.CreateAppendsHistory` | lib/chaincode.js:38-49 | a successful create adds, after all earlier entries of the key, one entry carrying its own txId and timestamp and the new record |
| `AssetProperties.UpdateAppendsHistory` | lib/chaincode.js:72-80 | a successful update adds one entry at the end of the key's history, holding the updated record |
| `AssetProperties.DeleteKeepsHistory` | lib/chaincode.js:97-101 | after the store deletes a key the asset no longer exists, but its history keeps every earlier entry and ends with 'Deleted' |
| `AssetProperties.CommitExtendsHistory` | lib/chaincode.js:6-81 | no transaction removes or alters a history record: each key's old history is a prefix of its new one |
| `AssetProperties.RunExtendsHistory` | lib/chaincode.js:6-81 | across any sequence of transactions each key's history only grows at the end |

## Left out

- `app.js`: Express routing, wallet and connection-profile reads, and gateway sessions. This is I/O with no contract logic.
- `DeleteAsset` and `TransferAsset`: the tests call them, but `lib/chaincode.js` does not define them. Only the store's `deleteState` is modelled, as the source of delete records in a history.
- The Fabric runtime: txId and timestamp generation, endorsement, ordering and MVCC conflict checks. The runtime keeps one history record per key per transaction; the contract never writes a key twice in one transaction, so this does not matter here. These are inputs or out of scope.
- `putState` rejection and other persistence failures: these are store errors, not contract logic.
- `async`/`await` and the history iterator protocol: the iterator is modelled as the finite sequence it walks.
- The order of the history iterator: the model assumes `getHistoryForKey` yields a key's records oldest first, so a key's last entry is its most recent write. The iterator order is the Fabric runtime's, not the contract's, and Fabric 2.x actually iterates newest first. Under that order `CreateAppendsHistory`, `UpdateAppendsHistory` and `DeleteKeepsHistory` would hold with the new entry at the front of the reported list instead of at its end.
- `Buffer` and UTF-8: the stored bytes are modelled as the text they encode.
- JavaScript numbers: values are integers or strings only. Fractions, exponents, precision loss above 2^53, and other JSON types (booleans, null, nested objects) are not modelled.
- `undefined` arguments: `JSON.stringify` drops such a key. Every argument here is a value.
- Lone UTF-16 surrogates: Dafny characters are Unicode scalar values, so the `\uDXXX` escapes for them are not modelled.
- The message of a `JSON.parse` `SyntaxError`: only its kind, `Unparsable(id)`, is modelled.
- `AssetExits` returns `undefined` (falsy) for an absent key. The model returns `false`.
- AssetContract.UpdateAsset: the stored text might be valid JSON but not the canonical encoding of a record, for example with whitespace, another key order, or extra keys. The model then fails with Unparsable. If the text is valid JSON for an object, the source would parse it and write it back with the five fields replaced. (If it is JSON for `null` or a primitive, the assignment at line 73 throws a `TypeError` in strict mode.) The contract never writes such text, and `ReachableWellFormed` proves no ledger it produces holds any.
- AssetContract.ProjectHistory and AssetContract.GetAssetHistory: likewise, a write record holding valid but non-canonical JSON fails with Unparsable. The source would report whatever object `JSON.parse` returns.
