# Versioned document store: key codec and compare-and-swap writes

This project models the core of a small store of versioned documents. The store sits on an
ordered key-value engine (sled) and has three parts:

- **Key codec** (`src/store_key.rs`, module `StoreKeyCodec`). A logical key is one of
  `AreaGuid`, `LastRevision(id)` or `Blob{id, rev}`. It maps to a triple
  (space, id, rev), is packed into a `u64` and is stored as 8 big-endian bytes.
  `get_document_prefix` builds the 6-byte scan prefix (space ∥ id), and `try_from`
  decodes a packed `u64`.
- **Document area** (`src/store_area.rs`, module `DocumentArea`). It is a class over one
  tree `map<Bytes, Bytes>`:
  - `set_document` writes a revision after checking the stored last revision against `rev - 1`.
  - `remove_document` deletes a document under the same check.
  - `get_document_revision` is a point read.
- **Owner-key store** (`src/store.rs`, module `OwnerStore`). It is a class over a
  string-keyed database `map<string, Bytes>`, with entries `last_rev_<key>`,
  `owner_key_<key>` and `blob_<key>`. A write checks a `u32` revision and the owner
  recorded by the first writer.
- **Hash-token store** (`server/src/store.rs`, module `HashStore`). It is a class over
  the same kind of database, with entries `<key>_hash` and `<key>_blob`. A write checks
  an opaque token supplied by the caller.

Each write path runs inside an engine transaction, and an abort discards every write
made so far. The methods model this by working on a copy `tx` of the tree or database
and assigning it back only on success. This matters in `OwnerStore.Store.Set`: the code
inserts the new revision before the owner check, which can still abort.

Arithmetic is on unbounded integers, with the Rust widths made explicit:

- `u8`, `u16`, `u32` and `u64` are subset types.
- Left shifts in the decoder drop bits past bit 63 (`% 2^64`).
- Casts keep the low-order bits.
- `rev - 1` on a `u16` equal to 0 and `rev + 1` on a `u32` equal to `u32::MAX` panic in
  debug builds. They are modelled as the error outcomes `RevisionUnderflow` and
  `RevisionOverflow`, which leave the state unchanged. The panic comes before any write
  reaches the engine.

The code is modelled as written, including where it departs from the intended design:

- The packing uses shifts of 24 and 8, so space, id and revision overlap. Decoding
  therefore inverts encoding only for `AreaGuid`, distinct keys share bytes, and the
  blob scan prefix of `remove_document` matches no stored key. As a result,
  `remove_document` deletes only the last-revision entry and keeps every blob.
- A first write to a document area is meant to succeed at revision 0, with a "no
  revision" sentinel standing for a missing record. In the code,
  `set_document(id, 0, …)` always fails, because `rev - 1` is computed first. A first
  write is accepted at any revision from 1 up.
- Keys are meant to be laid out as a 16-bit space, a 32-bit id and a 16-bit revision side
  by side, so that decoding inverts encoding and a document's scan prefix starts each of
  its keys. The code meets neither, so the model proves what the code does and states
  the intended layout separately (see Findings).
- The unit test next to the hash store's key formatter expects `blob_this_is_my_key`.
  The formatter writes `<key>_<sub>`, which is what the integration tests read. The model
  follows the formatter.

## Model

| member | source | states |
|---|---|---|
| `StoreKeyCodec.ToInts` | src/store_key.rs:36-42 | the triple names its key: space 0 only for `AreaGuid` (id 0), space 1 for `LastRevision(id)`, space 2 for `Blob{id,rev}`, revision 0 outside blobs |
| `StoreKeyCodec.MainId` | src/store_key.rs:44-46 | the packed `(space<<24)+(id<<8)+rev` is below 2^41, so the u64 arithmetic never overflows |
| `StoreKeyCodec.KeyBytes` | src/store_key.rs:44-48 | the stored key is 8 bytes whose big-endian reading is the packed integer |
| `StoreKeyCodec.KeyBytesLeadingZeros` | src/store_key.rs:44-48 | the 8 stored bytes are two zero bytes followed by the 6-byte big-endian form of the packed integer |
| `StoreKeyCodec.DocumentPrefix` | src/store_key.rs:50-66 | the scan prefix is 6 bytes: bytes 0..2 read back as the key's space and bytes 2..6 as its id |
| `StoreKeyCodec.GetDocumentPrefix` | src/store_key.rs:50-66 | the 6-byte buffer filled in place holds the space in bytes 0..2 and the id in bytes 2..6, both big-endian |
| `StoreKeyCodec.DocumentPrefixFields` | src/store_key.rs:50-66 | the prefix of `Blob{id,rev}` does not depend on rev |
| `StoreKeyCodec.FromInts` | src/store_key.rs:79-84 | an accepted triple names the key whose triple it is |
| `StoreKeyCodec.FromIntsInvertsInts` | src/store_key.rs:79-84 | decoding a triple gives key k exactly when the triple is k's, and it fails exactly on triples no key has |
| `StoreKeyCodec.FromIntsRejects` | src/store_key.rs:79-84 | a space outside {0,1,2}, space 0 with a non-zero id or revision, or space 1 with a non-zero revision is rejected; space 2 always gives a blob |
| `StoreKeyCodec.ShiftedId` | src/store_key.rs:76 | `((id << 8) >> 16) as u32` is bits 8..39 of id |
| `StoreKeyCodec.ShiftedRev` | src/store_key.rs:77 | `((id << 24) >> 24) as u16` is bits 0..15 of id |
| `StoreKeyCodec.TryFrom` | src/store_key.rs:74-86 | the shift-and-cast decoder, with u64 wrap on the left shifts, reads space, id and revision at bits 24, 8 and 0 (where the encoder puts them) and decodes that triple |
| `StoreKeyCodec.RoundTripOnlyAreaGuid` | src/store_key.rs:74-84 | decoding the packed integer of a key gives that key back if and only if the key is `AreaGuid` |
| `StoreKeyCodec.LastRevisionDecodesShifted` | src/store_key.rs:75-81 | for id < 65536, `LastRevision(id)` decodes to `LastRevision(id + 65536)` when its low byte is 0, and is rejected otherwise |
| `StoreKeyCodec.BlobDecodesShifted` | src/store_key.rs:75-82 | a blob whose id and revision fit in 24 bits decodes to `Blob{131072 + id + rev/256, (id*256 + rev) mod 65536}` |
| `StoreKeyCodec.RoundTripCounterexamples` | src/store_key.rs:46-82 | `LastRevision(0)` packs to 2^24 and decodes to `LastRevision(65536)`; `Blob{0,0}` decodes to `Blob{131072,0}` |
| `StoreKeyCodec.LastRevisionAliasesBlob` | src/store_key.rs:46 | the last-revision key of id + 65536 has the same bytes as revision 0 of id |
| `StoreKeyCodec.BlobAliasesNextId` | src/store_key.rs:46 | revision rev + 256 of id has the same bytes as revision rev of id + 1 |
| `StoreKeyCodec.KeyBytesCollisions` | src/store_key.rs:46 | the encoding is not injective: `Blob{0,256}`/`Blob{1,0}` and `LastRevision(65536)`/`Blob{0,0}` collide |
| `StoreKeyCodec.KeyBytesSeparate` | src/store_key.rs:46-47 | two keys have equal bytes exactly when their packed integers are equal |
| `StoreKeyCodec.SameDocumentKeysDistinct` | src/store_key.rs:46 | within one document, the last-revision key differs from every blob key, and distinct revisions have distinct blob keys |
| `StoreKeyCodec.DocumentPrefixSelectsNothing` | src/store_key.rs:54-63 | a last-revision or blob prefix starts no stored key, because its byte 1 is the space tag while byte 1 of every key is 0 |
| `StoreKeyCodec.MetadataPrefixSelectsAreaGuid` | src/store_key.rs:50-66 | the metadata prefix (six zero bytes) starts a stored key exactly when that key is `AreaGuid` |
| `StoreKeyCodec.PrefixSelectsOnlyAreaGuid` | src/store_key.rs:46-63 | a prefix starts a stored key if and only if both are `AreaGuid`, so the intended prefix containment fails |
| `StoreKeyCodec.IntendedRoundTrip` | src/store_key.rs:46 | with shifts 48 and 16, decoding inverts encoding for every key |
| `StoreKeyCodec.IntendedKeyBytesLayout` | src/store_key.rs:46-63 | with shifts 48 and 16, the stored bytes are the document prefix followed by the big-endian revision |
| `StoreKeyCodec.IntendedKeyBytesInjective` | src/store_key.rs:46 | with shifts 48 and 16, distinct keys have distinct bytes |
| `StoreKeyCodec.IntendedPrefixContainment` | src/store_key.rs:50-66 | with shifts 48 and 16, a prefix starts a stored key exactly when space and id agree, whatever the revision |
| `DocumentArea.ScanPrefix` | src/store_area.rs:51-58 | the scan yields exactly the stored keys that start with the prefix |
| `DocumentArea.Area.SetDocument` | src/store_area.rs:20-49 | rev 0 fails (underflow) and a recorded last revision other than rev-1 fails (mismatch), both leaving the tree unchanged; otherwise it returns `Ok(rev)`, the last revision holds rev's 2 bytes, the blob of rev holds val, the blob of rev-1 goes exactly when a record existed and keep_old_rev is false and is otherwise untouched (present or absent as before), and every other key is unchanged |
| `DocumentArea.Area.RemoveDocument` | src/store_area.rs:54-88 | same revision check and failure outcomes; on success it removes exactly the keys the blob prefix scan yields plus the last-revision key, so every stored key other than the last-revision key survives |
| `DocumentArea.Area.GetDocumentRevision` | src/store_area.rs:91-102 | returns the value under the blob key of (id, rev), or `KeyNotFound` when that key is absent |
| `DocumentArea.NextRevisionAccepted` | src/store_area.rs:26-37 | once the last revision is rev, the check passes for exactly rev + 1 |
| `DocumentArea.FirstWriteAcceptsAnyRevision` | src/store_area.rs:30-33 | with no last revision recorded, every rev >= 1 passes the check |
| `OwnerStore.KeyString` | src/store.rs:22-31 | the physical key string ends with the document key |
| `OwnerStore.KeyStringInjective` | src/store.rs:22-31 | `<sub>_<key>` strings are equal exactly when sub and key are |
| `OwnerStore.KeyStringExample` | src/store.rs:38-42 | `Key(Blob, "this_is_my_key")` displays as `blob_this_is_my_key` |
| `OwnerStore.EntriesDistinct` | src/store.rs:73-99 | the three entries of one document are distinct keys |
| `OwnerStore.Store.Set` | src/store.rs:62-110 | BadRevision unless the stored revision is rev (or nothing is stored and rev is 0); RevisionOverflow at u32::MAX; InvalidOwnerKey when an owner is recorded and the presented key is missing or different; every refusal leaves the database unchanged; success returns rev+1 and leaves revision rev+1, blob val and the owner recorded on first presentation, with every other entry unchanged |
| `OwnerStore.Store.Get` | src/store.rs:112-135 | `Ok(Some((rev, blob)))` exactly when both entries exist and the revision is 4 bytes; `MalformedRevision` when it is not 4 bytes; otherwise `IncorrectState`; never `Ok(None)` |
| `OwnerStore.WrittenReadsBack` | src/store.rs:80-102 | after an accepted write, the entries read back as the new revision and the written blob |
| `OwnerStore.NextWriteNeedsReturnedRevision` | src/store.rs:74-82 | after a write returning n, the next revision check passes for exactly n |
| `OwnerStore.OwnerKeyImmutable` | src/store.rs:86-96 | a recorded owner is never replaced; once recorded, only that key passes the owner check; with none recorded, every key passes |
| `OwnerStore.WriteIsolatesDocuments` | src/store.rs:73-100 | a write to one key leaves every entry of every other key unchanged |
| `HashStore.KeyString` | server/src/store.rs:19-28 | the physical key string is the document key followed by 5 more characters |
| `HashStore.KeyStringInjective` | server/src/store.rs:19-28 | `<key>_<sub>` strings are equal exactly when key and sub are |
| `HashStore.KeyStringExample` | server/src/store.rs:26-37 | `test_key` maps to `test_key_hash` and `test_key_blob`; `this_is_my_key` maps to `this_is_my_key_blob`, not the unit test's `blob_this_is_my_key` |
| `HashStore.Store.Set` | server/src/store.rs:58-91 | succeeds exactly when no token is stored and none is expected, or the stored token equals the expected one; a refusal is `InvalidHash` and changes nothing; success stores newHash verbatim and val and nothing else |
| `HashStore.Store.Get` | server/src/store.rs:93-104 | `Some(blob)` when `<key>_blob` exists, `None` when it does not |
| `HashStore.Written` | server/src/store.rs:76-81 | after an accepted write, the blob entry holds val and the token entry holds newHash |
| `HashStore.NextWriteNeedsNewHash` | server/src/store.rs:70-81 | after an accepted write with token h, the next check passes for exactly `Some(h)` |
| `HashStore.NoneOnlyForNewDocuments` | server/src/store.rs:70-74 | expecting `None` passes exactly when no token is stored; otherwise only the stored token passes |
| `HashStore.WriteIsolatesDocuments` | server/src/store.rs:69-81 | a write to one key leaves both entries of every other key unchanged |

## Left out

- Engine errors: sled's I/O errors on `get`, `insert`, `remove` and `apply_batch` are not modelled. The tree and the databases are plain maps whose operations cannot fail.
- Engine concurrency: transactions are modelled as commit-on-success over a copy, not as a concurrency protocol. The reads through `self.tree` outside the transaction (src/store_area.rs:27, 68) and the prefix scan before it (src/store_area.rs:55-62) are therefore ordinary sequential reads.
- Release builds: integer overflow wraps in release builds instead of panicking, and only the debug-build panics are modelled.
  - `rev - 1` at rev 0 (src/store_area.rs) wraps to 65535; the model has `RevisionUnderflow`.
  - `OwnerStore.Store.Set`: `rev + 1` at `u32::MAX` (src/store.rs:81) wraps to 0, so a release build stores revision 0, returns 0, and lets the next write at revision 0 pass the check again. The model refuses with `RevisionOverflow` and changes nothing.
- Opening stores and areas: `Area::init`, `Store::init_from_path` and `inner_tree`/`inner_db` only open or expose engine handles. The constructors stand for `init_from_db` and for building an `Area` from a tree.
- Encodings: keys are strings and hash tokens are their bytes. UTF-8 encoding is not modelled; it is injective, so key equality is unaffected.
- Error messages: the anyhow/thiserror message texts are reduced to datatype constructors.
- Scan order: `RemoveDocument` builds the batch from the set of scanned keys rather than in key order. Deleting a set of keys does not depend on the order.
- Other files: src/storage.rs, src/main.rs and server/src/main.rs (HTTP routes, header handling, status codes, file I/O) are not part of this model.

## Findings

| source | as written | input that shows it | evidently intended | confidence | as-written member | corrected member |
|---|---|---|---|---|---|---|
| src/store_key.rs:46 | packs `(space<<24)+(id<<8)+rev`, so the 16-bit space, 32-bit id and 16-bit revision overlap, and `try_from` does not invert it | `LastRevision(0)` packs to 2^24 and decodes to `LastRevision(65536)` | `(space<<48)+(id<<16)+rev`, decoded by `>>48`, `>>16`, `as u16` | high, not executed | `StoreKeyCodec.RoundTripOnlyAreaGuid` | `StoreKeyCodec.IntendedRoundTrip` |
| src/store_key.rs:46 | distinct keys share stored bytes, so a write to one document can overwrite another document's entries | `Blob{0,256}` and `Blob{1,0}`; `LastRevision(65536)` and `Blob{0,0}` | an injective layout | high, not executed | `StoreKeyCodec.KeyBytesCollisions` | `StoreKeyCodec.IntendedKeyBytesInjective` |
| src/store_key.rs:50-66 | the scan prefix (space in bytes 0..2, id in bytes 2..6) does not match the key layout, so `remove_document` deletes no blob | the prefix of `Blob{id,_}` has byte 1 = 2, while byte 1 of every key is 0 | keys whose first 6 bytes are the prefix | high, not executed | `StoreKeyCodec.PrefixSelectsOnlyAreaGuid` | `StoreKeyCodec.IntendedPrefixContainment` |

The document area is modelled with the as-written key layout, because its contracts
describe the behaviour of the code. The corrected layout is defined beside the codec
(`IntendedMainId`, `IntendedKeyBytes`, `IntendedTryFrom`), and the properties above are
proved for it.
