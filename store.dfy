/**
 * The owner-key store: a flat string-keyed database in which a document
 * `key` occupies three entries, `last_rev_<key>` (its revision, 4 bytes
 * big-endian), `owner_key_<key>` (the owner recorded by its first writer)
 * and `blob_<key>` (its contents). A write names the revision it expects and
 * may present an owner key; it runs as one transaction, modelled as changes
 * to a copy of the database that is committed only on success.
 */
module OwnerStore {
  import opened Wrappers
  import opened ByteOrder

  type u32 = x: int | 0 <= x < 0x1_0000_0000

  type DocumentRev = u32

  const U32_MAX: int := 0xFFFF_FFFF

  type Db = map<string, Bytes>

  datatype StoreUserError = BadRevision | InvalidOwnerKey

  /** Why a write is refused: a user error, or the panic of `rev + 1` at u32::MAX. */
  datatype SetError = UserError(error: StoreUserError) | RevisionOverflow

  /** Why a read fails: an entry is missing, or the revision entry is not 4 bytes long. */
  datatype GetError = IncorrectState | MalformedRevision

  datatype SubKey = OwnerKey | Blob | LastRev

  /** A physical key: one entry of one document. */
  datatype Key = Key(sub: SubKey, name: string)

  function SubKeyName(sub: SubKey): string
  {
    match sub
    case OwnerKey => "owner_key"
    case Blob => "blob"
    case LastRev => "last_rev"
  }

  /** The Display form of a physical key, `<sub>_<name>`. */
  function KeyString(k: Key): (s: string)
    ensures |s| > |k.name| && s[|s| - |k.name|..] == k.name
  {
    SubKeyName(k.sub) + "_" + k.name
  }

  /** Different physical keys have different strings: no two entries of the store share a key. */
  lemma KeyStringInjective(k1: Key, k2: Key)
    ensures KeyString(k1) == KeyString(k2) <==> k1 == k2
  {
    var s1, s2 := KeyString(k1), KeyString(k2);
    if s1 == s2 {
      assert s1[0] == SubKeyName(k1.sub)[0] && s2[0] == SubKeyName(k2.sub)[0];
      assert k1.sub == k2.sub;
      var n := |SubKeyName(k1.sub)| + 1;
      assert s1[n..] == k1.name && s2[n..] == k2.name;
    }
  }

  lemma KeyStringExample()
    ensures KeyString(Key(Blob, "this_is_my_key")) == "blob_this_is_my_key"
    ensures KeyString(Key(LastRev, "test_key")) == "last_rev_test_key"
    ensures KeyString(Key(OwnerKey, "test_key")) == "owner_key_test_key"
  {
  }

  function LastRevKey(key: string): string { KeyString(Key(LastRev, key)) }

  function OwnerKeyKey(key: string): string { KeyString(Key(OwnerKey, key)) }

  function BlobKey(key: string): string { KeyString(Key(Blob, key)) }

  /** The three entries of one document are distinct entries. */
  lemma EntriesDistinct(key: string)
    ensures LastRevKey(key) != OwnerKeyKey(key)
    ensures LastRevKey(key) != BlobKey(key)
    ensures OwnerKeyKey(key) != BlobKey(key)
  {
    KeyStringInjective(Key(LastRev, key), Key(OwnerKey, key));
    KeyStringInjective(Key(LastRev, key), Key(Blob, key));
    KeyStringInjective(Key(OwnerKey, key), Key(Blob, key));
  }

  /** The revision check: the stored revision is rev, or nothing is stored and rev is 0. */
  predicate RevisionAccepted(db: Db, key: string, rev: DocumentRev)
  {
    var k := LastRevKey(key);
    (k in db && db[k] == BeBytes(rev, 4)) || (k !in db && rev == 0)
  }

  /** The owner check: no owner is recorded, or the presented key is the recorded one. */
  predicate OwnerAccepted(db: Db, key: string, owner: Option<Bytes>)
  {
    var k := OwnerKeyKey(key);
    k !in db || (owner.Some? && db[k] == owner.value)
  }

  /**
   * What an accepted write leaves: revision newRev and contents val, the
   * presented owner recorded if none was, and every other entry as before.
   */
  ghost predicate Written(db: Db, db': Db, key: string, val: Bytes, newRev: DocumentRev, owner: Option<Bytes>)
  {
    && LastRevKey(key) in db' && db'[LastRevKey(key)] == BeBytes(newRev, 4)
    && BlobKey(key) in db' && db'[BlobKey(key)] == val
    && (OwnerKeyKey(key) in db ==> OwnerKeyKey(key) in db' && db'[OwnerKeyKey(key)] == db[OwnerKeyKey(key)])
    && (OwnerKeyKey(key) !in db && owner.Some? ==> OwnerKeyKey(key) in db' && db'[OwnerKeyKey(key)] == owner.value)
    && (OwnerKeyKey(key) !in db && owner.None? ==> OwnerKeyKey(key) !in db')
    && (forall k :: k != LastRevKey(key) && k != BlobKey(key) && k != OwnerKeyKey(key) ==>
          (k in db' <==> k in db) && (k in db' ==> db'[k] == db[k]))
  }

  class Store {
    var db: Db

    /** A store over an already opened database. */
    constructor (d: Db)
      ensures db == d
    {
      db := d;
    }

    /**
     * Writes val as the next revision of key. Refused with BadRevision when
     * the revision check fails, with RevisionOverflow when rev is u32::MAX,
     * and with InvalidOwnerKey when the owner check fails; a refused write
     * changes nothing, although the code inserts the new revision before it
     * checks the owner. An accepted write returns rev + 1.
     */
    method Set(key: string, val: Bytes, rev: DocumentRev, maybeOwnerKey: Option<Bytes>)
      returns (r: Result<DocumentRev, SetError>)
      modifies this
      ensures !RevisionAccepted(old(db), key, rev) ==> r == Err(UserError(BadRevision))
      ensures RevisionAccepted(old(db), key, rev) && rev == U32_MAX ==> r == Err(RevisionOverflow)
      ensures RevisionAccepted(old(db), key, rev) && rev < U32_MAX && !OwnerAccepted(old(db), key, maybeOwnerKey) ==>
        r == Err(UserError(InvalidOwnerKey))
      ensures RevisionAccepted(old(db), key, rev) && rev < U32_MAX && OwnerAccepted(old(db), key, maybeOwnerKey) ==>
        r == Ok(rev + 1)
      ensures r.Err? ==> db == old(db)
      ensures r.Ok? ==> Written(old(db), db, key, val, r.value, maybeOwnerKey)
    {
      EntriesDistinct(key);
      var tx := db;

      // Check rev
      var kLastRev := LastRevKey(key);
      var storedRev := if kLastRev in tx then Some(tx[kLastRev]) else None;
      if !((storedRev.Some? && storedRev.value == BeBytes(rev, 4)) || (storedRev.None? && rev == 0)) {
        return Err(UserError(BadRevision));
      }

      // Set new rev
      if rev == U32_MAX {
        return Err(RevisionOverflow);
      }
      var newRev := rev + 1;
      tx := tx[kLastRev := BeBytes(newRev, 4)];

      // Check owner key
      var kOwnerKey := OwnerKeyKey(key);
      var storedOwner := if kOwnerKey in tx then Some(tx[kOwnerKey]) else None;
      if !(storedOwner.None? || (maybeOwnerKey.Some? && storedOwner.value == maybeOwnerKey.value)) {
        return Err(UserError(InvalidOwnerKey));
      }

      // Set owner key if necessary
      if storedOwner.None? && maybeOwnerKey.Some? {
        tx := tx[kOwnerKey := maybeOwnerKey.value];
      }

      // Set blob
      tx := tx[BlobKey(key) := val];

      db := tx;
      return Ok(newRev);
    }

    /**
     * The revision and contents of key. Fails with IncorrectState unless both
     * the revision and the contents are stored, and with MalformedRevision
     * when the stored revision is not 4 bytes long; never returns Ok(None).
     */
    method Get(key: string) returns (r: Result<Option<(DocumentRev, Bytes)>, GetError>)
      ensures r.Ok? <==> LastRevKey(key) in db && BlobKey(key) in db && |db[LastRevKey(key)]| == 4
      ensures r.Ok? ==> r.value == Some((FromBeBytes(db[LastRevKey(key)]), db[BlobKey(key)]))
      ensures r == Err(MalformedRevision) <==> LastRevKey(key) in db && BlobKey(key) in db && |db[LastRevKey(key)]| != 4
    {
      var kLastRev := LastRevKey(key);
      var rev := if kLastRev in db then Some(db[kLastRev]) else None;
      var kBlob := BlobKey(key);
      var blob := if kBlob in db then Some(db[kBlob]) else None;
      if rev.Some? && blob.Some? {
        if |rev.value| != 4 {
          return Err(MalformedRevision);
        }
        Pow256Values();
        return Ok(Some((FromBeBytes(rev.value), blob.value)));
      }
      return Err(IncorrectState);
    }
  }

  // -----------------------------------------------------------------------
  // What accepted writes promise to the next read and the next write.

  /** After an accepted write, a read returns exactly the new revision and the written contents. */
  lemma WrittenReadsBack(db: Db, db': Db, key: string, val: Bytes, newRev: DocumentRev, owner: Option<Bytes>)
    requires Written(db, db', key, val, newRev, owner)
    ensures LastRevKey(key) in db' && BlobKey(key) in db' && |db'[LastRevKey(key)]| == 4
    ensures FromBeBytes(db'[LastRevKey(key)]) == newRev && db'[BlobKey(key)] == val
  {
    Pow256Values();
    FromBeBytesInverse(newRev, 4);
  }

  /** After an accepted write returning newRev, the next write passes the revision check exactly when it names newRev. */
  lemma NextWriteNeedsReturnedRevision(db: Db, db': Db, key: string, val: Bytes, newRev: DocumentRev,
                                       owner: Option<Bytes>, rev: DocumentRev)
    requires Written(db, db', key, val, newRev, owner)
    ensures RevisionAccepted(db', key, rev) <==> rev == newRev
  {
    Pow256Values();
    BeBytesInjective(rev, newRev, 4);
  }

  /**
   * The owner is fixed by the first writer that presents one: once
   * recorded it is never replaced, and from then on only that key passes
   * the owner check.
   */
  lemma OwnerKeyImmutable(db: Db, db': Db, key: string, val: Bytes, newRev: DocumentRev,
                          owner: Option<Bytes>, next: Option<Bytes>)
    requires Written(db, db', key, val, newRev, owner)
    ensures OwnerKeyKey(key) in db ==> db'[OwnerKeyKey(key)] == db[OwnerKeyKey(key)]
    ensures OwnerKeyKey(key) in db || owner.Some? ==>
      (OwnerAccepted(db', key, next) <==> next == Some(db'[OwnerKeyKey(key)]))
    ensures OwnerKeyKey(key) !in db && owner.None? ==> OwnerAccepted(db', key, next)
  {
  }

  /** An accepted write to key leaves every entry of every other document as it was. */
  lemma WriteIsolatesDocuments(db: Db, db': Db, key: string, val: Bytes, newRev: DocumentRev,
                               owner: Option<Bytes>, other: string, sub: SubKey)
    requires Written(db, db', key, val, newRev, owner)
    requires other != key
    ensures var k := KeyString(Key(sub, other));
      (k in db' <==> k in db) && (k in db' ==> db'[k] == db[k])
  {
    var k := KeyString(Key(sub, other));
    KeyStringInjective(Key(sub, other), Key(LastRev, key));
    KeyStringInjective(Key(sub, other), Key(OwnerKey, key));
    KeyStringInjective(Key(sub, other), Key(Blob, key));
  }
}
