/**
 * The hash-token store used by the HTTP server: a flat string-keyed
 * database in which a document `key` occupies two entries, `<key>_hash`
 * (the token of its last write) and `<key>_blob` (its contents). A write
 * names the token it expects to replace and supplies the next one; the
 * token is opaque to the store and never derived from the contents. A write
 * runs as one transaction, modelled as changes to a copy of the database
 * that is committed only on success.
 */
module HashStore {
  import opened Wrappers
  import opened ByteOrder

  type Db = map<string, Bytes>

  /** A hash token, held as the bytes of its text. */
  type DocumentHash = Bytes

  datatype StoreUserError = InvalidHash

  datatype SubKey = Blob | Hash

  /** A physical key: one entry of one document. */
  datatype Key = Key(sub: SubKey, name: string)

  function SubKeyName(sub: SubKey): string
  {
    match sub
    case Blob => "blob"
    case Hash => "hash"
  }

  /** The Display form of a physical key, `<name>_<sub>`. */
  function KeyString(k: Key): (s: string)
    ensures |s| == |k.name| + 5 && s[..|k.name|] == k.name
  {
    k.name + "_" + SubKeyName(k.sub)
  }

  /** Different physical keys have different strings: no two entries of the store share a key. */
  lemma KeyStringInjective(k1: Key, k2: Key)
    ensures KeyString(k1) == KeyString(k2) <==> k1 == k2
  {
    var s1, s2 := KeyString(k1), KeyString(k2);
    if s1 == s2 {
      assert |k1.name| == |k2.name|;
      assert k1.name == s1[..|k1.name|] == s2[..|k2.name|] == k2.name;
      assert s1[|s1| - 1] == SubKeyName(k1.sub)[3] && s2[|s2| - 1] == SubKeyName(k2.sub)[3];
    }
  }

  /**
   * The layout the server's own tests read (`test_key_hash`, `test_key_blob`);
   * the expectation `blob_this_is_my_key` of the unit test beside the
   * formatter does not hold.
   */
  lemma KeyStringExample()
    ensures KeyString(Key(Hash, "test_key")) == "test_key_hash"
    ensures KeyString(Key(Blob, "test_key")) == "test_key_blob"
    ensures KeyString(Key(Blob, "this_is_my_key")) == "this_is_my_key_blob" != "blob_this_is_my_key"
  {
  }

  function HashKey(key: string): string { KeyString(Key(Hash, key)) }

  function BlobKey(key: string): string { KeyString(Key(Blob, key)) }

  /**
   * The token check: nothing is stored and nothing is expected, or the
   * stored token is the expected one.
   */
  predicate HashAccepted(db: Db, key: string, expected: Option<DocumentHash>)
  {
    var k := HashKey(key);
    (k !in db && expected.None?) || (k in db && expected.Some? && db[k] == expected.value)
  }

  class Store {
    var db: Db

    /** A store over an already opened database. */
    constructor (d: Db)
      ensures db == d
    {
      db := d;
    }

    /**
     * Writes val under key when the token check passes, storing newHash as
     * the token the next write must present; otherwise refuses with
     * InvalidHash and changes nothing.
     */
    method Set(key: string, val: Bytes, hash: Option<DocumentHash>, newHash: DocumentHash)
      returns (r: Result<(), StoreUserError>)
      modifies this
      ensures r.Ok? <==> HashAccepted(old(db), key, hash)
      ensures r.Err? ==> r.error == InvalidHash && db == old(db)
      ensures r.Ok? ==> db == Written(old(db), key, val, newHash)
    {
      var tx := db;

      // Check hash
      var kHash := HashKey(key);
      var stored := if kHash in tx then Some(tx[kHash]) else None;
      if !((stored.None? && hash.None?) || (stored.Some? && hash.Some? && stored.value == hash.value)) {
        return Err(InvalidHash);
      }

      // Set new hash
      tx := tx[kHash := newHash];

      // Set blob
      tx := tx[BlobKey(key) := val];

      db := tx;
      return Ok(());
    }

    /** The contents of key, or None when nothing is stored; absence is not an error. */
    method Get(key: string) returns (r: Option<Bytes>)
      ensures r.Some? <==> BlobKey(key) in db
      ensures r.Some? ==> r.value == db[BlobKey(key)]
    {
      var kBlob := BlobKey(key);
      if kBlob in db {
        r := Some(db[kBlob]);
      } else {
        r := None;
      }
    }
  }

  // -----------------------------------------------------------------------
  // What an accepted write promises to the next read and the next write.

  /** The database an accepted write of val with token newHash leaves. */
  function Written(db: Db, key: string, val: Bytes, newHash: DocumentHash): (db': Db)
    ensures BlobKey(key) in db' && db'[BlobKey(key)] == val
    ensures HashKey(key) in db' && db'[HashKey(key)] == newHash
  {
    KeyStringInjective(Key(Hash, key), Key(Blob, key));
    db[HashKey(key) := newHash][BlobKey(key) := val]
  }

  /** After an accepted write, the next write passes exactly when it expects the token just stored. */
  lemma NextWriteNeedsNewHash(db: Db, key: string, val: Bytes, newHash: DocumentHash, expected: Option<DocumentHash>)
    ensures HashAccepted(Written(db, key, val, newHash), key, expected) <==> expected == Some(newHash)
  {
  }

  /** A first write must expect no token, and a later write must expect the stored one: None is refused once a token is stored. */
  lemma NoneOnlyForNewDocuments(db: Db, key: string)
    ensures HashAccepted(db, key, None) <==> HashKey(key) !in db
    ensures HashKey(key) in db ==> forall t :: HashAccepted(db, key, Some(t)) <==> t == db[HashKey(key)]
  {
  }

  /** An accepted write to key leaves both entries of every other document as they were. */
  lemma WriteIsolatesDocuments(db: Db, key: string, val: Bytes, newHash: DocumentHash, other: string, sub: SubKey)
    requires other != key
    ensures var k := KeyString(Key(sub, other));
      var db' := Written(db, key, val, newHash);
      (k in db' <==> k in db) && (k in db' ==> db'[k] == db[k])
  {
    KeyStringInjective(Key(sub, other), Key(Hash, key));
    KeyStringInjective(Key(sub, other), Key(Blob, key));
  }
}
