/**
 * A document area: one ordered tree of byte keys to byte values, holding for
 * each document id its last revision (under the last-revision key) and the
 * blob of each stored revision (under a blob key). Writes and deletes are
 * compare-and-swap on the last revision and run as one transaction, modelled
 * as changes to a copy of the tree that is committed only on success.
 *
 * Keys are encoded with the codec as the code writes it, so the keys of one
 * document can coincide with keys of another (StoreKeyCodec.LastRevisionAliasesBlob)
 * and the blob scan prefix used by RemoveDocument matches no stored key
 * (StoreKeyCodec.PrefixSelectsOnlyAreaGuid).
 */
module DocumentArea {
  import opened Wrappers
  import opened ByteOrder
  import opened StoreKeyCodec

  type Tree = map<Bytes, Bytes>

  datatype AreaError =
    | RevisionMismatch            // "Your revision does not match last one"
    | RevisionUnderflow           // `rev - 1` at rev == 0: an arithmetic-overflow panic
    | KeyNotFound(id: DocumentId, rev: DocumentRev)

  /** Where the last revision of a document is kept. */
  function LastRevKey(id: DocumentId): (k: Bytes)
    ensures |k| == 8
  {
    KeyBytes(LastRevision(id))
  }

  /** Where one revision of a document is kept. */
  function BlobKey(id: DocumentId, rev: DocumentRev): (k: Bytes)
    ensures |k| == 8
  {
    KeyBytes(Blob(id, rev))
  }

  /**
   * The revision check of both write paths: it passes when no last revision
   * is recorded, or when the recorded bytes are those of rev - 1 (rev >= 1).
   */
  predicate RevisionAccepted(tree: Tree, id: DocumentId, rev: DocumentRev)
    requires rev >= 1
  {
    LastRevKey(id) !in tree || tree[LastRevKey(id)] == BeBytes(rev - 1, 2)
  }

  /**
   * Once the last revision of a document is rev (as an accepted SetDocument
   * leaves it), the revision check passes exactly for rev + 1.
   */
  lemma NextRevisionAccepted(tree: Tree, id: DocumentId, rev: DocumentRev, next: DocumentRev)
    requires LastRevKey(id) in tree && tree[LastRevKey(id)] == BeBytes(rev, 2)
    requires next >= 1
    ensures RevisionAccepted(tree, id, next) <==> next == rev + 1
  {
    Pow256Values();
    BeBytesInjective(rev, next - 1, 2);
  }

  /** With no last revision recorded, the check passes for every revision from 1 up: nothing ties a first write to revision 1. */
  lemma FirstWriteAcceptsAnyRevision(tree: Tree, id: DocumentId, rev: DocumentRev)
    requires LastRevKey(id) !in tree && rev >= 1
    ensures RevisionAccepted(tree, id, rev)
  {
  }

  /** The keys a prefix scan of the tree yields. */
  function ScanPrefix(tree: Tree, prefix: Bytes): (keys: set<Bytes>)
    ensures forall k :: k in keys <==> k in tree && prefix <= k
  {
    set k | k in tree && prefix <= k
  }

  class Area {
    var tree: Tree

    /** An area over an already opened tree. */
    constructor (t: Tree)
      ensures tree == t
    {
      tree := t;
    }

    /**
     * Stores revision rev of document id. The write is refused, and the
     * tree left as it was, when rev is 0 (the code computes rev - 1 before
     * anything else) or when a last revision is recorded that is not
     * rev - 1. Otherwise the last revision becomes rev, the blob of rev
     * becomes val, and the blob of rev - 1 is dropped when a last revision
     * was recorded and keepOldRev is false; no other key changes.
     */
    method SetDocument(id: DocumentId, rev: DocumentRev, val: Bytes, keepOldRev: bool)
      returns (r: Result<DocumentRev, AreaError>)
      modifies this
      ensures rev == 0 ==> r == Err(RevisionUnderflow)
      ensures rev >= 1 && !RevisionAccepted(old(tree), id, rev) ==> r == Err(RevisionMismatch)
      ensures rev >= 1 && RevisionAccepted(old(tree), id, rev) ==> r == Ok(rev)
      ensures r.Err? ==> tree == old(tree)
      ensures r.Ok? ==> LastRevKey(id) in tree && tree[LastRevKey(id)] == BeBytes(rev, 2)
      ensures r.Ok? ==> BlobKey(id, rev) in tree && tree[BlobKey(id, rev)] == val
      ensures r.Ok? ==>
        var dropped := LastRevKey(id) in old(tree) && !keepOldRev;
        && (dropped ==> BlobKey(id, rev - 1) !in tree)
        && (!dropped ==> (BlobKey(id, rev - 1) in tree <==> BlobKey(id, rev - 1) in old(tree)))
        && (!dropped && BlobKey(id, rev - 1) in tree ==> tree[BlobKey(id, rev - 1)] == old(tree)[BlobKey(id, rev - 1)])
      ensures r.Ok? ==> forall k :: k != LastRevKey(id) && k != BlobKey(id, rev) && k != BlobKey(id, rev - 1) ==>
        (k in tree <==> k in old(tree)) && (k in tree ==> tree[k] == old(tree)[k])
    {
      var lastRevKey := LastRevKey(id);
      var stored := if lastRevKey in tree then Some(tree[lastRevKey]) else None;
      if rev == 0 {
        return Err(RevisionUnderflow);
      }
      var expected := BeBytes(rev - 1, 2);
      if stored.Some? && stored.value != expected {
        return Err(RevisionMismatch);
      }
      SameDocumentKeysDistinct(id, rev, rev - 1);
      SameDocumentKeysDistinct(id, rev - 1, rev);
      var tx := tree;
      tx := tx[lastRevKey := BeBytes(rev, 2)];
      tx := tx[BlobKey(id, rev) := val];
      if stored.Some? && !keepOldRev {
        tx := tx - {BlobKey(id, rev - 1)};
      }
      tree := tx;
      return Ok(rev);
    }

    /**
     * Deletes document id: collects the keys under the scan prefix of its
     * blobs into a batch, checks the revision as SetDocument does, then
     * removes the batch and the last-revision key. Refused, with the tree
     * unchanged, on rev 0 or a revision mismatch. Because of the key layout
     * the scan selects no stored document key, so every key other than the
     * last-revision key survives.
     */
    method RemoveDocument(id: DocumentId, rev: DocumentRev, val: Bytes)
      returns (r: Result<(), AreaError>)
      modifies this
      ensures rev == 0 ==> r == Err(RevisionUnderflow)
      ensures rev >= 1 && !RevisionAccepted(old(tree), id, rev) ==> r == Err(RevisionMismatch)
      ensures rev >= 1 && RevisionAccepted(old(tree), id, rev) ==> r == Ok(())
      ensures r.Err? ==> tree == old(tree)
      ensures r.Ok? ==> tree == old(tree) - ScanPrefix(old(tree), DocumentPrefix(Blob(id, rev))) - {LastRevKey(id)}
      ensures r.Ok? ==> forall key: StoreKey :: KeyBytes(key) in old(tree) && KeyBytes(key) != LastRevKey(id) ==>
        KeyBytes(key) in tree && tree[KeyBytes(key)] == old(tree)[KeyBytes(key)]
    {
      var prefix := GetDocumentPrefix(Blob(id, rev));
      var scan := ScanPrefix(tree, prefix);
      var batch: seq<Bytes> := [];
      while scan != {}
        invariant scan <= ScanPrefix(tree, prefix)
        invariant forall k :: k in batch <==> k in ScanPrefix(tree, prefix) - scan
        decreases scan
      {
        var k :| k in scan;
        batch := batch + [k];
        scan := scan - {k};
      }

      var lastRevKey := LastRevKey(id);
      var stored := if lastRevKey in tree then Some(tree[lastRevKey]) else None;
      if rev == 0 {
        return Err(RevisionUnderflow);
      }
      if stored.Some? && stored.value != BeBytes(rev - 1, 2) {
        return Err(RevisionMismatch);
      }
      batch := batch + [lastRevKey];
      var removed := set k | k in batch;
      assert removed == ScanPrefix(tree, prefix) + {lastRevKey};
      tree := tree - removed;
      forall key: StoreKey ensures KeyBytes(key) !in ScanPrefix(old(tree), prefix) {
        PrefixSelectsOnlyAreaGuid(Blob(id, rev), key);
      }
      return Ok(());
    }

    /** The blob of revision rev of document id, or KeyNotFound when none is stored. */
    method GetDocumentRevision(id: DocumentId, rev: DocumentRev) returns (r: Result<Bytes, AreaError>)
      ensures BlobKey(id, rev) in tree ==> r == Ok(tree[BlobKey(id, rev)])
      ensures BlobKey(id, rev) !in tree ==> r == Err(KeyNotFound(id, rev))
    {
      var key := Blob(id, rev);
      var bytes := KeyBytes(key);
      if bytes in tree {
        r := Ok(tree[bytes]);
      } else {
        r := Err(KeyNotFound(id, rev));
      }
    }
  }
}
