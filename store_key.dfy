/**
 * The binary key codec of a document area: a logical key (area metadata,
 * last-revision index of a document, blob of one revision of a document) is
 * packed into a 64-bit integer and stored as its 8 big-endian bytes.
 *
 * The packing is modelled exactly as the code writes it, with shifts of 24
 * and 8 bits, although the layout it is meant to produce (a 16-bit space, a
 * 32-bit id and a 16-bit revision side by side) needs shifts of 48 and 16.
 * The lemmas below settle what the written codec does and does not promise;
 * the `Intended*` members at the end define the side-by-side layout and prove
 * the promises for it.
 */
module StoreKeyCodec {
  import opened Wrappers
  import opened ByteOrder

  type u16 = x: int | 0 <= x < 0x1_0000
  type u32 = x: int | 0 <= x < 0x1_0000_0000
  type u64 = x: int | 0 <= x < 0x1_0000_0000_0000_0000

  const TWO_64: int := 0x1_0000_0000_0000_0000

  type Space = u16
  type DocumentRev = u16
  type DocumentId = u32

  const SPACE_AREA_METADATA: Space := 0
  const SPACE_DOCUMENT_LAST_REVS: Space := 1
  const SPACE_DOCUMENT_BLOBS: Space := 2

  /** The id and revision the area-metadata key carries. */
  const AREA_UUID: DocumentId := 0
  const BASE_REV: DocumentRev := 0

  /** The three key spaces, each with its 16-bit tag. */
  datatype SpaceEnum = AreaMetadatas | DocumentLastRevs | DocumentsBlobs
  {
    function Value(): Space
    {
      match this
      case AreaMetadatas => SPACE_AREA_METADATA
      case DocumentLastRevs => SPACE_DOCUMENT_LAST_REVS
      case DocumentsBlobs => SPACE_DOCUMENT_BLOBS
    }
  }

  datatype StoreKey =
    | AreaGuid
    | LastRevision(id: DocumentId)
    | Blob(id: DocumentId, rev: DocumentRev)

  datatype KeyError = UnsupportedInteger

  /** The (space, id, revision) triple of a key. */
  function ToInts(key: StoreKey): (r: (SpaceEnum, DocumentId, DocumentRev))
    ensures r.0 == AreaMetadatas ==> key == AreaGuid && r.1 == AREA_UUID
    ensures r.0 == DocumentLastRevs ==> key == LastRevision(r.1)
    ensures r.0 == DocumentsBlobs ==> key == Blob(r.1, r.2)
    ensures r.0 != DocumentsBlobs ==> r.2 == BASE_REV
  {
    match key
    case AreaGuid => (AreaMetadatas, AREA_UUID, BASE_REV)
    case Blob(id, rev) => (DocumentsBlobs, id, rev)
    case LastRevision(id) => (DocumentLastRevs, id, BASE_REV)
  }

  /** The numeric form of ToInts, as the packing and the decoder see it. */
  function Ints(key: StoreKey): (Space, DocumentId, DocumentRev)
  {
    var (a, b, c) := ToInts(key);
    (a.Value(), b, c)
  }

  /**
   * The packed integer `(space << 24) + (id << 8) + rev`. It never exceeds
   * 2^41, so the u64 arithmetic of the source cannot overflow.
   */
  function MainId(key: StoreKey): (v: u64)
    ensures v < 0x200_0000_0000
  {
    var (a, b, c) := ToInts(key);
    a.Value() * 0x100_0000 + b * 0x100 + c
  }

  /** The 8 stored bytes of a key: the big-endian form of its packed integer. */
  function KeyBytes(key: StoreKey): (r: Bytes)
    ensures |r| == 8
    ensures FromBeBytes(r) == MainId(key)
  {
    Pow256Values();
    FromBeBytesInverse(MainId(key), 8);
    BeBytes(MainId(key), 8)
  }

  /** The 6-byte scan prefix of a key: 2 bytes of space, then 4 bytes of id. */
  function DocumentPrefix(key: StoreKey): (r: Bytes)
    ensures |r| == 6
    ensures FromBeBytes(r[..2]) == Ints(key).0 && FromBeBytes(r[2..]) == Ints(key).1
  {
    var (a, b, _) := ToInts(key);
    var r := BeBytes(a.Value(), 2) + BeBytes(b, 4);
    assert r[..2] == BeBytes(a.Value(), 2) && r[2..] == BeBytes(b, 4);
    Pow256Values();
    FromBeBytesInverse(a.Value(), 2);
    FromBeBytesInverse(b, 4);
    r
  }

  /**
   * Builds the scan prefix in a 6-byte buffer: the two space bytes go to
   * places 0 and 1, the four id bytes to places 2 to 5.
   */
  method GetDocumentPrefix(key: StoreKey) returns (prefix: Bytes)
    ensures |prefix| == 6
    ensures FromBeBytes(prefix[..2]) == Ints(key).0
    ensures FromBeBytes(prefix[2..]) == Ints(key).1
    ensures prefix == DocumentPrefix(key)
  {
    var res := new u8[6](_ => 0);
    var (a, b, _) := ToInts(key);
    var aBytes := BeBytes(a.Value(), 2);
    var bBytes := BeBytes(b, 4);
    for i := 0 to 2
      invariant forall j :: 0 <= j < i ==> res[j] == aBytes[j]
    {
      res[i] := aBytes[i];
    }
    for i := 0 to 4
      invariant forall j :: 0 <= j < 2 ==> res[j] == aBytes[j]
      invariant forall j :: 0 <= j < i ==> res[2 + j] == bBytes[j]
    {
      res[2 + i] := bBytes[i];
    }
    prefix := res[..];
    assert prefix[..2] == aBytes;
    assert prefix[2..] == bBytes;
    Pow256Values();
    FromBeBytesInverse(a.Value(), 2);
    FromBeBytesInverse(b, 4);
  }

  /** The triples the decoder accepts, and the key each one names. */
  function FromInts(a: Space, b: DocumentId, c: DocumentRev): (r: Result<StoreKey, KeyError>)
    ensures r.Ok? ==> Ints(r.value) == (a, b, c)
  {
    if a == SPACE_AREA_METADATA && b == AREA_UUID && c == BASE_REV then Ok(AreaGuid)
    else if a == SPACE_DOCUMENT_LAST_REVS && c == BASE_REV then Ok(LastRevision(b))
    else if a == SPACE_DOCUMENT_BLOBS then Ok(Blob(b, c))
    else Err(UnsupportedInteger)
  }

  /**
   * The decoder: `(id >> 24) as u16`, `((id << 8) >> 16) as u32` and
   * `((id << 24) >> 24) as u16`, where a left shift drops the bits pushed
   * past bit 63 and a cast keeps the low-order bits. It reads the space,
   * id and revision at bits 24, 8 and 0, where the encoder writes them.
   */
  function TryFrom(id: u64): (r: Result<StoreKey, KeyError>)
    ensures r == FromInts((id / 0x100_0000) % 0x1_0000, (id / 0x100) % 0x1_0000_0000, id % 0x1_0000)
  {
    ShiftedId(id);
    ShiftedRev(id);
    var a := (id / 0x100_0000) % 0x1_0000;
    var b := ((id * 0x100) % TWO_64 / 0x1_0000) % 0x1_0000_0000;
    var c := ((id * 0x100_0000) % TWO_64 / 0x100_0000) % 0x1_0000;
    FromInts(a, b, c)
  }

  // ---------------------------------------------------------------------
  // The triple level: ToInts and FromInts are inverse.

  /** FromInts names exactly the key whose triple it is given, and fails on any other triple. */
  lemma FromIntsInvertsInts(key: StoreKey, a: Space, b: DocumentId, c: DocumentRev)
    ensures FromInts(a, b, c) == Ok(key) <==> Ints(key) == (a, b, c)
    ensures FromInts(a, b, c).Err? <==> forall k: StoreKey :: Ints(k) != (a, b, c)
  {
    if FromInts(a, b, c).Err? {
      forall k: StoreKey ensures Ints(k) != (a, b, c) {
        match k
        case AreaGuid =>
        case LastRevision(i) =>
        case Blob(i, v) =>
      }
    } else {
      assert Ints(FromInts(a, b, c).value) == (a, b, c);
    }
  }

  /** The decoder rejects a space tag outside {0, 1, 2}, a metadata key with an id or a revision, and a last-revision key with a revision. */
  lemma FromIntsRejects(a: Space, b: DocumentId, c: DocumentRev)
    ensures a > 2 ==> FromInts(a, b, c).Err?
    ensures a == 0 && (b != 0 || c != 0) ==> FromInts(a, b, c).Err?
    ensures a == 1 && c != 0 ==> FromInts(a, b, c).Err?
    ensures a == 2 ==> FromInts(a, b, c) == Ok(Blob(b, c))
  {
  }

  // ---------------------------------------------------------------------
  // The decoder as written.

  /** `((id << 8) >> 16) as u32` keeps bits 8 to 39 of id. */
  lemma ShiftedId(id: u64)
    ensures ((id * 0x100) % TWO_64 / 0x1_0000) % 0x1_0000_0000 == (id / 0x100) % 0x1_0000_0000
  {
    var q, r := id / 0x100_0000_0000_0000, id % 0x100_0000_0000_0000;
    var t, u := r / 0x100, r % 0x100;
    var t1, t2 := t / 0x1_0000_0000, t % 0x1_0000_0000;
    DivModUnique(id * 0x100, TWO_64, q, r * 0x100);
    DivModUnique(r * 0x100, 0x1_0000, t, u * 0x100);
    DivModUnique(id, 0x100, q * 0x1_0000_0000_0000 + t, u);
    DivModUnique(q * 0x1_0000_0000_0000 + t, 0x1_0000_0000, q * 0x1_0000 + t1, t2);
  }

  /** `((id << 24) >> 24) as u16` keeps bits 0 to 15 of id. */
  lemma ShiftedRev(id: u64)
    ensures ((id * 0x100_0000) % TWO_64 / 0x100_0000) % 0x1_0000 == id % 0x1_0000
  {
    var q, r := id / 0x100_0000_0000, id % 0x100_0000_0000;
    var r1, r2 := r / 0x1_0000, r % 0x1_0000;
    DivModUnique(id * 0x100_0000, TWO_64, q, r * 0x100_0000);
    DivModUnique(r * 0x100_0000, 0x100_0000, r, 0);
    DivModUnique(id, 0x1_0000, q * 0x100_0000 + r1, r2);
  }

  /** Decoding inverts encoding for the area-metadata key only. */
  lemma RoundTripOnlyAreaGuid(key: StoreKey)
    ensures TryFrom(MainId(key)) == Ok(key) <==> key == AreaGuid
  {
    var v := MainId(key);
    match key
    case AreaGuid =>
    case LastRevision(id) =>
      assert v / 0x100 == 0x1_0000 + id;
    case Blob(id, rev) =>
      assert v == (0x2_0000 + id) * 0x100 + rev;
      DivModShift(0x2_0000 + id, rev);
      assert v / 0x100 == 0x2_0000 + id + rev / 0x100;
  }

  /**
   * A last-revision key of an id below 65536 comes back with 65536 added to
   * the id when the low byte of the id is zero, and is rejected otherwise
   * (that byte lands in the revision field).
   */
  lemma LastRevisionDecodesShifted(id: DocumentId)
    requires id < 0x1_0000
    ensures TryFrom(MainId(LastRevision(id))) ==
      if id % 0x100 == 0 then Ok(LastRevision(id + 0x1_0000)) else Err(UnsupportedInteger)
  {
    var v := MainId(LastRevision(id));
    DivModUnique(v, 0x100_0000, 1, id * 0x100);
    DivModUnique(v, 0x100, 0x1_0000 + id, 0);
    DivModUnique(v, 0x1_0000, 0x100 + id / 0x100, (id % 0x100) * 0x100);
    assert (v / 0x100_0000) % 0x1_0000 == 1;
    assert (v / 0x100) % 0x1_0000_0000 == id + 0x1_0000;
    assert v % 0x1_0000 == (id % 0x100) * 0x100;
  }

  /** A blob key whose id and revision fit in 24 bits comes back as a blob of another id and revision. */
  lemma BlobDecodesShifted(id: DocumentId, rev: DocumentRev)
    requires id * 0x100 + rev < 0x100_0000
    ensures TryFrom(MainId(Blob(id, rev))) == Ok(Blob(0x2_0000 + id + rev / 0x100, (id * 0x100 + rev) % 0x1_0000))
  {
    var v := MainId(Blob(id, rev));
    var low := id * 0x100 + rev;
    DivModUnique(v, 0x100_0000, 2, low);
    DivModUnique(v, 0x100, 0x2_0000 + id + rev / 0x100, rev % 0x100);
    DivModUnique(v, 0x1_0000, 0x200 + low / 0x1_0000, low % 0x1_0000);
  }

  /** The two concrete failures: LastRevision(0) and Blob{0, 0}. */
  lemma RoundTripCounterexamples()
    ensures MainId(LastRevision(0)) == 0x100_0000
    ensures TryFrom(MainId(LastRevision(0))) == Ok(LastRevision(65536))
    ensures TryFrom(MainId(Blob(0, 0))) == Ok(Blob(131072, 0))
  {
    LastRevisionDecodesShifted(0);
    BlobDecodesShifted(0, 0);
  }

  // ---------------------------------------------------------------------
  // Collisions.

  /** The last-revision key of id + 65536 is stored under the bytes of revision 0 of id. */
  lemma LastRevisionAliasesBlob(id: DocumentId)
    requires id + 0x1_0000 < 0x1_0000_0000
    ensures KeyBytes(LastRevision(id + 0x1_0000)) == KeyBytes(Blob(id, 0))
  {
  }

  /** Revision rev + 256 of id is stored under the bytes of revision rev of id + 1. */
  lemma BlobAliasesNextId(id: DocumentId, rev: DocumentRev)
    requires id + 1 < 0x1_0000_0000 && rev + 0x100 < 0x1_0000
    ensures KeyBytes(Blob(id, rev + 0x100)) == KeyBytes(Blob(id + 1, rev))
  {
  }

  /** The encoding is not injective. */
  lemma KeyBytesCollisions()
    ensures Blob(0, 256) != Blob(1, 0) && KeyBytes(Blob(0, 256)) == KeyBytes(Blob(1, 0))
    ensures LastRevision(65536) != Blob(0, 0) && KeyBytes(LastRevision(65536)) == KeyBytes(Blob(0, 0))
  {
    BlobAliasesNextId(0, 0);
    LastRevisionAliasesBlob(0);
  }

  /** Keys with different packed integers have different bytes. */
  lemma KeyBytesSeparate(k1: StoreKey, k2: StoreKey)
    ensures KeyBytes(k1) == KeyBytes(k2) <==> MainId(k1) == MainId(k2)
  {
    Pow256Values();
    BeBytesInjective(MainId(k1), MainId(k2), 8);
  }

  /**
   * The keys one write of one document touches never collide with each
   * other: its last-revision key differs from each of its blob keys, and
   * two revisions of it have different blob keys.
   */
  lemma SameDocumentKeysDistinct(id: DocumentId, r1: DocumentRev, r2: DocumentRev)
    ensures KeyBytes(LastRevision(id)) != KeyBytes(Blob(id, r1))
    ensures KeyBytes(Blob(id, r1)) == KeyBytes(Blob(id, r2)) <==> r1 == r2
  {
    KeyBytesSeparate(LastRevision(id), Blob(id, r1));
    KeyBytesSeparate(Blob(id, r1), Blob(id, r2));
  }

  // ---------------------------------------------------------------------
  // Bytes and prefixes as written.

  /** Bytes 0 and 1 of every stored key are zero, since the packed integer is below 2^48. */
  lemma KeyBytesLeadingZeros(key: StoreKey)
    ensures KeyBytes(key)[0] == 0 && KeyBytes(key)[1] == 0
    ensures KeyBytes(key) == [0, 0] + BeBytes(MainId(key), 6)
  {
    Pow256Values();
    BeBytesConcat(0, MainId(key), 2, 6);
    BeBytesZero(2);
    assert BeBytes(0, 2) == [0, 0];
  }

  /** The blob prefix of a document does not depend on the revision: it selects every revision alike. */
  lemma DocumentPrefixFields(id: DocumentId, r1: DocumentRev, r2: DocumentRev)
    ensures DocumentPrefix(Blob(id, r1)) == DocumentPrefix(Blob(id, r2))
  {
  }

  /** Byte 1 of a last-revision or blob prefix is its space tag, never the zero byte 1 of a stored key. */
  lemma DocumentPrefixSelectsNothing(p: StoreKey, key: StoreKey)
    requires p != AreaGuid
    ensures !(DocumentPrefix(p) <= KeyBytes(key))
  {
    KeyBytesLeadingZeros(key);
    var a := Ints(p).0;
    assert BeBytes(a, 2) == BeBytes(a / 256, 1) + [a % 256];
    assert DocumentPrefix(p)[1] == a != 0;
  }

  /** The metadata prefix is six zero bytes, which only the metadata key starts with. */
  lemma MetadataPrefixSelectsAreaGuid(key: StoreKey)
    ensures DocumentPrefix(AreaGuid) <= KeyBytes(key) <==> key == AreaGuid
  {
    var v := MainId(key);
    Pow256Values();
    BeBytesConcat(0, 0, 2, 4);
    assert DocumentPrefix(AreaGuid) == BeBytes(0, 6);
    BeBytesConcat(v / 0x1_0000, v % 0x1_0000, 6, 2);
    assert KeyBytes(key) == BeBytes(v / 0x1_0000, 6) + BeBytes(v % 0x1_0000, 2);
    assert KeyBytes(key)[..6] == BeBytes(v / 0x1_0000, 6);
    BeBytesInjective(v / 0x1_0000, 0, 6);
  }

  /**
   * As written, a scan prefix selects a stored key only when both are the
   * area-metadata key: byte 1 of a last-revision or blob prefix is its space
   * tag (1 or 2), while byte 1 of every stored key is zero, and the
   * metadata prefix (six zero bytes) starts no key above 2^16.
   */
  lemma PrefixSelectsOnlyAreaGuid(p: StoreKey, key: StoreKey)
    ensures DocumentPrefix(p) <= KeyBytes(key) <==> p == AreaGuid && key == AreaGuid
  {
    if p == AreaGuid {
      MetadataPrefixSelectsAreaGuid(key);
    } else {
      DocumentPrefixSelectsNothing(p, key);
    }
  }

  // ---------------------------------------------------------------------
  // The intended layout: space in bits 48..63, id in bits 16..47, revision
  // in bits 0..15.

  function IntendedMainId(key: StoreKey): (v: u64)
  {
    var (a, b, c) := ToInts(key);
    a.Value() * 0x1_0000_0000_0000 + b * 0x1_0000 + c
  }

  function IntendedKeyBytes(key: StoreKey): (r: Bytes)
    ensures |r| == 8
  {
    BeBytes(IntendedMainId(key), 8)
  }

  /** Decoding for the intended layout: `id >> 48`, `(id >> 16) as u32`, `id as u16`. */
  function IntendedTryFrom(id: u64): (r: Result<StoreKey, KeyError>)
  {
    FromInts(id / 0x1_0000_0000_0000 % 0x1_0000, (id / 0x1_0000) % 0x1_0000_0000, id % 0x1_0000)
  }

  /** With the intended layout, decoding inverts encoding for every key. */
  lemma IntendedRoundTrip(key: StoreKey)
    ensures IntendedTryFrom(IntendedMainId(key)) == Ok(key)
  {
    var (a, b, c) := Ints(key);
    var v := IntendedMainId(key);
    var hi := a * 0x1_0000_0000 + b;
    assert v == hi * 0x1_0000 + c;
    assert v / 0x1_0000 == hi;
    assert v % 0x1_0000 == c;
    assert hi / 0x1_0000_0000 == a;
    assert hi % 0x1_0000_0000 == b;
    assert v / 0x1_0000_0000_0000 == hi / 0x1_0000_0000;
    FromIntsInvertsInts(key, a, b, c);
  }

  /** With the intended layout, the stored bytes are the scan prefix followed by the revision. */
  lemma IntendedKeyBytesLayout(key: StoreKey)
    ensures IntendedKeyBytes(key) == DocumentPrefix(key) + BeBytes(Ints(key).2, 2)
  {
    var (a, b, c) := Ints(key);
    Pow256Values();
    BeBytesConcat(a, b, 2, 4);
    BeBytesConcat(a * 0x1_0000_0000 + b, c, 6, 2);
    assert IntendedMainId(key) == (a * 0x1_0000_0000 + b) * 0x1_0000 + c;
  }

  /** With the intended layout, distinct keys have distinct bytes. */
  lemma IntendedKeyBytesInjective(k1: StoreKey, k2: StoreKey)
    ensures IntendedKeyBytes(k1) == IntendedKeyBytes(k2) <==> k1 == k2
  {
    Pow256Values();
    BeBytesInjective(IntendedMainId(k1), IntendedMainId(k2), 8);
    IntendedRoundTrip(k1);
    IntendedRoundTrip(k2);
  }

  /**
   * With the intended layout, the scan prefix of a key selects exactly the
   * stored keys of the same space and id, whatever their revision.
   */
  lemma IntendedPrefixContainment(p: StoreKey, key: StoreKey)
    ensures DocumentPrefix(p) <= IntendedKeyBytes(key) <==> Ints(p).0 == Ints(key).0 && Ints(p).1 == Ints(key).1
  {
    IntendedKeyBytesLayout(key);
    var bytes := IntendedKeyBytes(key);
    assert bytes[..6] == DocumentPrefix(key);
    if Ints(p).0 == Ints(key).0 && Ints(p).1 == Ints(key).1 {
      assert DocumentPrefix(p) == BeBytes(Ints(key).0, 2) + BeBytes(Ints(key).1, 4) == DocumentPrefix(key);
    }
    if DocumentPrefix(p) <= bytes {
      assert DocumentPrefix(p) == bytes[..6] == DocumentPrefix(key);
    }
  }
}
