/** The fixed-layout records of the SoC authorization manifest (src/soc_man.rs) and
    their byte codec. Every record is `#[repr(C)]` with its `u32` words first and byte
    arrays after, so it has no padding: its image is its fields back to back, `u32`s
    little-endian, in the order the layouts below list them. */
module Records {
  import opened Wrappers
  import opened Bytes
  import opened Layout

  const IMAGE_METADATA_MAX_COUNT: nat := 127
  const ECC384_SIG_SIZE: nat := 96
  const ECC384_PUBK_SIZE: nat := 96
  const SHA384_DIGEST_SIZE: nat := 48
  const LMS_SIG_SIZE: nat := 1620
  const LMS_PUBK_SIZE: nat := 48

  type EccPubk = s: seq<bv8> | |s| == ECC384_PUBK_SIZE witness seq(96, _ => 0)
  type EccSig = s: seq<bv8> | |s| == ECC384_SIG_SIZE witness seq(96, _ => 0)
  type LmsPubk = s: seq<bv8> | |s| == LMS_PUBK_SIZE witness seq(48, _ => 0)
  type LmsSig = s: seq<bv8> | |s| == LMS_SIG_SIZE witness seq(1620, _ => 0)
  type Sha384Digest = s: seq<bv8> | |s| == SHA384_DIGEST_SIZE witness seq(48, _ => 0)

  /** The preamble as the upstream manifest builder writes it. */
  datatype AuthManifestPreamble = AuthManifestPreamble(
    magic: u32,
    size: u32,
    ver: u32,
    flags: u32,
    vndManifestEccPubk: EccPubk,
    vndManifestLmsPubk: LmsPubk,
    vndManifestEccSig: EccSig,
    vndManifestLmsSig: LmsSig,
    ownerManifestEccPubk: EccPubk,
    ownerManifestLmsPubk: LmsPubk,
    ownerManifestEccSig: EccSig,
    ownerManifestLmsSig: LmsSig,
    vndMatadataEccSig: EccSig,
    vndMatadataLmsSig: LmsSig,
    ownerMatadataEccSig: EccSig,
    ownerMatadataLmsSig: LmsSig)

  /** The extended preamble: `secVer` after `ver`, and the two security-version
      signature slots after the owner manifest signatures. */
  datatype AspeedAuthManifestPreamble = AspeedAuthManifestPreamble(
    magic: u32,
    size: u32,
    ver: u32,
    secVer: u32,
    flags: u32,
    vndManifestEccPubk: EccPubk,
    vndManifestLmsPubk: LmsPubk,
    vndManifestEccSig: EccSig,
    vndManifestLmsSig: LmsSig,
    ownerManifestEccPubk: EccPubk,
    ownerManifestLmsPubk: LmsPubk,
    ownerManifestEccSig: EccSig,
    ownerManifestLmsSig: LmsSig,
    ownerManifestSvnEccSig: EccSig,
    ownerManifestSvnLmsSig: LmsSig,
    vndMatadataEccSig: EccSig,
    vndMatadataLmsSig: LmsSig,
    ownerMatadataEccSig: EccSig,
    ownerMatadataLmsSig: LmsSig)

  datatype AspeedAuthManifestImageMetadata = AspeedAuthManifestImageMetadata(
    id: u32,
    flags: u32,
    digest: Sha384Digest)

  type MetadataList = s: seq<AspeedAuthManifestImageMetadata> | |s| == IMAGE_METADATA_MAX_COUNT
    witness seq(127, _ => AspeedAuthManifestImageMetadata(0, 0, seq(48, _ => 0)))

  /** `count` is stored as read; the codec does not bound it by the list's capacity. */
  datatype AspeedAuthManifestImageMetadataCollection = AspeedAuthManifestImageMetadataCollection(
    count: u32,
    metadataList: MetadataList)

  // ---------------------------------------------------------------- layouts

  // Field lengths in declaration order. The `u32` words are 4 bytes each; then come
  // {vendor, owner} x (ECC public key 96, LMS public key 48, ECC signature 96,
  // LMS signature 1620), the extended record's two security-version signatures
  // (ECC 96, LMS 1620), and {vendor, owner} x metadata signatures (ECC 96, LMS 1620).

  /** magic, size, ver, flags, then the 12 key and signature arrays. */
  const UPSTREAM_PREAMBLE_LAYOUT: seq<nat> :=
    [4, 4, 4, 4, 96, 48, 96, 1620, 96, 48, 96, 1620, 96, 1620, 96, 1620]
  /** magic, size, ver, sec_ver, flags, then the 14 key and signature arrays. */
  const ASPEED_PREAMBLE_LAYOUT: seq<nat> :=
    [4, 4, 4, 4, 4, 96, 48, 96, 1620, 96, 48, 96, 1620, 96, 1620, 96, 1620, 96, 1620]
  /** id, flags, digest. */
  const IMAGE_METADATA_LAYOUT: seq<nat> := [4, 4, 48]
  /** count, then the fixed capacity of 56-byte metadata entries. */
  const COLLECTION_LAYOUT: seq<nat> := [4] + Repeat(127, 56)

  const UPSTREAM_PREAMBLE_SIZE: nat := 7168
  const ASPEED_PREAMBLE_SIZE: nat := 8888
  const IMAGE_METADATA_SIZE: nat := 56
  const COLLECTION_SIZE: nat := 7116

  /** The record sizes follow from the layouts: 4·4 + 2·1860 + 2·1716, 5·4 + 2·1860 + 3·1716,
      4 + 4 + 48 and 4 + 127·56. */
  lemma LayoutSizes()
    ensures Sum(UPSTREAM_PREAMBLE_LAYOUT) == UPSTREAM_PREAMBLE_SIZE
    ensures Sum(ASPEED_PREAMBLE_LAYOUT) == ASPEED_PREAMBLE_SIZE
    ensures Sum(IMAGE_METADATA_LAYOUT) == IMAGE_METADATA_SIZE
    ensures Sum(COLLECTION_LAYOUT) == COLLECTION_SIZE
  {
    UpstreamLayoutSize();
    AspeedLayoutSize();
    ImageMetadataLayoutSize();
    CollectionLayoutSize();
  }

  lemma ImageMetadataLayoutSize()
    ensures Sum(IMAGE_METADATA_LAYOUT) == IMAGE_METADATA_SIZE
  {
  }

  lemma CollectionLayoutSize()
    ensures Sum(COLLECTION_LAYOUT) == COLLECTION_SIZE
  {
    SumRepeat(IMAGE_METADATA_MAX_COUNT, IMAGE_METADATA_SIZE);
    SumAppend([4], Repeat(IMAGE_METADATA_MAX_COUNT, IMAGE_METADATA_SIZE));
  }

  lemma UpstreamLayoutSize()
    ensures Sum(UPSTREAM_PREAMBLE_LAYOUT) == UPSTREAM_PREAMBLE_SIZE
  {
    UpstreamChunks();
    SumOfFive(WORDS_4, KEYS_AND_SIGS, KEYS_AND_SIGS, SIG_PAIR, SIG_PAIR);
    ChunkSizes();
  }

  lemma AspeedLayoutSize()
    ensures Sum(ASPEED_PREAMBLE_LAYOUT) == ASPEED_PREAMBLE_SIZE
  {
    AspeedChunks();
    SumOfFive(WORDS_5, KEYS_AND_SIGS, KEYS_AND_SIGS, SIG_PAIR, SIG_PAIR);
    SumAppend(WORDS_5 + KEYS_AND_SIGS + KEYS_AND_SIGS + SIG_PAIR + SIG_PAIR, SIG_PAIR);
    ChunkSizes();
  }

  // The preamble layouts cut into runs: the header words, one party's keys and
  // signatures, and one ECC/LMS signature pair.
  const WORDS_4: seq<nat> := [4, 4, 4, 4]
  const WORDS_5: seq<nat> := [4, 4, 4, 4, 4]
  const KEYS_AND_SIGS: seq<nat> := [96, 48, 96, 1620]
  const SIG_PAIR: seq<nat> := [96, 1620]

  lemma UpstreamChunks()
    ensures UPSTREAM_PREAMBLE_LAYOUT == WORDS_4 + KEYS_AND_SIGS + KEYS_AND_SIGS + SIG_PAIR + SIG_PAIR
  {
  }

  lemma AspeedChunks()
    ensures ASPEED_PREAMBLE_LAYOUT == WORDS_5 + KEYS_AND_SIGS + KEYS_AND_SIGS + SIG_PAIR + SIG_PAIR + SIG_PAIR
  {
  }

  lemma ChunkSizes()
    ensures Sum(WORDS_4) == 16 && Sum(WORDS_5) == 20
    ensures Sum(KEYS_AND_SIGS) == 1860 && Sum(SIG_PAIR) == 1716
  {
    Words4Size();
    Words5Size();
    KeysAndSigsSize();
    SigPairSize();
  }

  lemma Words4Size() ensures Sum(WORDS_4) == 16 {}
  lemma Words5Size() ensures Sum(WORDS_5) == 20 {}
  lemma KeysAndSigsSize() ensures Sum(KEYS_AND_SIGS) == 1860 {}
  lemma SigPairSize() ensures Sum(SIG_PAIR) == 1716 {}

  lemma SumOfFive(a: seq<nat>, b: seq<nat>, c: seq<nat>, d: seq<nat>, e: seq<nat>)
    ensures Sum(a + b + c + d + e) == Sum(a) + Sum(b) + Sum(c) + Sum(d) + Sum(e)
  {
    SumAppend(a, b);
    SumAppend(a + b, c);
    SumAppend(a + b + c, d);
    SumAppend(a + b + c + d, e);
  }

  // ------------------------------------------------ records <-> field lists

  function UpstreamPreambleFields(p: AuthManifestPreamble): seq<seq<bv8>>
  {
    [U32ToLe(p.magic), U32ToLe(p.size), U32ToLe(p.ver), U32ToLe(p.flags),
     p.vndManifestEccPubk, p.vndManifestLmsPubk, p.vndManifestEccSig, p.vndManifestLmsSig,
     p.ownerManifestEccPubk, p.ownerManifestLmsPubk, p.ownerManifestEccSig, p.ownerManifestLmsSig,
     p.vndMatadataEccSig, p.vndMatadataLmsSig, p.ownerMatadataEccSig, p.ownerMatadataLmsSig]
  }

  function UpstreamPreambleFromFields(fs: seq<seq<bv8>>): AuthManifestPreamble
    requires Lengths(fs) == UPSTREAM_PREAMBLE_LAYOUT
  {
    AuthManifestPreamble(
      LeToU32(fs[0]), LeToU32(fs[1]), LeToU32(fs[2]), LeToU32(fs[3]),
      fs[4], fs[5], fs[6], fs[7], fs[8], fs[9], fs[10], fs[11], fs[12], fs[13], fs[14], fs[15])
  }

  function AspeedPreambleFields(p: AspeedAuthManifestPreamble): seq<seq<bv8>>
  {
    [U32ToLe(p.magic), U32ToLe(p.size), U32ToLe(p.ver), U32ToLe(p.secVer), U32ToLe(p.flags),
     p.vndManifestEccPubk, p.vndManifestLmsPubk, p.vndManifestEccSig, p.vndManifestLmsSig,
     p.ownerManifestEccPubk, p.ownerManifestLmsPubk, p.ownerManifestEccSig, p.ownerManifestLmsSig,
     p.ownerManifestSvnEccSig, p.ownerManifestSvnLmsSig,
     p.vndMatadataEccSig, p.vndMatadataLmsSig, p.ownerMatadataEccSig, p.ownerMatadataLmsSig]
  }

  function AspeedPreambleFromFields(fs: seq<seq<bv8>>): AspeedAuthManifestPreamble
    requires Lengths(fs) == ASPEED_PREAMBLE_LAYOUT
  {
    AspeedAuthManifestPreamble(
      LeToU32(fs[0]), LeToU32(fs[1]), LeToU32(fs[2]), LeToU32(fs[3]), LeToU32(fs[4]),
      fs[5], fs[6], fs[7], fs[8], fs[9], fs[10], fs[11], fs[12], fs[13], fs[14],
      fs[15], fs[16], fs[17], fs[18])
  }

  function ImageMetadataFields(m: AspeedAuthManifestImageMetadata): seq<seq<bv8>>
  {
    [U32ToLe(m.id), U32ToLe(m.flags), m.digest]
  }

  function ImageMetadataFromFields(fs: seq<seq<bv8>>): AspeedAuthManifestImageMetadata
    requires Lengths(fs) == IMAGE_METADATA_LAYOUT
  {
    AspeedAuthManifestImageMetadata(LeToU32(fs[0]), LeToU32(fs[1]), fs[2])
  }

  /** The collection's fields: the count word, then one 56-byte image per entry. */
  function CollectionFields(c: AspeedAuthManifestImageMetadataCollection): seq<seq<bv8>>
  {
    [U32ToLe(c.count)]
      + seq(IMAGE_METADATA_MAX_COUNT, i requires 0 <= i < IMAGE_METADATA_MAX_COUNT => EncodeImageMetadata(c.metadataList[i]))
  }

  function CollectionFromFields(fs: seq<seq<bv8>>): AspeedAuthManifestImageMetadataCollection
    requires Lengths(fs) == COLLECTION_LAYOUT
  {
    AspeedAuthManifestImageMetadataCollection(
      LeToU32(fs[0]),
      seq(IMAGE_METADATA_MAX_COUNT, i requires 0 <= i < IMAGE_METADATA_MAX_COUNT => ImageMetadataFromImage(fs[i + 1])))
  }

  /** One entry read from exactly its 56 bytes. */
  function ImageMetadataFromImage(b: seq<bv8>): AspeedAuthManifestImageMetadata
    requires |b| == IMAGE_METADATA_SIZE
  {
    LayoutSizes();
    ImageMetadataFromFields(Split(b, IMAGE_METADATA_LAYOUT))
  }

  // ---------------------------------------------------------------- to_img

  /** `to_img(&p)` for the upstream preamble. */
  function EncodeUpstreamPreamble(p: AuthManifestPreamble): (b: seq<bv8>)
    ensures |b| == UPSTREAM_PREAMBLE_SIZE
  {
    UpstreamFieldsRoundTrip(p);
    SplitConcat(UpstreamPreambleFields(p));
    LayoutSizes();
    Concat(UpstreamPreambleFields(p))
  }

  /** `to_img(&p)` for the extended preamble. */
  function EncodeAspeedPreamble(p: AspeedAuthManifestPreamble): (b: seq<bv8>)
    ensures |b| == ASPEED_PREAMBLE_SIZE
  {
    AspeedFieldsRoundTrip(p);
    SplitConcat(AspeedPreambleFields(p));
    LayoutSizes();
    Concat(AspeedPreambleFields(p))
  }

  /** `to_img(&m)` for one metadata entry. */
  function EncodeImageMetadata(m: AspeedAuthManifestImageMetadata): (b: seq<bv8>)
    ensures |b| == IMAGE_METADATA_SIZE
  {
    ImageMetadataFieldsRoundTrip(m);
    SplitConcat(ImageMetadataFields(m));
    LayoutSizes();
    Concat(ImageMetadataFields(m))
  }

  /** `to_img(&c)` for the metadata collection. */
  function EncodeCollection(c: AspeedAuthManifestImageMetadataCollection): (b: seq<bv8>)
    ensures |b| == COLLECTION_SIZE
  {
    CollectionFieldsRoundTrip(c);
    SplitConcat(CollectionFields(c));
    LayoutSizes();
    Concat(CollectionFields(c))
  }

  // -------------------------------------------------------------- from_img

  /** `from_img::<AuthManifestPreamble>(buf, offset)`: fails exactly when the record would
      run past the end of the buffer; otherwise the record read re-encodes to the bytes read. */
  function DecodeUpstreamPreamble(buf: seq<bv8>, offset: nat): (r: Option<AuthManifestPreamble>)
    ensures r.Some? <==> offset + UPSTREAM_PREAMBLE_SIZE <= |buf|
    ensures r.Some? ==> EncodeUpstreamPreamble(r.value) == buf[offset..offset + UPSTREAM_PREAMBLE_SIZE]
  {
    LayoutSizes();
    match FromImg(buf, offset, UPSTREAM_PREAMBLE_LAYOUT)
    case None => None
    case Some(fs) =>
      UpstreamPreambleImageOfFields(fs);
      Some(UpstreamPreambleFromFields(fs))
  }

  /** `from_img::<AspeedAuthManifestPreamble>(buf, offset)`. */
  function DecodeAspeedPreamble(buf: seq<bv8>, offset: nat): (r: Option<AspeedAuthManifestPreamble>)
    ensures r.Some? <==> offset + ASPEED_PREAMBLE_SIZE <= |buf|
    ensures r.Some? ==> EncodeAspeedPreamble(r.value) == buf[offset..offset + ASPEED_PREAMBLE_SIZE]
  {
    LayoutSizes();
    match FromImg(buf, offset, ASPEED_PREAMBLE_LAYOUT)
    case None => None
    case Some(fs) =>
      AspeedPreambleImageOfFields(fs);
      Some(AspeedPreambleFromFields(fs))
  }

  /** `from_img::<AspeedAuthManifestImageMetadata>(buf, offset)`. */
  function DecodeImageMetadata(buf: seq<bv8>, offset: nat): (r: Option<AspeedAuthManifestImageMetadata>)
    ensures r.Some? <==> offset + IMAGE_METADATA_SIZE <= |buf|
    ensures r.Some? ==> EncodeImageMetadata(r.value) == buf[offset..offset + IMAGE_METADATA_SIZE]
  {
    LayoutSizes();
    match FromImg(buf, offset, IMAGE_METADATA_LAYOUT)
    case None => None
    case Some(fs) =>
      ImageMetadataImageOfFields(fs);
      Some(ImageMetadataFromFields(fs))
  }

  /** `from_img::<AspeedAuthManifestImageMetadataCollection>(buf, offset)`. */
  function DecodeCollection(buf: seq<bv8>, offset: nat): (r: Option<AspeedAuthManifestImageMetadataCollection>)
    ensures r.Some? <==> offset + COLLECTION_SIZE <= |buf|
    ensures r.Some? ==> EncodeCollection(r.value) == buf[offset..offset + COLLECTION_SIZE]
  {
    LayoutSizes();
    match FromImg(buf, offset, COLLECTION_LAYOUT)
    case None => None
    case Some(fs) =>
      CollectionImageOfFields(fs);
      Some(CollectionFromFields(fs))
  }

  // Re-encoding the record read from a field list writes those fields back.

  lemma UpstreamPreambleImageOfFields(fs: seq<seq<bv8>>)
    requires Lengths(fs) == UPSTREAM_PREAMBLE_LAYOUT
    ensures EncodeUpstreamPreamble(UpstreamPreambleFromFields(fs)) == Concat(fs)
  {
    UpstreamFromFieldsRoundTrip(fs);
  }

  lemma AspeedPreambleImageOfFields(fs: seq<seq<bv8>>)
    requires Lengths(fs) == ASPEED_PREAMBLE_LAYOUT
    ensures EncodeAspeedPreamble(AspeedPreambleFromFields(fs)) == Concat(fs)
  {
    AspeedFromFieldsRoundTrip(fs);
  }

  lemma ImageMetadataImageOfFields(fs: seq<seq<bv8>>)
    requires Lengths(fs) == IMAGE_METADATA_LAYOUT
    ensures EncodeImageMetadata(ImageMetadataFromFields(fs)) == Concat(fs)
  {
    ImageMetadataFromFieldsRoundTrip(fs);
  }

  lemma CollectionImageOfFields(fs: seq<seq<bv8>>)
    requires Lengths(fs) == COLLECTION_LAYOUT
    ensures EncodeCollection(CollectionFromFields(fs)) == Concat(fs)
  {
    CollectionFromFieldsRoundTrip(fs);
  }

  // ------------------------------------------------------------ round trips

  /** Encoding a record and decoding the image at offset 0 gives the record back. */
  lemma UpstreamPreambleRoundTrip(p: AuthManifestPreamble)
    ensures DecodeUpstreamPreamble(EncodeUpstreamPreamble(p), 0) == Some(p)
  {
    UpstreamFieldsRoundTrip(p);
    SplitConcat(UpstreamPreambleFields(p));
  }

  lemma AspeedPreambleRoundTrip(p: AspeedAuthManifestPreamble)
    ensures DecodeAspeedPreamble(EncodeAspeedPreamble(p), 0) == Some(p)
  {
    AspeedFieldsRoundTrip(p);
    SplitConcat(AspeedPreambleFields(p));
  }

  lemma ImageMetadataRoundTrip(m: AspeedAuthManifestImageMetadata)
    ensures DecodeImageMetadata(EncodeImageMetadata(m), 0) == Some(m)
  {
    ImageMetadataFieldsRoundTrip(m);
    SplitConcat(ImageMetadataFields(m));
  }

  lemma CollectionRoundTrip(c: AspeedAuthManifestImageMetadataCollection)
    ensures DecodeCollection(EncodeCollection(c), 0) == Some(c)
  {
    CollectionFieldsRoundTrip(c);
    SplitConcat(CollectionFields(c));
  }

  // Field-list round trips, the per-record half of the codec proofs.

  lemma UpstreamFieldsRoundTrip(p: AuthManifestPreamble)
    ensures Lengths(UpstreamPreambleFields(p)) == UPSTREAM_PREAMBLE_LAYOUT
    ensures UpstreamPreambleFromFields(UpstreamPreambleFields(p)) == p
  {
    LeToU32OfU32ToLe(p.magic); LeToU32OfU32ToLe(p.size); LeToU32OfU32ToLe(p.ver); LeToU32OfU32ToLe(p.flags);
  }

  lemma UpstreamFromFieldsRoundTrip(fs: seq<seq<bv8>>)
    requires Lengths(fs) == UPSTREAM_PREAMBLE_LAYOUT
    ensures UpstreamPreambleFields(UpstreamPreambleFromFields(fs)) == fs
  {
    U32ToLeOfLeToU32(fs[0]); U32ToLeOfLeToU32(fs[1]); U32ToLeOfLeToU32(fs[2]); U32ToLeOfLeToU32(fs[3]);
  }

  lemma AspeedFieldsRoundTrip(p: AspeedAuthManifestPreamble)
    ensures Lengths(AspeedPreambleFields(p)) == ASPEED_PREAMBLE_LAYOUT
    ensures AspeedPreambleFromFields(AspeedPreambleFields(p)) == p
  {
    AspeedFieldsLengths(p);
    LeToU32OfU32ToLe(p.magic); LeToU32OfU32ToLe(p.size); LeToU32OfU32ToLe(p.ver);
    LeToU32OfU32ToLe(p.secVer); LeToU32OfU32ToLe(p.flags);
  }

  lemma AspeedFieldsLengths(p: AspeedAuthManifestPreamble)
    ensures Lengths(AspeedPreambleFields(p)) == ASPEED_PREAMBLE_LAYOUT
  {
    var fs := AspeedPreambleFields(p);
    forall i | 0 <= i < |fs|
      ensures Lengths(fs)[i] == ASPEED_PREAMBLE_LAYOUT[i]
    {
    }
  }

  lemma AspeedFromFieldsRoundTrip(fs: seq<seq<bv8>>)
    requires Lengths(fs) == ASPEED_PREAMBLE_LAYOUT
    ensures AspeedPreambleFields(AspeedPreambleFromFields(fs)) == fs
  {
    U32ToLeOfLeToU32(fs[0]); U32ToLeOfLeToU32(fs[1]); U32ToLeOfLeToU32(fs[2]);
    U32ToLeOfLeToU32(fs[3]); U32ToLeOfLeToU32(fs[4]);
  }

  lemma ImageMetadataFieldsRoundTrip(m: AspeedAuthManifestImageMetadata)
    ensures Lengths(ImageMetadataFields(m)) == IMAGE_METADATA_LAYOUT
    ensures ImageMetadataFromFields(ImageMetadataFields(m)) == m
  {
    LeToU32OfU32ToLe(m.id); LeToU32OfU32ToLe(m.flags);
  }

  lemma ImageMetadataFromFieldsRoundTrip(fs: seq<seq<bv8>>)
    requires Lengths(fs) == IMAGE_METADATA_LAYOUT
    ensures ImageMetadataFields(ImageMetadataFromFields(fs)) == fs
  {
    U32ToLeOfLeToU32(fs[0]); U32ToLeOfLeToU32(fs[1]);
  }

  lemma CollectionFieldsRoundTrip(c: AspeedAuthManifestImageMetadataCollection)
    ensures Lengths(CollectionFields(c)) == COLLECTION_LAYOUT
    ensures CollectionFromFields(CollectionFields(c)) == c
  {
    var fs := CollectionFields(c);
    CollectionFieldsLengths(c);
    LeToU32OfU32ToLe(c.count);
    var entries := CollectionFromFields(fs).metadataList;
    forall i | 0 <= i < IMAGE_METADATA_MAX_COUNT
      ensures entries[i] == c.metadataList[i]
    {
      ImageImageMetadataRoundTrip(c.metadataList[i]);
    }
    assert entries == c.metadataList;
  }

  /** The collection's fields have the collection layout's lengths. */
  lemma CollectionFieldsLengths(c: AspeedAuthManifestImageMetadataCollection)
    ensures Lengths(CollectionFields(c)) == COLLECTION_LAYOUT
  {
    var fs := CollectionFields(c);
    forall i | 0 <= i < |fs|
      ensures Lengths(fs)[i] == COLLECTION_LAYOUT[i]
    {
      if i > 0 {
        assert COLLECTION_LAYOUT[i] == Repeat(IMAGE_METADATA_MAX_COUNT, IMAGE_METADATA_SIZE)[i - 1];
      }
    }
  }

  /** An entry written as its 56-byte image reads back as itself. */
  lemma ImageImageMetadataRoundTrip(m: AspeedAuthManifestImageMetadata)
    ensures ImageMetadataFromImage(EncodeImageMetadata(m)) == m
  {
    ImageMetadataFieldsRoundTrip(m);
    SplitConcat(ImageMetadataFields(m));
  }

  lemma CollectionFromFieldsRoundTrip(fs: seq<seq<bv8>>)
    requires Lengths(fs) == COLLECTION_LAYOUT
    ensures CollectionFields(CollectionFromFields(fs)) == fs
  {
    var c := CollectionFromFields(fs);
    U32ToLeOfLeToU32(fs[0]);
    forall i | 0 <= i < IMAGE_METADATA_MAX_COUNT
      ensures EncodeImageMetadata(c.metadataList[i]) == fs[i + 1]
    {
      assert |fs[i + 1]| == COLLECTION_LAYOUT[i + 1];
      ImageMetadataImageRoundTrip(fs[i + 1]);
    }
    assert CollectionFields(c)[1..] == fs[1..];
  }

  /** A 56-byte image read as an entry re-encodes to itself. */
  lemma ImageMetadataImageRoundTrip(b: seq<bv8>)
    requires |b| == IMAGE_METADATA_SIZE
    ensures EncodeImageMetadata(ImageMetadataFromImage(b)) == b
  {
    assert Sum(IMAGE_METADATA_LAYOUT) == IMAGE_METADATA_SIZE;
    var parts := Split(b, IMAGE_METADATA_LAYOUT);
    var m := ImageMetadataFromFields(parts);
    assert ImageMetadataFromImage(b) == m;
    ImageMetadataFromFieldsRoundTrip(parts);
    ConcatSplit(b, IMAGE_METADATA_LAYOUT);
    calc {
      EncodeImageMetadata(m);
      Concat(ImageMetadataFields(m));
      Concat(parts);
      b[..IMAGE_METADATA_SIZE];
      b;
    }
  }
}
