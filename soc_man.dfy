/** The SoC-manifest overlay: an upstream authorization manifest is read, converted to the
    extended Aspeed preamble, patched with the prebuilt vendor signatures and the
    security-version signatures, and written back. File contents are byte sequences here;
    the prebuilt signatures and the signer's output are parameters. */
module SocMan {
  import opened Wrappers
  import opened Bytes
  import opened Records
  import Der

  /** Why an operation fails. The source panics on `OutOfBounds` and returns an error for
      `DerParseFailure`; either way the run stops. */
  datatype Error = OutOfBounds | DerParseFailure

  /** Size of the prebuilt DER vendor ECC signature, fixed when the tool is built. */
  const VND_ECC_SIG_DER_SIZE: nat := 103

  /** Bytes of input the loader reads: the upstream preamble, then the collection. */
  const UPSTREAM_IMAGE_SIZE: nat := UPSTREAM_PREAMBLE_SIZE + COLLECTION_SIZE
  /** Bytes the writer emits: the extended preamble, then the collection. */
  const ASPEED_IMAGE_SIZE: nat := ASPEED_PREAMBLE_SIZE + COLLECTION_SIZE

  /** Bytes of signer output the security-version step reads: ECC then LMS signature. */
  const SVN_SIG_SIZE: nat := ECC384_SIG_SIZE + LMS_SIG_SIZE

  // ------------------------------------------------------------ conversion

  /** The upstream fields of an extended preamble (the extension dropped). */
  function ToUpstream(q: AspeedAuthManifestPreamble): AuthManifestPreamble
  {
    AuthManifestPreamble(
      q.magic, q.size, q.ver, q.flags,
      q.vndManifestEccPubk, q.vndManifestLmsPubk, q.vndManifestEccSig, q.vndManifestLmsSig,
      q.ownerManifestEccPubk, q.ownerManifestLmsPubk, q.ownerManifestEccSig, q.ownerManifestLmsSig,
      q.vndMatadataEccSig, q.vndMatadataLmsSig, q.ownerMatadataEccSig, q.ownerMatadataLmsSig)
  }

  /** The extended preamble `new` builds: every upstream field copied, no security
      version, and empty security-version signature slots. */
  function FromUpstream(p: AuthManifestPreamble): (q: AspeedAuthManifestPreamble)
    ensures ToUpstream(q) == p
    ensures q.secVer == 0
    ensures AllZero(q.ownerManifestSvnEccSig) && AllZero(q.ownerManifestSvnLmsSig)
  {
    AspeedAuthManifestPreamble(
      p.magic, p.size, p.ver, 0, p.flags,
      p.vndManifestEccPubk, p.vndManifestLmsPubk, p.vndManifestEccSig, p.vndManifestLmsSig,
      p.ownerManifestEccPubk, p.ownerManifestLmsPubk, p.ownerManifestEccSig, p.ownerManifestLmsSig,
      Zeros(ECC384_SIG_SIZE), Zeros(LMS_SIG_SIZE),
      p.vndMatadataEccSig, p.vndMatadataLmsSig, p.ownerMatadataEccSig, p.ownerMatadataLmsSig)
  }

  /** An extended preamble is a converted one exactly when it carries no security version
      and both security-version slots are empty. */
  lemma FromUpstreamImage(q: AspeedAuthManifestPreamble)
    ensures FromUpstream(ToUpstream(q)) == q
        <==> q.secVer == 0 && AllZero(q.ownerManifestSvnEccSig) && AllZero(q.ownerManifestSvnLmsSig)
  {
    if q.secVer == 0 && AllZero(q.ownerManifestSvnEccSig) && AllZero(q.ownerManifestSvnLmsSig) {
      assert q.ownerManifestSvnEccSig == Zeros(ECC384_SIG_SIZE);
      assert q.ownerManifestSvnLmsSig == Zeros(LMS_SIG_SIZE);
    }
  }

  // ------------------------------------------------------------------ load

  /** What `new` reads from a manifest file: the converted preamble and the collection,
      or `OutOfBounds` when the file is too short for either record. */
  function Load(img: seq<bv8>): (r: Result<(AspeedAuthManifestPreamble, AspeedAuthManifestImageMetadataCollection), Error>)
    ensures r.Success? <==> |img| >= UPSTREAM_IMAGE_SIZE
    ensures r.Success? ==>
      EncodeUpstreamPreamble(ToUpstream(r.value.0)) == img[..UPSTREAM_PREAMBLE_SIZE]
      && EncodeCollection(r.value.1) == img[UPSTREAM_PREAMBLE_SIZE..UPSTREAM_IMAGE_SIZE]
      && r.value.0.secVer == 0
      && AllZero(r.value.0.ownerManifestSvnEccSig) && AllZero(r.value.0.ownerManifestSvnLmsSig)
  {
    var pre, col := DecodeUpstreamPreamble(img, 0), DecodeCollection(img, UPSTREAM_PREAMBLE_SIZE);
    if pre.None? || col.None? then
      Failure(OutOfBounds)
    else
      assert img[0..UPSTREAM_PREAMBLE_SIZE] == img[..UPSTREAM_PREAMBLE_SIZE];
      Success((FromUpstream(pre.value), col.value))
  }

  // ----------------------------------------------------------------- close

  /** The image `close` writes. */
  function ManifestImage(p: AspeedAuthManifestPreamble, c: AspeedAuthManifestImageMetadataCollection): (img: seq<bv8>)
    ensures |img| == ASPEED_IMAGE_SIZE
    ensures img[..ASPEED_PREAMBLE_SIZE] == EncodeAspeedPreamble(p)
    ensures img[ASPEED_PREAMBLE_SIZE..] == EncodeCollection(c)
  {
    var a, b := EncodeAspeedPreamble(p), EncodeCollection(c);
    assert (a + b)[..ASPEED_PREAMBLE_SIZE] == a;
    assert (a + b)[ASPEED_PREAMBLE_SIZE..] == b;
    a + b
  }

  /** Reading the written image with the extended layout gives back both records. */
  lemma ManifestImageRoundTrip(p: AspeedAuthManifestPreamble, c: AspeedAuthManifestImageMetadataCollection)
    ensures DecodeAspeedPreamble(ManifestImage(p, c), 0) == Some(p)
    ensures DecodeCollection(ManifestImage(p, c), ASPEED_PREAMBLE_SIZE) == Some(c)
  {
    var img := ManifestImage(p, c);
    AspeedPreambleRoundTrip(p);
    CollectionRoundTrip(c);
    DecodeAspeedAgrees(img, EncodeAspeedPreamble(p));
    DecodeCollectionAgrees(img, EncodeCollection(c));
  }

  /** The extended preamble depends only on the bytes it is read from. */
  lemma DecodeAspeedAgrees(img: seq<bv8>, part: seq<bv8>)
    requires |img| >= ASPEED_PREAMBLE_SIZE && img[..ASPEED_PREAMBLE_SIZE] == part
    ensures DecodeAspeedPreamble(img, 0) == DecodeAspeedPreamble(part, 0)
  {
    var x, y := DecodeAspeedPreamble(img, 0).value, DecodeAspeedPreamble(part, 0).value;
    AspeedPreambleRoundTrip(x);
    AspeedPreambleRoundTrip(y);
    assert part[0..ASPEED_PREAMBLE_SIZE] == part;
  }

  /** The collection depends only on the bytes it is read from. */
  lemma DecodeCollectionAgrees(img: seq<bv8>, part: seq<bv8>)
    requires |img| == ASPEED_PREAMBLE_SIZE + |part| && img[ASPEED_PREAMBLE_SIZE..] == part
    requires |part| == COLLECTION_SIZE
    ensures DecodeCollection(img, ASPEED_PREAMBLE_SIZE) == DecodeCollection(part, 0)
  {
    var x, y := DecodeCollection(img, ASPEED_PREAMBLE_SIZE).value, DecodeCollection(part, 0).value;
    CollectionRoundTrip(x);
    CollectionRoundTrip(y);
    assert part[0..COLLECTION_SIZE] == part;
  }

  // -------------------------------------------------------- vendor overlay

  /** A raw `r || s` signature in the word order the hardware verifier reads
      (`chunks_exact(4)` of a 96-byte input leaves no partial word). */
  function HardwareEccSig(raw: seq<bv8>): EccSig
    requires |raw| == ECC384_SIG_SIZE
  {
    WholeWordsLength(raw, ECC384_SIG_SIZE / 4);
    WordSwap(raw)
  }

  /** `modify_vnd_ecc_sig` on a preamble: an unset vendor ECC signature is left alone;
      otherwise the prebuilt DER signature replaces it in hardware word order and the
      vendor ECC public key is cleared. */
  function VndEccOverlay(p: AspeedAuthManifestPreamble, der: seq<bv8>): (r: Result<AspeedAuthManifestPreamble, Error>)
    ensures r.Failure? ==> r.error == DerParseFailure
  {
    if AllZero(p.vndManifestEccSig) then Success(p)
    else
      match Der.SignatureFromDer(der)
      case None => Failure(DerParseFailure)
      case Some(raw) =>
        Success(p.(vndManifestEccPubk := Zeros(ECC384_PUBK_SIZE), vndManifestEccSig := HardwareEccSig(raw)))
  }

  /** The overlay fails exactly when the slot is set and the DER does not parse. On
      success the slot is unchanged when it was unset; otherwise the stored bytes, swapped
      back to `r || s`, are a valid signature whose canonical DER is the prebuilt one, the
      public key is zero, and every other field is as before. */
  lemma VndEccOverlaySpec(p: AspeedAuthManifestPreamble, der: seq<bv8>)
    ensures VndEccOverlay(p, der).Failure?
        <==> !AllZero(p.vndManifestEccSig) && Der.SignatureFromDer(der).None?
    ensures AllZero(p.vndManifestEccSig) ==> VndEccOverlay(p, der) == Success(p)
    ensures !AllZero(p.vndManifestEccSig) && VndEccOverlay(p, der).Success? ==>
      var q := VndEccOverlay(p, der).value;
      Der.IsSignature(WordSwap(q.vndManifestEccSig))
      && Der.SignatureToDer(WordSwap(q.vndManifestEccSig)) == der
      && AllZero(q.vndManifestEccPubk)
      && q == p.(vndManifestEccPubk := q.vndManifestEccPubk, vndManifestEccSig := q.vndManifestEccSig)
  {
    if !AllZero(p.vndManifestEccSig) && Der.SignatureFromDer(der).Some? {
      var raw := Der.SignatureFromDer(der).value;
      HardwareEccSigOf(der, raw);
    }
  }

  /** The hardware form of a decoded signature swaps back to it. */
  lemma HardwareEccSigOf(der: seq<bv8>, raw: seq<bv8>)
    requires Der.SignatureFromDer(der) == Some(raw)
    ensures Der.IsSignature(WordSwap(HardwareEccSig(raw)))
    ensures Der.SignatureToDer(WordSwap(HardwareEccSig(raw))) == der
  {
    Der.DerCanonical(der);
    SwapBack(raw);
  }

  /** Swapping the hardware form back restores the raw signature. */
  lemma SwapBack(raw: seq<bv8>)
    requires |raw| == ECC384_SIG_SIZE
    ensures WordSwap(HardwareEccSig(raw)) == raw
  {
    WordSwapInvolution(raw);
  }

  /** `modify_vnd_lms_sig` on a preamble: an unset vendor LMS signature is left alone;
      otherwise the prebuilt blob replaces it verbatim and the vendor LMS public key is
      cleared. */
  function VndLmsOverlay(p: AspeedAuthManifestPreamble, blob: LmsSig): (q: AspeedAuthManifestPreamble)
    ensures AllZero(p.vndManifestLmsSig) ==> q == p
    ensures !AllZero(p.vndManifestLmsSig) ==>
      q.vndManifestLmsSig == blob && AllZero(q.vndManifestLmsPubk)
      && q == p.(vndManifestLmsPubk := q.vndManifestLmsPubk, vndManifestLmsSig := q.vndManifestLmsSig)
  {
    if AllZero(p.vndManifestLmsSig) then p
    else p.(vndManifestLmsPubk := Zeros(LMS_PUBK_SIZE), vndManifestLmsSig := blob)
  }

  // ------------------------------------------------- security-version step

  /** The security-version step on a preamble: the signer output is split into its ECC
      and LMS signatures, the LMS leaf index (its first word) is byte-reversed, and both
      go into the security-version slots along with the version number. */
  function SvnOverlay(p: AspeedAuthManifestPreamble, securityVersion: u32, sig: seq<bv8>): (r: Result<AspeedAuthManifestPreamble, Error>)
    ensures r.Failure? ==> r.error == OutOfBounds
  {
    if |sig| < SVN_SIG_SIZE then Failure(OutOfBounds)
    else
      Success(p.(secVer := securityVersion,
                 ownerManifestSvnEccSig := sig[..ECC384_SIG_SIZE],
                 ownerManifestSvnLmsSig := Reverse(sig[ECC384_SIG_SIZE..ECC384_SIG_SIZE + 4])
                                           + sig[ECC384_SIG_SIZE + 4..SVN_SIG_SIZE]))
  }

  /** The step fails exactly on short signer output. Otherwise the ECC slot holds the
      first 96 bytes, the LMS slot the next 1620 with its leaf index read big-endian and
      stored little-endian, and nothing else but the version changes. */
  lemma SvnOverlaySpec(p: AspeedAuthManifestPreamble, securityVersion: u32, sig: seq<bv8>)
    ensures SvnOverlay(p, securityVersion, sig).Failure? <==> |sig| < SVN_SIG_SIZE
    ensures SvnOverlay(p, securityVersion, sig).Success? ==>
      var q := SvnOverlay(p, securityVersion, sig).value;
      q.secVer == securityVersion
      && q.ownerManifestSvnEccSig == sig[..ECC384_SIG_SIZE]
      && q.ownerManifestSvnLmsSig[..4] == Reverse(sig[ECC384_SIG_SIZE..ECC384_SIG_SIZE + 4])
      && LeToU32(q.ownerManifestSvnLmsSig[..4]) == BeToU32(sig[ECC384_SIG_SIZE..ECC384_SIG_SIZE + 4])
      && q.ownerManifestSvnLmsSig[4..] == sig[ECC384_SIG_SIZE + 4..SVN_SIG_SIZE]
      && q == p.(secVer := q.secVer, ownerManifestSvnEccSig := q.ownerManifestSvnEccSig,
                 ownerManifestSvnLmsSig := q.ownerManifestSvnLmsSig)
  {
    if |sig| >= SVN_SIG_SIZE {
      var w := sig[ECC384_SIG_SIZE..ECC384_SIG_SIZE + 4];
      var lms := SvnOverlay(p, securityVersion, sig).value.ownerManifestSvnLmsSig;
      assert lms[..4] == Reverse(w);
      LeOfReverse(w);
    }
  }

  // ----------------------------------------------------------------- state

  /** `AspeedAuthorizationManifest`: the manifest being rewritten. The file path is not
      modelled; `Close` returns the bytes instead of writing them. */
  class AspeedAuthorizationManifest {
    var preamble: AspeedAuthManifestPreamble
    var metadataCol: AspeedAuthManifestImageMetadataCollection

    constructor(preamble: AspeedAuthManifestPreamble, metadataCol: AspeedAuthManifestImageMetadataCollection)
      ensures this.preamble == preamble && this.metadataCol == metadataCol
    {
      this.preamble := preamble;
      this.metadataCol := metadataCol;
    }

    /** `AspeedAuthorizationManifest::new` on the bytes of the manifest file. */
    static method New(img: seq<bv8>) returns (r: Result<AspeedAuthorizationManifest, Error>)
      ensures r.Failure? ==> Load(img) == Failure(r.error)
      ensures r.Success? ==>
        fresh(r.value) && Load(img) == Success((r.value.preamble, r.value.metadataCol))
    {
      var ori := DecodeUpstreamPreamble(img, 0);
      if ori.None? {
        return Failure(OutOfBounds);
      }
      var col := DecodeCollection(img, UPSTREAM_PREAMBLE_SIZE);
      if col.None? {
        return Failure(OutOfBounds);
      }
      var m := new AspeedAuthorizationManifest(FromUpstream(ori.value), col.value);
      return Success(m);
    }

    /** `close`: the extended preamble's bytes, then the collection's. */
    method Close() returns (image: seq<bv8>)
      ensures image == ManifestImage(preamble, metadataCol)
      ensures |image| == ASPEED_IMAGE_SIZE
      ensures DecodeAspeedPreamble(image, 0) == Some(preamble)
      ensures DecodeCollection(image, ASPEED_PREAMBLE_SIZE) == Some(metadataCol)
    {
      var pre := EncodeAspeedPreamble(preamble);
      var col := EncodeCollection(metadataCol);
      image := [];
      image := image + pre;
      image := image + col;
      assert image == ManifestImage(preamble, metadataCol);
      ManifestImageRoundTrip(preamble, metadataCol);
    }

    /** `modify_vnd_ecc_sig` with the prebuilt DER signature. */
    method ModifyVndEccSig(vndEccSigDer: seq<bv8>) returns (r: Result<(), Error>)
      requires |vndEccSigDer| == VND_ECC_SIG_DER_SIZE
      modifies this
      ensures metadataCol == old(metadataCol)
      ensures VndEccOverlay(old(preamble), vndEccSigDer)
        == if r.Success? then Success(preamble) else Failure(r.error)
      ensures r.Failure? ==> preamble == old(preamble)
    {
      if AllZero(preamble.vndManifestEccSig) {
        return Success(());
      }
      var parsed := Der.SignatureFromDer(vndEccSigDer);
      if parsed.None? {
        return Failure(DerParseFailure);
      }
      // The conversion into the 96-byte slot cannot fail: the swap keeps all 24 words.
      var sigRaw := HardwareEccSig(parsed.value);
      preamble := preamble.(vndManifestEccPubk := Zeros(ECC384_PUBK_SIZE));
      preamble := preamble.(vndManifestEccSig := sigRaw);
      return Success(());
    }

    /** `modify_vnd_lms_sig` with the prebuilt LMS signature; the conversion into the slot
        cannot fail because the blob's size is fixed when the tool is built. */
    method ModifyVndLmsSig(vndLmsSig: LmsSig) returns (r: Result<(), Error>)
      modifies this
      ensures r.Success?
      ensures metadataCol == old(metadataCol)
      ensures preamble == VndLmsOverlay(old(preamble), vndLmsSig)
    {
      if AllZero(preamble.vndManifestLmsSig) {
        return Success(());
      }
      preamble := preamble.(vndManifestLmsPubk := Zeros(LMS_PUBK_SIZE));
      preamble := preamble.(vndManifestLmsSig := vndLmsSig);
      return Success(());
    }

    /** The part of `insert_security_version` after the signer has run: `sig` is the
        contents of the signature file it wrote. */
    method InsertSecurityVersion(securityVersion: u32, sig: seq<bv8>) returns (r: Result<(), Error>)
      modifies this
      ensures metadataCol == old(metadataCol)
      ensures SvnOverlay(old(preamble), securityVersion, sig)
        == if r.Success? then Success(preamble) else Failure(r.error)
      ensures r.Failure? ==> preamble == old(preamble)
    {
      if |sig| < ECC384_SIG_SIZE {
        return Failure(OutOfBounds);
      }
      var eccSig := sig[..ECC384_SIG_SIZE];
      if |sig| < ECC384_SIG_SIZE + LMS_SIG_SIZE {
        return Failure(OutOfBounds);
      }
      var lmsSig := new bv8[LMS_SIG_SIZE](i requires 0 <= i < LMS_SIG_SIZE => sig[ECC384_SIG_SIZE + i]);
      ghost var read := lmsSig[..];
      assert read == sig[ECC384_SIG_SIZE..SVN_SIG_SIZE];
      // Convert the LMS leaf index to the byte order the verifier expects.
      ReverseRange(lmsSig, 0, 4);
      assert read[..0] == [] && read[0..4] == sig[ECC384_SIG_SIZE..ECC384_SIG_SIZE + 4];
      assert read[4..] == sig[ECC384_SIG_SIZE + 4..SVN_SIG_SIZE];
      assert lmsSig[..] == Reverse(sig[ECC384_SIG_SIZE..ECC384_SIG_SIZE + 4]) + sig[ECC384_SIG_SIZE + 4..SVN_SIG_SIZE];
      preamble := preamble.(secVer := securityVersion);
      preamble := preamble.(ownerManifestSvnEccSig := eccSig);
      preamble := preamble.(ownerManifestSvnLmsSig := lmsSig[..]);
      return Success(());
    }
  }
}
