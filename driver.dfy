/** The post-processing sequence of the `create-auth-man` command: load the manifest the
    upstream tool produced, apply the vendor ECC and LMS overlays, embed the
    security-version signatures, and write the extended manifest. */
module Driver {
  import opened Wrappers
  import opened Bytes
  import opened Records
  import opened SocMan
  import Der

  /** The manifest the sequence writes, or the first error it stops at. */
  function PostProcess(img: seq<bv8>, vndEccSigDer: seq<bv8>, vndLmsSig: LmsSig,
                       securityVersion: u32, svnSig: seq<bv8>): (r: Result<seq<bv8>, Error>)
    ensures r.Success? ==> |r.value| == ASPEED_IMAGE_SIZE
  {
    match Load(img)
    case Failure(e) => Failure(e)
    case Success((pre, col)) =>
      match VndEccOverlay(pre, vndEccSigDer)
      case Failure(e) => Failure(e)
      case Success(withEcc) =>
        match SvnOverlay(VndLmsOverlay(withEcc, vndLmsSig), securityVersion, svnSig)
        case Failure(e) => Failure(e)
        case Success(done) => Success(ManifestImage(done, col))
  }

  /** Runs `new`, `modify_vnd_ecc_sig`, `modify_vnd_lms_sig`, `insert_security_version`
      and `close` in that order, stopping at the first failure. */
  method CreateAuthManifest(img: seq<bv8>, vndEccSigDer: seq<bv8>, vndLmsSig: LmsSig,
                            securityVersion: u32, svnSig: seq<bv8>) returns (r: Result<seq<bv8>, Error>)
    requires |vndEccSigDer| == VND_ECC_SIG_DER_SIZE
    ensures r == PostProcess(img, vndEccSigDer, vndLmsSig, securityVersion, svnSig)
  {
    var loaded := AspeedAuthorizationManifest.New(img);
    if loaded.Failure? {
      return Failure(loaded.error);
    }
    var socMan := loaded.value;
    ghost var (pre, col) := Load(img).value;
    var ecc := socMan.ModifyVndEccSig(vndEccSigDer);
    if ecc.Failure? {
      return Failure(ecc.error);
    }
    ghost var withEcc := socMan.preamble;
    // `modify_vnd_lms_sig` always succeeds.
    var _ := socMan.ModifyVndLmsSig(vndLmsSig);
    var svn := socMan.InsertSecurityVersion(securityVersion, svnSig);
    if svn.Failure? {
      PostProcessStops(img, vndEccSigDer, vndLmsSig, securityVersion, svnSig, pre, col, withEcc);
      return Failure(svn.error);
    }
    var image := socMan.Close();
    PostProcessRuns(img, vndEccSigDer, vndLmsSig, securityVersion, svnSig, pre, col, withEcc, socMan.preamble);
    return Success(image);
  }

  /** `PostProcess` stopping at the security-version step. */
  lemma PostProcessStops(img: seq<bv8>, vndEccSigDer: seq<bv8>, vndLmsSig: LmsSig,
                         securityVersion: u32, svnSig: seq<bv8>,
                         pre: AspeedAuthManifestPreamble, col: AspeedAuthManifestImageMetadataCollection,
                         withEcc: AspeedAuthManifestPreamble)
    requires Load(img) == Success((pre, col))
    requires VndEccOverlay(pre, vndEccSigDer) == Success(withEcc)
    requires SvnOverlay(VndLmsOverlay(withEcc, vndLmsSig), securityVersion, svnSig).Failure?
    ensures PostProcess(img, vndEccSigDer, vndLmsSig, securityVersion, svnSig)
         == Failure(SvnOverlay(VndLmsOverlay(withEcc, vndLmsSig), securityVersion, svnSig).error)
  {
  }

  /** `PostProcess` running to the end. */
  lemma PostProcessRuns(img: seq<bv8>, vndEccSigDer: seq<bv8>, vndLmsSig: LmsSig,
                        securityVersion: u32, svnSig: seq<bv8>,
                        pre: AspeedAuthManifestPreamble, col: AspeedAuthManifestImageMetadataCollection,
                        withEcc: AspeedAuthManifestPreamble, done: AspeedAuthManifestPreamble)
    requires Load(img) == Success((pre, col))
    requires VndEccOverlay(pre, vndEccSigDer) == Success(withEcc)
    requires SvnOverlay(VndLmsOverlay(withEcc, vndLmsSig), securityVersion, svnSig) == Success(done)
    ensures PostProcess(img, vndEccSigDer, vndLmsSig, securityVersion, svnSig) == Success(ManifestImage(done, col))
  {
  }

  /** The sequence fails exactly when the manifest is too short, when a configured vendor
      ECC signature slot meets a prebuilt DER signature that does not parse, or when the
      signer output is too short. */
  lemma PostProcessSucceeds(img: seq<bv8>, vndEccSigDer: seq<bv8>, vndLmsSig: LmsSig,
                            securityVersion: u32, svnSig: seq<bv8>)
    ensures PostProcess(img, vndEccSigDer, vndLmsSig, securityVersion, svnSig).Success?
        <==> |img| >= UPSTREAM_IMAGE_SIZE && |svnSig| >= SVN_SIG_SIZE
             && (AllZero(DecodeUpstreamPreamble(img, 0).value.vndManifestEccSig)
                 || Der.SignatureFromDer(vndEccSigDer).Some?)
  {
    if |img| >= UPSTREAM_IMAGE_SIZE {
      LoadedPreamble(img);
      var (pre, col) := Load(img).value;
      VndEccOverlaySpec(pre, vndEccSigDer);
      if VndEccOverlay(pre, vndEccSigDer).Success? {
        SvnOverlaySpec(VndLmsOverlay(VndEccOverlay(pre, vndEccSigDer).value, vndLmsSig), securityVersion, svnSig);
      }
    }
  }

  /** The output is the extended manifest: 16004 bytes ending in the collection bytes
      copied unchanged, whose preamble keeps the upstream header and owner fields and
      carries the requested security version and signatures. */
  lemma PostProcessOutput(img: seq<bv8>, vndEccSigDer: seq<bv8>, vndLmsSig: LmsSig,
                          securityVersion: u32, svnSig: seq<bv8>)
    requires PostProcess(img, vndEccSigDer, vndLmsSig, securityVersion, svnSig).Success?
    ensures |img| >= UPSTREAM_IMAGE_SIZE && |svnSig| >= SVN_SIG_SIZE
    ensures var out := PostProcess(img, vndEccSigDer, vndLmsSig, securityVersion, svnSig).value;
      |out| == ASPEED_IMAGE_SIZE
      && out[ASPEED_PREAMBLE_SIZE..] == img[UPSTREAM_PREAMBLE_SIZE..UPSTREAM_IMAGE_SIZE]
      && DecodeAspeedPreamble(out, 0).Some?
      && Kept(DecodeUpstreamPreamble(img, 0).value, DecodeAspeedPreamble(out, 0).value)
      && var q := DecodeAspeedPreamble(out, 0).value;
         q.secVer == securityVersion
         && q.ownerManifestSvnEccSig == svnSig[..ECC384_SIG_SIZE]
         && q.ownerManifestSvnLmsSig[..4] == Reverse(svnSig[ECC384_SIG_SIZE..ECC384_SIG_SIZE + 4])
         && q.ownerManifestSvnLmsSig[4..] == svnSig[ECC384_SIG_SIZE + 4..SVN_SIG_SIZE]
  {
    PostProcessSucceeds(img, vndEccSigDer, vndLmsSig, securityVersion, svnSig);
    var done := FinalPreamble(img, vndEccSigDer, vndLmsSig, securityVersion, svnSig);
    var col := Load(img).value.1;
    assert PostProcess(img, vndEccSigDer, vndLmsSig, securityVersion, svnSig) == Success(ManifestImage(done, col));
    FinalPreambleFields(img, vndEccSigDer, vndLmsSig, securityVersion, svnSig);
    ManifestImageRoundTrip(done, col);
  }

  /** The preamble the sequence writes, when it runs to the end. */
  function FinalPreamble(img: seq<bv8>, vndEccSigDer: seq<bv8>, vndLmsSig: LmsSig,
                         securityVersion: u32, svnSig: seq<bv8>): AspeedAuthManifestPreamble
    requires PostProcess(img, vndEccSigDer, vndLmsSig, securityVersion, svnSig).Success?
  {
    var withEcc := VndEccOverlay(Load(img).value.0, vndEccSigDer).value;
    SvnOverlay(VndLmsOverlay(withEcc, vndLmsSig), securityVersion, svnSig).value
  }

  lemma FinalPreambleFields(img: seq<bv8>, vndEccSigDer: seq<bv8>, vndLmsSig: LmsSig,
                            securityVersion: u32, svnSig: seq<bv8>)
    requires PostProcess(img, vndEccSigDer, vndLmsSig, securityVersion, svnSig).Success?
    ensures |img| >= UPSTREAM_IMAGE_SIZE && |svnSig| >= SVN_SIG_SIZE
    ensures var q := FinalPreamble(img, vndEccSigDer, vndLmsSig, securityVersion, svnSig);
      Kept(DecodeUpstreamPreamble(img, 0).value, q)
      && q.secVer == securityVersion
      && q.ownerManifestSvnEccSig == svnSig[..ECC384_SIG_SIZE]
      && q.ownerManifestSvnLmsSig[..4] == Reverse(svnSig[ECC384_SIG_SIZE..ECC384_SIG_SIZE + 4])
      && q.ownerManifestSvnLmsSig[4..] == svnSig[ECC384_SIG_SIZE + 4..SVN_SIG_SIZE]
  {
    PostProcessSucceeds(img, vndEccSigDer, vndLmsSig, securityVersion, svnSig);
    LoadedPreamble(img);
    var up := DecodeUpstreamPreamble(img, 0).value;
    var pre := Load(img).value.0;
    var withEcc := VndEccOverlay(pre, vndEccSigDer).value;
    KeptByOverlays(up, pre, withEcc, vndEccSigDer, vndLmsSig);
    SvnOverlaySpec(VndLmsOverlay(withEcc, vndLmsSig), securityVersion, svnSig);
  }

  /** The vendor overlays write no field that `Kept` names. */
  lemma KeptByOverlays(up: AuthManifestPreamble, pre: AspeedAuthManifestPreamble,
                       withEcc: AspeedAuthManifestPreamble, vndEccSigDer: seq<bv8>, vndLmsSig: LmsSig)
    requires pre == FromUpstream(up) && VndEccOverlay(pre, vndEccSigDer) == Success(withEcc)
    ensures Kept(up, VndLmsOverlay(withEcc, vndLmsSig))
  {
    KeptByConversion(up);
    KeptByEccOverlay(up, pre, vndEccSigDer);
    KeptByLmsOverlay(up, withEcc, vndLmsSig);
  }

  lemma KeptByConversion(up: AuthManifestPreamble)
    ensures Kept(up, FromUpstream(up))
  {
  }

  lemma KeptByEccOverlay(up: AuthManifestPreamble, p: AspeedAuthManifestPreamble, vndEccSigDer: seq<bv8>)
    requires Kept(up, p) && VndEccOverlay(p, vndEccSigDer).Success?
    ensures Kept(up, VndEccOverlay(p, vndEccSigDer).value)
  {
  }

  lemma KeptByLmsOverlay(up: AuthManifestPreamble, p: AspeedAuthManifestPreamble, vndLmsSig: LmsSig)
    requires Kept(up, p)
    ensures Kept(up, VndLmsOverlay(p, vndLmsSig))
  {
  }

  /** The fields no step of the sequence writes: the header words and every owner and
      metadata signature. */
  predicate Kept(up: AuthManifestPreamble, q: AspeedAuthManifestPreamble)
  {
    q.magic == up.magic && q.size == up.size && q.ver == up.ver && q.flags == up.flags
    && q.ownerManifestEccPubk == up.ownerManifestEccPubk
    && q.ownerManifestLmsPubk == up.ownerManifestLmsPubk
    && q.ownerManifestEccSig == up.ownerManifestEccSig
    && q.ownerManifestLmsSig == up.ownerManifestLmsSig
    && q.vndMatadataEccSig == up.vndMatadataEccSig && q.vndMatadataLmsSig == up.vndMatadataLmsSig
    && q.ownerMatadataEccSig == up.ownerMatadataEccSig
    && q.ownerMatadataLmsSig == up.ownerMatadataLmsSig
  }

  lemma LoadedPreamble(img: seq<bv8>)
    requires |img| >= UPSTREAM_IMAGE_SIZE
    ensures Load(img).Success?
    ensures Load(img).value == (FromUpstream(DecodeUpstreamPreamble(img, 0).value),
                                DecodeCollection(img, UPSTREAM_PREAMBLE_SIZE).value)
  {
  }
}
