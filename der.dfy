/** `p384::ecdsa::Signature::from_der` and `Signature::to_vec`: an ASN.1 DER
    `SEQUENCE { r INTEGER, s INTEGER }` read into the fixed 96-byte form `r || s`, each
    scalar big-endian and left-padded to 48 bytes, accepted only when both scalars lie in
    [1, n) for the P-384 group order n. The encoder is the canonical DER a signer emits. */
module Der {
  import opened Wrappers
  import opened Bytes
  import opened Octets

  const SCALAR_SIZE: nat := 48
  const SIGNATURE_SIZE: nat := 96

  const TAG_SEQUENCE: bv8 := 0x30
  const TAG_INTEGER: bv8 := 0x02

  /** The order n of the P-384 base point, big-endian. */
  const P384_ORDER: seq<bv8> :=
    [0xFF, 0xFF, 0xFF, 0xFF, 0xFF, 0xFF, 0xFF, 0xFF, 0xFF, 0xFF, 0xFF, 0xFF,
     0xFF, 0xFF, 0xFF, 0xFF, 0xFF, 0xFF, 0xFF, 0xFF, 0xFF, 0xFF, 0xFF, 0xFF,
     0xC7, 0x63, 0x4D, 0x81, 0xF4, 0x37, 0x2D, 0xDF, 0x58, 0x1A, 0x0D, 0xB2,
     0x48, 0xB0, 0xA7, 0x7A, 0xEC, 0xEC, 0x19, 0x6A, 0xCC, 0xC5, 0x29, 0x73]

  /** `a < b` for big-endian unsigned integers of the same width. */
  predicate LessBE(a: seq<bv8>, b: seq<bv8>)
    requires |a| == |b|
  {
    exists k | 0 <= k < |a| :: a[..k] == b[..k] && a[k] < b[k]
  }

  /** A valid (non-zero, reduced) P-384 scalar in 48 big-endian bytes. */
  predicate IsScalar(x: seq<bv8>)
  {
    |x| == SCALAR_SIZE && !AllZero(x) && LessBE(x, P384_ORDER)
  }

  /** The two halves of a raw signature are valid scalars. */
  predicate IsSignature(sig: seq<bv8>)
  {
    |sig| == SIGNATURE_SIZE && IsScalar(sig[..SCALAR_SIZE]) && IsScalar(sig[SCALAR_SIZE..])
  }

  /** The number of zero bytes `s` starts with. */
  function LeadingZeros(s: seq<bv8>): (k: nat)
    ensures k <= |s| && (forall i | 0 <= i < k :: s[i] == 0) && (k < |s| ==> s[k] != 0)
  {
    if |s| > 0 && s[0] == 0 then 1 + LeadingZeros(s[1..]) else 0
  }

  /** Drops every leading zero byte. */
  function StripLeadingZeros(s: seq<bv8>): seq<bv8>
  {
    s[LeadingZeros(s)..]
  }

  /** Copies a big-endian magnitude into the low end of an `n`-byte field. */
  function LeftPad(m: seq<bv8>, n: nat): (x: seq<bv8>)
    requires |m| <= n
    ensures |x| == n && x[n - |m|..] == m && AllZero(x[..n - |m|])
  {
    Zeros(n - |m|) + m
  }

  // ---------------------------------------------------------------- decoder

  /** The contents of a DER `INTEGER` read as an unsigned integer: `None` for empty
      contents, a superfluous leading zero, or a negative value; otherwise the magnitude,
      with the sign-padding zero removed. */
  function UintMagnitude(c: seq<bv8>): (r: Option<seq<bv8>>)
    ensures r.Some? ==> r.value == [0] || (|r.value| > 0 && r.value[0] != 0)
  {
    if |c| == 0 then None
    else if c == [0] then Some(c)
    else if c[0] == 0 && c[1] < 0x80 then None
    else if c[0] == 0 then Some(c[1..])
    else if c[0] >= 0x80 then None
    else Some(c)
  }

  /** Reads one `INTEGER` at the start of `b`; returns its magnitude and the number of
      bytes the element occupies. Lengths must be in DER's short form. */
  function ParseInteger(b: seq<bv8>): (r: Option<(seq<bv8>, nat)>)
    ensures r.Some? ==> 2 <= r.value.1 <= |b|
  {
    if |b| < 2 || b[0] != TAG_INTEGER || b[1] as nat >= 0x80 || |b| < 2 + b[1] as nat then None
    else
      match UintMagnitude(b[2..2 + b[1] as nat])
      case None => None
      case Some(m) => Some((m, 2 + b[1] as nat))
  }

  /** `Signature::from_der(der)` followed by `to_vec()`: `None` when the bytes are not a
      DER `SEQUENCE` holding exactly two `INTEGER`s, when a magnitude is wider than 48
      bytes, or when either scalar is zero or not below the group order. A result is always
      96 bytes, `r` then `s`. */
  function SignatureFromDer(der: seq<bv8>): (r: Option<seq<bv8>>)
    ensures r.Some? ==> |r.value| == SIGNATURE_SIZE
    ensures r.Some? ==> IsSignature(r.value)
  {
    if |der| < 2 || der[0] != TAG_SEQUENCE || der[1] as nat >= 0x80 || |der| != 2 + der[1] as nat then None
    else
      var body := der[2..];
      match ParseInteger(body)
      case None => None
      case Some((rm, n)) =>
        match ParseInteger(body[n..])
        case None => None
        case Some((sm, m)) =>
          if n + m != |body| || |rm| > SCALAR_SIZE || |sm| > SCALAR_SIZE then None
          else
            var rb, sb := LeftPad(rm, SCALAR_SIZE), LeftPad(sm, SCALAR_SIZE);
            if IsScalar(rb) && IsScalar(sb) then
              assert (rb + sb)[..SCALAR_SIZE] == rb && (rb + sb)[SCALAR_SIZE..] == sb;
              Some(rb + sb)
            else None
  }

  // ---------------------------------------------------------------- encoder

  /** The contents of the `INTEGER` for a magnitude without leading zeros: a zero byte
      goes in front when the top bit is set, so that the value reads as non-negative. */
  function UintContents(m: seq<bv8>): (c: seq<bv8>)
    requires |m| > 0
    ensures |c| == if m[0] >= 0x80 then |m| + 1 else |m|
  {
    if m[0] >= 0x80 then [0] + m else m
  }

  /** The canonical DER `INTEGER` for a non-zero 48-byte scalar. */
  function UintToDer(x: seq<bv8>): (b: seq<bv8>)
    requires |x| == SCALAR_SIZE && !AllZero(x)
    ensures 3 <= |b| <= 2 + SCALAR_SIZE + 1
  {
    NonZeroStripped(x);
    var c := UintContents(StripLeadingZeros(x));
    [TAG_INTEGER, ByteOf(|c|)] + c
  }

  /** The canonical DER encoding of a raw signature `r || s` with non-zero halves. */
  function SignatureToDer(sig: seq<bv8>): (der: seq<bv8>)
    requires |sig| == SIGNATURE_SIZE && !AllZero(sig[..SCALAR_SIZE]) && !AllZero(sig[SCALAR_SIZE..])
    ensures 8 <= |der| <= 2 + 2 * (2 + SCALAR_SIZE + 1)
  {
    var body := UintToDer(sig[..SCALAR_SIZE]) + UintToDer(sig[SCALAR_SIZE..]);
    [TAG_SEQUENCE, ByteOf(|body|)] + body
  }

  // ------------------------------------------------------------------ lemmas

  /** Stripping a non-zero value leaves at least one byte, and that byte is not zero. */
  lemma NonZeroStripped(x: seq<bv8>)
    requires !AllZero(x)
    ensures |StripLeadingZeros(x)| > 0 && StripLeadingZeros(x)[0] != 0
  {
  }

  /** Padding a stripped value restores it. */
  lemma PadStripped(x: seq<bv8>)
    requires |x| == SCALAR_SIZE
    ensures LeftPad(StripLeadingZeros(x), SCALAR_SIZE) == x
  {
    var k := LeadingZeros(x);
    assert Zeros(k) == x[..k];
    assert x == x[..k] + x[k..];
  }

  /** Stripping a padded magnitude without leading zeros restores it. */
  lemma StripPadded(m: seq<bv8>, n: nat)
    requires |m| <= n && |m| > 0 && m[0] != 0
    ensures StripLeadingZeros(LeftPad(m, n)) == m
  {
    var p := LeftPad(m, n);
    var j := n - |m|;
    assert p[j] == m[0];
    assert LeadingZeros(p) == j;
  }

  /** The contents the encoder writes for a magnitude read back as that magnitude. */
  lemma ContentsMagnitude(m: seq<bv8>)
    requires |m| > 0 && m[0] != 0
    ensures UintMagnitude(UintContents(m)) == Some(m)
  {
    if m[0] >= 0x80 {
      assert UintContents(m)[1..] == m;
    }
  }

  /** Contents the decoder accepts, holding a magnitude other than zero, are the ones the
      encoder writes for that magnitude. */
  lemma MagnitudeContents(c: seq<bv8>, m: seq<bv8>)
    requires UintMagnitude(c) == Some(m) && m != [0]
    ensures |m| > 0 && UintContents(m) == c
  {
    if c[0] == 0 {
      assert c == [0] + c[1..];
    }
  }

  /** A short-form `INTEGER` header followed by its contents, whatever comes after it. */
  lemma IntegerHeader(c: seq<bv8>, rest: seq<bv8>)
    requires 0 < |c| < 0x80
    ensures ParseInteger([TAG_INTEGER, ByteOf(|c|)] + c + rest)
         == match UintMagnitude(c)
            case None => None
            case Some(m) => Some((m, 2 + |c|))
  {
    var b := [TAG_INTEGER, ByteOf(|c|)] + c + rest;
    assert b[1] as nat == |c|;
    assert b[2..2 + |c|] == c;
  }

  /** An `INTEGER` the decoder accepts is a short-form header followed by contents that
      hold the magnitude it returned. */
  lemma IntegerParsed(b: seq<bv8>, m: seq<bv8>, n: nat)
    requires ParseInteger(b) == Some((m, n))
    ensures 2 <= n <= |b| && n - 2 < 0x80 && UintMagnitude(b[2..n]) == Some(m)
    ensures b[..n] == [TAG_INTEGER, ByteOf(n - 2)] + b[2..n]
  {
    ByteOfValue(b[1]);
    assert b[..n] == [b[0], b[1]] + b[2..n];
  }

  /** The `INTEGER` the encoder writes reads back as the stripped magnitude and occupies
      exactly its own bytes, whatever follows it. */
  lemma UintRoundTrip(x: seq<bv8>, rest: seq<bv8>)
    requires |x| == SCALAR_SIZE && !AllZero(x)
    ensures ParseInteger(UintToDer(x) + rest) == Some((StripLeadingZeros(x), |UintToDer(x)|))
  {
    var m := StripLeadingZeros(x);
    NonZeroStripped(x);
    IntegerHeader(UintContents(m), rest);
    ContentsMagnitude(m);
  }

  /** Decoding the encoder's output gives the signature back. */
  lemma DerRoundTrip(sig: seq<bv8>)
    requires IsSignature(sig)
    ensures SignatureFromDer(SignatureToDer(sig)) == Some(sig)
  {
    var r, s := sig[..SCALAR_SIZE], sig[SCALAR_SIZE..];
    var der := SignatureToDer(sig);
    SequenceHeader(sig);
    IntegersOf(sig);
    PadStripped(r);
    PadStripped(s);
    SignatureSplit(sig);
    DecodeSteps(der, StripLeadingZeros(r), |UintToDer(r)|, StripLeadingZeros(s), |UintToDer(s)|);
  }

  /** A raw signature is its `r` half followed by its `s` half. */
  lemma SignatureSplit(sig: seq<bv8>)
    requires |sig| == SIGNATURE_SIZE
    ensures sig[..SCALAR_SIZE] + sig[SCALAR_SIZE..] == sig
  {
  }

  /** The decoder accepts a short-form `SEQUENCE` filled by two `INTEGER`s whose padded
      magnitudes are valid scalars, and returns those scalars. */
  lemma DecodeSteps(der: seq<bv8>, rm: seq<bv8>, n: nat, sm: seq<bv8>, m: nat)
    requires |der| >= 2 && der[0] == TAG_SEQUENCE && der[1] as nat < 0x80 && |der| == 2 + der[1] as nat
    requires ParseInteger(der[2..]) == Some((rm, n)) && n <= |der| - 2
    requires ParseInteger(der[2..][n..]) == Some((sm, m)) && n + m == |der| - 2
    requires |rm| <= SCALAR_SIZE && |sm| <= SCALAR_SIZE
    requires IsScalar(LeftPad(rm, SCALAR_SIZE)) && IsScalar(LeftPad(sm, SCALAR_SIZE))
    ensures SignatureFromDer(der) == Some(LeftPad(rm, SCALAR_SIZE) + LeftPad(sm, SCALAR_SIZE))
  {
  }

  /** The encoder's outer `SEQUENCE` header is one the decoder accepts. */
  lemma SequenceHeader(sig: seq<bv8>)
    requires IsSignature(sig)
    ensures var der := SignatureToDer(sig);
      |der| >= 2 && der[0] == TAG_SEQUENCE && der[1] as nat < 0x80 && |der| == 2 + der[1] as nat
      && der[2..] == UintToDer(sig[..SCALAR_SIZE]) + UintToDer(sig[SCALAR_SIZE..])
  {
  }

  /** The encoder's two `INTEGER`s read back in order and fill the `SEQUENCE`. */
  lemma IntegersOf(sig: seq<bv8>)
    requires IsSignature(sig)
    ensures var r, s := sig[..SCALAR_SIZE], sig[SCALAR_SIZE..];
      var body := UintToDer(r) + UintToDer(s);
      ParseInteger(body) == Some((StripLeadingZeros(r), |UintToDer(r)|))
      && ParseInteger(body[|UintToDer(r)|..]) == Some((StripLeadingZeros(s), |UintToDer(s)|))
  {
    var r, s := sig[..SCALAR_SIZE], sig[SCALAR_SIZE..];
    var er, es := UintToDer(r), UintToDer(s);
    UintRoundTrip(r, es);
    assert (er + es)[|er|..] == es + [];
    UintRoundTrip(s, []);
  }

  /** The magnitude `[0]` pads to the zero scalar. */
  lemma PaddedZero()
    ensures AllZero(LeftPad([0], SCALAR_SIZE))
  {
  }

  /** An `INTEGER` the decoder accepts, holding a non-zero scalar, is exactly what the
      encoder writes for that scalar. */
  lemma UintCanonical(b: seq<bv8>, m: seq<bv8>, n: nat)
    requires ParseInteger(b) == Some((m, n)) && |m| <= SCALAR_SIZE
    requires !AllZero(LeftPad(m, SCALAR_SIZE))
    ensures UintToDer(LeftPad(m, SCALAR_SIZE)) == b[..n]
  {
    IntegerParsed(b, m, n);
    PaddedZero();
    MagnitudeContents(b[2..n], m);
    StripPadded(m, SCALAR_SIZE);
  }

  /** DER is canonical: every encoding the decoder accepts is the one the encoder
      produces for the decoded signature. */
  lemma DerCanonical(der: seq<bv8>)
    requires SignatureFromDer(der).Some?
    ensures SignatureToDer(SignatureFromDer(der).value) == der
  {
    var rm, n, sm, m := DecodedParts(der);
    IntegersCanonical(der, rm, n, sm, m);
  }

  /** What the decoder read on its way to a signature: a short-form `SEQUENCE` whose
      contents are two `INTEGER`s, `n` and `m` bytes long, holding magnitudes `rm` and `sm`. */
  lemma DecodedParts(der: seq<bv8>) returns (rm: seq<bv8>, n: nat, sm: seq<bv8>, m: nat)
    requires SignatureFromDer(der).Some?
    ensures |der| >= 2 && der[0] == TAG_SEQUENCE && |der| == 2 + der[1] as nat
    ensures ParseInteger(der[2..]) == Some((rm, n)) && n <= |der| - 2
    ensures ParseInteger(der[2..][n..]) == Some((sm, m)) && n + m == |der| - 2
    ensures |rm| <= SCALAR_SIZE && |sm| <= SCALAR_SIZE
    ensures SignatureFromDer(der).value == LeftPad(rm, SCALAR_SIZE) + LeftPad(sm, SCALAR_SIZE)
    ensures !AllZero(LeftPad(rm, SCALAR_SIZE)) && !AllZero(LeftPad(sm, SCALAR_SIZE))
  {
    var body := der[2..];
    rm, n := ParseInteger(body).value.0, ParseInteger(body).value.1;
    sm, m := ParseInteger(body[n..]).value.0, ParseInteger(body[n..]).value.1;
  }

  /** The encoder rebuilds the `SEQUENCE` from the magnitudes read out of it. */
  lemma IntegersCanonical(der: seq<bv8>, rm: seq<bv8>, n: nat, sm: seq<bv8>, m: nat)
    requires |der| >= 2 && der[0] == TAG_SEQUENCE && |der| == 2 + der[1] as nat
    requires ParseInteger(der[2..]) == Some((rm, n)) && n <= |der| - 2
    requires ParseInteger(der[2..][n..]) == Some((sm, m)) && n + m == |der| - 2
    requires |rm| <= SCALAR_SIZE && |sm| <= SCALAR_SIZE
    requires !AllZero(LeftPad(rm, SCALAR_SIZE)) && !AllZero(LeftPad(sm, SCALAR_SIZE))
    ensures SignatureToDer(LeftPad(rm, SCALAR_SIZE) + LeftPad(sm, SCALAR_SIZE)) == der
  {
    var body := der[2..];
    UintCanonical(body, rm, n);
    UintCanonical(body[n..], sm, m);
    assert body[n..][..m] == body[n..];
    CanonicalParts(der, LeftPad(rm, SCALAR_SIZE), LeftPad(sm, SCALAR_SIZE), n);
  }

  /** The encoder rebuilds a `SEQUENCE` from the two scalars whose encodings fill it. */
  lemma CanonicalParts(der: seq<bv8>, rb: seq<bv8>, sb: seq<bv8>, n: nat)
    requires |der| >= 2 && der[0] == TAG_SEQUENCE && |der| == 2 + der[1] as nat && n <= |der| - 2
    requires |rb| == SCALAR_SIZE && |sb| == SCALAR_SIZE && !AllZero(rb) && !AllZero(sb)
    requires UintToDer(rb) == der[2..][..n] && UintToDer(sb) == der[2..][n..]
    ensures SignatureToDer(rb + sb) == der
  {
    SignatureHalves(rb, sb);
    assert der[2..] == der[2..][..n] + der[2..][n..];
    SequenceOf(der, UintToDer(rb) + UintToDer(sb));
  }

  /** The halves of `r || s` are `r` and `s`, and the encoder writes them in that order. */
  lemma SignatureHalves(r: seq<bv8>, s: seq<bv8>)
    requires |r| == SCALAR_SIZE && |s| == SCALAR_SIZE && !AllZero(r) && !AllZero(s)
    ensures (r + s)[..SCALAR_SIZE] == r && (r + s)[SCALAR_SIZE..] == s
    ensures var body := UintToDer(r) + UintToDer(s);
      SignatureToDer(r + s) == [TAG_SEQUENCE, ByteOf(|body|)] + body
  {
    assert (r + s)[..SCALAR_SIZE] == r && (r + s)[SCALAR_SIZE..] == s;
  }

  /** A short-form `SEQUENCE` is its header followed by its contents. */
  lemma SequenceOf(der: seq<bv8>, body: seq<bv8>)
    requires |der| >= 2 && der[0] == TAG_SEQUENCE && |der| == 2 + der[1] as nat && der[2..] == body
    ensures [TAG_SEQUENCE, ByteOf(|body|)] + body == der
  {
    ByteOfValue(der[1]);
    assert der == [der[0], der[1]] + body;
  }
}
