# SoC authorization-manifest overlay

This project is a Dafny model of the SoC-manifest overlay in `cptra_imgtool`
(`src/soc_man.rs`). The upstream Caliptra tool builds an authorization manifest. The
overlay then reshapes that manifest for the Aspeed boot ROM. It does five things:

- It reads the upstream manifest file: a 7168-byte `AuthManifestPreamble` followed by a
  7116-byte image-metadata collection.
- It converts the preamble to the 8888-byte `AspeedAuthManifestPreamble`. The conversion
  adds a security version (`sec_ver`, initially 0) and two security-version (SVN)
  signature slots, which start zeroed.
- Where the vendor manifest ECC signature slot is set, it puts in a prebuilt vendor
  signature. That signature ships as DER. It is stored as raw `r || s`, with every 4-byte
  word byte-reversed, and the vendor ECC public key is cleared.
- Where the vendor LMS signature slot is set, it copies in the prebuilt LMS signature
  verbatim and clears the vendor LMS public key.
- It embeds the SVN signatures produced by an external signer. The first 96 bytes are the
  ECC signature and the next 1620 are the LMS signature. The LMS leaf index (its first
  word) is byte-reversed. It then writes the preamble and the unchanged collection back out.

Modules, following the source's structure:

- `Bytes`: `u32` as `bv32`, the little- and big-endian word codecs, `[0u8; N]`, slice
  reversal, plus the in-place `ReverseRange` on an array. It also holds the per-word byte
  swap of the ECC conversion.
- `Octets`: the byte holding a small length, as `n as u8` computes it.
- `Layout`: a `#[repr(C)]` record made of `u32`s and byte arrays, seen as a list of field
  lengths. `Concat` is `to_img`; `FromImg` is `from_img`, with its bounds check.
- `Records`: the four records, their layouts and sizes, and a codec with round trips in
  both directions.
- `Der`: `p384::ecdsa::Signature::from_der(..).to_vec()` as a decoder of DER
  `SEQUENCE { INTEGER r, INTEGER s }`. Each scalar is read as an unsigned DER integer,
  left-padded to 48 bytes, and must lie in [1, n) for the P-384 order n. The module also
  has the canonical encoder a signer uses.
- `SocMan`: the conversion, the three overlays as functions on preambles, and the class
  `AspeedAuthorizationManifest`. The class's methods update its `preamble` field in place
  and are proved against those functions.
- `Driver`: the order in which `create-auth-man` calls the class (`src/main.rs:165-169`),
  and what the whole sequence produces.

## Model

| member | source | states |
|---|---|---|
| Records.LayoutSizes | src/soc_man.rs:23-88 | the record sizes follow from the field lists: upstream preamble 7168, extended preamble 8888, metadata entry 56, collection 4 + 127·56 = 7116 |
| Layout.FromImg | src/soc_man.rs:101-107 | reading a record at an offset succeeds exactly when offset + size fits the buffer; the fields read have the layout's lengths and are exactly the bytes at [offset, offset + size) |
| Layout.ConcatSplit | src/soc_man.rs:101-113 | cutting a buffer into a record's fields and writing them back gives the record-sized prefix |
| Layout.SplitConcat | src/soc_man.rs:101-113 | writing fields out and cutting the image by their lengths gives the same fields back |
| Layout.SplitField | src/soc_man.rs:101-107 | field i of a record read from a buffer is the buffer slice at that field's offset |
| Records.EncodeUpstreamPreamble | src/soc_man.rs:109-113 | `to_img` of the upstream preamble is 7168 bytes |
| Records.EncodeAspeedPreamble | src/soc_man.rs:109-113 | `to_img` of the extended preamble is 8888 bytes |
| Records.EncodeImageMetadata | src/soc_man.rs:109-113 | `to_img` of a metadata entry is 56 bytes |
| Records.EncodeCollection | src/soc_man.rs:109-113 | `to_img` of the collection is 7116 bytes |
| Records.DecodeUpstreamPreamble | src/soc_man.rs:101-107 | succeeds exactly when offset + 7168 ≤ buffer length; the record read re-encodes to the bytes it was read from |
| Records.DecodeAspeedPreamble | src/soc_man.rs:101-107 | succeeds exactly when offset + 8888 ≤ buffer length; the record read re-encodes to the bytes it was read from |
| Records.DecodeImageMetadata | src/soc_man.rs:101-107 | succeeds exactly when offset + 56 ≤ buffer length; the record read re-encodes to the bytes it was read from |
| Records.DecodeCollection | src/soc_man.rs:101-107 | succeeds exactly when offset + 7116 ≤ buffer length; the record read re-encodes to the bytes it was read from |
| Records.UpstreamPreambleRoundTrip | src/soc_man.rs:101-113 | decoding the image of an upstream preamble returns that preamble |
| Records.AspeedPreambleRoundTrip | src/soc_man.rs:101-113 | decoding the image of an extended preamble returns that preamble |
| Records.ImageMetadataRoundTrip | src/soc_man.rs:101-113 | decoding the image of a metadata entry returns that entry |
| Records.CollectionRoundTrip | src/soc_man.rs:101-113 | decoding the image of a collection returns that collection, all 127 entries and the count |
| Bytes.U32ToLe | src/soc_man.rs:33-36 | `to_le_bytes` of a `u32` field: always 4 bytes; its inverse is stated by `Bytes.LeToU32OfU32ToLe` and `Bytes.U32ToLeOfLeToU32` |
| Bytes.LeToU32 | src/soc_man.rs:33-36 | `from_le_bytes` of a `u32` field; specified by `Bytes.LeToU32OfU32ToLe` and `Bytes.U32ToLeOfLeToU32` |
| Bytes.LeToU32OfU32ToLe | src/soc_man.rs:33-36 | a `u32` field written little-endian reads back as the same word |
| Bytes.U32ToLeOfLeToU32 | src/soc_man.rs:33-36 | four bytes read as a little-endian word are written back unchanged |
| Bytes.LeToBeBytes | src/soc_man.rs:182 | `from_le_bytes` then `to_be_bytes` on one word reverses its four bytes |
| Bytes.WordSwap | src/soc_man.rs:180-184 | the word conversion of the ECC signature; specified by `Bytes.WordSwapLength`, `Bytes.WordSwapAt`, `Bytes.WordSwapInvolution`, and tied to line 182 by `Bytes.LeToBeBytes` |
| Bytes.WordSwapLength | src/soc_man.rs:180-184 | `chunks_exact(4)` then `flat_map` keeps every whole word and drops a trailing partial one: output length = length − length mod 4 |
| Bytes.WordSwapAt | src/soc_man.rs:180-184 | byte k of word q of the output is byte 3 − k of word q of the input |
| Bytes.WordSwapInvolution | src/soc_man.rs:180-184 | on whole words, swapping twice is the identity |
| Bytes.Reverse | src/soc_man.rs:254 | `<[u8]>::reverse` as a value: same length; specified by `Bytes.ReverseReverse` and `Bytes.LeOfReverse`, and implemented in place by `Bytes.ReverseRange` |
| Bytes.ReverseReverse | src/soc_man.rs:254 | reversing a slice twice is the identity |
| Bytes.LeOfReverse | src/soc_man.rs:253-254 | a word stored with its bytes reversed reads little-endian as the original read big-endian |
| Bytes.ReverseRange | src/soc_man.rs:254 | `a[lo..hi].reverse()` in place: the new array is the old prefix, the old range reversed, and the old suffix |
| Der.SignatureFromDer | src/soc_man.rs:177-179 | a successful parse is 96 bytes whose two 48-byte halves are valid P-384 scalars |
| Der.DerRoundTrip | src/soc_man.rs:177-179 | parsing the canonical DER of any valid signature returns that signature |
| Der.DerCanonical | src/soc_man.rs:177-179 | every DER input the parser accepts is the canonical encoding of what it returns: the parser accepts DER only |
| SocMan.FromUpstream | src/soc_man.rs:125-145 | the conversion copies every upstream field, sets `sec_ver` to 0 and zeroes both SVN signature slots |
| SocMan.FromUpstreamImage | src/soc_man.rs:125-145 | an extended preamble is the conversion of an upstream one exactly when `sec_ver` is 0 and both SVN slots are zero |
| SocMan.Load | src/soc_man.rs:116-123 | `new` succeeds exactly on files of at least 7168 + 7116 bytes; the preamble comes from bytes [0, 7168) and the collection from [7168, 14284), with the conversion's properties |
| SocMan.ManifestImage | src/soc_man.rs:154-161 | the image `close` writes is 16004 bytes: the extended preamble's 8888 bytes, then the collection's 7116 |
| SocMan.ManifestImageRoundTrip | src/soc_man.rs:154-161 | reading the written image with the extended layout returns both records |
| SocMan.HardwareEccSig | src/soc_man.rs:177-184 | the parsed `r \|\| s` in hardware word order; specified by `SocMan.SwapBack` and `SocMan.HardwareEccSigOf` |
| SocMan.SwapBack | src/soc_man.rs:180-184 | swapping the hardware form's words back restores the parsed signature |
| SocMan.VndEccOverlay | src/soc_man.rs:165-195 | the only error is the DER parse failure; specified in full by `SocMan.VndEccOverlaySpec` |
| SocMan.VndEccOverlaySpec | src/soc_man.rs:165-195 | an unset slot leaves the preamble untouched; otherwise it fails exactly when the DER does not parse, and on success the slot swapped back is a valid signature whose canonical DER is the prebuilt one, the ECC public key is zero, and no other field changes |
| SocMan.HardwareEccSigOf | src/soc_man.rs:177-184 | the hardware form of a parsed signature swaps back to a valid signature whose canonical DER is the input |
| SocMan.VndLmsOverlay | src/soc_man.rs:197-217 | an unset LMS slot leaves the preamble untouched; otherwise the slot holds the prebuilt blob verbatim, the LMS public key is zero, and no other field changes |
| SocMan.SvnOverlay | src/soc_man.rs:248-260 | the only error is the out-of-bounds read; specified in full by `SocMan.SvnOverlaySpec` |
| SocMan.SvnOverlaySpec | src/soc_man.rs:248-260 | fails exactly when the signer output is under 1716 bytes; otherwise `sec_ver` is set, the SVN ECC slot holds bytes [0, 96), the SVN LMS slot holds [96, 1716) with its first four bytes (the leaf index) reversed, so read little-endian they give the big-endian value, and no other field changes |
| SocMan.AspeedAuthorizationManifest.constructor | src/soc_man.rs:147-151 | the object holds the given preamble and collection |
| SocMan.AspeedAuthorizationManifest.New | src/soc_man.rs:116-152 | returns a fresh object holding exactly what `Load` reads, or `Load`'s error |
| SocMan.AspeedAuthorizationManifest.Close | src/soc_man.rs:154-162 | returns the 16004-byte image of the current state, which decodes back to the object's preamble and collection |
| SocMan.AspeedAuthorizationManifest.ModifyVndEccSig | src/soc_man.rs:165-195 | the new preamble is `VndEccOverlay` of the old one, or the same error with the preamble unchanged; the collection is unchanged |
| SocMan.AspeedAuthorizationManifest.ModifyVndLmsSig | src/soc_man.rs:197-217 | always succeeds; the new preamble is `VndLmsOverlay` of the old one; the collection is unchanged |
| SocMan.AspeedAuthorizationManifest.InsertSecurityVersion | src/soc_man.rs:248-260 | the new preamble is `SvnOverlay` of the old one, or the same error with the preamble unchanged; the collection is unchanged |
| Driver.PostProcess | src/main.rs:165-169 | the sequence's result as a value: on success the 16004-byte extended image; specified by `Driver.PostProcessSucceeds` and `Driver.PostProcessOutput` |
| Driver.CreateAuthManifest | src/main.rs:165-169 | running `new`, the two vendor overlays, the SVN step and `close` in order yields exactly `PostProcess` of the inputs |
| Driver.PostProcessSucceeds | src/main.rs:165-169 | the sequence succeeds exactly when the manifest is at least 14284 bytes, the signer output at least 1716 bytes, and either the vendor ECC slot is unset or the prebuilt DER parses |
| Driver.PostProcessOutput | src/main.rs:165-169 | a successful run writes 16004 bytes; its last 7116 are the input collection's bytes unchanged; its preamble keeps the upstream header words and every owner and metadata signature, and carries the requested security version, the SVN ECC signature, and the SVN LMS signature with its leaf index reversed |
| Driver.FinalPreambleFields | src/main.rs:165-169 | the written preamble keeps every field no step writes, and holds the security version, the SVN ECC signature, and the SVN LMS signature with its first four bytes reversed and the rest verbatim |
| Driver.KeptByOverlays | src/soc_man.rs:125-217 | the conversion and both vendor overlays leave the header words and the owner and metadata signatures as they were upstream |

## Left out

- File input and output: `new` takes the file's bytes instead of reading a path, and `close`
  returns the bytes instead of writing them. The `path` field is not modelled.
- The signer subprocess of `insert_security_version` (src/soc_man.rs:225-246) is not
  modelled. The contents of the signature file it writes are a parameter.
- The prebuilt vendor signatures (`include_bytes!`, src/soc_man.rs:96-99) are parameters.
  Their build-time size checks become the requirement `|vndEccSigDer| == 103` and the type
  of the LMS blob, which is always 1620 bytes.
- Panics are not modelled as aborts. A failed `from_img` bounds check, in `new` or in
  `insert_security_version`, is the result `Failure(OutOfBounds)`, and the run stops there.
- The two "Signature size mismatch" errors (src/soc_man.rs:190-192 and 212-214) cannot occur.
  The decoder yields 96 bytes, the word swap keeps all 24 words, and the LMS blob is 1620
  bytes by construction. The model has no such path.
- "Chunk size mismatch" (src/soc_man.rs:182) cannot occur, since `chunks_exact(4)` only
  yields 4-byte chunks.
- Logging (`info!`, `debug!`) is not modelled.
- Memory safety of the `unsafe` reads and writes is not modelled. Each record is modelled by
  its field list, with no padding, because every field is a `u32` or a byte array in
  `#[repr(C)]` order.
- Der.SignatureFromDer: only short-form DER lengths are accepted. For P-384, a long-form
  length is either non-minimal or announces a magnitude wider than 48 bytes, so the `der`
  crate rejects it too. The crate's error values are one `None`.
- The rest of the tool is not part of this model: command-line parsing, `src/config.rs`,
  `src/utility.rs`, the other subcommands of `src/main.rs`, and the sign helpers.
- The call at src/main.rs:168 passes two arguments to `insert_security_version`, but its
  definition takes three. The third, `key_dir`, only reaches the signer subprocess, which is
  not modelled.
- `metadata_list` holds `IMAGE_METADATA_MAX_COUNT` = 127 entries (src/soc_man.rs:23, 87),
  but nothing checks `count` against that capacity. The model follows the code: a
  collection's `count` is stored and copied as read.
- Host byte order: `to_img` and `from_img` (src/soc_man.rs:104-112) copy host memory, so the
  `u32` fields are in the byte order of the machine the tool runs on. The model fixes
  little-endian.
- The output is not the input re-encoded. `close` writes the 8888-byte extended preamble, not
  the 7168-byte upstream one, so the round trip holds for the extended layout
  (`SocMan.ManifestImageRoundTrip`). The upstream layout has its own round trips in
  `Records`.
