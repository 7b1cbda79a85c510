/** Acceptance of a signed bundle: manifest lifecycle and policy, detached signature, payload and catalog. */
module BundlePolicy {
  import opened Prelude
  import opened Catalogs
  import opened BoundedGzip

  /** Times are microseconds. */
  const MAX_FUTURE_SKEW := 5 * 60 * 1_000_000
  const MAX_VALIDITY := 366 * 86_400 * 1_000_000
  const SUPPORTED_CATALOG_FORMAT_VERSION := 1

  datatype PayloadKind = AdvisoryCatalog | KevPrioritization

  datatype MediaType = MediaType(kind: PayloadKind, gzip: bool)

  datatype Compression = Uncompressed | Gzip

  datatype Provenance = Provenance(sourceName: string, sourceVersion: string, datasetId: string, retrievedAt: int)

  datatype Manifest = Manifest(
    sourceId: string, publisherKeyId: string, catalogVersion: string, catalogSequence: nat,
    createdAt: int, expiresAt: int,
    payloadName: string, payloadKind: PayloadKind, mediaType: MediaType, compression: Compression, payloadDigest: string,
    compressedBytes: nat, uncompressedBytes: nat, advisoryCount: nat, aliasCount: nat, referenceCount: nat,
    license: string, attribution: string, provenance: Provenance,
    adapterVersion: string, minimumCatalogVersion: nat)

  datatype KeyStatus = ActiveKey | RetiredKey | RevokedKey

  datatype Publisher = Publisher(status: KeyStatus, notBefore: Option<int>, notAfter: Option<int>, publicKey: Bytes)

  datatype Limits = Limits(
    maximumManifestBytes: nat, maximumSignatureBytes: nat, maximumCompressedBytes: nat, maximumUncompressedBytes: nat,
    maximumExpansionRatio: nat, maximumAdvisories: nat, maximumAliases: nat, maximumReferences: nat,
    maximumIndexBytes: nat, maximumMirrorCatalogs: nat, maximumSnapshotBytes: nat, maximumIndexAge: nat)

  /** A reviewed source that delivers advisory catalogs. `mirrorKeys` are the index keys of a mirror source. */
  datatype FeedSource = FeedSource(
    sourceId: string, adapterVersion: string, minimumVersion: string, mirrorKeys: Option<seq<string>>,
    expectedPayloadName: string, expectedCatalogSource: string,
    trustedPublishers: seq<string>, acceptedLicenses: seq<string>, requiredAttribution: string, limits: Limits)

  const MAX_FEED_PAYLOAD_BYTES := 8 * 1024 * 1024

  /** The bounds the registry sets on a source's limits. Ages are in seconds. */
  predicate ValidLimits(l: Limits) {
    && 1 <= l.maximumManifestBytes <= 64 * 1024 && 64 <= l.maximumSignatureBytes <= 4096
    && 1 <= l.maximumCompressedBytes <= l.maximumUncompressedBytes <= MAX_FEED_PAYLOAD_BYTES
    && 1 <= l.maximumExpansionRatio <= 100 && 1 <= l.maximumAdvisories <= MAX_ADVISORIES
    && l.maximumAliases <= 640_000 && l.maximumReferences <= 320_000
    && 1024 <= l.maximumIndexBytes <= 1024 * 1024 && 1 <= l.maximumMirrorCatalogs <= 32
    && 1024 * 1024 <= l.maximumSnapshotBytes <= 256 * 1024 * 1024 && l.maximumCompressedBytes <= l.maximumSnapshotBytes
    && 60 <= l.maximumIndexAge <= 31 * 86_400
  }

  type Registry = map<string, Publisher>

  /** The libraries: parsing, digests, base64, Ed25519 and gzip. Nothing is assumed about them here. */
  datatype Library = Library(
    parseManifest: Bytes -> Option<Manifest>, parseCatalog: Bytes -> Option<Catalog>, gzip: Bytes -> Decoded,
    sha256: Bytes -> string, base64Encode: Bytes -> Bytes, base64Decode: Bytes -> Option<Bytes>,
    signatureHolds: (Bytes, Bytes, Bytes) -> bool)

  datatype BundleError =
    | ManifestSizeInvalid | ManifestSchemaInvalid | PublisherKeyUnknown
    | SourceMismatch | PublisherSubstitution | PublisherKeyRevoked | PublisherKeyRetired
    | PublisherKeyNotYetValid | PublisherKeyExpired | PublisherKeyTimeInvalid
    | ManifestFutureDated | ProvenanceFutureDated | BundleExpired
    | PayloadNameMismatch | PayloadKindMismatch | AdapterVersionMismatch | CatalogVersionIncompatible
    | LicenseMismatch | AttributionMissing | PayloadClaimTooLarge | CountTooLarge
    | SignatureSizeInvalid | SignatureMalformed | SignatureLengthInvalid | SignatureInvalid
    | CompressedSizeMismatch | PayloadDigestMismatch | PayloadInvalid(error: GzipError) | UncompressedSizeMismatch
    | CatalogInvalid | CatalogVersionMismatch | CatalogSourceMismatch | ProvenanceSourceMismatch | ProvenanceVersionMismatch
    | CountMismatch

  /* ---------- The manifest ---------- */

  /** The manifest's own validator, part of its schema. */
  predicate ValidLifecycle(m: Manifest) {
    && m.createdAt < m.expiresAt
    && m.expiresAt - m.createdAt <= MAX_VALIDITY
    && m.mediaType == MediaType(m.payloadKind, m.compression.Gzip?)
    && (m.compression.Uncompressed? ==> m.compressedBytes == m.uncompressedBytes)
  }

  predicate ValidManifest(m: Manifest) {
    && ValidLifecycle(m)
    && 1 <= m.catalogSequence <= 9_223_372_036_854_775_807
    && 1 <= m.compressedBytes && 1 <= m.uncompressedBytes && 1 <= m.minimumCatalogVersion
  }

  function ParseManifest(lib: Library, data: Bytes, maximumBytes: nat): Result<Manifest, BundleError> {
    if |data| == 0 || |data| > maximumBytes then Err(ManifestSizeInvalid)
    else
      match lib.parseManifest(data)
      case None => Err(ManifestSchemaInvalid)
      case Some(m) => if ValidManifest(m) then Ok(m) else Err(ManifestSchemaInvalid)
  }

  predicate Before(now: int, bound: Option<int>) {
    bound.Some? && now < bound.value
  }

  predicate AtOrAfter(now: int, bound: Option<int>) {
    bound.Some? && now >= bound.value
  }

  function CheckPolicy(m: Manifest, source: FeedSource, publisher: Publisher, now: int): Option<BundleError> {
    if m.sourceId != source.sourceId then Some(SourceMismatch)
    else if m.publisherKeyId !in source.trustedPublishers then Some(PublisherSubstitution)
    else if publisher.status == RevokedKey then Some(PublisherKeyRevoked)
    else if publisher.status != ActiveKey then Some(PublisherKeyRetired)
    else if Before(now, publisher.notBefore) then Some(PublisherKeyNotYetValid)
    else if AtOrAfter(now, publisher.notAfter) then Some(PublisherKeyExpired)
    else if Before(m.createdAt, publisher.notBefore) then Some(PublisherKeyTimeInvalid)
    else if AtOrAfter(m.createdAt, publisher.notAfter) then Some(PublisherKeyTimeInvalid)
    else if m.createdAt > now + MAX_FUTURE_SKEW then Some(ManifestFutureDated)
    else if m.provenance.retrievedAt > now + MAX_FUTURE_SKEW || m.provenance.retrievedAt > m.createdAt + MAX_FUTURE_SKEW
    then Some(ProvenanceFutureDated)
    else if m.expiresAt <= now then Some(BundleExpired)
    else if m.payloadName != source.expectedPayloadName then Some(PayloadNameMismatch)
    else if m.payloadKind != AdvisoryCatalog then Some(PayloadKindMismatch)
    else if m.adapterVersion != source.adapterVersion then Some(AdapterVersionMismatch)
    else if m.minimumCatalogVersion > SUPPORTED_CATALOG_FORMAT_VERSION then Some(CatalogVersionIncompatible)
    else if m.license !in source.acceptedLicenses then Some(LicenseMismatch)
    else if m.attribution != source.requiredAttribution then Some(AttributionMissing)
    else if m.compressedBytes > source.limits.maximumCompressedBytes then Some(PayloadClaimTooLarge)
    else if m.uncompressedBytes > source.limits.maximumUncompressedBytes then Some(PayloadClaimTooLarge)
    else if m.advisoryCount > source.limits.maximumAdvisories then Some(CountTooLarge)
    else if m.aliasCount > source.limits.maximumAliases then Some(CountTooLarge)
    else if m.referenceCount > source.limits.maximumReferences then Some(CountTooLarge)
    else None
  }

  /* ---------- The detached signature ---------- */

  const CR: byte := 13
  const LF: byte := 10

  predicate IsBlank(b: byte) {
    b == 32 || b == 9 || b == CR || b == LF
  }

  /** One trailing line end, of either kind, is dropped. */
  function WithoutLineEnd(data: Bytes): Bytes {
    if |data| >= 2 && data[|data| - 2] == CR && data[|data| - 1] == LF then data[..|data| - 2]
    else if |data| >= 1 && data[|data| - 1] == LF then data[..|data| - 1]
    else data
  }

  function DecodeSignature(lib: Library, data: Bytes, maximumBytes: nat): Result<Bytes, BundleError> {
    if |data| == 0 || |data| > maximumBytes then Err(SignatureSizeInvalid)
    else
      var encoded := WithoutLineEnd(data);
      if |encoded| == 0 || exists i :: 0 <= i < |encoded| && IsBlank(encoded[i]) then Err(SignatureMalformed)
      else
        match lib.base64Decode(encoded)
        case None => Err(SignatureMalformed)
        case Some(signature) =>
          if |signature| != 64 || lib.base64Encode(signature) != encoded then Err(SignatureLengthInvalid) else Ok(signature)
  }

  /** The base64 library inverts itself and writes no blanks. */
  ghost predicate Base64Sound(lib: Library) {
    forall x :: lib.base64Decode(lib.base64Encode(x)) == Some(x)
                && (|x| > 0 ==> |lib.base64Encode(x)| > 0)
                && forall i :: 0 <= i < |lib.base64Encode(x)| ==> !IsBlank(lib.base64Encode(x)[i])
  }

  /** A signature has exactly three accepted spellings: its base64 text, bare or with one line end of either kind. */
  lemma SignatureSpellings(lib: Library, data: Bytes, maximumBytes: nat, signature: Bytes)
    requires Base64Sound(lib)
    ensures DecodeSignature(lib, data, maximumBytes) == Ok(signature) <==>
      var text := lib.base64Encode(signature);
      |signature| == 64 && 0 < |data| <= maximumBytes && data in [text, text + [LF], text + [CR, LF]]
  {
    var text := lib.base64Encode(signature);
    assert lib.base64Decode(text) == Some(signature);
    var encoded := WithoutLineEnd(data);
    if |encoded| + 2 == |data| {
      assert data == encoded + [CR, LF];
    } else if |encoded| + 1 == |data| {
      assert data == encoded + [LF];
    }
    if data in [text, text + [LF], text + [CR, LF]] && |signature| == 64 {
      assert !IsBlank(text[|text| - 1]);
      if |text| >= 2 {
        assert !IsBlank(text[|text| - 2]);
      }
      assert encoded == text;
    }
  }

  /* ---------- The bundle ---------- */

  datatype VerifiedManifest = VerifiedManifest(manifest: Manifest, digest: string, signature: Bytes, publisher: Publisher)

  function VerifyManifest(lib: Library, registry: Registry, source: FeedSource, manifestBytes: Bytes, signatureBytes: Bytes, now: int)
    : Result<VerifiedManifest, BundleError>
  {
    match ParseManifest(lib, manifestBytes, source.limits.maximumManifestBytes)
    case Err(error) => Err(error)
    case Ok(m) =>
      if m.publisherKeyId !in registry then Err(PublisherKeyUnknown)
      else
        var publisher := registry[m.publisherKeyId];
        match CheckPolicy(m, source, publisher, now)
        case Some(error) => Err(error)
        case None =>
          match DecodeSignature(lib, signatureBytes, source.limits.maximumSignatureBytes)
          case Err(error) => Err(error)
          case Ok(signature) =>
            if lib.signatureHolds(publisher.publicKey, signature, manifestBytes)
            then Ok(VerifiedManifest(m, lib.sha256(manifestBytes), signature, publisher))
            else Err(SignatureInvalid)
  }

  function AliasCount(records: seq<Record>): nat {
    if |records| == 0 then 0 else |records[0].aliases| + AliasCount(records[1..])
  }

  function ReferenceCount(records: seq<Record>): nat {
    if |records| == 0 then 0 else |records[0].references| + ReferenceCount(records[1..])
  }

  function CheckCatalog(catalog: Catalog, m: Manifest, source: FeedSource): Option<BundleError> {
    if catalog.version != m.catalogVersion then Some(CatalogVersionMismatch)
    else if catalog.sourceName != source.expectedCatalogSource then Some(CatalogSourceMismatch)
    else if catalog.sourceName != m.provenance.sourceName then Some(ProvenanceSourceMismatch)
    else if catalog.sourceVersion != m.provenance.sourceVersion then Some(ProvenanceVersionMismatch)
    else if catalog.license != m.license then Some(LicenseMismatch)
    else if |catalog.advisories| != m.advisoryCount then Some(CountMismatch)
    else if AliasCount(catalog.advisories) != m.aliasCount then Some(CountMismatch)
    else if ReferenceCount(catalog.advisories) != m.referenceCount then Some(CountMismatch)
    else None
  }

  datatype VerifiedBundle = VerifiedBundle(
    manifest: Manifest, manifestDigest: string, payloadDigest: string, catalog: Catalog, checksum: Digest<Catalog>)

  /** Payload bytes under an authenticated manifest. The clock plays no part. */
  function VerifyPayload(lib: Library, source: FeedSource, m: Manifest, manifestDigest: string, payload: Bytes): Result<VerifiedBundle, BundleError> {
    if |payload| != m.compressedBytes then Err(CompressedSizeMismatch)
    else if lib.sha256(payload) != m.payloadDigest then Err(PayloadDigestMismatch)
    else
      var decoded :=
        if m.compression.Gzip?
        then Bounded(lib.gzip(payload), |payload|, source.limits.maximumUncompressedBytes, source.limits.maximumExpansionRatio)
        else Ok(payload);
      match decoded
      case Err(error) => Err(PayloadInvalid(error))
      case Ok(bytes) =>
        if |bytes| != m.uncompressedBytes then Err(UncompressedSizeMismatch)
        else
          match lib.parseCatalog(bytes)
          case None => Err(CatalogInvalid)
          case Some(catalog) =>
            match CheckCatalog(catalog, m, source)
            case Some(error) => Err(error)
            case None => Ok(VerifiedBundle(m, manifestDigest, lib.sha256(payload), catalog, Sha256(catalog)))
  }

  /** The three files of a bundle. */
  datatype Files = Files(manifest: Bytes, signature: Bytes, payload: Bytes)

  function VerifyBundle(lib: Library, registry: Registry, source: FeedSource, files: Files, now: int): Result<VerifiedBundle, BundleError> {
    match VerifyManifest(lib, registry, source, files.manifest, files.signature, now)
    case Err(error) => Err(error)
    case Ok(v) => VerifyPayload(lib, source, v.manifest, v.digest, files.payload)
  }

  /* ---------- The clock ---------- */

  /** The clocks at which a manifest's times are acceptable under a publisher key. */
  predicate InWindow(m: Manifest, publisher: Publisher, now: int) {
    && m.createdAt - MAX_FUTURE_SKEW <= now < m.expiresAt
    && m.provenance.retrievedAt - MAX_FUTURE_SKEW <= now
    && !Before(now, publisher.notBefore) && !AtOrAfter(now, publisher.notAfter)
  }

  lemma PolicyWindow(m: Manifest, source: FeedSource, publisher: Publisher, now: int)
    requires ValidLifecycle(m)
    ensures CheckPolicy(m, source, publisher, now).None? <==>
              CheckPolicy(m, source, publisher, m.createdAt).None? && InWindow(m, publisher, now)
  {
  }

  /** The clock decides acceptance only through one interval that contains the creation time, and never what is
      accepted: a bundle is accepted at a clock exactly when it is accepted at its creation time and the clock
      lies in the interval, and then with the same result. */
  lemma AcceptanceWindow(lib: Library, registry: Registry, source: FeedSource, files: Files, now: int)
    ensures
      var manifest := ParseManifest(lib, files.manifest, source.limits.maximumManifestBytes);
      var accepted := VerifyBundle(lib, registry, source, files, now);
      && (accepted.Ok? ==> manifest.Ok? && accepted.value.manifest == manifest.value)
      && (manifest.Ok? && manifest.value.publisherKeyId in registry ==>
            var m := manifest.value;
            var atCreation := VerifyBundle(lib, registry, source, files, m.createdAt);
            && (accepted.Ok? <==> atCreation.Ok? && InWindow(m, registry[m.publisherKeyId], now))
            && (accepted.Ok? ==> accepted == atCreation))
  {
    hide CheckPolicy, DecodeSignature, VerifyPayload;
    var manifest := ParseManifest(lib, files.manifest, source.limits.maximumManifestBytes);
    if manifest.Ok? && manifest.value.publisherKeyId in registry {
      PolicyWindow(manifest.value, source, registry[manifest.value.publisherKeyId], now);
    }
    PayloadKeepsManifest(lib, source, files, registry, now);
  }

  lemma PayloadKeepsManifest(lib: Library, source: FeedSource, files: Files, registry: Registry, now: int)
    ensures
      var accepted := VerifyBundle(lib, registry, source, files, now);
      accepted.Ok? ==>
        VerifyManifest(lib, registry, source, files.manifest, files.signature, now).Ok?
        && accepted.value.manifest == VerifyManifest(lib, registry, source, files.manifest, files.signature, now).value.manifest
  {
    hide VerifyManifest, CheckCatalog, Bounded;
  }

  /** Whatever was accepted at some clock, even if expired since, is accepted at its creation time. */
  lemma AcceptedAtCreation(lib: Library, registry: Registry, source: FeedSource, files: Files, now: int)
    requires VerifyBundle(lib, registry, source, files, now).Ok?
    ensures
      var bundle := VerifyBundle(lib, registry, source, files, now).value;
      VerifyBundle(lib, registry, source, files, bundle.manifest.createdAt) == Ok(bundle)
  {
    AcceptanceWindow(lib, registry, source, files, now);
    hide CheckPolicy, DecodeSignature, VerifyPayload, InWindow;
    assert ParseManifest(lib, files.manifest, source.limits.maximumManifestBytes).value.publisherKeyId in registry;
  }
}
