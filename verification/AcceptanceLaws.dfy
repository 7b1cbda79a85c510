/** What it means that a signed bundle is accepted, in terms of the parsed manifest, the registry and the bytes; and
    that a refusal names the first thing that is wrong. */
module AcceptanceLaws {
  import opened Prelude
  import opened Catalogs
  import opened BoundedGzip
  import opened BundlePolicy

  /* ---------- The manifest and its key ---------- */

  /** The manifest passes its schema. */
  predicate WellFormedManifest(m: Manifest) {
    && m.createdAt < m.expiresAt <= m.createdAt + 366 * 86_400 * 1_000_000
    && m.mediaType.kind == m.payloadKind && (m.mediaType.gzip <==> m.compression == Gzip)
    && (m.compression == Uncompressed ==> m.compressedBytes == m.uncompressedBytes)
    && 1 <= m.catalogSequence <= 9_223_372_036_854_775_807 && m.compressedBytes >= 1 && m.uncompressedBytes >= 1
    && m.minimumCatalogVersion >= 1
  }

  /** The key is active, and in force both now and when the manifest was created. */
  predicate KeyInForce(key: Publisher, m: Manifest, now: int) {
    && key.status == ActiveKey
    && (key.notBefore.Some? ==> key.notBefore.value <= now && key.notBefore.value <= m.createdAt)
    && (key.notAfter.Some? ==> now < key.notAfter.value && m.createdAt < key.notAfter.value)
  }

  /** The manifest is neither from the future, by more than five minutes, nor expired. */
  predicate Timely(m: Manifest, now: int) {
    var skew := 300 * 1_000_000;
    && m.createdAt <= now + skew && m.provenance.retrievedAt <= now + skew && m.provenance.retrievedAt <= m.createdAt + skew
    && now < m.expiresAt
  }

  /** What the source's reviewed policy asks of the manifest. */
  predicate WithinPolicy(m: Manifest, source: FeedSource) {
    && m.sourceId == source.sourceId && m.publisherKeyId in source.trustedPublishers
    && m.payloadName == source.expectedPayloadName && m.payloadKind == AdvisoryCatalog
    && m.adapterVersion == source.adapterVersion && m.minimumCatalogVersion <= 1
    && m.license in source.acceptedLicenses && m.attribution == source.requiredAttribution
    && m.compressedBytes <= source.limits.maximumCompressedBytes && m.uncompressedBytes <= source.limits.maximumUncompressedBytes
    && m.advisoryCount <= source.limits.maximumAdvisories && m.aliasCount <= source.limits.maximumAliases
    && m.referenceCount <= source.limits.maximumReferences
  }

  /** The data is the base64 text of the signature, bare or with one line end. */
  ghost predicate Spells(lib: Library, data: Bytes, text: Bytes, signature: Bytes) {
    && |text| > 0 && (forall i :: 0 <= i < |text| ==> text[i] !in {9, 10, 13, 32})
    && (data == text || data == text + [10] || data == text + [13, 10])
    && lib.base64Decode(text) == Some(signature) && lib.base64Encode(signature) == text && |signature| == 64
  }

  /** The signature file holds a signature of exactly these bytes under the key. */
  ghost predicate Signs(lib: Library, data: Bytes, maximumBytes: nat, key: Publisher, message: Bytes) {
    && 0 < |data| <= maximumBytes
    && exists text, signature :: Spells(lib, data, text, signature) && lib.signatureHolds(key.publicKey, signature, message)
  }

  lemma LineEnd(data: Bytes, text: Bytes)
    requires |text| > 0 && forall i :: 0 <= i < |text| ==> text[i] !in {9, 10, 13, 32}
    ensures WithoutLineEnd(data) == text <==> data == text || data == text + [10] || data == text + [13, 10]
  {
    var bare := WithoutLineEnd(data);
    assert |bare| + 2 == |data| ==> data == bare + [13, 10];
    assert |bare| + 1 == |data| ==> data == bare + [10];
    assert text[|text| - 1] !in {9, 10, 13, 32};
  }

  lemma DecodesExactly(lib: Library, data: Bytes, maximumBytes: nat, signature: Bytes)
    ensures DecodeSignature(lib, data, maximumBytes) == Ok(signature) <==>
              0 < |data| <= maximumBytes && exists text :: Spells(lib, data, text, signature)
  {
    var bare := WithoutLineEnd(data);
    if DecodeSignature(lib, data, maximumBytes) == Ok(signature) {
      assert forall i :: 0 <= i < |bare| ==> !IsBlank(bare[i]);
      LineEnd(data, bare);
      assert Spells(lib, data, bare, signature);
    }
    if text :| 0 < |data| <= maximumBytes && Spells(lib, data, text, signature) {
      LineEnd(data, text);
    }
  }

  /** The manifest file is accepted at this clock: it parses, its key is known and in force, and it is signed. */
  ghost predicate ManifestAccepted(lib: Library, registry: Registry, source: FeedSource, files: Files, now: int, m: Manifest) {
    && 0 < |files.manifest| <= source.limits.maximumManifestBytes && lib.parseManifest(files.manifest) == Some(m)
    && WellFormedManifest(m) && WithinPolicy(m, source) && Timely(m, now)
    && m.publisherKeyId in registry && KeyInForce(registry[m.publisherKeyId], m, now)
    && Signs(lib, files.signature, source.limits.maximumSignatureBytes, registry[m.publisherKeyId], files.manifest)
  }

  lemma PolicyExactly(m: Manifest, source: FeedSource, key: Publisher, now: int)
    ensures CheckPolicy(m, source, key, now).None? <==> WithinPolicy(m, source) && KeyInForce(key, m, now) && Timely(m, now)
  {
  }

  lemma ParsesExactly(lib: Library, data: Bytes, maximumBytes: nat, m: Manifest)
    ensures ParseManifest(lib, data, maximumBytes) == Ok(m) <==>
              0 < |data| <= maximumBytes && lib.parseManifest(data) == Some(m) && WellFormedManifest(m)
  {
    assert ValidManifest(m) <==> WellFormedManifest(m) by {
      assert m.mediaType == MediaType(m.mediaType.kind, m.mediaType.gzip);
    }
  }

  lemma ManifestExactly(lib: Library, registry: Registry, source: FeedSource, files: Files, now: int, m: Manifest)
    ensures
      var verified := VerifyManifest(lib, registry, source, files.manifest, files.signature, now);
      && (verified.Ok? && verified.value.manifest == m <==> ManifestAccepted(lib, registry, source, files, now, m))
      && (verified.Ok? ==> verified.value.digest == lib.sha256(files.manifest))
  {
    hide ParseManifest, CheckPolicy, DecodeSignature, WithinPolicy, KeyInForce, Timely, WellFormedManifest, Spells;
    var max := source.limits.maximumManifestBytes;
    ParsesExactly(lib, files.manifest, max, m);
    if ParseManifest(lib, files.manifest, max) == Ok(m) && m.publisherKeyId in registry {
      var key := registry[m.publisherKeyId];
      PolicyExactly(m, source, key, now);
      var decoded := DecodeSignature(lib, files.signature, source.limits.maximumSignatureBytes);
      forall signature ensures decoded == Ok(signature) <==>
          0 < |files.signature| <= source.limits.maximumSignatureBytes && exists text :: Spells(lib, files.signature, text, signature) {
        DecodesExactly(lib, files.signature, source.limits.maximumSignatureBytes, signature);
      }
      if Signs(lib, files.signature, source.limits.maximumSignatureBytes, key, files.manifest) {
        var text, signature :| Spells(lib, files.signature, text, signature) && lib.signatureHolds(key.publicKey, signature, files.manifest);
        assert decoded == Ok(signature);
      }
      if decoded.Ok? {
        var text :| Spells(lib, files.signature, text, decoded.value);
        assert lib.signatureHolds(key.publicKey, decoded.value, files.manifest)
          ==> Signs(lib, files.signature, source.limits.maximumSignatureBytes, key, files.manifest);
      }
    }
  }

  /* ---------- The payload and its catalog ---------- */

  /** All aliases and all references of the records, each with its place. */
  ghost function AliasPlaces(records: seq<Record>): set<(int, int)> {
    set i, j | 0 <= i < |records| && 0 <= j < |records[i].aliases| :: (i, j)
  }

  ghost function ReferencePlaces(records: seq<Record>): set<(int, int)> {
    set i, j | 0 <= i < |records| && 0 <= j < |records[i].references| :: (i, j)
  }

  /** The places of a list of lengths. */
  ghost function Places(lengths: seq<nat>): set<(int, int)> {
    set i, j | 0 <= i < |lengths| && 0 <= j < lengths[i] :: (i, j)
  }

  function Total(lengths: seq<nat>): nat {
    if |lengths| == 0 then 0 else Total(lengths[..|lengths| - 1]) + lengths[|lengths| - 1]
  }

  ghost function PlacesIn(i: int, n: nat): set<(int, int)> {
    set j | 0 <= j < n :: (i, j)
  }

  lemma {:induction false} RowSize(i: int, n: nat)
    ensures |PlacesIn(i, n)| == n
  {
    if n > 0 {
      RowSize(i, n - 1);
      assert PlacesIn(i, n) == PlacesIn(i, n - 1) + {(i, n - 1)};
    } else {
      assert PlacesIn(i, n) == {};
    }
  }

  lemma {:induction false} PlacesTotal(lengths: seq<nat>)
    ensures |Places(lengths)| == Total(lengths)
  {
    if |lengths| == 0 {
      assert Places(lengths) == {};
    } else {
      var front, n, last := lengths[..|lengths| - 1], |lengths| - 1, lengths[|lengths| - 1];
      PlacesTotal(front);
      RowSize(n, last);
      assert Places(lengths) == Places(front) + PlacesIn(n, last);
      assert Places(front) !! PlacesIn(n, last);
      assert |Places(front) + PlacesIn(n, last)| == |Places(front)| + |PlacesIn(n, last)|;
    }
  }

  lemma {:induction false} TotalFromFront(lengths: seq<nat>)
    requires |lengths| > 0
    ensures Total(lengths) == lengths[0] + Total(lengths[1..])
  {
    if |lengths| > 1 {
      var front := lengths[..|lengths| - 1];
      TotalFromFront(front);
      assert front[1..] == lengths[1..][..|lengths| - 2];
    } else {
      assert lengths[..0] == [] && lengths[1..] == [];
    }
  }

  function AliasLengths(records: seq<Record>): seq<nat> {
    seq(|records|, i requires 0 <= i < |records| => |records[i].aliases|)
  }

  function ReferenceLengths(records: seq<Record>): seq<nat> {
    seq(|records|, i requires 0 <= i < |records| => |records[i].references|)
  }

  lemma {:induction false} CountsAreTotals(records: seq<Record>)
    ensures AliasCount(records) == Total(AliasLengths(records)) && ReferenceCount(records) == Total(ReferenceLengths(records))
  {
    if |records| > 0 {
      CountsAreTotals(records[1..]);
      TotalFromFront(AliasLengths(records));
      TotalFromFront(ReferenceLengths(records));
      assert AliasLengths(records)[1..] == AliasLengths(records[1..]);
      assert ReferenceLengths(records)[1..] == ReferenceLengths(records[1..]);
    }
  }

  lemma CountsExactly(records: seq<Record>)
    ensures AliasCount(records) == |AliasPlaces(records)| && ReferenceCount(records) == |ReferencePlaces(records)|
  {
    CountsAreTotals(records);
    PlacesTotal(AliasLengths(records));
    PlacesTotal(ReferenceLengths(records));
    assert AliasPlaces(records) == Places(AliasLengths(records));
    assert ReferencePlaces(records) == Places(ReferenceLengths(records));
  }

  /** The catalog is the one the manifest describes. */
  ghost predicate Describes(m: Manifest, source: FeedSource, catalog: Catalog) {
    && catalog.version == m.catalogVersion && catalog.sourceName == source.expectedCatalogSource
    && catalog.sourceName == m.provenance.sourceName && catalog.sourceVersion == m.provenance.sourceVersion
    && catalog.license == m.license && |catalog.advisories| == m.advisoryCount
    && |AliasPlaces(catalog.advisories)| == m.aliasCount && |ReferencePlaces(catalog.advisories)| == m.referenceCount
  }

  /** The catalog bytes of the payload: the payload itself, or the one complete gzip member it consists of, within the
      limit and the expansion ratio. */
  ghost predicate Unpacks(lib: Library, source: FeedSource, m: Manifest, payload: Bytes, content: Bytes) {
    if m.compression == Uncompressed then content == payload
    else
      && lib.gzip(payload) == Complete(content, [])
      && |content| <= source.limits.maximumUncompressedBytes
      && |content| <= (if |payload| == 0 then 1 else |payload|) * source.limits.maximumExpansionRatio
  }

  ghost predicate PayloadAccepted(lib: Library, source: FeedSource, m: Manifest, payload: Bytes, catalog: Catalog) {
    && |payload| == m.compressedBytes && lib.sha256(payload) == m.payloadDigest
    && exists content :: Unpacks(lib, source, m, payload, content) && |content| == m.uncompressedBytes
                         && lib.parseCatalog(content) == Some(catalog) && Describes(m, source, catalog)
  }

  lemma CatalogExactly(catalog: Catalog, m: Manifest, source: FeedSource)
    ensures CheckCatalog(catalog, m, source).None? <==> Describes(m, source, catalog)
  {
    CountsExactly(catalog.advisories);
    hide AliasCount, ReferenceCount, AliasPlaces, ReferencePlaces;
  }

  lemma PayloadExactly(lib: Library, source: FeedSource, m: Manifest, digest: string, payload: Bytes, bundle: VerifiedBundle)
    ensures VerifyPayload(lib, source, m, digest, payload) == Ok(bundle) <==>
              && bundle == VerifiedBundle(m, digest, m.payloadDigest, bundle.catalog, Sha256(bundle.catalog))
              && PayloadAccepted(lib, source, m, payload, bundle.catalog)
  {
    CatalogExactly(bundle.catalog, m, source);
    hide CheckCatalog, Describes;
    if m.compression.Gzip? {
      var unpacked := Bounded(lib.gzip(payload), |payload|, source.limits.maximumUncompressedBytes, source.limits.maximumExpansionRatio);
      forall content ensures unpacked == Ok(content) <==> Unpacks(lib, source, m, payload, content) {
        assert Max(|payload|, 1) == if |payload| == 0 then 1 else |payload|;
      }
      if unpacked.Ok? {
        assert Unpacks(lib, source, m, payload, unpacked.value);
      }
    } else {
      assert Unpacks(lib, source, m, payload, payload);
    }
  }

  /** A bundle is accepted exactly when its manifest is, under a key that is known, trusted, active and in force now and
      at its creation, with a signature of exactly the manifest bytes; its payload has the signed size and digest;
      and the catalog in it is the one the manifest describes. */
  lemma AcceptedExactly(lib: Library, registry: Registry, source: FeedSource, files: Files, now: int, bundle: VerifiedBundle)
    ensures VerifyBundle(lib, registry, source, files, now) == Ok(bundle) <==>
              && ManifestAccepted(lib, registry, source, files, now, bundle.manifest)
              && PayloadAccepted(lib, source, bundle.manifest, files.payload, bundle.catalog)
              && bundle.manifestDigest == lib.sha256(files.manifest) && bundle.payloadDigest == lib.sha256(files.payload)
              && bundle.checksum == Sha256(bundle.catalog)
  {
    hide VerifyManifest, VerifyPayload, ManifestAccepted;
    ManifestExactly(lib, registry, source, files, now, bundle.manifest);
    PayloadExactly(lib, source, bundle.manifest, lib.sha256(files.manifest), files.payload, bundle);
    hide PayloadAccepted;
    var verified := VerifyManifest(lib, registry, source, files.manifest, files.signature, now);
    if verified.Ok? {
      PayloadKeepsItsManifest(lib, source, verified.value.manifest, verified.value.digest, files.payload);
    }
    assert PayloadAccepted(lib, source, bundle.manifest, files.payload, bundle.catalog) ==> lib.sha256(files.payload) == bundle.manifest.payloadDigest by {
      PayloadIsSigned(lib, source, bundle.manifest, files.payload, bundle.catalog);
    }
  }

  lemma PayloadIsSigned(lib: Library, source: FeedSource, m: Manifest, payload: Bytes, catalog: Catalog)
    ensures PayloadAccepted(lib, source, m, payload, catalog) ==> lib.sha256(payload) == m.payloadDigest
  {
  }

  lemma PayloadKeepsItsManifest(lib: Library, source: FeedSource, m: Manifest, digest: string, payload: Bytes)
    ensures
      var verified := VerifyPayload(lib, source, m, digest, payload);
      verified.Ok? ==> verified.value.manifest == m
  {
    hide CheckCatalog, Bounded;
  }

  lemma {:induction false} TotalIsBounded(lengths: seq<nat>, most: nat)
    requires forall i :: 0 <= i < |lengths| ==> lengths[i] <= most
    ensures Total(lengths) <= |lengths| * most
  {
    if |lengths| > 0 {
      TotalIsBounded(lengths[..|lengths| - 1], most);
    }
  }

  /** The counts of every catalog that the validators accept are within what the registry lets a source allow. */
  lemma ValidCountsFit(text: Text, catalog: Catalog)
    requires ValidCatalog(text, catalog)
    ensures |catalog.advisories| <= 20_000 && AliasCount(catalog.advisories) <= 640_000 && ReferenceCount(catalog.advisories) <= 320_000
  {
    hide DistinctIds, AliasesHaveOneOwner;
    var records := catalog.advisories;
    CountsAreTotals(records);
    forall i | 0 <= i < |records| ensures AliasLengths(records)[i] <= 32 && ReferenceLengths(records)[i] <= 16 {
      assert ValidRecord(records[i]);
    }
    TotalIsBounded(AliasLengths(records), 32);
    TotalIsBounded(ReferenceLengths(records), 16);
  }

  /* ---------- What a refusal claims ---------- */

  /** What a refusal of the manifest under a known key claims. */
  predicate PolicyFault(m: Manifest, source: FeedSource, key: Publisher, now: int, error: BundleError) {
    match error
    case SourceMismatch => m.sourceId != source.sourceId
    case PublisherSubstitution => m.publisherKeyId !in source.trustedPublishers
    case PublisherKeyRevoked => key.status == RevokedKey
    case PublisherKeyRetired => key.status == RetiredKey
    case PublisherKeyNotYetValid => key.notBefore.Some? && now < key.notBefore.value
    case PublisherKeyExpired => key.notAfter.Some? && key.notAfter.value <= now
    case PublisherKeyTimeInvalid =>
      || (key.notBefore.Some? && m.createdAt < key.notBefore.value)
      || (key.notAfter.Some? && key.notAfter.value <= m.createdAt)
    case ManifestFutureDated => now + 300 * 1_000_000 < m.createdAt
    case ProvenanceFutureDated =>
      now + 300 * 1_000_000 < m.provenance.retrievedAt || m.createdAt + 300 * 1_000_000 < m.provenance.retrievedAt
    case BundleExpired => m.expiresAt <= now
    case PayloadNameMismatch => m.payloadName != source.expectedPayloadName
    case PayloadKindMismatch => m.payloadKind == KevPrioritization
    case AdapterVersionMismatch => m.adapterVersion != source.adapterVersion
    case CatalogVersionIncompatible => m.minimumCatalogVersion > 1
    case LicenseMismatch => m.license !in source.acceptedLicenses
    case AttributionMissing => m.attribution != source.requiredAttribution
    case PayloadClaimTooLarge =>
      source.limits.maximumCompressedBytes < m.compressedBytes || source.limits.maximumUncompressedBytes < m.uncompressedBytes
    case CountTooLarge =>
      || source.limits.maximumAdvisories < m.advisoryCount || source.limits.maximumAliases < m.aliasCount
      || source.limits.maximumReferences < m.referenceCount
    case _ => false
  }

  /** The data is this text, with or without one line end of either kind. */
  predicate Carries(data: Bytes, text: Bytes) {
    || data == text + [13, 10]
    || (data == text + [10] && !(|text| > 0 && text[|text| - 1] == 13))
    || (data == text && !(|text| > 0 && text[|text| - 1] == 10))
  }

  /** What a refusal of the signature claims: no base64 text; base64 text of something else than 64 bytes, or not in its
      canonical spelling; or a signature of something else. */
  ghost predicate SignatureFault(lib: Library, data: Bytes, maximumBytes: nat, key: Publisher, message: Bytes, error: BundleError) {
    match error
    case SignatureSizeInvalid => |data| == 0 || maximumBytes < |data|
    case SignatureMalformed =>
      exists text :: Carries(data, text)
        && (text == [] || (exists i :: 0 <= i < |text| && text[i] in {9, 10, 13, 32}) || lib.base64Decode(text).None?)
    case SignatureLengthInvalid =>
      exists text :: Carries(data, text) && lib.base64Decode(text).Some?
        && (|lib.base64Decode(text).value| != 64 || lib.base64Encode(lib.base64Decode(text).value) != text)
    case SignatureInvalid =>
      exists text, signature :: Spells(lib, data, text, signature) && !lib.signatureHolds(key.publicKey, signature, message)
    case _ => false
  }

  /** What a refusal of the decompression claims. */
  predicate GzipFault(decoded: Decoded, size: nat, maximumBytes: nat, maximumRatio: nat, error: GzipError) {
    match error
    case DecompressedTooLarge => maximumBytes < |Available(decoded)|
    case GzipInvalid => decoded.Corrupt?
    case GzipTrailingData => decoded.Unfinished? || (decoded.Complete? && decoded.rest != [])
    case ExpansionRatio => decoded.Complete? && |decoded.output| > (if size == 0 then 1 else size) * maximumRatio
  }

  /** What a refusal of a catalog under a manifest claims. */
  ghost predicate CatalogFault(catalog: Catalog, m: Manifest, source: FeedSource, error: BundleError) {
    match error
    case CatalogVersionMismatch => catalog.version != m.catalogVersion
    case CatalogSourceMismatch => catalog.sourceName != source.expectedCatalogSource
    case ProvenanceSourceMismatch => catalog.sourceName != m.provenance.sourceName
    case ProvenanceVersionMismatch => catalog.sourceVersion != m.provenance.sourceVersion
    case LicenseMismatch => catalog.license != m.license
    case CountMismatch =>
      || |catalog.advisories| != m.advisoryCount || |AliasPlaces(catalog.advisories)| != m.aliasCount
      || |ReferencePlaces(catalog.advisories)| != m.referenceCount
    case _ => false
  }

  lemma PolicyIsTruthful(m: Manifest, source: FeedSource, key: Publisher, now: int)
    ensures var error := CheckPolicy(m, source, key, now); error.Some? ==> PolicyFault(m, source, key, now, error.value)
  {
  }

  lemma BareIsCarried(data: Bytes)
    ensures Carries(data, WithoutLineEnd(data))
  {
    var bare := WithoutLineEnd(data);
    assert |bare| + 2 == |data| ==> data == bare + [13, 10];
    assert |bare| + 1 == |data| ==> data == bare + [10];
  }

  lemma SignatureIsTruthful(lib: Library, data: Bytes, maximumBytes: nat, key: Publisher, message: Bytes)
    ensures
      var decoded := DecodeSignature(lib, data, maximumBytes);
      && (decoded.Err? ==> SignatureFault(lib, data, maximumBytes, key, message, decoded.error))
      && (decoded.Ok? && !lib.signatureHolds(key.publicKey, decoded.value, message) ==>
            SignatureFault(lib, data, maximumBytes, key, message, SignatureInvalid))
  {
    var decoded := DecodeSignature(lib, data, maximumBytes);
    BareIsCarried(data);
    hide Spells, WithoutLineEnd, Carries;
    if decoded.Ok? {
      DecodesExactly(lib, data, maximumBytes, decoded.value);
    }
  }

  lemma CatalogIsTruthful(catalog: Catalog, m: Manifest, source: FeedSource)
    ensures
      var error := CheckCatalog(catalog, m, source);
      error.Some? ==>
        && CatalogFault(catalog, m, source, error.value)
        && error.value in {CatalogVersionMismatch, CatalogSourceMismatch, ProvenanceSourceMismatch, ProvenanceVersionMismatch,
                           LicenseMismatch, CountMismatch}
  {
    CountsExactly(catalog.advisories);
    hide AliasCount, ReferenceCount, AliasPlaces, ReferencePlaces;
  }

  function Unpacked(lib: Library, source: FeedSource, m: Manifest, payload: Bytes): Result<Bytes, GzipError> {
    if m.compression.Gzip?
    then Bounded(lib.gzip(payload), |payload|, source.limits.maximumUncompressedBytes, source.limits.maximumExpansionRatio)
    else Ok(payload)
  }

  lemma UnpackedIsTruthful(lib: Library, source: FeedSource, m: Manifest, payload: Bytes)
    ensures
      match Unpacked(lib, source, m, payload)
      case Ok(content) => Unpacks(lib, source, m, payload, content)
      case Err(fault) =>
        m.compression == Gzip
        && GzipFault(lib.gzip(payload), |payload|, source.limits.maximumUncompressedBytes, source.limits.maximumExpansionRatio, fault)
  {
    hide GzipFault, Bounded;
    GzipIsTruthful(lib.gzip(payload), |payload|, source.limits.maximumUncompressedBytes, source.limits.maximumExpansionRatio);
  }

  lemma PayloadSteps(lib: Library, source: FeedSource, m: Manifest, digest: string, payload: Bytes)
    ensures
      var verified, content := VerifyPayload(lib, source, m, digest, payload), Unpacked(lib, source, m, payload);
      verified.Err? ==>
        if |payload| != m.compressedBytes then verified.error == CompressedSizeMismatch
        else if lib.sha256(payload) != m.payloadDigest then verified.error == PayloadDigestMismatch
        else
          match content
          case Err(fault) => verified.error == PayloadInvalid(fault)
          case Ok(bytes) =>
            if |bytes| != m.uncompressedBytes then verified.error == UncompressedSizeMismatch
            else
              match lib.parseCatalog(bytes)
              case None => verified.error == CatalogInvalid
              case Some(catalog) => CheckCatalog(catalog, m, source) == Some(verified.error)
  {
    hide CheckCatalog, Bounded;
  }

  lemma GzipIsTruthful(decoded: Decoded, size: nat, maximumBytes: nat, maximumRatio: nat)
    ensures
      var unpacked := Bounded(decoded, size, maximumBytes, maximumRatio);
      if unpacked.Err? then GzipFault(decoded, size, maximumBytes, maximumRatio, unpacked.error)
      else
        && decoded == Complete(unpacked.value, []) && |unpacked.value| <= maximumBytes
        && |unpacked.value| <= (if size == 0 then 1 else size) * maximumRatio
  {
  }

  /* ---------- Which refusal is reported ---------- */

  /** The order of the policy checks. */
  function PolicyRank(error: BundleError): nat {
    match error
    case SourceMismatch => 0
    case PublisherSubstitution => 1
    case PublisherKeyRevoked => 2
    case PublisherKeyRetired => 3
    case PublisherKeyNotYetValid => 4
    case PublisherKeyExpired => 5
    case PublisherKeyTimeInvalid => 6
    case ManifestFutureDated => 7
    case ProvenanceFutureDated => 8
    case BundleExpired => 9
    case PayloadNameMismatch => 10
    case PayloadKindMismatch => 11
    case AdapterVersionMismatch => 12
    case CatalogVersionIncompatible => 13
    case LicenseMismatch => 14
    case AttributionMissing => 15
    case PayloadClaimTooLarge => 16
    case CountTooLarge => 17
    case _ => 18
  }

  /** The order of the catalog checks. */
  function CatalogRank(error: BundleError): nat {
    match error
    case CatalogVersionMismatch => 0
    case CatalogSourceMismatch => 1
    case ProvenanceSourceMismatch => 2
    case ProvenanceVersionMismatch => 3
    case LicenseMismatch => 4
    case CountMismatch => 5
    case _ => 6
  }

  /** The manifest has this fault, and none that is checked before. */
  ghost predicate FirstPolicyFault(m: Manifest, source: FeedSource, key: Publisher, now: int, error: BundleError) {
    && PolicyFault(m, source, key, now, error)
    && forall earlier :: PolicyRank(earlier) < PolicyRank(error) ==> !PolicyFault(m, source, key, now, earlier)
  }

  ghost predicate FirstCatalogFault(catalog: Catalog, m: Manifest, source: FeedSource, error: BundleError) {
    && CatalogFault(catalog, m, source, error)
    && forall earlier :: CatalogRank(earlier) < CatalogRank(error) ==> !CatalogFault(catalog, m, source, earlier)
  }

  lemma PolicyReportsFirst(m: Manifest, source: FeedSource, key: Publisher, now: int)
    ensures var error := CheckPolicy(m, source, key, now); error.Some? ==> FirstPolicyFault(m, source, key, now, error.value)
  {
    PolicyIsTruthful(m, source, key, now);
    var error := CheckPolicy(m, source, key, now);
    if error.Some? {
      forall earlier | PolicyRank(earlier) < PolicyRank(error.value) ensures !PolicyFault(m, source, key, now, earlier) {
        NoEarlierFault(m, source, key, now, earlier);
      }
    }
  }

  lemma NoEarlierFault(m: Manifest, source: FeedSource, key: Publisher, now: int, earlier: BundleError)
    requires CheckPolicy(m, source, key, now).Some? && PolicyRank(earlier) < PolicyRank(CheckPolicy(m, source, key, now).value)
    ensures !PolicyFault(m, source, key, now, earlier)
  {
  }

  lemma CatalogReportsFirst(catalog: Catalog, m: Manifest, source: FeedSource)
    ensures var error := CheckCatalog(catalog, m, source); error.Some? ==> FirstCatalogFault(catalog, m, source, error.value)
  {
    CatalogIsTruthful(catalog, m, source);
    CountsExactly(catalog.advisories);
    hide AliasPlaces, ReferencePlaces;
  }

  function SignatureRank(error: BundleError): nat {
    match error
    case SignatureSizeInvalid => 0
    case SignatureMalformed => 1
    case SignatureLengthInvalid => 2
    case _ => 3
  }

  ghost predicate FirstSignatureFault(lib: Library, data: Bytes, maximumBytes: nat, key: Publisher, message: Bytes, error: BundleError) {
    && SignatureFault(lib, data, maximumBytes, key, message, error)
    && forall earlier :: SignatureRank(earlier) < SignatureRank(error) ==> !SignatureFault(lib, data, maximumBytes, key, message, earlier)
  }

  lemma CarriedOnce(data: Bytes, text: Bytes)
    requires Carries(data, text)
    ensures WithoutLineEnd(data) == text
  {
    if |text| > 0 {
      assert data[|text| - 1] == text[|text| - 1];
    }
  }

  lemma SignatureReportsFirst(lib: Library, data: Bytes, maximumBytes: nat, key: Publisher, message: Bytes)
    ensures
      var decoded := DecodeSignature(lib, data, maximumBytes);
      && (decoded.Err? ==> FirstSignatureFault(lib, data, maximumBytes, key, message, decoded.error))
      && (decoded.Ok? && !lib.signatureHolds(key.publicKey, decoded.value, message) ==>
            FirstSignatureFault(lib, data, maximumBytes, key, message, SignatureInvalid))
  {
    SignatureIsTruthful(lib, data, maximumBytes, key, message);
    forall text | Carries(data, text) ensures text == WithoutLineEnd(data) {
      CarriedOnce(data, text);
    }
    hide WithoutLineEnd, Carries, Spells;
  }

  function GzipRank(error: GzipError): nat {
    match error
    case DecompressedTooLarge => 0
    case GzipInvalid => 1
    case GzipTrailingData => 2
    case ExpansionRatio => 3
  }

  predicate FirstGzipFault(decoded: Decoded, size: nat, maximumBytes: nat, maximumRatio: nat, error: GzipError) {
    && GzipFault(decoded, size, maximumBytes, maximumRatio, error)
    && forall earlier :: GzipRank(earlier) < GzipRank(error) ==> !GzipFault(decoded, size, maximumBytes, maximumRatio, earlier)
  }

  lemma GzipReportsFirst(decoded: Decoded, size: nat, maximumBytes: nat, maximumRatio: nat)
    ensures
      var unpacked := Bounded(decoded, size, maximumBytes, maximumRatio);
      unpacked.Err? ==> FirstGzipFault(decoded, size, maximumBytes, maximumRatio, unpacked.error)
  {
  }

  /** The refusal of a manifest that is not accepted: the first thing that is wrong with it, in the order of size, schema,
      key, policy and signature. */
  ghost predicate ManifestRefusal(lib: Library, registry: Registry, source: FeedSource, files: Files, now: int, error: BundleError) {
    var parsed := lib.parseManifest(files.manifest);
    if !(0 < |files.manifest| <= source.limits.maximumManifestBytes) then error == ManifestSizeInvalid
    else if parsed.None? || !WellFormedManifest(parsed.value) then error == ManifestSchemaInvalid
    else if parsed.value.publisherKeyId !in registry then error == PublisherKeyUnknown
    else
      var m, key := parsed.value, registry[parsed.value.publisherKeyId];
      if WithinPolicy(m, source) && KeyInForce(key, m, now) && Timely(m, now)
      then FirstSignatureFault(lib, files.signature, source.limits.maximumSignatureBytes, key, files.manifest, error)
      else FirstPolicyFault(m, source, key, now, error)
  }

  ghost predicate ContentRefusal(lib: Library, source: FeedSource, m: Manifest, content: Bytes, error: BundleError) {
    if |content| != m.uncompressedBytes then error == UncompressedSizeMismatch
    else if lib.parseCatalog(content).None? then error == CatalogInvalid
    else FirstCatalogFault(lib.parseCatalog(content).value, m, source, error)
  }

  /** The refusal of a payload under an accepted manifest: its size, its digest, its decompression, and then the first
      thing that is wrong with its catalog. */
  ghost predicate PayloadRefusal(lib: Library, source: FeedSource, m: Manifest, payload: Bytes, error: BundleError) {
    if |payload| != m.compressedBytes then error == CompressedSizeMismatch
    else if lib.sha256(payload) != m.payloadDigest then error == PayloadDigestMismatch
    else if error.PayloadInvalid? then
      m.compression == Gzip
      && FirstGzipFault(lib.gzip(payload), |payload|, source.limits.maximumUncompressedBytes, source.limits.maximumExpansionRatio, error.error)
    else exists content :: Unpacks(lib, source, m, payload, content) && ContentRefusal(lib, source, m, content, error)
  }

  lemma ManifestReportsFirst(lib: Library, registry: Registry, source: FeedSource, files: Files, now: int)
    ensures
      var verified := VerifyManifest(lib, registry, source, files.manifest, files.signature, now);
      verified.Err? ==> ManifestRefusal(lib, registry, source, files, now, verified.error)
  {
    hide CheckPolicy, DecodeSignature, FirstPolicyFault, FirstSignatureFault, WellFormedManifest, ValidManifest, WithinPolicy, KeyInForce, Timely;
    var parsed := lib.parseManifest(files.manifest);
    if parsed.Some? {
      ParsesExactly(lib, files.manifest, source.limits.maximumManifestBytes, parsed.value);
      if parsed.value.publisherKeyId in registry {
        var key := registry[parsed.value.publisherKeyId];
        PolicyExactly(parsed.value, source, key, now);
        PolicyReportsFirst(parsed.value, source, key, now);
        SignatureReportsFirst(lib, files.signature, source.limits.maximumSignatureBytes, key, files.manifest);
      }
    }
  }

  lemma PayloadReportsFirst(lib: Library, source: FeedSource, m: Manifest, digest: string, payload: Bytes)
    ensures
      var verified := VerifyPayload(lib, source, m, digest, payload);
      verified.Err? ==> PayloadRefusal(lib, source, m, payload, verified.error)
  {
    GzipReportsFirst(lib.gzip(payload), |payload|, source.limits.maximumUncompressedBytes, source.limits.maximumExpansionRatio);
    hide CheckCatalog, FirstCatalogFault, FirstGzipFault, Bounded, Unpacks, VerifyPayload;
    var verified := VerifyPayload(lib, source, m, digest, payload);
    var content := Unpacked(lib, source, m, payload);
    PayloadSteps(lib, source, m, digest, payload);
    UnpackedIsTruthful(lib, source, m, payload);
    if content.Ok? && lib.parseCatalog(content.value).Some? {
      CatalogReportsFirst(lib.parseCatalog(content.value).value, m, source);
      NoPayloadError(lib.parseCatalog(content.value).value, m, source);
    }
  }

  lemma NoPayloadError(catalog: Catalog, m: Manifest, source: FeedSource)
    ensures var error := CheckCatalog(catalog, m, source); error.Some? ==> !error.value.PayloadInvalid?
  {
  }

  /** A refused bundle is refused with the first thing that is wrong with it. */
  lemma FirstFaultIsReported(lib: Library, registry: Registry, source: FeedSource, files: Files, now: int)
    ensures
      var verified := VerifyBundle(lib, registry, source, files, now);
      verified.Err? ==>
        || ManifestRefusal(lib, registry, source, files, now, verified.error)
        || exists m :: ManifestAccepted(lib, registry, source, files, now, m) && PayloadRefusal(lib, source, m, files.payload, verified.error)
  {
    hide VerifyManifest, VerifyPayload, ManifestRefusal, PayloadRefusal, ManifestAccepted;
    var manifest := VerifyManifest(lib, registry, source, files.manifest, files.signature, now);
    ManifestReportsFirst(lib, registry, source, files, now);
    if manifest.Ok? {
      ManifestExactly(lib, registry, source, files, now, manifest.value.manifest);
      PayloadReportsFirst(lib, source, manifest.value.manifest, manifest.value.digest, files.payload);
    }
  }
}
