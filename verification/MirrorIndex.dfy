/** The signed mirror index: its entries, its validators, and its verification. */
module MirrorIndex {
  import opened Prelude
  import opened BundlePolicy
  import opened MirrorPaths

  datatype Entry = Entry(
    catalogVersion: string, catalogSequence: nat, createdAt: int, expiresAt: int, publisherKeyId: string,
    manifestPath: string, signaturePath: string, payloadPath: string,
    manifestDigest: string, signatureDigest: string, payloadDigest: string,
    manifestBytes: nat, signatureBytes: nat, payloadBytes: nat,
    license: string, attribution: string, provenance: Provenance,
    adapterVersion: string, minimumCatalogVersion: nat, minimumVersion: string)

  datatype Index = Index(
    sourceId: string, signingKeyId: string, publishedAt: int, latestVersion: string, latestSequence: nat,
    license: string, attribution: string, provenance: Provenance,
    adapterVersion: string, minimumCatalogVersion: nat, minimumVersion: string, catalogs: seq<Entry>)

  /** Canonical JSON of an index, its parser, and the publisher's private key. */
  datatype Codec = Codec(encode: Index -> Bytes, parse: Bytes -> Option<Index>, sign: Bytes -> Bytes)

  const MAX_MANIFEST_BYTES := 64 * 1024
  const MAX_SIGNATURE_BYTES := 4096
  const MAX_PAYLOAD_BYTES := 8 * 1024 * 1024
  const MAX_ENTRIES := 32

  const MANIFEST_NAME := "manifest.json"
  const SIGNATURE_NAME := "manifest.ed25519"

  /* ---------- Validators ---------- */

  predicate ValidFields(e: Entry) {
    && 1 <= e.catalogSequence <= MAX_SEQUENCE && 1 <= e.minimumCatalogVersion <= 1_000_000 && 0 < |e.minimumVersion| <= 80
    && 1 <= e.manifestBytes <= MAX_MANIFEST_BYTES && 1 <= e.signatureBytes <= MAX_SIGNATURE_BYTES && 1 <= e.payloadBytes <= MAX_PAYLOAD_BYTES
    && IsHex(e.manifestDigest) && IsHex(e.signatureDigest) && IsHex(e.payloadDigest)
  }

  predicate ValidPaths(e: Entry) {
    && ValidRelativePath(e.manifestPath) && ValidRelativePath(e.signaturePath) && ValidRelativePath(e.payloadPath)
    && e.manifestPath != e.signaturePath && e.manifestPath != e.payloadPath && e.signaturePath != e.payloadPath
    && Parent(e.manifestPath) == Parent(e.signaturePath) == Parent(e.payloadPath)
    && "catalogs/" <= Parent(e.manifestPath)
    && Name(e.manifestPath) == MANIFEST_NAME && Name(e.signaturePath) == SIGNATURE_NAME
  }

  predicate ValidEntry(e: Entry) {
    ValidFields(e) && e.createdAt < e.expiresAt && ValidPaths(e)
  }

  predicate RisingSequences(catalogs: seq<Entry>) {
    forall i, j :: 0 <= i < j < |catalogs| ==> catalogs[i].catalogSequence < catalogs[j].catalogSequence
  }

  predicate DistinctVersions(catalogs: seq<Entry>) {
    forall i, j :: 0 <= i < j < |catalogs| ==> catalogs[i].catalogVersion != catalogs[j].catalogVersion
  }

  function PathsOf(e: Entry): set<string> {
    {e.manifestPath, e.signaturePath, e.payloadPath}
  }

  predicate DistinctPaths(catalogs: seq<Entry>) {
    forall i, j :: 0 <= i < j < |catalogs| ==> PathsOf(catalogs[i]) !! PathsOf(catalogs[j])
  }

  /** An entry agrees with the index on policy metadata. */
  predicate Agrees(index: Index, e: Entry) {
    && e.license == index.license && e.attribution == index.attribution
    && e.provenance.sourceName == index.provenance.sourceName
    && e.adapterVersion == index.adapterVersion && e.minimumCatalogVersion == index.minimumCatalogVersion
    && e.minimumVersion == index.minimumVersion
  }

  /** The latest pointer and the metadata of the index describe its last entry. */
  predicate DescribesLatest(index: Index, latest: Entry) {
    && latest.catalogVersion == index.latestVersion && latest.catalogSequence == index.latestSequence
    && latest.createdAt <= index.publishedAt && latest.provenance == index.provenance
    && latest.adapterVersion == index.adapterVersion && latest.minimumCatalogVersion == index.minimumCatalogVersion
    && latest.minimumVersion == index.minimumVersion
  }

  predicate ValidIndex(index: Index) {
    var catalogs := index.catalogs;
    && 1 <= |catalogs| <= MAX_ENTRIES && (forall i :: 0 <= i < |catalogs| ==> ValidEntry(catalogs[i]))
    && RisingSequences(catalogs) && DistinctVersions(catalogs) && DistinctPaths(catalogs)
    && DescribesLatest(index, catalogs[|catalogs| - 1])
    && forall i :: 0 <= i < |catalogs| ==> Agrees(index, catalogs[i])
  }

  /* ---------- Verification ---------- */

  datatype MirrorError =
    | IndexSizeInvalid | IndexSchemaInvalid | IndexNoncanonical | SourceModeInvalid | MirrorSourceMismatch | IndexKeySubstitution
    | IndexKeyUnknown | IndexKeyRevoked | IndexKeyRetired | IndexKeyNotYetValid | IndexKeyExpired
    | IndexSignatureMalformed(error: BundleError) | IndexSignatureInvalid
    | IndexFutureDated | IndexStale | CatalogLimit | LatestExpired
    | MirrorLicenseMismatch | MirrorAttributionMismatch | MirrorProvenanceMismatch | MirrorAdapterMismatch
    | MirrorCatalogVersionUnsupported | MirrorVersionMismatch
    | MirrorPublisherSubstitution | MirrorPayloadClaimTooLarge | MirrorPayloadNameMismatch
    | ArtifactMissing | ArtifactTooLarge | ArtifactSizeMismatch | ArtifactDigestMismatch
    | BundleRejected(error: BundleError) | BundleMetadataMismatch
    | InputEmpty | RetentionInvalid | RetentionTooLarge | CatalogNotAdvanced
    | SequenceConflict | BundleDuplicate | VersionConflict | OutputVerificationFailed
    | SnapshotTooLarge

  const MICROS := 1_000_000

  function ParseIndex(codec: Codec, data: Bytes, maximumBytes: nat): Result<Index, MirrorError> {
    if |data| == 0 || |data| > maximumBytes then Err(IndexSizeInvalid)
    else
      match codec.parse(data)
      case None => Err(IndexSchemaInvalid)
      case Some(index) =>
        if !ValidIndex(index) then Err(IndexSchemaInvalid)
        else if codec.encode(index) != data then Err(IndexNoncanonical)
        else Ok(index)
  }

  function CheckIndexKey(index: Index, source: FeedSource, registry: Registry, now: int): Result<Publisher, MirrorError> {
    if source.mirrorKeys.None? then Err(SourceModeInvalid)
    else if index.sourceId != source.sourceId then Err(MirrorSourceMismatch)
    else if index.signingKeyId !in source.mirrorKeys.value then Err(IndexKeySubstitution)
    else if index.signingKeyId !in registry then Err(IndexKeyUnknown)
    else
      var key := registry[index.signingKeyId];
      if key.status == RevokedKey then Err(IndexKeyRevoked)
      else if key.status != ActiveKey then Err(IndexKeyRetired)
      else if Before(now, key.notBefore) || Before(index.publishedAt, key.notBefore) then Err(IndexKeyNotYetValid)
      else if AtOrAfter(now, key.notAfter) || AtOrAfter(index.publishedAt, key.notAfter) then Err(IndexKeyExpired)
      else Ok(key)
  }

  function CheckEntryPolicy(e: Entry, source: FeedSource): Option<MirrorError> {
    if e.publisherKeyId !in source.trustedPublishers then Some(MirrorPublisherSubstitution)
    else if e.payloadBytes > source.limits.maximumCompressedBytes then Some(MirrorPayloadClaimTooLarge)
    else if Name(e.payloadPath) != source.expectedPayloadName then Some(MirrorPayloadNameMismatch)
    else None
  }

  /** The first entry that fails, in order. */
  function CheckEntries(catalogs: seq<Entry>, source: FeedSource): Option<MirrorError> {
    if |catalogs| == 0 then None
    else
      match CheckEntryPolicy(catalogs[0], source)
      case Some(error) => Some(error)
      case None => CheckEntries(catalogs[1..], source)
  }

  function CheckIndexPolicy(index: Index, source: FeedSource, now: int): Option<MirrorError>
    requires |index.catalogs| > 0
  {
    if index.publishedAt > now + MAX_FUTURE_SKEW then Some(IndexFutureDated)
    else if now - index.publishedAt > source.limits.maximumIndexAge * MICROS then Some(IndexStale)
    else if |index.catalogs| > source.limits.maximumMirrorCatalogs then Some(CatalogLimit)
    else if index.catalogs[|index.catalogs| - 1].expiresAt <= now then Some(LatestExpired)
    else if index.license !in source.acceptedLicenses then Some(MirrorLicenseMismatch)
    else if index.attribution != source.requiredAttribution then Some(MirrorAttributionMismatch)
    else if index.provenance.sourceName != source.expectedCatalogSource then Some(MirrorProvenanceMismatch)
    else if index.adapterVersion != source.adapterVersion then Some(MirrorAdapterMismatch)
    else if index.minimumCatalogVersion > SUPPORTED_CATALOG_FORMAT_VERSION then Some(MirrorCatalogVersionUnsupported)
    else if index.minimumVersion != source.minimumVersion then Some(MirrorVersionMismatch)
    else CheckEntries(index.catalogs, source)
  }

  function VerifyIndex(lib: Library, codec: Codec, registry: Registry, source: FeedSource, data: Bytes, signatureBytes: Bytes, now: int)
    : Result<Index, MirrorError>
  {
    match ParseIndex(codec, data, source.limits.maximumIndexBytes)
    case Err(error) => Err(error)
    case Ok(index) =>
      match CheckIndexKey(index, source, registry, now)
      case Err(error) => Err(error)
      case Ok(key) =>
        match DecodeSignature(lib, signatureBytes, source.limits.maximumSignatureBytes)
        case Err(error) => Err(IndexSignatureMalformed(error))
        case Ok(signature) =>
          if !lib.signatureHolds(key.publicKey, signature, data) then Err(IndexSignatureInvalid)
          else
            match CheckIndexPolicy(index, source, now)
            case Some(error) => Err(error)
            case None => Ok(index)
  }

  function CheckArtifact(lib: Library, bytes: nat, digest: string, data: Bytes): Option<MirrorError> {
    if |data| != bytes then Some(ArtifactSizeMismatch)
    else if lib.sha256(data) != digest then Some(ArtifactDigestMismatch)
    else None
  }

  predicate MatchesEntry(bundle: VerifiedBundle, e: Entry) {
    var m := bundle.manifest;
    && m.catalogVersion == e.catalogVersion && m.catalogSequence == e.catalogSequence
    && m.createdAt == e.createdAt && m.expiresAt == e.expiresAt && m.publisherKeyId == e.publisherKeyId
    && m.license == e.license && m.attribution == e.attribution && m.provenance == e.provenance
    && m.adapterVersion == e.adapterVersion && m.minimumCatalogVersion == e.minimumCatalogVersion
    && bundle.manifestDigest == e.manifestDigest && bundle.payloadDigest == e.payloadDigest
  }

  /* ---------- Building an index ---------- */

  datatype LocalBundle = LocalBundle(bundle: VerifiedBundle, files: Files)

  function SequenceOf(item: LocalBundle): nat {
    item.bundle.manifest.catalogSequence
  }

  function DirectoryOf(item: LocalBundle): string {
    DirectoryFor(SequenceOf(item), item.bundle.manifestDigest)
  }

  function EntryFor(lib: Library, source: FeedSource, item: LocalBundle): Entry {
    var m, directory := item.bundle.manifest, DirectoryOf(item);
    Entry(m.catalogVersion, m.catalogSequence, m.createdAt, m.expiresAt, m.publisherKeyId,
          directory + "/" + MANIFEST_NAME, directory + "/" + SIGNATURE_NAME, directory + "/" + m.payloadName,
          item.bundle.manifestDigest, lib.sha256(item.files.signature), item.bundle.payloadDigest,
          |item.files.manifest|, |item.files.signature|, |item.files.payload|,
          m.license, m.attribution, m.provenance, m.adapterVersion, m.minimumCatalogVersion, source.minimumVersion)
  }

  function EntriesFor(lib: Library, source: FeedSource, items: seq<LocalBundle>): (entries: seq<Entry>)
    ensures |entries| == |items|
  {
    seq(|items|, i requires 0 <= i < |items| => EntryFor(lib, source, items[i]))
  }

  function IndexFor(lib: Library, source: FeedSource, items: seq<LocalBundle>, keyId: string, publishedAt: int): Index
    requires |items| > 0
  {
    var entries := EntriesFor(lib, source, items);
    var latest := entries[|entries| - 1];
    Index(source.sourceId, keyId, publishedAt, latest.catalogVersion, latest.catalogSequence,
          latest.license, latest.attribution, latest.provenance,
          latest.adapterVersion, latest.minimumCatalogVersion, latest.minimumVersion, entries)
  }

  /* ---------- When the built index is valid ---------- */

  predicate ValidKeys(keys: seq<string>) {
    1 <= |keys| <= 16 && forall i :: 0 <= i < |keys| ==> 3 <= |keys[i]| <= 96
  }

  /** The configuration's own validators. */
  predicate ValidSource(source: FeedSource) {
    && ValidLimits(source.limits)
    && 3 <= |source.sourceId| <= 64 && 1 <= |source.adapterVersion| <= 40 && ValidName(source.expectedPayloadName)
    && 1 <= |source.expectedCatalogSource| <= 120 && 1 <= |source.requiredAttribution| <= 500
    && ValidKeys(source.trustedPublishers) && (source.mirrorKeys.Some? ==> ValidKeys(source.mirrorKeys.value))
    && 1 <= |source.acceptedLicenses| <= 16 && 1 <= |source.minimumVersion| <= 80
  }

  ghost predicate DigestsAreHex(lib: Library) {
    forall data :: IsHex(lib.sha256(data))
  }

  /** The bundle was accepted; by `AcceptedAtCreation` the creation time is as good as any clock. */
  predicate Accepted(lib: Library, registry: Registry, source: FeedSource, item: LocalBundle) {
    VerifyBundle(lib, registry, source, item.files, item.bundle.manifest.createdAt) == Ok(item.bundle)
  }

  /** What acceptance says about the manifest. */
  predicate PolicyFacts(m: Manifest, source: FeedSource) {
    && ValidManifest(m) && m.publisherKeyId in source.trustedPublishers
    && m.payloadName == source.expectedPayloadName && m.adapterVersion == source.adapterVersion
    && m.minimumCatalogVersion == 1 && m.license in source.acceptedLicenses && m.attribution == source.requiredAttribution
    && m.compressedBytes <= source.limits.maximumCompressedBytes
    && m.provenance.sourceName == source.expectedCatalogSource
  }

  predicate FileFacts(lib: Library, source: FeedSource, item: LocalBundle) {
    && 0 < |item.files.manifest| <= source.limits.maximumManifestBytes
    && 0 < |item.files.signature| <= source.limits.maximumSignatureBytes
    && |item.files.payload| == item.bundle.manifest.compressedBytes
    && item.bundle.manifestDigest == lib.sha256(item.files.manifest)
    && item.bundle.payloadDigest == lib.sha256(item.files.payload)
  }

  lemma PolicyGives(m: Manifest, source: FeedSource, publisher: Publisher, now: int)
    requires ValidManifest(m) && CheckPolicy(m, source, publisher, now).None?
    ensures m.provenance.sourceName == source.expectedCatalogSource ==> PolicyFacts(m, source)
  {
  }

  lemma AcceptedFacts(lib: Library, registry: Registry, source: FeedSource, item: LocalBundle)
    requires Accepted(lib, registry, source, item)
    ensures PolicyFacts(item.bundle.manifest, source) && FileFacts(lib, source, item)
  {
    hide CheckPolicy, ValidManifest, WithoutLineEnd, PolicyFacts;
    var m := item.bundle.manifest;
    PolicyGives(m, source, registry[m.publisherKeyId], m.createdAt);
  }

  /** The payload may not take the name of one of the two fixed files. */
  predicate NameIsFree(source: FeedSource) {
    source.expectedPayloadName != MANIFEST_NAME && source.expectedPayloadName != SIGNATURE_NAME
  }

  lemma FixedNames()
    ensures ValidName(MANIFEST_NAME) && ValidName(SIGNATURE_NAME) && MANIFEST_NAME != SIGNATURE_NAME
  {
    assert MANIFEST_NAME[0] == 'm' && SIGNATURE_NAME[0] == 'm' && |MANIFEST_NAME| != |SIGNATURE_NAME|;
  }

  predicate InDirectory(e: Entry, directory: string) {
    Parent(e.manifestPath) == Parent(e.signaturePath) == Parent(e.payloadPath) == directory
  }

  lemma EntryPaths(lib: Library, source: FeedSource, item: LocalBundle)
    requires ValidSource(source) && PolicyFacts(item.bundle.manifest, source) && IsHex(item.bundle.manifestDigest)
    ensures
      var e := EntryFor(lib, source, item);
      && InDirectory(e, DirectoryOf(item)) && Name(e.payloadPath) == source.expectedPayloadName
      && (ValidPaths(e) <==> NameIsFree(source))
  {
    hide ValidRelativePath, Parent, Name, DirectoryFor, ValidName;
    FixedNames();
    var m, digest := item.bundle.manifest, item.bundle.manifestDigest;
    DirectoryPath(m.catalogSequence, digest, MANIFEST_NAME);
    DirectoryPath(m.catalogSequence, digest, SIGNATURE_NAME);
    DirectoryPath(m.catalogSequence, digest, m.payloadName);
    DirectoryPrefix(m.catalogSequence, digest);
  }

  /** An entry made from an accepted bundle meets every constraint on entries, unless the payload's name clashes. */
  lemma EntryIsValid(lib: Library, registry: Registry, source: FeedSource, item: LocalBundle)
    requires Accepted(lib, registry, source, item) && ValidSource(source) && DigestsAreHex(lib)
    ensures ValidEntry(EntryFor(lib, source, item)) <==> NameIsFree(source)
    ensures
      var e := EntryFor(lib, source, item);
      && InDirectory(e, DirectoryOf(item))
      && Name(e.payloadPath) == source.expectedPayloadName
  {
    hide Accepted, ValidPaths, Name, InDirectory, DirectoryFor, IsHex;
    AcceptedFacts(lib, registry, source, item);
    EntryPaths(lib, source, item);
  }

  lemma DirectoryPrefix(sequence: nat, digest: string)
    ensures "catalogs/" <= DirectoryFor(sequence, digest)
  {
    hide Padded;
  }

  ghost predicate AllAccepted(lib: Library, registry: Registry, source: FeedSource, items: seq<LocalBundle>) {
    forall i :: 0 <= i < |items| ==> Accepted(lib, registry, source, items[i])
  }

  ghost predicate RisingItems(items: seq<LocalBundle>) {
    forall i, j :: 0 <= i < j < |items| ==> SequenceOf(items[i]) < SequenceOf(items[j])
  }

  ghost predicate DistinctItemVersions(items: seq<LocalBundle>) {
    forall i, j :: 0 <= i < j < |items| ==> items[i].bundle.manifest.catalogVersion != items[j].bundle.manifest.catalogVersion
  }

  lemma EntriesAreDistinct(lib: Library, registry: Registry, source: FeedSource, items: seq<LocalBundle>)
    requires AllAccepted(lib, registry, source, items) && ValidSource(source) && DigestsAreHex(lib)
    requires RisingItems(items) && DistinctItemVersions(items)
    ensures
      var entries := EntriesFor(lib, source, items);
      RisingSequences(entries) && DistinctVersions(entries) && DistinctPaths(entries)
  {
    var entries := EntriesFor(lib, source, items);
    hide Accepted, ValidSource, DigestsAreHex, EntryFor, ValidEntry, DirectoryFor;
    forall i, j | 0 <= i < j < |entries|
      ensures entries[i].catalogSequence < entries[j].catalogSequence && entries[i].catalogVersion != entries[j].catalogVersion
      ensures PathsOf(entries[i]) !! PathsOf(entries[j])
    {
      EntryCopies(lib, source, items[i]);
      EntryCopies(lib, source, items[j]);
      EntriesDiffer(lib, registry, source, items[i], items[j]);
    }
  }

  lemma EntryCopies(lib: Library, source: FeedSource, item: LocalBundle)
    ensures EntryFor(lib, source, item).catalogSequence == SequenceOf(item)
    ensures EntryFor(lib, source, item).catalogVersion == item.bundle.manifest.catalogVersion
  {
  }

  lemma OtherDirectory(a: Entry, b: Entry, d: string, e: string)
    requires InDirectory(a, d) && InDirectory(b, e) && d != e
    ensures PathsOf(a) !! PathsOf(b)
  {
    hide Parent;
  }

  lemma EntriesDiffer(lib: Library, registry: Registry, source: FeedSource, a: LocalBundle, b: LocalBundle)
    requires Accepted(lib, registry, source, a) && Accepted(lib, registry, source, b) && ValidSource(source) && DigestsAreHex(lib)
    requires SequenceOf(a) < SequenceOf(b)
    ensures PathsOf(EntryFor(lib, source, a)) !! PathsOf(EntryFor(lib, source, b))
  {
    hide Accepted, EntryFor, ValidEntry, DirectoryFor, Parent, Name, PathsOf, ValidSource, DigestsAreHex, ValidLifecycle, FileFacts;
    AcceptedFacts(lib, registry, source, a);
    AcceptedFacts(lib, registry, source, b);
    EntryIsValid(lib, registry, source, a);
    EntryIsValid(lib, registry, source, b);
    DirectoriesAreOrdered(SequenceOf(a), SequenceOf(b), a.bundle.manifestDigest, b.bundle.manifestDigest);
    OtherDirectory(EntryFor(lib, source, a), EntryFor(lib, source, b), DirectoryOf(a), DirectoryOf(b));
  }

  /** What can still be wrong with an index built from accepted bundles. */
  ghost predicate Publishable(source: FeedSource, items: seq<LocalBundle>, publishedAt: int) {
    && |items| > 0 && NameIsFree(source)
    && items[|items| - 1].bundle.manifest.createdAt <= publishedAt
    && forall i :: 0 <= i < |items| ==> items[i].bundle.manifest.license == items[|items| - 1].bundle.manifest.license
  }

  lemma EntryAgrees(lib: Library, registry: Registry, source: FeedSource, items: seq<LocalBundle>, keyId: string, publishedAt: int, i: nat)
    requires |items| > 0 && AllAccepted(lib, registry, source, items) && i < |items|
    ensures
      var index := IndexFor(lib, source, items, keyId, publishedAt);
      Agrees(index, index.catalogs[i]) <==> items[i].bundle.manifest.license == items[|items| - 1].bundle.manifest.license
  {
    hide Accepted, ValidManifest, DirectoryFor, FileFacts;
    AcceptedFacts(lib, registry, source, items[i]);
    AcceptedFacts(lib, registry, source, items[|items| - 1]);
  }

  lemma LatestDescribed(lib: Library, source: FeedSource, items: seq<LocalBundle>, keyId: string, publishedAt: int)
    requires |items| > 0
    ensures
      var index := IndexFor(lib, source, items, keyId, publishedAt);
      DescribesLatest(index, index.catalogs[|items| - 1]) <==> items[|items| - 1].bundle.manifest.createdAt <= publishedAt
  {
    hide DirectoryFor;
  }

  /** An index built from accepted bundles in rising sequence, at most 32 with distinct versions, satisfies every
      path, order, latest-pointer and policy constraint exactly when the payload's name is free, the latest
      bundle is not newer than the publication, and all bundles carry one license. */
  lemma BuiltIndexIsValid(lib: Library, registry: Registry, source: FeedSource, items: seq<LocalBundle>, keyId: string, publishedAt: int)
    requires 0 < |items| <= MAX_ENTRIES && AllAccepted(lib, registry, source, items) && ValidSource(source) && DigestsAreHex(lib)
    requires RisingItems(items) && DistinctItemVersions(items)
    ensures ValidIndex(IndexFor(lib, source, items, keyId, publishedAt)) <==> Publishable(source, items, publishedAt)
  {
    var index := IndexFor(lib, source, items, keyId, publishedAt);
    assert index.catalogs == EntriesFor(lib, source, items);
    EntriesAreDistinct(lib, registry, source, items);
    LatestDescribed(lib, source, items, keyId, publishedAt);
    forall i | 0 <= i < |items|
      ensures ValidEntry(index.catalogs[i]) <==> NameIsFree(source)
      ensures Agrees(index, index.catalogs[i]) <==> items[i].bundle.manifest.license == items[|items| - 1].bundle.manifest.license
    {
      EntryIsValid(lib, registry, source, items[i]);
      EntryAgrees(lib, registry, source, items, keyId, publishedAt, i);
    }
    hide ValidEntry, Agrees, DescribesLatest, RisingSequences, DistinctVersions, DistinctPaths, EntryFor, IndexFor, Accepted, NameIsFree;
  }

  /* ---------- When the built index verifies ---------- */

  /** The reviewed index key accepts the publication, and the signature made with the private key holds. */
  predicate SigningWorks(lib: Library, codec: Codec, registry: Registry, source: FeedSource, index: Index, signatureBytes: Bytes) {
    var key := CheckIndexKey(index, source, registry, index.publishedAt);
    var signature := DecodeSignature(lib, signatureBytes, source.limits.maximumSignatureBytes);
    && key.Ok? && signature.Ok?
    && lib.signatureHolds(key.value.publicKey, signature.value, codec.encode(index))
  }

  lemma {:induction false} EntriesPass(catalogs: seq<Entry>, source: FeedSource)
    requires forall i :: 0 <= i < |catalogs| ==> CheckEntryPolicy(catalogs[i], source).None?
    ensures CheckEntries(catalogs, source).None?
  {
    if |catalogs| > 0 {
      EntriesPass(catalogs[1..], source);
    }
  }

  lemma EntryPasses(lib: Library, registry: Registry, source: FeedSource, item: LocalBundle)
    requires Accepted(lib, registry, source, item) && ValidSource(source) && DigestsAreHex(lib)
    ensures CheckEntryPolicy(EntryFor(lib, source, item), source).None?
  {
    AcceptedFacts(lib, registry, source, item);
    EntryIsValid(lib, registry, source, item);
    hide Accepted, ValidEntry, DirectoryFor, Name, Parent;
  }

  lemma EntriesForPass(lib: Library, registry: Registry, source: FeedSource, items: seq<LocalBundle>)
    requires AllAccepted(lib, registry, source, items) && ValidSource(source) && DigestsAreHex(lib)
    ensures CheckEntries(EntriesFor(lib, source, items), source).None?
  {
    hide Accepted, ValidSource, DigestsAreHex, CheckEntries, EntryFor, CheckEntryPolicy;
    var entries := EntriesFor(lib, source, items);
    forall i | 0 <= i < |entries| ensures CheckEntryPolicy(entries[i], source).None? {
      EntryPasses(lib, registry, source, items[i]);
    }
    EntriesPass(entries, source);
  }

  lemma PolicyPasses(lib: Library, registry: Registry, source: FeedSource, items: seq<LocalBundle>, keyId: string, publishedAt: int)
    requires 0 < |items| <= source.limits.maximumMirrorCatalogs
    requires AllAccepted(lib, registry, source, items) && ValidSource(source) && DigestsAreHex(lib)
    requires items[|items| - 1].bundle.manifest.expiresAt > publishedAt
    ensures CheckIndexPolicy(IndexFor(lib, source, items, keyId, publishedAt), source, publishedAt).None?
  {
    hide Accepted, CheckEntries, DirectoryFor, ValidManifest, FileFacts, ValidSource, DigestsAreHex;
    EntriesForPass(lib, registry, source, items);
    AcceptedFacts(lib, registry, source, items[|items| - 1]);
  }

  /** A built index that has not expired verifies at its publication time exactly when it is valid, within the size
      limit, and the signing key works; and verification gives it back. */
  lemma BuiltIndexVerifies(
      lib: Library, codec: Codec, registry: Registry, source: FeedSource, items: seq<LocalBundle>, keyId: string, publishedAt: int,
      signatureBytes: Bytes)
    requires 0 < |items| <= source.limits.maximumMirrorCatalogs
    requires AllAccepted(lib, registry, source, items) && ValidSource(source) && DigestsAreHex(lib)
    requires items[|items| - 1].bundle.manifest.expiresAt > publishedAt
    requires
      var index := IndexFor(lib, source, items, keyId, publishedAt);
      codec.parse(codec.encode(index)) == Some(index) && |codec.encode(index)| > 0
    ensures
      var index := IndexFor(lib, source, items, keyId, publishedAt);
      var verified := VerifyIndex(lib, codec, registry, source, codec.encode(index), signatureBytes, publishedAt);
      && (verified.Ok? ==> verified.value == index)
      && (verified.Ok? <==> ValidIndex(index) && |codec.encode(index)| <= source.limits.maximumIndexBytes
                            && SigningWorks(lib, codec, registry, source, index, signatureBytes))
  {
    hide IndexFor, ValidIndex, CheckIndexPolicy, CheckIndexKey, DecodeSignature, Accepted, ValidSource, DigestsAreHex, AllAccepted;
    PolicyPasses(lib, registry, source, items, keyId, publishedAt);
    IndexIsDated(lib, source, items, keyId, publishedAt);
  }

  lemma IndexIsDated(lib: Library, source: FeedSource, items: seq<LocalBundle>, keyId: string, publishedAt: int)
    requires |items| > 0
    ensures
      var index := IndexFor(lib, source, items, keyId, publishedAt);
      && index.publishedAt == publishedAt && index.signingKeyId == keyId && |index.catalogs| == |items|
      && index.catalogs[|items| - 1].expiresAt == items[|items| - 1].bundle.manifest.expiresAt
  {
    hide DirectoryFor;
  }

  /* ---------- The clock ---------- */

  /** The clocks at which an index's times are acceptable under its signing key. */
  predicate InIndexWindow(index: Index, source: FeedSource, key: Publisher, now: int) {
    && |index.catalogs| > 0
    && index.publishedAt - MAX_FUTURE_SKEW <= now <= index.publishedAt + source.limits.maximumIndexAge * MICROS
    && now < index.catalogs[|index.catalogs| - 1].expiresAt
    && !Before(now, key.notBefore) && !AtOrAfter(now, key.notAfter)
  }

  lemma IndexPolicyWindow(index: Index, source: FeedSource, registry: Registry, now: int, later: int)
    requires |index.catalogs| > 0 && CheckIndexKey(index, source, registry, now).Ok? && CheckIndexPolicy(index, source, now).None?
    ensures index.signingKeyId in registry
    ensures CheckIndexKey(index, source, registry, later).Ok? && CheckIndexPolicy(index, source, later).None? <==>
              InIndexWindow(index, source, registry[index.signingKeyId], later)
    ensures CheckIndexKey(index, source, registry, later).Ok? ==>
              CheckIndexKey(index, source, registry, later) == CheckIndexKey(index, source, registry, now)
  {
    hide CheckEntries;
  }

  /** The clock decides verification only through one interval, and never its result: an index that verifies at some
      clock verifies at another exactly when that lies in the interval. */
  lemma IndexWindow(lib: Library, codec: Codec, registry: Registry, source: FeedSource, data: Bytes, signatureBytes: Bytes, now: int, later: int)
    requires VerifyIndex(lib, codec, registry, source, data, signatureBytes, now).Ok?
    ensures
      var index := VerifyIndex(lib, codec, registry, source, data, signatureBytes, now).value;
      var verified := VerifyIndex(lib, codec, registry, source, data, signatureBytes, later);
      && index.signingKeyId in registry
      && (verified.Ok? <==> InIndexWindow(index, source, registry[index.signingKeyId], later))
      && (verified.Ok? ==> verified.value == index)
  {
    hide CheckIndexKey, CheckIndexPolicy, DecodeSignature, InIndexWindow, ValidEntry, RisingSequences, DistinctVersions, DistinctPaths, Agrees;
    var index := ParseIndex(codec, data, source.limits.maximumIndexBytes).value;
    IndexPolicyWindow(index, source, registry, now, later);
  }
}
