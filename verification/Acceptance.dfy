/** What bundle verification establishes is what the lifecycle takes for granted of a verified bundle. */
module Acceptance {
  import opened Prelude
  import opened Catalogs
  import BundlePolicy
  import SyncState
  import Lifecycle

  /** What the store keeps of a verified bundle. */
  function RetainedBundle(v: BundlePolicy.VerifiedBundle): SyncState.Bundle {
    SyncState.Bundle(v.manifest.catalogVersion, v.manifest.catalogSequence, v.manifestDigest, v.payloadDigest,
                     v.checksum, v.catalog, v.manifest.expiresAt)
  }

  /** The catalog parser runs the reviewed validators. */
  ghost predicate ParserValidates(lib: BundlePolicy.Library, text: Text) {
    forall data :: lib.parseCatalog(data).Some? ==> ValidCatalog(text, lib.parseCatalog(data).value)
  }

  /** The lifecycle's sources carry the catalog names of the reviewed configuration. */
  lemma AcceptedIsVerified(
      lib: BundlePolicy.Library, registry: BundlePolicy.Registry, source: BundlePolicy.FeedSource,
      files: BundlePolicy.Files, now: int, feeds: Lifecycle.Feeds)
    requires ParserValidates(lib, feeds.text) && feeds.nameOf(source.sourceId) == source.expectedCatalogSource
    ensures
      var accepted := BundlePolicy.VerifyBundle(lib, registry, source, files, now);
      accepted.Ok? ==>
        && Lifecycle.VerifiedFor(feeds, source.sourceId, RetainedBundle(accepted.value))
        && accepted.value.manifest.sourceId == source.sourceId && now < RetainedBundle(accepted.value).expiresAt
  {
    hide ValidCatalog, BundlePolicy.DecodeSignature;
  }
}
