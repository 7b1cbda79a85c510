/** Bundle acceptance tolerates a creation time up to five minutes ahead of the clock; the mirror index does not.
    A mirror build whose latest bundle is ahead of the clock accepts the bundle and then fails in the index
    validator. */
module FutureDated {
  import opened Prelude
  import opened Ordering
  import Catalogs
  import opened BoundedGzip
  import opened BundlePolicy
  import opened MirrorIndex
  import opened MirrorBuild
  import opened MirrorTheorems

  /** The bundle is accepted, also at this clock, and was created after it. */
  ghost predicate AcceptedAhead(env: Env, item: LocalBundle, now: int) {
    var m := item.bundle.manifest;
    && Accepted(env.lib, env.registry, env.source, item) && m.publisherKeyId in env.registry
    && InWindow(m, env.registry[m.publisherKeyId], now) && now < m.createdAt
  }

  lemma AheadIsVerified(env: Env, item: LocalBundle, now: int)
    requires AcceptedAhead(env, item, now)
    ensures VerifyBundle(env.lib, env.registry, env.source, item.files, now) == Ok(item.bundle)
  {
    hide VerifyBundle, InWindow;
    AcceptanceWindow(env.lib, env.registry, env.source, item.files, now);
    AcceptanceWindow(env.lib, env.registry, env.source, item.files, item.bundle.manifest.createdAt);
  }

  lemma AheadLoads(env: Env, item: LocalBundle, now: int)
    requires AcceptedAhead(env, item, now)
    ensures LoadLocal(env, item.files, now) == Ok(item)
  {
    hide VerifyBundle, PolicyFacts, InWindow;
    AcceptedFacts(env.lib, env.registry, env.source, item);
    AcceptedPayloadFits(env, item);
    AheadIsVerified(env, item, now);
  }

  lemma AcceptedPayloadFits(env: Env, item: LocalBundle)
    requires Accepted(env.lib, env.registry, env.source, item)
    ensures |item.files.payload| <= env.source.limits.maximumCompressedBytes
  {
    hide Accepted, ValidManifest;
    AcceptedFacts(env.lib, env.registry, env.source, item);
  }

  /** Whatever is retained beside it, the index of a tree that ends in such a bundle is refused. */
  lemma AheadIsNotPublished(env: Env, retained: seq<LocalBundle>, keyId: string, now: int)
    requires |retained| > 0 && AcceptedAhead(env, retained[|retained| - 1], now)
    ensures Publish(env, retained, keyId, now) == Err(IndexSchemaInvalid)
  {
    hide Accepted, EntryFor, ValidEntry, RisingSequences, DistinctVersions, DistinctPaths, Agrees, VerifyIndex, TreeOf;
    AheadIsUndescribed(env, retained, keyId, now);
  }

  lemma AheadIsUndescribed(env: Env, retained: seq<LocalBundle>, keyId: string, now: int)
    requires |retained| > 0 && now < retained[|retained| - 1].bundle.manifest.createdAt
    ensures
      var index := IndexFor(env.lib, env.source, retained, keyId, now);
      |index.catalogs| == |retained| && !DescribesLatest(index, index.catalogs[|retained| - 1])
  {
    LatestDescribed(env.lib, env.source, retained, keyId, now);
    hide EntryFor, DescribesLatest;
  }

  lemma AloneIsRetained(item: LocalBundle, retainPrior: nat)
    ensures MergeAll([] + [item]).Ok? && KeptSequences([] + [item], retainPrior) == [SequenceOf(item)]
    ensures MergeAll([] + [item]).value.bySequence == map[SequenceOf(item) := item]
  {
    var items := [] + [item];
    assert items == [item] && items[..0] == [];
    assert SequencesOf(items) == [SequenceOf(item)];
    assert SortNats([SequenceOf(item)]) == [SequenceOf(item)] by {
      assert [SequenceOf(item)][1..] == [];
    }
  }

  /** A first build of just this bundle loads it and then fails in the index validator. */
  lemma AheadFailsToBuild(env: Env, item: LocalBundle, keyId: string, now: int, retainPrior: nat)
    requires AcceptedAhead(env, item, now) && env.source.mirrorKeys.Some? && keyId in env.source.mirrorKeys.value
    requires retainPrior <= MAX_RETAIN_PRIOR && retainPrior + 1 <= env.source.limits.maximumMirrorCatalogs
    ensures Build(env, [item.files], keyId, now, retainPrior, None) == Err(IndexSchemaInvalid)
  {
    hide AcceptedAhead, LoadLocal, MergeAll, KeptSequences, Publish;
    AheadLoads(env, item, now);
    assert LoadLocals(env, [item.files], now, 0) == Ok([]);
    assert LoadLocals(env, [item.files], now, 1) == Ok([] + [item]);
    assert [] + [item] == [item];
    AloneIsRetained(item, retainPrior);
    AheadIsNotPublished(env, [item], keyId, now);
    assert Pick(map[SequenceOf(item) := item], [SequenceOf(item)]) == [item];
  }

  /* ---------- One such input ---------- */

  const DIGEST: string := seq(64, i => '0')

  const MANIFEST := Manifest(
    "src", "key", "v", 1, MAX_FUTURE_SKEW, MAX_FUTURE_SKEW + 1,
    "payload.json", AdvisoryCatalog, MediaType(AdvisoryCatalog, false), Uncompressed, DIGEST,
    1, 1, 0, 0, 0, "L", "A", Provenance("N", "1", "d", 0), "1", 1)

  const CATALOG := Catalogs.Catalog("v", "N", "1", "L", 0, [])

  /** A source within the registry's bounds. */
  const SOURCE := FeedSource(
    "src", "1", "1.0.0", Some(["key"]), "payload.json", "N", ["key"], ["L"], "A",
    Limits(65_536, 256, 8_388_608, 8_388_608, 20, 20_000, 640_000, 320_000, 262_144, 16, 67_108_864, 1_209_600))

  /** A signature of zero bytes, and its base64 text: 86 times the letter A and two equals signs. */
  const SIGNATURE: Bytes := seq(64, i => 0)
  const SIGNATURE_TEXT: Bytes := seq(88, i => if i < 86 then 65 else 61)

  const FILES := Files([0], SIGNATURE_TEXT, [0])

  /** Libraries that know one manifest, one catalog and one signature. */
  ghost function PlainEnv(codec: Codec): Env {
    var lib := Library(d => Some(MANIFEST), d => Some(CATALOG), d => Unfinished([]), d => DIGEST,
                       x => SIGNATURE_TEXT, x => Some(SIGNATURE), (k, s, d) => true);
    Env(lib, codec, map["key" := Publisher(ActiveKey, None, None, seq(32, i => 0))], SOURCE)
  }

  const ITEM := LocalBundle(VerifiedBundle(MANIFEST, DIGEST, DIGEST, CATALOG, Catalogs.Sha256(CATALOG)), FILES)

  lemma ItemIsAhead(codec: Codec)
    ensures AcceptedAhead(PlainEnv(codec), ITEM, 0)
  {
    var env := PlainEnv(codec);
    assert "key" in env.source.trustedPublishers && "L" in env.source.acceptedLicenses by {
      assert ["key"][0] == "key" && ["L"][0] == "L";
    }
    assert DecodeSignature(env.lib, FILES.signature, 256) == Ok(SIGNATURE);
    assert CheckPolicy(MANIFEST, SOURCE, env.registry["key"], MAX_FUTURE_SKEW).None?;
  }

  /** The input meets the registry's and the catalog's validators. */
  lemma InputIsValid(text: Catalogs.Text, codec: Codec)
    ensures ValidSource(SOURCE) && NameIsFree(SOURCE) && Catalogs.ValidCatalog(text, CATALOG) && DigestsAreHex(PlainEnv(codec).lib)
  {
    assert "payload.json"[0] == 'p' && |"payload.json"| == 12 && MANIFEST_NAME[0] == 'm' && SIGNATURE_NAME[0] == 'm';
    assert |"src"| == 3 && |"key"| == 3 && |"1.0.0"| == 5;
  }

  lemma OnlyTheClock(codec: Codec)
    requires ValidSource(SOURCE) && NameIsFree(SOURCE) && DigestsAreHex(PlainEnv(codec).lib) && AcceptedAhead(PlainEnv(codec), ITEM, 0)
    ensures var env := PlainEnv(codec); ValidIndex(IndexFor(env.lib, env.source, [ITEM], "key", MAX_FUTURE_SKEW))
  {
    hide ValidIndex, IndexFor, Accepted, ValidSource, DigestsAreHex, NameIsFree, InWindow;
    var env := PlainEnv(codec);
    BuiltIndexIsValid(env.lib, env.registry, env.source, [ITEM], "key", MAX_FUTURE_SKEW);
  }

  /** At clock zero this bundle, created five minutes later, is loaded, and the build of it fails; at its creation
      time the same index is valid. */
  lemma OneBuildFails(text: Catalogs.Text, codec: Codec)
    ensures ValidSource(SOURCE) && Catalogs.ValidCatalog(text, CATALOG)
    ensures
      var env := PlainEnv(codec);
      && env.source == SOURCE && ITEM.bundle.catalog == CATALOG
      && LoadLocal(env, FILES, 0) == Ok(ITEM)
      && Build(env, [FILES], "key", 0, 0, None) == Err(IndexSchemaInvalid)
      && ValidIndex(IndexFor(env.lib, env.source, [ITEM], "key", MAX_FUTURE_SKEW))
  {
    hide AcceptedAhead, LoadLocal, Build, ValidIndex, ValidSource, Catalogs.ValidCatalog, DigestsAreHex, NameIsFree;
    ItemIsAhead(codec);
    InputIsValid(text, codec);
    OnlyTheClock(codec);
    AheadLoads(PlainEnv(codec), ITEM, 0);
    assert ["key"][0] == "key";
    AheadFailsToBuild(PlainEnv(codec), ITEM, "key", 0, 0);
  }
}
