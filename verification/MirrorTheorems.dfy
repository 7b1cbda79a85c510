/** What the mirror builder guarantees: a written tree loads back, and a chain of builds retains the newest. */
module MirrorTheorems {
  import opened Prelude
  import opened Ordering
  import opened BundlePolicy
  import opened MirrorPaths
  import opened MirrorIndex
  import opened MirrorBuild

  /** Canonical JSON is injective with its parser as inverse, digests are 64 hexadecimal characters, and the
      source passed its own validators. */
  ghost predicate Sound(env: Env) {
    && ValidSource(env.source) && DigestsAreHex(env.lib)
    && forall index :: env.codec.parse(env.codec.encode(index)) == Some(index) && |env.codec.encode(index)| > 0
  }

  ghost predicate AllGood(env: Env, items: seq<LocalBundle>) {
    AllAccepted(env.lib, env.registry, env.source, items)
  }

  /* ---------- Only accepted bundles enter a mirror ---------- */

  lemma LocalIsAccepted(env: Env, files: Files, now: int)
    requires LoadLocal(env, files, now).Ok?
    ensures Accepted(env.lib, env.registry, env.source, LoadLocal(env, files, now).value)
  {
    AcceptedAtCreation(env.lib, env.registry, env.source, files, now);
    hide VerifyBundle;
  }

  lemma {:induction false} LocalsAreAccepted(env: Env, directories: seq<Files>, now: int, n: nat)
    requires n <= |directories| && LoadLocals(env, directories, now, n).Ok?
    ensures AllGood(env, LoadLocals(env, directories, now, n).value)
  {
    hide LoadLocal, Accepted;
    if n > 0 {
      LocalsAreAccepted(env, directories, now, n - 1);
      LocalIsAccepted(env, directories[n - 1], now);
    }
  }

  lemma LoadedIsAccepted(env: Env, tree: Tree, e: Entry)
    requires LoadEntry(env, tree, e).Ok?
    ensures Accepted(env.lib, env.registry, env.source, LoadEntry(env, tree, e).value)
  {
    hide VerifyBundle, CheckArtifact;
  }

  lemma {:induction false} LoadedAreAccepted(env: Env, tree: Tree, catalogs: seq<Entry>, n: nat)
    requires n <= |catalogs| && LoadEntries(env, tree, catalogs, n).Ok?
    ensures AllGood(env, LoadEntries(env, tree, catalogs, n).value)
  {
    hide LoadEntry, Accepted;
    if n > 0 {
      LoadedAreAccepted(env, tree, catalogs, n - 1);
      LoadedIsAccepted(env, tree, catalogs[n - 1]);
    }
  }

  /* ---------- Reading back what was written ---------- */

  /** The tree holds the item's three files at its entry's paths. */
  ghost predicate HoldsFiles(tree: Tree, e: Entry, files: Files) {
    && e.manifestPath in tree && tree[e.manifestPath] == files.manifest
    && e.signaturePath in tree && tree[e.signaturePath] == files.signature
    && e.payloadPath in tree && tree[e.payloadPath] == files.payload
  }

  lemma WriteSpares(tree: Tree, e: Entry, files: Files, other: Entry, others: Files)
    requires HoldsFiles(tree, other, others) && PathsOf(e) !! PathsOf(other)
    ensures HoldsFiles(WriteBundle(tree, e, files), other, others)
  {
    assert other.manifestPath in PathsOf(other) && other.signaturePath in PathsOf(other) && other.payloadPath in PathsOf(other);
    assert e.manifestPath in PathsOf(e) && e.signaturePath in PathsOf(e) && e.payloadPath in PathsOf(e);
  }

  lemma {:induction false} WrittenFiles(env: Env, items: seq<LocalBundle>, n: nat, i: nat)
    requires i < n <= |items|
    requires DistinctPaths(EntriesFor(env.lib, env.source, items))
    requires forall k :: 0 <= k < |items| ==> ValidPaths(EntryFor(env.lib, env.source, items[k]))
    ensures HoldsFiles(WriteBundles(env, items, n), EntryFor(env.lib, env.source, items[i]), items[i].files)
  {
    hide EntryFor, PathsOf, HoldsFiles, WriteBundle, ValidPaths;
    var e := EntryFor(env.lib, env.source, items[n - 1]);
    var before := WriteBundles(env, items, n - 1);
    if i == n - 1 {
      WritesAll(before, e, items[i].files);
    } else {
      WrittenFiles(env, items, n - 1, i);
      var entries := EntriesFor(env.lib, env.source, items);
      assert PathsOf(entries[i]) !! PathsOf(entries[n - 1]);
      WriteSpares(before, e, items[n - 1].files, EntryFor(env.lib, env.source, items[i]), items[i].files);
    }
  }

  lemma WritesAll(tree: Tree, e: Entry, files: Files)
    requires ValidPaths(e)
    ensures HoldsFiles(WriteBundle(tree, e, files), e, files)
  {
    hide ValidRelativePath, Parent, Name;
  }

  lemma IndexIsElsewhere(lib: Library, source: FeedSource, item: LocalBundle)
    ensures INDEX_NAME !in PathsOf(EntryFor(lib, source, item)) && INDEX_SIGNATURE_NAME !in PathsOf(EntryFor(lib, source, item))
  {
    hide Padded;
    assert INDEX_NAME[0] == 'i' && INDEX_SIGNATURE_NAME[0] == 'i';
    var e := EntryFor(lib, source, item);
    assert DirectoryOf(item)[0] == 'c';
    assert e.manifestPath[0] == 'c' && e.signaturePath[0] == 'c' && e.payloadPath[0] == 'c';
  }

  lemma TreeHolds(env: Env, items: seq<LocalBundle>, indexBytes: Bytes, signatureBytes: Bytes, i: nat)
    requires i < |items|
    requires DistinctPaths(EntriesFor(env.lib, env.source, items))
    requires forall k :: 0 <= k < |items| ==> ValidPaths(EntryFor(env.lib, env.source, items[k]))
    ensures HoldsFiles(TreeOf(env, items, indexBytes, signatureBytes), EntryFor(env.lib, env.source, items[i]), items[i].files)
  {
    hide WriteBundles, EntryFor, ValidPaths;
    WrittenFiles(env, items, |items|, i);
    IndexIsElsewhere(env.lib, env.source, items[i]);
  }

  /** Files that are in place load as the very bundle they came from. */
  lemma EntryLoadsBack(env: Env, tree: Tree, item: LocalBundle)
    requires Accepted(env.lib, env.registry, env.source, item)
    requires HoldsFiles(tree, EntryFor(env.lib, env.source, item), item.files)
    ensures LoadEntry(env, tree, EntryFor(env.lib, env.source, item)) == Ok(item)
  {
    hide VerifyBundle, DirectoryFor, ValidManifest;
    AcceptedFacts(env.lib, env.registry, env.source, item);
    assert item == LocalBundle(item.bundle, Files(item.files.manifest, item.files.signature, item.files.payload));
  }

  lemma {:induction false} EntriesLoadBack(env: Env, tree: Tree, items: seq<LocalBundle>, n: nat)
    requires n <= |items| && AllGood(env, items)
    requires forall i :: 0 <= i < |items| ==> HoldsFiles(tree, EntryFor(env.lib, env.source, items[i]), items[i].files)
    ensures LoadEntries(env, tree, EntriesFor(env.lib, env.source, items), n) == Ok(items[..n])
  {
    hide HoldsFiles, LoadEntry, EntryFor, Accepted;
    if n > 0 {
      EntriesLoadBack(env, tree, items, n - 1);
      EntryLoadsBack(env, tree, items[n - 1]);
      assert items[..n] == items[..n - 1] + [items[n - 1]];
    }
  }

  ghost predicate Retainable(env: Env, items: seq<LocalBundle>) {
    && 0 < |items| <= MAX_ENTRIES && |items| <= env.source.limits.maximumMirrorCatalogs
    && AllGood(env, items) && RisingItems(items) && DistinctItemVersions(items)
  }

  lemma RetainableIsNonempty(env: Env, items: seq<LocalBundle>)
    requires Retainable(env, items)
    ensures |items| > 0
  {
  }

  /** A publication gets as far as a written tree exactly when its latest bundle has not expired, the index is
      publishable and within its size limit, and the signing key works. */
  lemma PublishSucceeds(env: Env, items: seq<LocalBundle>, keyId: string, publishedAt: int)
    requires Sound(env) && Retainable(env, items)
    ensures
      var index := IndexFor(env.lib, env.source, items, keyId, publishedAt);
      var data := env.codec.encode(index);
      Publish(env, items, keyId, publishedAt).Ok? <==>
        && items[|items| - 1].bundle.manifest.expiresAt > publishedAt
        && Publishable(env.source, items, publishedAt)
        && |data| <= env.source.limits.maximumIndexBytes
        && SigningWorks(env.lib, env.codec, env.registry, env.source, index, env.codec.sign(data))
  {
    hide IndexFor, ValidIndex, VerifyIndex, SigningWorks, Publishable, RisingItems, DistinctItemVersions, AllAccepted, TreeOf,
      ValidSource, DigestsAreHex;
    BuiltIndexIsValid(env.lib, env.registry, env.source, items, keyId, publishedAt);
    if items[|items| - 1].bundle.manifest.expiresAt > publishedAt {
      var data := env.codec.encode(IndexFor(env.lib, env.source, items, keyId, publishedAt));
      BuiltIndexVerifies(env.lib, env.codec, env.registry, env.source, items, keyId, publishedAt, env.codec.sign(data));
    }
  }

  lemma ValidIndexPaths(lib: Library, source: FeedSource, items: seq<LocalBundle>, keyId: string, publishedAt: int)
    requires |items| > 0 && ValidIndex(IndexFor(lib, source, items, keyId, publishedAt))
    ensures DistinctPaths(EntriesFor(lib, source, items))
    ensures forall k :: 0 <= k < |items| ==> ValidPaths(EntryFor(lib, source, items[k]))
  {
    hide EntryFor, DistinctPaths, ValidPaths, ValidFields, RisingSequences, DistinctVersions, DescribesLatest, Agrees;
    var index := IndexFor(lib, source, items, keyId, publishedAt);
    assert index.catalogs == EntriesFor(lib, source, items);
    forall k | 0 <= k < |items| ensures ValidPaths(EntryFor(lib, source, items[k])) {
      assert ValidEntry(index.catalogs[k]);
    }
  }

  lemma PublishedParts(env: Env, items: seq<LocalBundle>, keyId: string, publishedAt: int)
    requires |items| > 0 && Publish(env, items, keyId, publishedAt).Ok?
    ensures
      var built := Publish(env, items, keyId, publishedAt).value;
      var index := IndexFor(env.lib, env.source, items, keyId, publishedAt);
      var data := env.codec.encode(index);
      && built == Built(index, TreeOf(env, items, data, env.codec.sign(data)), items)
      && ValidIndex(index) && items[|items| - 1].bundle.manifest.expiresAt > publishedAt
      && VerifyIndex(env.lib, env.codec, env.registry, env.source, data, env.codec.sign(data), publishedAt).Ok?
  {
    hide IndexFor, ValidIndex, VerifyIndex, TreeOf;
  }

  lemma SignatureFits(env: Env, data: Bytes, signatureBytes: Bytes, now: int)
    requires VerifyIndex(env.lib, env.codec, env.registry, env.source, data, signatureBytes, now).Ok?
    ensures |signatureBytes| <= env.source.limits.maximumSignatureBytes && |data| <= env.source.limits.maximumIndexBytes
  {
    hide ValidIndex, CheckIndexKey, CheckIndexPolicy, WithoutLineEnd;
  }

  /** Reading the index of a written tree back. */
  lemma IndexReadsBack(env: Env, items: seq<LocalBundle>, keyId: string, publishedAt: int)
    requires Sound(env) && Retainable(env, items) && Publish(env, items, keyId, publishedAt).Ok?
    ensures ReadIndex(env, Publish(env, items, keyId, publishedAt).value.tree, publishedAt)
         == Ok(IndexFor(env.lib, env.source, items, keyId, publishedAt))
  {
    hide IndexFor, ValidIndex, VerifyIndex, SigningWorks, RisingItems, DistinctItemVersions, AllAccepted, Publish, WriteBundles, ValidSource,
      DigestsAreHex;
    PublishedParts(env, items, keyId, publishedAt);
    var data := env.codec.encode(IndexFor(env.lib, env.source, items, keyId, publishedAt));
    BuiltIndexVerifies(env.lib, env.codec, env.registry, env.source, items, keyId, publishedAt, env.codec.sign(data));
    SignatureFits(env, data, env.codec.sign(data), publishedAt);
    assert INDEX_NAME != INDEX_SIGNATURE_NAME by {
      assert |INDEX_NAME| != |INDEX_SIGNATURE_NAME|;
    }
  }

  /** Round trip: whatever tree is written loads back as exactly the retained bundles, in increasing sequence. */
  lemma {:induction false} WrittenTreeLoadsBack(env: Env, items: seq<LocalBundle>, keyId: string, publishedAt: int)
    requires Sound(env) && Retainable(env, items)
    ensures
      var published := Publish(env, items, keyId, publishedAt);
      published.Ok? ==> LoadedMirror(env, published.value.tree, publishedAt) == Ok(items)
  {
    hide Publish, LoadedMirror, Sound, Retainable;
    RetainableIsNonempty(env, items);
    if Publish(env, items, keyId, publishedAt).Ok? {
      PublishedLoadsBack(env, items, keyId, publishedAt);
    }
  }

  lemma PublishedEntriesLoad(env: Env, items: seq<LocalBundle>, keyId: string, publishedAt: int)
    requires Retainable(env, items) && Publish(env, items, keyId, publishedAt).Ok?
    ensures LoadEntries(env, Publish(env, items, keyId, publishedAt).value.tree, EntriesFor(env.lib, env.source, items), |items|) == Ok(items)
  {
    hide Publish, ValidIndex, VerifyIndex, RisingItems, DistinctItemVersions, AllAccepted, EntryFor, DistinctPaths, ValidPaths, HoldsFiles,
      LoadEntries, IndexFor, EntriesFor, TreeOf;
    PublishedParts(env, items, keyId, publishedAt);
    ValidIndexPaths(env.lib, env.source, items, keyId, publishedAt);
    var tree := Publish(env, items, keyId, publishedAt).value.tree;
    var data := env.codec.encode(IndexFor(env.lib, env.source, items, keyId, publishedAt));
    forall i | 0 <= i < |items| ensures HoldsFiles(tree, EntryFor(env.lib, env.source, items[i]), items[i].files) {
      TreeHolds(env, items, data, env.codec.sign(data), i);
    }
    EntriesLoadBack(env, tree, items, |items|);
    assert items[..|items|] == items;
  }

  lemma IndexHoldsEntries(lib: Library, source: FeedSource, items: seq<LocalBundle>, keyId: string, publishedAt: int)
    requires |items| > 0
    ensures IndexFor(lib, source, items, keyId, publishedAt).catalogs == EntriesFor(lib, source, items) && |EntriesFor(lib, source, items)| == |items|
  {
    hide EntryFor;
  }

  lemma PublishedLoadsBack(env: Env, items: seq<LocalBundle>, keyId: string, publishedAt: int)
    requires Sound(env) && Retainable(env, items) && Publish(env, items, keyId, publishedAt).Ok?
    ensures LoadedMirror(env, Publish(env, items, keyId, publishedAt).value.tree, publishedAt) == Ok(items)
  {
    hide Publish, ReadIndex, LoadEntries, Sound, Retainable, IndexFor, EntriesFor;
    RetainableIsNonempty(env, items);
    IndexReadsBack(env, items, keyId, publishedAt);
    PublishedEntriesLoad(env, items, keyId, publishedAt);
    IndexHoldsEntries(env.lib, env.source, items, keyId, publishedAt);
  }
}
