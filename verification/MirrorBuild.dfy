/** The mirror builder: merging bundles by sequence, retaining the newest, writing the tree, and loading it back. */
module MirrorBuild {
  import opened Prelude
  import opened Ordering
  import Catalogs
  import opened BundlePolicy
  import opened MirrorPaths
  import opened MirrorIndex

  /** A directory tree of public files. */
  type Tree = map<string, Bytes>

  datatype Env = Env(lib: Library, codec: Codec, registry: Registry, source: FeedSource)

  const INDEX_NAME := "index.json"
  const INDEX_SIGNATURE_NAME := "index.ed25519"
  const MAX_RETAIN_PRIOR := 31

  /* ---------- Merging ---------- */

  datatype Merged = Merged(bySequence: map<nat, LocalBundle>, byVersion: map<string, nat>)

  const NothingMerged := Merged(map[], map[])

  function VersionOf(item: LocalBundle): string {
    item.bundle.manifest.catalogVersion
  }

  function MergeStep(m: Merged, item: LocalBundle): Result<Merged, MirrorError> {
    var sequence, version := SequenceOf(item), VersionOf(item);
    if sequence in m.bySequence then
      if m.bySequence[sequence].bundle.manifestDigest != item.bundle.manifestDigest then Err(SequenceConflict) else Err(BundleDuplicate)
    else if version in m.byVersion && m.byVersion[version] != sequence then Err(VersionConflict)
    else Ok(Merged(m.bySequence[sequence := item], m.byVersion[version := sequence]))
  }

  function MergeAll(items: seq<LocalBundle>): Result<Merged, MirrorError> {
    if |items| == 0 then Ok(NothingMerged)
    else
      match MergeAll(items[..|items| - 1])
      case Err(error) => Err(error)
      case Ok(m) => MergeStep(m, items[|items| - 1])
  }

  function SequencesOf(items: seq<LocalBundle>): (sequences: seq<nat>)
    ensures |sequences| == |items|
  {
    seq(|items|, i requires 0 <= i < |items| => SequenceOf(items[i]))
  }

  /** The builder's merge loop. */
  method MergeBundles(items: seq<LocalBundle>) returns (result: Result<map<nat, LocalBundle>, MirrorError>)
    ensures result == match MergeAll(items)
                      case Err(error) => Err(error)
                      case Ok(m) => Ok(m.bySequence)
  {
    var bySequence: map<nat, LocalBundle> := map[];
    var byVersion: map<string, nat> := map[];
    assert items[..|items|] == items;
    for i := 0 to |items|
      invariant MergeAll(items[..i]) == Ok(Merged(bySequence, byVersion))
    {
      var item := items[i];
      assert items[..i + 1][..i] == items[..i];
      var sequence, version := SequenceOf(item), VersionOf(item);
      if sequence in bySequence {
        var error := if bySequence[sequence].bundle.manifestDigest != item.bundle.manifestDigest then SequenceConflict else BundleDuplicate;
        assert MergeAll(items[..i + 1]) == Err(error);
        MergeErrorStays(items, i + 1);
        return Err(error);
      }
      if version in byVersion && byVersion[version] != sequence {
        assert MergeAll(items[..i + 1]) == Err(VersionConflict);
        MergeErrorStays(items, i + 1);
        return Err(VersionConflict);
      }
      bySequence := bySequence[sequence := item];
      byVersion := byVersion[version := sequence];
    }
    return Ok(bySequence);
  }

  lemma {:induction false} MergeErrorStays(items: seq<LocalBundle>, n: nat)
    requires n <= |items| && MergeAll(items[..n]).Err?
    ensures MergeAll(items) == MergeAll(items[..n])
    decreases |items|
  {
    if n == |items| {
      assert items[..n] == items;
    } else {
      assert items[..|items| - 1][..n] == items[..n];
      MergeErrorStays(items[..|items| - 1], n);
    }
  }

  function VersionsOf(items: seq<LocalBundle>): (versions: seq<string>)
    ensures |versions| == |items|
  {
    seq(|items|, i requires 0 <= i < |items| => VersionOf(items[i]))
  }

  ghost predicate Indexes<K, V>(m: map<K, V>, keys: seq<K>, values: seq<V>) {
    && |keys| == |values| && m.Keys == ToSet(keys)
    && forall i :: 0 <= i < |keys| ==> keys[i] in m && m[keys[i]] == values[i]
  }

  lemma IndexesStep<K, V>(m: map<K, V>, keys: seq<K>, values: seq<V>, key: K, value: V)
    requires Indexes(m, keys, values) && key !in m
    ensures Indexes(m[key := value], keys + [key], values + [value])
  {
    forall i | 0 <= i < |keys| ensures keys[i] != key {
      assert keys[i] in ToSet(keys);
    }
    assert ToSet(keys + [key]) == ToSet(keys) + {key};
  }

  /** The dictionaries hold exactly the items, each under its own sequence and version. */
  ghost predicate Holds(m: Merged, items: seq<LocalBundle>) {
    && Indexes(m.bySequence, SequencesOf(items), items)
    && Indexes(m.byVersion, VersionsOf(items), SequencesOf(items))
  }

  ghost predicate Distinct(items: seq<LocalBundle>) {
    NoDuplicates(SequencesOf(items)) && NoDuplicates(VersionsOf(items))
  }

  lemma HeldVersion(m: Merged, items: seq<LocalBundle>, version: string)
    requires Holds(m, items) && version in m.byVersion
    ensures m.byVersion[version] in m.bySequence
  {
    assert version in ToSet(VersionsOf(items));
    var i :| 0 <= i < |items| && VersionsOf(items)[i] == version;
    assert SequencesOf(items)[i] in ToSet(SequencesOf(items));
  }

  lemma AppendedKeys(items: seq<LocalBundle>, item: LocalBundle)
    ensures SequencesOf(items + [item]) == SequencesOf(items) + [SequenceOf(item)]
    ensures VersionsOf(items + [item]) == VersionsOf(items) + [VersionOf(item)]
    ensures Distinct(items + [item]) <==> Distinct(items) && SequenceOf(item) !in SequencesOf(items) && VersionOf(item) !in VersionsOf(items)
  {
    var more := items + [item];
    assert SequencesOf(more) == SequencesOf(items) + [SequenceOf(item)];
    assert VersionsOf(more) == VersionsOf(items) + [VersionOf(item)];
    hide SequencesOf, VersionsOf, NoDuplicates;
    Catalogs.AppendDistinct(SequencesOf(items), SequenceOf(item));
    Catalogs.AppendDistinct(VersionsOf(items), VersionOf(item));
  }

  lemma HeldKeys(m: Merged, items: seq<LocalBundle>)
    requires Holds(m, items)
    ensures forall k :: k in m.bySequence <==> k in SequencesOf(items)
    ensures forall v :: v in m.byVersion <==> v in VersionsOf(items)
  {
    hide SequencesOf, VersionsOf;
    assert forall k :: k in SequencesOf(items) <==> k in ToSet(SequencesOf(items));
    assert forall v :: v in VersionsOf(items) <==> v in ToSet(VersionsOf(items));
  }

  lemma HoldsStep(m: Merged, items: seq<LocalBundle>, item: LocalBundle)
    requires Holds(m, items) && Distinct(items)
    ensures
      var more := items + [item];
      (MergeStep(m, item).Ok? <==> Distinct(more)) && (MergeStep(m, item).Ok? ==> Holds(MergeStep(m, item).value, more))
  {
    hide SequencesOf, VersionsOf, Distinct, Indexes;
    AppendedKeys(items, item);
    HeldKeys(m, items);
    var sequence, version := SequenceOf(item), VersionOf(item);
    if version in m.byVersion {
      HeldVersion(m, items, version);
    } else if sequence !in m.bySequence {
      IndexesStep(m.bySequence, SequencesOf(items), items, sequence, item);
      IndexesStep(m.byVersion, VersionsOf(items), SequencesOf(items), version, sequence);
    }
  }

  /** The merge succeeds exactly when no two bundles share a sequence or a version, and then holds them all. */
  lemma {:induction false} MergeAllIs(items: seq<LocalBundle>)
    ensures MergeAll(items).Ok? <==> Distinct(items)
    ensures MergeAll(items).Ok? ==> Holds(MergeAll(items).value, items)
  {
    if |items| > 0 {
      var front, last := items[..|items| - 1], items[|items| - 1];
      MergeAllIs(front);
      assert items == front + [last];
      AppendedKeys(front, last);
      hide Distinct, Holds, MergeStep;
      if MergeAll(front).Ok? {
        HoldsStep(MergeAll(front).value, front, last);
      }
    }
  }

  /* ---------- Retention ---------- */

  /** `all[-n:]` */
  function LastOnes(s: seq<nat>, n: nat): seq<nat> {
    if |s| <= n then s else s[|s| - n..]
  }

  function KeptSequences(items: seq<LocalBundle>, retainPrior: nat): seq<nat> {
    LastOnes(SortNats(SequencesOf(items)), retainPrior + 1)
  }

  /** `r` are the `n` highest of `all`, or all of them if there are fewer. */
  ghost predicate IsTop(r: set<nat>, all: set<nat>, n: nat) {
    && r <= all && |r| <= n && (|r| < n ==> r == all)
    && forall x, y :: x in r && y in all - r ==> y < x
  }

  lemma KeptIsTop(items: seq<LocalBundle>, retainPrior: nat)
    requires NoDuplicates(SequencesOf(items))
    ensures
      var kept := KeptSequences(items, retainPrior);
      && StrictlySorted(NatLess, kept) && (|items| > 0 ==> |kept| > 0) && |kept| <= retainPrior + 1
      && IsTop(ToSet(kept), ToSet(SequencesOf(items)), retainPrior + 1)
      && (forall k :: k in kept ==> k in SequencesOf(items))
  {
    hide SequencesOf, NoDuplicates, SortNats;
    SortNatsSorts(SequencesOf(items));
    LastOnesIsTop(SortNats(SequencesOf(items)), retainPrior + 1);
    assert ToSet(SortNats(SequencesOf(items))) == ToSet(SequencesOf(items));
  }

  lemma LastOnesIsTop(s: seq<nat>, n: nat)
    requires StrictlySorted(NatLess, s) && n > 0
    ensures
      var kept := LastOnes(s, n);
      StrictlySorted(NatLess, kept) && IsTop(ToSet(kept), ToSet(s), n) && |kept| <= n && (|s| > 0 ==> |kept| > 0)
      && (forall k :: k in kept ==> k in s)
  {
    var kept := LastOnes(s, n);
    var start := |s| - |kept|;
    assert forall i :: 0 <= i < |kept| ==> kept[i] == s[start + i];
    assert NoDuplicates(kept) by {
      forall i, j | 0 <= i < j < |kept| ensures kept[i] != kept[j] {
        assert NatLess(s[start + i], s[start + j]);
      }
    }
    DistinctSize(kept);
    forall j | start <= j < |s| ensures s[j] in ToSet(kept) {
      assert kept[j - start] == s[j];
    }
    forall x, y | x in ToSet(kept) && y in ToSet(s) - ToSet(kept) ensures y < x {
      var i :| 0 <= i < |kept| && kept[i] == x;
      var j :| 0 <= j < |s| && s[j] == y;
      assert NatLess(s[j], s[start + i]);
    }
  }

  function Pick(bySequence: map<nat, LocalBundle>, keys: seq<nat>): (items: seq<LocalBundle>)
    requires forall k :: k in keys ==> k in bySequence
    ensures |items| == |keys|
  {
    seq(|keys|, i requires 0 <= i < |keys| => bySequence[keys[i]])
  }

  /* ---------- The tree ---------- */

  /** The three files of one catalog directory. */
  function WriteBundle(tree: Tree, e: Entry, files: Files): Tree {
    tree[e.manifestPath := files.manifest][e.signaturePath := files.signature][e.payloadPath := files.payload]
  }

  function WriteBundles(env: Env, items: seq<LocalBundle>, n: nat): Tree
    requires n <= |items|
  {
    if n == 0 then map[]
    else WriteBundle(WriteBundles(env, items, n - 1), EntryFor(env.lib, env.source, items[n - 1]), items[n - 1].files)
  }

  function TreeOf(env: Env, items: seq<LocalBundle>, indexBytes: Bytes, signatureBytes: Bytes): Tree {
    WriteBundles(env, items, |items|)[INDEX_NAME := indexBytes][INDEX_SIGNATURE_NAME := signatureBytes]
  }

  function ReadFile(tree: Tree, path: string, maximumBytes: nat): Result<Bytes, MirrorError> {
    if path !in tree then Err(ArtifactMissing)
    else if |tree[path]| > maximumBytes then Err(ArtifactTooLarge)
    else Ok(tree[path])
  }

  /* ---------- Loading ---------- */

  function LoadFiles(env: Env, e: Entry, files: Files): Result<LocalBundle, MirrorError> {
    match CheckArtifact(env.lib, e.manifestBytes, e.manifestDigest, files.manifest)
    case Some(error) => Err(error)
    case None =>
      match CheckArtifact(env.lib, e.signatureBytes, e.signatureDigest, files.signature)
      case Some(error) => Err(error)
      case None =>
        match CheckArtifact(env.lib, e.payloadBytes, e.payloadDigest, files.payload)
        case Some(error) => Err(error)
        case None =>
          match VerifyBundle(env.lib, env.registry, env.source, files, e.createdAt)
          case Err(error) => Err(BundleRejected(error))
          case Ok(bundle) => if MatchesEntry(bundle, e) then Ok(LocalBundle(bundle, files)) else Err(BundleMetadataMismatch)
  }

  function LoadEntry(env: Env, tree: Tree, e: Entry): Result<LocalBundle, MirrorError> {
    match ReadFile(tree, e.manifestPath, env.source.limits.maximumManifestBytes)
    case Err(error) => Err(error)
    case Ok(manifest) =>
      match ReadFile(tree, e.signaturePath, env.source.limits.maximumSignatureBytes)
      case Err(error) => Err(error)
      case Ok(signature) =>
        match ReadFile(tree, e.payloadPath, env.source.limits.maximumCompressedBytes)
        case Err(error) => Err(error)
        case Ok(payload) => LoadFiles(env, e, Files(manifest, signature, payload))
  }

  /** The first `n` catalogs of an index, or the first error. */
  function LoadEntries(env: Env, tree: Tree, catalogs: seq<Entry>, n: nat): (result: Result<seq<LocalBundle>, MirrorError>)
    requires n <= |catalogs|
    ensures result.Ok? ==> |result.value| == n
  {
    if n == 0 then Ok([])
    else
      match LoadEntries(env, tree, catalogs, n - 1)
      case Err(error) => Err(error)
      case Ok(bundles) =>
        match LoadEntry(env, tree, catalogs[n - 1])
        case Err(error) => Err(error)
        case Ok(bundle) => Ok(bundles + [bundle])
  }

  function ReadIndex(env: Env, tree: Tree, now: int): Result<Index, MirrorError> {
    match ReadFile(tree, INDEX_NAME, env.source.limits.maximumIndexBytes)
    case Err(error) => Err(error)
    case Ok(data) =>
      match ReadFile(tree, INDEX_SIGNATURE_NAME, env.source.limits.maximumSignatureBytes)
      case Err(error) => Err(error)
      case Ok(signature) => VerifyIndex(env.lib, env.codec, env.registry, env.source, data, signature, now)
  }

  function LoadedMirror(env: Env, tree: Tree, now: int): Result<seq<LocalBundle>, MirrorError> {
    match ReadIndex(env, tree, now)
    case Err(error) => Err(error)
    case Ok(index) => LoadEntries(env, tree, index.catalogs, |index.catalogs|)
  }

  /** `load_existing_mirror`: verify the index, then load its catalogs one by one. */
  method LoadExistingMirror(env: Env, tree: Tree, now: int) returns (result: Result<seq<LocalBundle>, MirrorError>)
    ensures result == LoadedMirror(env, tree, now)
  {
    var verified := ReadIndex(env, tree, now);
    if verified.Err? {
      return Err(verified.error);
    }
    var catalogs := verified.value.catalogs;
    var bundles: seq<LocalBundle> := [];
    for i := 0 to |catalogs|
      invariant LoadEntries(env, tree, catalogs, i) == Ok(bundles)
    {
      var loaded := LoadEntry(env, tree, catalogs[i]);
      if loaded.Err? {
        assert LoadEntries(env, tree, catalogs, i + 1) == Err(loaded.error);
        LoadErrorStays(env, tree, catalogs, i + 1, |catalogs|);
        return Err(loaded.error);
      }
      bundles := bundles + [loaded.value];
    }
    return Ok(bundles);
  }

  lemma {:induction false} LoadErrorStays(env: Env, tree: Tree, catalogs: seq<Entry>, m: nat, n: nat)
    requires m <= n <= |catalogs| && LoadEntries(env, tree, catalogs, m).Err?
    ensures LoadEntries(env, tree, catalogs, n) == LoadEntries(env, tree, catalogs, m)
  {
    if m < n {
      LoadErrorStays(env, tree, catalogs, m, n - 1);
    }
  }

  /* ---------- Building ---------- */

  /** A reviewed bundle directory: the sizes are bounded before anything is parsed. */
  function LoadLocal(env: Env, files: Files, now: int): Result<LocalBundle, MirrorError> {
    if |files.manifest| > env.source.limits.maximumManifestBytes || |files.signature| > env.source.limits.maximumSignatureBytes
       || |files.payload| > env.source.limits.maximumCompressedBytes
    then Err(ArtifactTooLarge)
    else
      match VerifyBundle(env.lib, env.registry, env.source, files, now)
      case Err(error) => Err(BundleRejected(error))
      case Ok(bundle) => Ok(LocalBundle(bundle, files))
  }

  function LoadLocals(env: Env, directories: seq<Files>, now: int, n: nat): (result: Result<seq<LocalBundle>, MirrorError>)
    requires n <= |directories|
    ensures result.Ok? ==> |result.value| == n
  {
    if n == 0 then Ok([])
    else
      match LoadLocals(env, directories, now, n - 1)
      case Err(error) => Err(error)
      case Ok(items) =>
        match LoadLocal(env, directories[n - 1], now)
        case Err(error) => Err(error)
        case Ok(item) => Ok(items + [item])
  }

  function Highest(items: seq<LocalBundle>): nat {
    if |items| == 0 then 0 else Max(Highest(items[..|items| - 1]), SequenceOf(items[|items| - 1]))
  }

  datatype Built = Built(index: Index, tree: Tree, retained: seq<LocalBundle>)

  /** The bundles to retain, oldest first. */
  function Retained(m: Merged, items: seq<LocalBundle>, retainPrior: nat): seq<LocalBundle>
    requires forall k :: k in KeptSequences(items, retainPrior) ==> k in m.bySequence
  {
    Pick(m.bySequence, KeptSequences(items, retainPrior))
  }

  /** From the retained bundles to the written tree. */
  function Publish(env: Env, retained: seq<LocalBundle>, keyId: string, publishedAt: int): Result<Built, MirrorError>
    requires |retained| > 0
  {
    if retained[|retained| - 1].bundle.manifest.expiresAt <= publishedAt then Err(LatestExpired)
    else
      var index := IndexFor(env.lib, env.source, retained, keyId, publishedAt);
      if !ValidIndex(index) then Err(IndexSchemaInvalid)
      else
        var data := env.codec.encode(index);
        if |data| > env.source.limits.maximumIndexBytes then Err(IndexSizeInvalid)
        else
          var signature := env.codec.sign(data);
          match VerifyIndex(env.lib, env.codec, env.registry, env.source, data, signature, publishedAt)
          case Err(error) => Err(error)
          case Ok(_) => Ok(Built(index, TreeOf(env, retained, data, signature), retained))
  }

  lemma MergedKept(items: seq<LocalBundle>, retainPrior: nat)
    requires |items| > 0 && MergeAll(items).Ok?
    ensures |KeptSequences(items, retainPrior)| > 0
    ensures forall k :: k in KeptSequences(items, retainPrior) ==> k in MergeAll(items).value.bySequence
  {
    MergeAllIs(items);
    HeldKeys(MergeAll(items).value, items);
    KeptIsTop(items, retainPrior);
    hide MergeAll, KeptSequences, Holds;
  }

  function BuildFrom(env: Env, prior: seq<LocalBundle>, added: seq<LocalBundle>, keyId: string, publishedAt: int, retainPrior: nat)
    : Result<Built, MirrorError>
    requires |added| > 0
  {
    if |prior| > 0 && Highest(added) <= Highest(prior) then Err(CatalogNotAdvanced)
    else
      var items := prior + added;
      match MergeAll(items)
      case Err(error) => Err(error)
      case Ok(m) =>
        MergedKept(items, retainPrior);
        Publish(env, Retained(m, items, retainPrior), keyId, publishedAt)
  }

  /** `build_advisory_mirror`, up to the written tree. */
  function Build(env: Env, directories: seq<Files>, keyId: string, publishedAt: int, retainPrior: int, existing: Option<Tree>)
    : Result<Built, MirrorError>
  {
    if |directories| == 0 then Err(InputEmpty)
    else if !(0 <= retainPrior <= MAX_RETAIN_PRIOR) then Err(RetentionInvalid)
    else if retainPrior + 1 > env.source.limits.maximumMirrorCatalogs then Err(RetentionTooLarge)
    else if env.source.mirrorKeys.None? then Err(SourceModeInvalid)
    else if keyId !in env.source.mirrorKeys.value then Err(IndexKeySubstitution)
    else
      match (if existing.Some? then LoadedMirror(env, existing.value, publishedAt) else Ok([]))
      case Err(error) => Err(error)
      case Ok(prior) =>
        match LoadLocals(env, directories, publishedAt, |directories|)
        case Err(error) => Err(error)
        case Ok(added) => BuildFrom(env, prior, added, keyId, publishedAt, retainPrior)
  }
}
