/** What a mirror build writes and when it succeeds, in terms of the bundle directories, the existing tree and the bytes:
    paths from their text, entries from manifests, retention from sequences. */
module BuildLaws {
  import opened Prelude
  import opened Ordering
  import Catalogs
  import opened BundlePolicy
  import opened MirrorPaths
  import opened MirrorIndex
  import opened MirrorBuild
  import opened MirrorTheorems
  import opened MirrorRetention
  import opened AcceptanceLaws
  import opened MirrorLaws

  /* ---------- Paths of a feed ---------- */

  /** No query and no fragment: a fragment mark may only be last, a query mark only last or before a last fragment
      mark. */
  predicate NothingMarked(s: string) {
    forall i :: 0 <= i < |s| ==>
      && (s[i] == '#' ==> i == |s| - 1)
      && (s[i] == '?' ==> i == |s| - 1 || (i == |s| - 2 && s[|s| - 1] == '#'))
  }

  predicate OnlyLast(s: string, mark: char) {
    forall i :: 0 <= i < |s| && s[i] == mark ==> i == |s| - 1
  }

  lemma {:induction false} AfterExactly(s: string, mark: char)
    ensures After(s, mark) == "" <==> OnlyLast(s, mark)
  {
    if |s| > 0 {
      AfterExactly(s[1..], mark);
      assert forall i :: 1 <= i < |s| ==> s[i] == s[1..][i - 1];
      assert OnlyLast(s, mark) ==> (s[0] == mark ==> |s| == 1) && OnlyLast(s[1..], mark);
    }
  }

  lemma {:induction false} UpToIs(s: string, mark: char)
    ensures UpTo(s, mark) <= s && mark !in UpTo(s, mark)
    ensures |UpTo(s, mark)| < |s| ==> s[|UpTo(s, mark)|] == mark
  {
    if |s| > 0 && s[0] != mark {
      UpToIs(s[1..], mark);
      assert s == [s[0]] + s[1..];
    }
  }

  lemma NothingMarkedExactly(s: string)
    ensures After(s, '#') == "" && After(UpTo(s, '#'), '?') == "" <==> NothingMarked(s)
  {
    AfterExactly(s, '#');
    UpToIs(s, '#');
    var front := UpTo(s, '#');
    AfterExactly(front, '?');
    hide After, UpTo;
    assert forall i :: 0 <= i < |front| ==> front[i] == s[i] && front[i] != '#';
    if NothingMarked(s) {
      assert |front| < |s| ==> |front| == |s| - 1;
    }
  }

  /** A reviewed path starts with exactly one slash, has neither query nor fragment, no blank, backslash or escape, and
      no piece of one or two dots. */
  lemma FeedPathExactly(s: string)
    ensures ValidFeedPath(s) <==>
      && |s| > 0 && s[0] == '/' && (|s| > 1 ==> s[1] != '/') && NothingMarked(s)
      && (forall i :: 0 <= i < |s| ==> '!' <= s[i] <= '~' && s[i] != '\\' && s[i] != '%')
      && (forall segment :: SomePiece(s, segment) ==> segment != "." && segment != "..")
  {
    NothingMarkedExactly(s);
    forall segment ensures segment in Segments(s) <==> SomePiece(s, segment) {
      SegmentsArePieces(s, segment);
    }
    hide Segments, After, UpTo, NothingMarked, SomePiece;
    assert forall i :: 0 <= i < |s| ==> s[i] in s;
  }

  predicate InLayout(directory: string, indexPath: string, signaturePath: string) {
    indexPath == directory + "/" + "index.json" && signaturePath == directory + "/" + "index.ed25519"
  }

  /** A layout is two reviewed paths: the fixed names in one directory. */
  lemma LayoutExactly(indexPath: string, signaturePath: string)
    ensures ValidLayout(indexPath, signaturePath) <==>
      && ValidFeedPath(indexPath) && ValidFeedPath(signaturePath)
      && exists directory :: InLayout(directory, indexPath, signaturePath)
  {
    hide ValidFeedPath, Parent, Name;
    assert '/' !in "index.json" && '/' !in "index.ed25519";
    forall directory: string ensures InLayout(directory, indexPath, signaturePath) <==>
      && '/' in indexPath && Parent(indexPath) == directory && Name(indexPath) == "index.json"
      && '/' in signaturePath && Parent(signaturePath) == directory && Name(signaturePath) == "index.ed25519"
    {
      SplitsExactly(indexPath, directory, "index.json");
      SplitsExactly(signaturePath, directory, "index.ed25519");
    }
    StartsSlashed(indexPath);
    StartsSlashed(signaturePath);
    assert ValidLayout(indexPath, signaturePath) ==> InLayout(Parent(indexPath), indexPath, signaturePath);
  }

  lemma StartsSlashed(s: string)
    ensures ValidFeedPath(s) ==> '/' in s
  {
    hide Segments, After, UpTo;
  }

  /** An artifact's path is the index's directory with the relative path. */
  lemma ArtifactPathIs(directory: string, relative: string)
    ensures ArtifactPath(directory + "/" + "index.json", relative) == directory + "/" + relative
  {
    assert '/' !in "index.json";
    SplitsExactly(directory + "/" + "index.json", directory, "index.json");
    hide Parent, Name;
    if directory == "" {
      assert directory + "/" + relative == "/" + relative;
    }
  }

  /** The pattern of payload names: an alphanumeric character and 1 to 127 characters of a small alphabet. */
  lemma NameExactly(name: string)
    ensures ValidName(name) <==>
              exists first: char, rest: string ::
                && name == [first] + rest && Catalogs.IsAlphanumeric(first) && 1 <= |rest| <= 127
                && forall c :: c in rest ==> Catalogs.IsAlphanumeric(c) || c == '.' || c == '_' || c == '-'
  {
    if ValidName(name) {
      assert name == [name[0]] + name[1..];
      assert name[0] in name;
      assert forall c :: c in name[1..] ==> c in name;
    }
  }

  /* ---------- Directories ---------- */

  /** The number that a text of decimal digits stands for. */
  function Value(digits: string): int {
    if |digits| == 0 then 0 else 10 * Value(digits[..|digits| - 1]) + (digits[|digits| - 1] as int - '0' as int)
  }

  lemma {:induction false} DigitsHaveValue(n: nat, width: nat)
    requires n < Power10(width)
    ensures Value(Digits(n, width)) == n
  {
    if width > 0 {
      PowerStep(n, width);
      DigitsHaveValue(n / 10, width - 1);
      var digits := Digits(n, width);
      assert digits[..width - 1] == Digits(n / 10, width - 1);
      assert digits[width - 1] as int - '0' as int == n % 10;
    }
  }

  /** `catalogs/`, the sequence in twenty decimal digits, a dash, and the first sixteen characters of the digest. */
  ghost predicate NamesDirectory(directory: string, sequence: nat, digest: string) {
    exists digits: string ::
      && |digits| == 20 && (forall i :: 0 <= i < 20 ==> '0' <= digits[i] <= '9') && Value(digits) == sequence
      && directory == "catalogs/" + (digits + "-" + digest[..if |digest| < 16 then |digest| else 16])
  }

  lemma DirectoryIs(sequence: nat, digest: string)
    requires sequence <= MAX_SEQUENCE
    ensures NamesDirectory(DirectoryFor(sequence, digest), sequence, digest)
  {
    TwentyDigits();
    PaddedIsDigits(sequence, 20);
    DigitsHaveValue(sequence, 20);
    hide Value, Digits, Power10, Padded;
    var digits := Padded(sequence, 20);
    assert digest[..|digest|] == digest;
  }

  /* ---------- The index ---------- */

  /** The entry says of the bundle what its manifest and its files are. */
  ghost predicate EntrySays(lib: Library, source: FeedSource, e: Entry, item: LocalBundle) {
    var files := item.files;
    && SaysBundle(e, item.bundle) && e.minimumVersion == source.minimumVersion
    && e.manifestBytes == |files.manifest| && e.signatureBytes == |files.signature| && e.payloadBytes == |files.payload|
    && e.signatureDigest == lib.sha256(files.signature)
    && exists directory: string ::
         && NamesDirectory(directory, e.catalogSequence, e.manifestDigest)
         && e.manifestPath == directory + "/" + "manifest.json" && e.signaturePath == directory + "/" + "manifest.ed25519"
         && e.payloadPath == directory + "/" + item.bundle.manifest.payloadName
  }

  /** The index lists the bundles in order and describes the last one. */
  ghost predicate IndexSays(lib: Library, source: FeedSource, index: Index, items: seq<LocalBundle>, keyId: string, publishedAt: int) {
    && |items| > 0 && |index.catalogs| == |items|
    && (forall i :: 0 <= i < |items| ==> EntrySays(lib, source, index.catalogs[i], items[i]))
    && index.sourceId == source.sourceId && index.signingKeyId == keyId && index.publishedAt == publishedAt
    && var m := items[|items| - 1].bundle.manifest;
       && index.latestVersion == m.catalogVersion && index.latestSequence == m.catalogSequence
       && index.license == m.license && index.attribution == m.attribution && index.provenance == m.provenance
       && index.adapterVersion == m.adapterVersion && index.minimumCatalogVersion == m.minimumCatalogVersion
       && index.minimumVersion == source.minimumVersion
  }

  lemma EntryIs(lib: Library, source: FeedSource, item: LocalBundle)
    requires SequenceOf(item) <= MAX_SEQUENCE
    ensures EntrySays(lib, source, EntryFor(lib, source, item), item)
  {
    DirectoryIs(SequenceOf(item), item.bundle.manifestDigest);
    hide NamesDirectory, DirectoryFor;
  }

  lemma IndexIs(lib: Library, source: FeedSource, items: seq<LocalBundle>, keyId: string, publishedAt: int)
    requires |items| > 0 && forall i :: 0 <= i < |items| ==> SequenceOf(items[i]) <= MAX_SEQUENCE
    ensures IndexSays(lib, source, IndexFor(lib, source, items, keyId, publishedAt), items, keyId, publishedAt)
  {
    var index := IndexFor(lib, source, items, keyId, publishedAt);
    forall i | 0 <= i < |items| ensures EntrySays(lib, source, index.catalogs[i], items[i]) {
      EntryIs(lib, source, items[i]);
    }
    hide EntrySays, DirectoryFor;
  }

  /* ---------- The tree ---------- */

  /** The tree holds the index, its signature, the three files of every bundle at its entry's paths, and nothing else. */
  ghost predicate TreeSays(tree: Tree, index: Index, items: seq<LocalBundle>, data: Bytes, signature: Bytes) {
    && |index.catalogs| == |items|
    && "index.json" in tree && tree["index.json"] == data && "index.ed25519" in tree && tree["index.ed25519"] == signature
    && (forall i :: 0 <= i < |items| ==> HoldsFiles(tree, index.catalogs[i], items[i].files))
    && forall path :: path in tree ==>
         path == "index.json" || path == "index.ed25519" || exists i :: 0 <= i < |items| && path in PathsOf(index.catalogs[i])
  }

  lemma {:induction false} WrittenPaths(env: Env, items: seq<LocalBundle>, n: nat, path: string)
    requires n <= |items| && path in WriteBundles(env, items, n)
    ensures exists i :: 0 <= i < n && path in PathsOf(EntryFor(env.lib, env.source, items[i]))
  {
    hide EntryFor;
    if n > 0 {
      if path in WriteBundles(env, items, n - 1) {
        WrittenPaths(env, items, n - 1, path);
      } else {
        assert path in PathsOf(EntryFor(env.lib, env.source, items[n - 1]));
      }
    }
  }

  lemma TreeIs(env: Env, items: seq<LocalBundle>, keyId: string, publishedAt: int, data: Bytes, signature: Bytes)
    requires |items| > 0 && ValidIndex(IndexFor(env.lib, env.source, items, keyId, publishedAt))
    ensures TreeSays(TreeOf(env, items, data, signature), IndexFor(env.lib, env.source, items, keyId, publishedAt), items, data, signature)
  {
    hide ValidIndex, EntryFor, HoldsFiles, WriteBundles, ValidPaths, DistinctPaths;
    ValidIndexPaths(env.lib, env.source, items, keyId, publishedAt);
    var tree, index := TreeOf(env, items, data, signature), IndexFor(env.lib, env.source, items, keyId, publishedAt);
    assert |INDEX_NAME| != |INDEX_SIGNATURE_NAME|;
    forall i | 0 <= i < |items| ensures HoldsFiles(tree, index.catalogs[i], items[i].files) {
      TreeHolds(env, items, data, signature, i);
    }
    forall path | path in tree && path != "index.json" && path != "index.ed25519"
      ensures exists i :: 0 <= i < |items| && path in PathsOf(index.catalogs[i])
    {
      WrittenPaths(env, items, |items|, path);
      var i :| 0 <= i < |items| && path in PathsOf(EntryFor(env.lib, env.source, items[i]));
      assert index.catalogs[i] == EntryFor(env.lib, env.source, items[i]);
    }
  }

  /* ---------- Publication ---------- */

  /** The publication is possible: the latest bundle is neither expired nor from the future, one license covers all, the
      payload's name is free, and the index is short enough and signed by a key in force. */
  ghost predicate CanPublish(env: Env, items: seq<LocalBundle>, index: Index, publishedAt: int) {
    var data := env.codec.encode(index);
    && |items| > 0
    && (var latest := items[|items| - 1].bundle.manifest;
        && latest.createdAt <= publishedAt < latest.expiresAt
        && forall i :: 0 <= i < |items| ==> items[i].bundle.manifest.license == latest.license)
    && env.source.expectedPayloadName != "manifest.json" && env.source.expectedPayloadName != "manifest.ed25519"
    && |data| <= env.source.limits.maximumIndexBytes && IndexKeyInForce(env.source, env.registry, index, publishedAt)
    && Signs(env.lib, env.codec.sign(data), env.source.limits.maximumSignatureBytes, env.registry[index.signingKeyId], data)
  }

  ghost predicate Published(env: Env, items: seq<LocalBundle>, keyId: string, publishedAt: int, built: Built) {
    var data := env.codec.encode(built.index);
    && built.retained == items && IndexSays(env.lib, env.source, built.index, items, keyId, publishedAt)
    && CanPublish(env, items, built.index, publishedAt)
    && TreeSays(built.tree, built.index, items, data, env.codec.sign(data))
  }

  lemma KeyWorksExactly(env: Env, index: Index, signature: Bytes)
    requires index.sourceId == env.source.sourceId
    ensures SigningWorks(env.lib, env.codec, env.registry, env.source, index, signature) <==>
      && IndexKeyInForce(env.source, env.registry, index, index.publishedAt)
      && Signs(env.lib, signature, env.source.limits.maximumSignatureBytes, env.registry[index.signingKeyId], env.codec.encode(index))
  {
    hide DecodeSignature, Signs;
    if index.signingKeyId in env.registry {
      SignedExactly(env.lib, signature, env.source.limits.maximumSignatureBytes, env.registry[index.signingKeyId], env.codec.encode(index));
    }
  }

  lemma SequencesFit(env: Env, items: seq<LocalBundle>, i: nat)
    requires AllGood(env, items) && i < |items|
    ensures SequenceOf(items[i]) <= MAX_SEQUENCE
  {
    assert Accepted(env.lib, env.registry, env.source, items[i]);
    AcceptedFacts(env.lib, env.registry, env.source, items[i]);
    hide Accepted, FileFacts;
  }

  /** Accepted bundles are published exactly if they can be, and this is what is written. */
  lemma PublishesExactly(env: Env, items: seq<LocalBundle>, keyId: string, publishedAt: int)
    requires Sound(env) && Retainable(env, items) && |items| > 0
    ensures
      var published := Publish(env, items, keyId, publishedAt);
      && (published.Ok? <==> CanPublish(env, items, IndexFor(env.lib, env.source, items, keyId, publishedAt), publishedAt))
      && (published.Ok? ==> Published(env, items, keyId, publishedAt, published.value))
  {
    var index := IndexFor(env.lib, env.source, items, keyId, publishedAt);
    var data := env.codec.encode(index);
    forall i | 0 <= i < |items| ensures SequenceOf(items[i]) <= MAX_SEQUENCE {
      SequencesFit(env, items, i);
    }
    IndexIs(env.lib, env.source, items, keyId, publishedAt);
    PublishSucceeds(env, items, keyId, publishedAt);
    KeyWorksExactly(env, index, env.codec.sign(data));
    hide Publish, IndexFor, EntrySays, SigningWorks, IndexKeyInForce, Signs, Sound, Retainable, TreeSays, TreeOf, ValidIndex, VerifyIndex;
    if Publish(env, items, keyId, publishedAt).Ok? {
      PublishedParts(env, items, keyId, publishedAt);
      TreeIs(env, items, keyId, publishedAt, data, env.codec.sign(data));
    }
  }

  /* ---------- The whole build ---------- */

  /** The operator asks for something the source allows. */
  predicate Allowed(env: Env, directories: seq<Files>, keyId: string, retainPrior: int) {
    && |directories| > 0 && 0 <= retainPrior <= 31 && retainPrior < env.source.limits.maximumMirrorCatalogs
    && env.source.mirrorKeys.Some? && keyId in env.source.mirrorKeys.value
  }

  /** The bundle directory is within the source's limits and accepted now. */
  predicate DirectoryLoads(env: Env, files: Files, now: int, item: LocalBundle) {
    && item.files == files
    && |files.manifest| <= env.source.limits.maximumManifestBytes && |files.signature| <= env.source.limits.maximumSignatureBytes
    && |files.payload| <= env.source.limits.maximumCompressedBytes
    && VerifyBundle(env.lib, env.registry, env.source, files, now) == Ok(item.bundle)
  }

  /** What the build works on: the catalogs of the existing mirror, if any, and those of the directories. */
  ghost predicate InputsLoad(
      env: Env, directories: seq<Files>, publishedAt: int, existing: Option<Tree>, prior: seq<LocalBundle>, added: seq<LocalBundle>)
  {
    && (if existing.Some? then LoadedMirror(env, existing.value, publishedAt) == Ok(prior) else prior == [])
    && |added| == |directories| && forall i :: 0 <= i < |added| ==> DirectoryLoads(env, directories[i], publishedAt, added[i])
  }

  /** Something added is above all that was there. */
  ghost predicate Advances(prior: seq<LocalBundle>, added: seq<LocalBundle>) {
    |prior| > 0 ==> exists i :: 0 <= i < |added| && forall j :: 0 <= j < |prior| ==> SequenceOf(prior[j]) < SequenceOf(added[i])
  }

  ghost predicate NothingClashes(items: seq<LocalBundle>) {
    forall i, j :: 0 <= i < j < |items| ==> SequenceOf(items[i]) != SequenceOf(items[j]) && VersionOf(items[i]) != VersionOf(items[j])
  }

  /** The `n` bundles of highest sequence, or all if there are fewer, in rising sequence. */
  ghost predicate AreNewest(retained: seq<LocalBundle>, items: seq<LocalBundle>, n: nat) {
    && |retained| == (if |items| < n then |items| else n)
    && (forall i, j :: 0 <= i < j < |retained| ==> SequenceOf(retained[i]) < SequenceOf(retained[j]))
    && (forall x :: x in retained ==> x in items)
    && forall x, y :: x in retained && y in items && y !in retained ==> SequenceOf(y) < SequenceOf(x)
  }

  lemma DirectoryLoadsExactly(env: Env, files: Files, now: int, item: LocalBundle)
    ensures LoadLocal(env, files, now) == Ok(item) <==> DirectoryLoads(env, files, now, item)
  {
    hide VerifyBundle;
  }

  lemma {:induction false} DirectoriesLoadExactly(env: Env, directories: seq<Files>, now: int, n: nat, items: seq<LocalBundle>)
    requires n <= |directories|
    ensures LoadLocals(env, directories, now, n) == Ok(items) <==>
              |items| == n && forall i :: 0 <= i < n ==> DirectoryLoads(env, directories[i], now, items[i])
  {
    hide LoadLocal, DirectoryLoads;
    if n > 0 && |items| == n {
      var front, last := items[..n - 1], items[n - 1];
      DirectoriesLoadExactly(env, directories, now, n - 1, front);
      DirectoryLoadsExactly(env, directories[n - 1], now, last);
      assert items == front + [last];
      var before := LoadLocals(env, directories, now, n - 1);
      if LoadLocals(env, directories, now, n) == Ok(items) {
        assert before.value == front;
      }
    }
  }

  lemma AdvancesExactly(prior: seq<LocalBundle>, added: seq<LocalBundle>)
    requires |added| > 0
    ensures Advances(prior, added) <==> !(|prior| > 0 && Highest(added) <= Highest(prior))
  {
    HighestIs(added);
    if |prior| > 0 {
      HighestIs(prior);
      assert forall j :: 0 <= j < |prior| ==> SequencesOf(prior)[j] == SequenceOf(prior[j]) && SequencesOf(prior)[j] in ToSet(SequencesOf(prior));
      assert forall i :: 0 <= i < |added| ==> SequencesOf(added)[i] == SequenceOf(added[i]) && SequencesOf(added)[i] in ToSet(SequencesOf(added));
      hide Highest;
      var k :| 0 <= k < |added| && SequencesOf(added)[k] == Highest(added);
      var m :| 0 <= m < |prior| && SequencesOf(prior)[m] == Highest(prior);
      assert SequenceOf(added[k]) == Highest(added) && SequenceOf(prior[m]) == Highest(prior);
    }
  }

  lemma ClashesExactly(items: seq<LocalBundle>)
    ensures MergeAll(items).Ok? <==> NothingClashes(items)
  {
    MergeAllIs(items);
    hide MergeAll, Holds;
    assert forall i :: 0 <= i < |items| ==> SequencesOf(items)[i] == SequenceOf(items[i]) && VersionsOf(items)[i] == VersionOf(items[i]);
  }

  lemma SequenceNamesItem(items: seq<LocalBundle>, x: LocalBundle, y: LocalBundle)
    requires NothingClashes(items) && x in items && y in items && SequenceOf(x) == SequenceOf(y)
    ensures x == y
  {
    var i :| 0 <= i < |items| && items[i] == x;
    var j :| 0 <= j < |items| && items[j] == y;
    assert i < j || j < i || i == j;
  }

  lemma InSequences(items: seq<LocalBundle>, x: LocalBundle)
    requires x in items
    ensures SequenceOf(x) in ToSet(SequencesOf(items))
  {
    var i :| 0 <= i < |items| && items[i] == x;
    assert SequencesOf(items)[i] == SequenceOf(x);
  }

  lemma TopSize(retained: seq<LocalBundle>, items: seq<LocalBundle>, n: nat)
    requires StrictlySorted(NatLess, SequencesOf(retained)) && NoDuplicates(SequencesOf(items))
    requires IsTop(ToSet(SequencesOf(retained)), ToSet(SequencesOf(items)), n)
    ensures |retained| == (if |items| < n then |items| else n)
  {
    var r, all := SequencesOf(retained), SequencesOf(items);
    assert NoDuplicates(r) by {
      forall i, j | 0 <= i < j < |r| ensures r[i] != r[j] {
        assert NatLess(r[i], r[j]);
      }
    }
    DistinctSize(r);
    DistinctSize(all);
    assert |ToSet(all) - ToSet(r)| == |ToSet(all)| - |ToSet(r)|;
  }

  lemma TopIsNewest(retained: seq<LocalBundle>, items: seq<LocalBundle>, n: nat)
    requires NothingClashes(items) && NoDuplicates(SequencesOf(items)) && StrictlySorted(NatLess, SequencesOf(retained))
    requires IsTop(ToSet(SequencesOf(retained)), ToSet(SequencesOf(items)), n) && forall x :: x in retained ==> x in items
    ensures AreNewest(retained, items, n)
  {
    TopSize(retained, items, n);
    forall i, j | 0 <= i < j < |retained| ensures SequenceOf(retained[i]) < SequenceOf(retained[j]) {
      assert NatLess(SequencesOf(retained)[i], SequencesOf(retained)[j]);
    }
    hide NothingClashes, NoDuplicates, StrictlySorted;
    forall x, y | x in retained && y in items && y !in retained ensures SequenceOf(y) < SequenceOf(x) {
      InSequences(retained, x);
      InSequences(items, y);
      if SequenceOf(y) in ToSet(SequencesOf(retained)) {
        var k :| 0 <= k < |retained| && SequencesOf(retained)[k] == SequenceOf(y);
        SequenceNamesItem(items, retained[k], y);
      } else {
        assert SequenceOf(y) in ToSet(SequencesOf(items)) - ToSet(SequencesOf(retained));
      }
    }
  }

  /** The bundles a build picks are the newest. */
  lemma PickedAreNewest(items: seq<LocalBundle>, retainPrior: nat)
    requires |items| > 0 && MergeAll(items).Ok?
    requires forall k :: k in KeptSequences(items, retainPrior) ==> k in MergeAll(items).value.bySequence
    ensures AreNewest(Retained(MergeAll(items).value, items, retainPrior), items, retainPrior + 1)
  {
    MergeAllIs(items);
    ClashesExactly(items);
    RetainedIs(items, retainPrior);
    KeptIsTop(items, retainPrior);
    hide MergeAll, Retained, Holds, KeptSequences, SequencesOf, VersionsOf, AreNewest, NothingClashes, StrictlySorted, NoDuplicates, IsTop;
    TopIsNewest(Retained(MergeAll(items).value, items, retainPrior), items, retainPrior + 1);
  }

  /** There is only one list of the newest. */
  lemma NewestIsUnique(items: seq<LocalBundle>, a: seq<LocalBundle>, b: seq<LocalBundle>, n: nat)
    requires AreNewest(a, items, n) && AreNewest(b, items, n) && NothingClashes(items)
    ensures a == b
  {
    NewestAreIn(items, a, b, n);
    NewestAreIn(items, b, a, n);
    SequencesSorted(a);
    SequencesSorted(b);
    forall x | x in ToSet(SequencesOf(a)) ensures x in ToSet(SequencesOf(b)) {
      var i :| 0 <= i < |a| && SequencesOf(a)[i] == x;
      InSequences(b, a[i]);
    }
    forall x | x in ToSet(SequencesOf(b)) ensures x in ToSet(SequencesOf(a)) {
      var i :| 0 <= i < |b| && SequencesOf(b)[i] == x;
      InSequences(a, b[i]);
    }
    SortedIsUnique(NatLess, SequencesOf(a), SequencesOf(b));
    forall i | 0 <= i < |a| ensures a[i] == b[i] {
      assert SequencesOf(a)[i] == SequencesOf(b)[i];
      SequenceNamesItem(items, a[i], b[i]);
    }
  }

  lemma SequencesSorted(a: seq<LocalBundle>)
    requires forall i, j :: 0 <= i < j < |a| ==> SequenceOf(a[i]) < SequenceOf(a[j])
    ensures StrictlySorted(NatLess, SequencesOf(a)) && NoDuplicates(a) && StrictTotalOrder(NatLess)
  {
  }

  lemma NewestAreIn(items: seq<LocalBundle>, a: seq<LocalBundle>, b: seq<LocalBundle>, n: nat)
    requires AreNewest(a, items, n) && AreNewest(b, items, n)
    ensures forall x :: x in a ==> x in b
  {
    forall x | x in a ensures x in b {
      if x !in b {
        SequencesSorted(a);
        SequencesSorted(b);
        assert forall y :: y in b ==> SequenceOf(x) < SequenceOf(y);
        assert forall y :: y in b ==> y in a;
        DistinctSize(a);
        DistinctSize(b);
        assert ToSet(b) <= ToSet(a) - {x};
        assert |ToSet(a) - {x}| == |ToSet(a)| - 1;
        SubsetSize(ToSet(b), ToSet(a) - {x});
      }
    }
  }

  lemma SubsetSize<T>(a: set<T>, b: set<T>)
    requires a <= b
    ensures |a| <= |b|
  {
    assert |b - a| == |b| - |a|;
  }

  /** These are the newest, and they can be published. */
  ghost predicate Chosen(env: Env, items: seq<LocalBundle>, retained: seq<LocalBundle>, keyId: string, publishedAt: int, retainPrior: nat) {
    && |retained| > 0 && AreNewest(retained, items, retainPrior + 1)
    && CanPublish(env, retained, IndexFor(env.lib, env.source, retained, keyId, publishedAt), publishedAt)
  }

  ghost predicate Choosable(env: Env, items: seq<LocalBundle>, keyId: string, publishedAt: int, retainPrior: nat) {
    exists retained :: Chosen(env, items, retained, keyId, publishedAt, retainPrior)
  }

  /** From the merged bundles to the written tree. */
  lemma PickedPublishes(env: Env, items: seq<LocalBundle>, keyId: string, publishedAt: int, retainPrior: nat)
    requires Sound(env) && |items| > 0 && AllGood(env, items) && MergeAll(items).Ok?
    requires retainPrior <= 31 && retainPrior < env.source.limits.maximumMirrorCatalogs
    requires |KeptSequences(items, retainPrior)| > 0
    requires forall k :: k in KeptSequences(items, retainPrior) ==> k in MergeAll(items).value.bySequence
    ensures
      var published := Publish(env, Retained(MergeAll(items).value, items, retainPrior), keyId, publishedAt);
      && (published.Ok? <==> Choosable(env, items, keyId, publishedAt, retainPrior))
      && (published.Ok? ==>
            && AreNewest(published.value.retained, items, retainPrior + 1)
            && Published(env, published.value.retained, keyId, publishedAt, published.value))
  {
    ClashesExactly(items);
    var picked := Retained(MergeAll(items).value, items, retainPrior);
    RetainedIsRetainable(env, items, retainPrior);
    hide MergeAll, Publish, CanPublish, AreNewest, IndexFor, NothingClashes, Retained, Retainable, Sound, KeptSequences, AllGood, EntrySays,
      IndexSays, TreeSays, StrictlySorted, IsTop, SequencesOf;
    RetainableIsNonempty(env, picked);
    PickedAreNewest(items, retainPrior);
    PublishesExactly(env, picked, keyId, publishedAt);
    if Publish(env, picked, keyId, publishedAt).Ok? {
      assert Chosen(env, items, picked, keyId, publishedAt, retainPrior);
    }
    forall other | Chosen(env, items, other, keyId, publishedAt, retainPrior) ensures other == picked {
      NewestIsUnique(items, other, picked, retainPrior + 1);
    }
  }

  lemma BuildsFromExactly(env: Env, prior: seq<LocalBundle>, added: seq<LocalBundle>, keyId: string, publishedAt: int, retainPrior: nat)
    requires Sound(env) && |added| > 0 && AllGood(env, prior) && AllGood(env, added)
    requires retainPrior <= 31 && retainPrior < env.source.limits.maximumMirrorCatalogs
    ensures
      var result := BuildFrom(env, prior, added, keyId, publishedAt, retainPrior);
      && (result.Ok? <==> Advances(prior, added) && NothingClashes(prior + added) && Choosable(env, prior + added, keyId, publishedAt, retainPrior))
      && (result.Ok? ==> AreNewest(result.value.retained, prior + added, retainPrior + 1)
                         && Published(env, result.value.retained, keyId, publishedAt, result.value))
  {
    AllGoodTogether(env, prior, added);
    hide MergeAll, Highest, Publish, Published, AreNewest, Advances, NothingClashes, Retained, Sound, KeptSequences, AllAccepted, Choosable;
    var items := prior + added;
    AdvancesExactly(prior, added);
    ClashesExactly(items);
    if MergeAll(items).Ok? {
      MergedKept(items, retainPrior);
      PickedPublishes(env, items, keyId, publishedAt, retainPrior);
    }
  }

  lemma AllGoodTogether(env: Env, a: seq<LocalBundle>, b: seq<LocalBundle>)
    requires AllGood(env, a) && AllGood(env, b)
    ensures AllGood(env, a + b)
  {
    hide Accepted;
  }

  /** The inputs a build works on are the two loads. */
  lemma InputsExactly(
      env: Env, directories: seq<Files>, publishedAt: int, existing: Option<Tree>, prior: seq<LocalBundle>, added: seq<LocalBundle>)
    ensures InputsLoad(env, directories, publishedAt, existing, prior, added) <==>
      && PriorOf(env, publishedAt, existing) == Ok(prior)
      && LoadLocals(env, directories, publishedAt, |directories|) == Ok(added)
  {
    DirectoriesLoadExactly(env, directories, publishedAt, |directories|, added);
    hide LoadedMirror, LoadLocals, DirectoryLoads;
  }

  ghost predicate BuildWorks(
      env: Env, directories: seq<Files>, keyId: string, publishedAt: int, retainPrior: int, existing: Option<Tree>,
      prior: seq<LocalBundle>, added: seq<LocalBundle>, retained: seq<LocalBundle>)
  {
    && Allowed(env, directories, keyId, retainPrior)
    && InputsLoad(env, directories, publishedAt, existing, prior, added)
    && Advances(prior, added) && NothingClashes(prior + added)
    && Chosen(env, prior + added, retained, keyId, publishedAt, retainPrior)
  }

  ghost predicate Buildable(env: Env, directories: seq<Files>, keyId: string, publishedAt: int, retainPrior: int, existing: Option<Tree>) {
    exists prior, added, retained :: BuildWorks(env, directories, keyId, publishedAt, retainPrior, existing, prior, added, retained)
  }

  ghost predicate BuiltAs(
      env: Env, directories: seq<Files>, keyId: string, publishedAt: int, retainPrior: int, existing: Option<Tree>, built: Built)
  {
    && Published(env, built.retained, keyId, publishedAt, built)
    && exists prior, added :: BuildWorks(env, directories, keyId, publishedAt, retainPrior, existing, prior, added, built.retained)
  }

  function PriorOf(env: Env, publishedAt: int, existing: Option<Tree>): Result<seq<LocalBundle>, MirrorError> {
    if existing.Some? then LoadedMirror(env, existing.value, publishedAt) else Ok([])
  }

  lemma BuildUnfolds(env: Env, directories: seq<Files>, keyId: string, publishedAt: int, retainPrior: int, existing: Option<Tree>)
    ensures
      var result := Build(env, directories, keyId, publishedAt, retainPrior, existing);
      var prior, added := PriorOf(env, publishedAt, existing), LoadLocals(env, directories, publishedAt, |directories|);
      && (result.Ok? ==> Allowed(env, directories, keyId, retainPrior) && prior.Ok? && added.Ok?)
      && (Allowed(env, directories, keyId, retainPrior) && prior.Ok? && added.Ok? ==>
            |added.value| > 0 && result == BuildFrom(env, prior.value, added.value, keyId, publishedAt, retainPrior))
  {
    hide LoadedMirror, LoadLocals, BuildFrom;
  }

  lemma InputsAreGood(env: Env, directories: seq<Files>, publishedAt: int, existing: Option<Tree>)
    ensures
      var prior, added := PriorOf(env, publishedAt, existing), LoadLocals(env, directories, publishedAt, |directories|);
      (prior.Ok? ==> AllGood(env, prior.value)) && (added.Ok? ==> AllGood(env, added.value))
  {
    hide LoadedMirror, LoadLocals, AllAccepted;
    NothingIsGood(env);
    if existing.Some? && LoadedMirror(env, existing.value, publishedAt).Ok? {
      PriorIsGood(env, existing.value, publishedAt);
    }
    if LoadLocals(env, directories, publishedAt, |directories|).Ok? {
      LocalsAreAccepted(env, directories, publishedAt, |directories|);
    }
  }

  /** A build succeeds exactly when what is asked is allowed, everything loads, something added is newer than all that was
      there, no two bundles share a sequence or a version, and the newest of them can be published; and then it writes
      just these: their index, its signature and their files, and nothing else. */
  lemma BuildsExactly(env: Env, directories: seq<Files>, keyId: string, publishedAt: int, retainPrior: int, existing: Option<Tree>)
    requires Sound(env)
    ensures
      var result := Build(env, directories, keyId, publishedAt, retainPrior, existing);
      && (result.Ok? <==> Buildable(env, directories, keyId, publishedAt, retainPrior, existing))
      && (result.Ok? ==> BuiltAs(env, directories, keyId, publishedAt, retainPrior, existing, result.value))
  {
    hide Build, PriorOf, LoadLocals, BuildFrom, InputsLoad, Advances, NothingClashes, Published, Sound, AllAccepted, Allowed, Choosable, Chosen;
    var result := Build(env, directories, keyId, publishedAt, retainPrior, existing);
    var loaded, inputs := PriorOf(env, publishedAt, existing), LoadLocals(env, directories, publishedAt, |directories|);
    BuildUnfolds(env, directories, keyId, publishedAt, retainPrior, existing);
    InputsAreGood(env, directories, publishedAt, existing);
    forall prior, added ensures InputsLoad(env, directories, publishedAt, existing, prior, added) <==> loaded == Ok(prior) && inputs == Ok(added) {
      InputsExactly(env, directories, publishedAt, existing, prior, added);
    }
    if Allowed(env, directories, keyId, retainPrior) && loaded.Ok? && inputs.Ok? {
      AllowedRetention(env, directories, keyId, retainPrior);
      var prior, added := loaded.value, inputs.value;
      BuildsFromExactly(env, prior, added, keyId, publishedAt, retainPrior);
      forall retained | Chosen(env, prior + added, retained, keyId, publishedAt, retainPrior)
        ensures Choosable(env, prior + added, keyId, publishedAt, retainPrior)
      {
        ChosenIsChoosable(env, prior + added, retained, keyId, publishedAt, retainPrior);
      }
      if result.Ok? {
        ChosenByIndex(env, prior + added, result.value.retained, keyId, publishedAt, retainPrior);
        assert BuildWorks(env, directories, keyId, publishedAt, retainPrior, existing, prior, added, result.value.retained);
      }
    }
  }

  lemma AllowedRetention(env: Env, directories: seq<Files>, keyId: string, retainPrior: int)
    requires Allowed(env, directories, keyId, retainPrior)
    ensures 0 <= retainPrior <= 31 && retainPrior < env.source.limits.maximumMirrorCatalogs
  {
  }

  lemma ChosenIsChoosable(env: Env, items: seq<LocalBundle>, retained: seq<LocalBundle>, keyId: string, publishedAt: int, retainPrior: nat)
    requires Chosen(env, items, retained, keyId, publishedAt, retainPrior)
    ensures Choosable(env, items, keyId, publishedAt, retainPrior)
  {
    hide Chosen;
  }

  lemma ChosenByIndex(env: Env, items: seq<LocalBundle>, retained: seq<LocalBundle>, keyId: string, publishedAt: int, retainPrior: nat)
    requires AreNewest(retained, items, retainPrior + 1) && NothingClashes(items)
    requires Choosable(env, items, keyId, publishedAt, retainPrior)
    ensures Chosen(env, items, retained, keyId, publishedAt, retainPrior)
  {
    hide CanPublish, AreNewest, NothingClashes, IndexFor;
    var other :| Chosen(env, items, other, keyId, publishedAt, retainPrior);
    NewestIsUnique(items, other, retained, retainPrior + 1);
  }

  /* ---------- Refusals of a build ---------- */

  /** What a refusal of the operator's request claims. */
  predicate RequestFault(env: Env, directories: seq<Files>, keyId: string, retainPrior: int, error: MirrorError) {
    if error.InputEmpty? then directories == []
    else if error.RetentionInvalid? then !(0 <= retainPrior <= 31)
    else if error.RetentionTooLarge? then env.source.limits.maximumMirrorCatalogs <= retainPrior
    else if error.SourceModeInvalid? then env.source.mirrorKeys.None?
    else error.IndexKeySubstitution? && env.source.mirrorKeys.Some? && keyId !in env.source.mirrorKeys.value
  }

  function RequestRank(error: MirrorError): nat {
    if error.InputEmpty? then 0 else if error.RetentionInvalid? then 1 else if error.RetentionTooLarge? then 2
    else if error.SourceModeInvalid? then 3 else 4
  }

  ghost predicate FirstRequestFault(env: Env, directories: seq<Files>, keyId: string, retainPrior: int, error: MirrorError) {
    && RequestFault(env, directories, keyId, retainPrior, error)
    && forall earlier :: RequestRank(earlier) < RequestRank(error) ==> !RequestFault(env, directories, keyId, retainPrior, earlier)
  }

  /** The refusal of a bundle directory. */
  predicate DirectoryRefusal(env: Env, files: Files, now: int, error: MirrorError) {
    var limits := env.source.limits;
    if |files.manifest| > limits.maximumManifestBytes || |files.signature| > limits.maximumSignatureBytes || |files.payload| > limits.maximumCompressedBytes
    then error.ArtifactTooLarge?
    else error.BundleRejected? && VerifyBundle(env.lib, env.registry, env.source, files, now) == Err(error.error)
  }

  ghost predicate DirectoryWorks(env: Env, files: Files, now: int) {
    exists item :: DirectoryLoads(env, files, now, item)
  }

  /** The directory at `i` is refused, and all before it load. */
  ghost predicate FirstDirectoryRefusal(env: Env, directories: seq<Files>, now: int, i: int, error: MirrorError) {
    0 <= i < |directories| && DirectoryRefusal(env, directories[i], now, error) && forall j :: 0 <= j < i ==> DirectoryWorks(env, directories[j], now)
  }

  lemma DirectoryReports(env: Env, files: Files, now: int)
    ensures
      var loaded := LoadLocal(env, files, now);
      if loaded.Err? then DirectoryRefusal(env, files, now, loaded.error) else DirectoryLoads(env, files, now, loaded.value)
  {
    hide VerifyBundle;
  }

  lemma {:induction false} DirectoriesReportFirst(env: Env, directories: seq<Files>, now: int, n: nat)
    requires n <= |directories|
    ensures
      var loaded := LoadLocals(env, directories, now, n);
      if loaded.Err? then exists i :: i < n && FirstDirectoryRefusal(env, directories, now, i, loaded.error)
      else forall j :: 0 <= j < n ==> DirectoryWorks(env, directories[j], now)
  {
    hide LoadLocal, DirectoryRefusal, DirectoryLoads;
    if n > 0 {
      DirectoriesReportFirst(env, directories, now, n - 1);
      DirectoryReports(env, directories[n - 1], now);
      var last := LoadLocal(env, directories[n - 1], now);
      if LoadLocals(env, directories, now, n - 1).Ok? && last.Err? {
        assert FirstDirectoryRefusal(env, directories, now, n - 1, last.error);
      }
    }
  }

  /** The refusal of a bundle that clashes with some before it: by sequence, told apart by the manifests, and only then by
      version. */
  ghost predicate ClashRefusal(front: seq<LocalBundle>, last: LocalBundle, error: MirrorError) {
    if exists i :: 0 <= i < |front| && SequenceOf(front[i]) == SequenceOf(last) then
      exists i :: 0 <= i < |front| && SequenceOf(front[i]) == SequenceOf(last)
        && if front[i].bundle.manifestDigest == last.bundle.manifestDigest then error.BundleDuplicate? else error.SequenceConflict?
    else error.VersionConflict? && exists i :: 0 <= i < |front| && VersionOf(front[i]) == VersionOf(last)
  }

  /** The first bundle that clashes with one before it. */
  ghost predicate FirstClash(items: seq<LocalBundle>, j: int, error: MirrorError) {
    0 <= j < |items| && NothingClashes(items[..j]) && ClashRefusal(items[..j], items[j], error)
  }

  lemma HeldAt(m: Merged, items: seq<LocalBundle>, k: nat)
    requires Holds(m, items)
    ensures k in m.bySequence <==> exists i :: 0 <= i < |items| && SequenceOf(items[i]) == k
    ensures k in m.bySequence ==> exists i :: 0 <= i < |items| && items[i] == m.bySequence[k] && SequenceOf(items[i]) == k
  {
    hide VersionsOf;
    assert forall i :: 0 <= i < |items| ==> SequencesOf(items)[i] == SequenceOf(items[i]) && SequencesOf(items)[i] in ToSet(SequencesOf(items));
    if k in m.bySequence {
      assert k in ToSet(SequencesOf(items));
      var i :| 0 <= i < |items| && SequencesOf(items)[i] == k;
      assert items[i] == m.bySequence[k];
    }
  }

  lemma VersionAt(m: Merged, items: seq<LocalBundle>, v: string)
    requires Holds(m, items) && v in m.byVersion
    ensures exists i :: 0 <= i < |items| && VersionOf(items[i]) == v && SequenceOf(items[i]) == m.byVersion[v]
  {
    assert v in ToSet(VersionsOf(items));
    var i :| 0 <= i < |items| && VersionsOf(items)[i] == v;
    assert SequencesOf(items)[i] == m.byVersion[v];
  }

  lemma StepReports(m: Merged, front: seq<LocalBundle>, last: LocalBundle)
    requires Holds(m, front) && MergeStep(m, last).Err?
    ensures ClashRefusal(front, last, MergeStep(m, last).error)
  {
    HeldAt(m, front, SequenceOf(last));
    if SequenceOf(last) !in m.bySequence {
      VersionAt(m, front, VersionOf(last));
    }
    hide Holds;
  }

  lemma ClashStays(front: seq<LocalBundle>, last: LocalBundle, j: int, error: MirrorError)
    requires FirstClash(front, j, error)
    ensures FirstClash(front + [last], j, error)
  {
    hide ClashRefusal, NothingClashes;
    assert (front + [last])[..j] == front[..j];
  }

  /** A refused merge is refused with the first clash. */
  lemma {:induction false} MergeReportsFirst(items: seq<LocalBundle>)
    ensures MergeAll(items).Err? ==> exists j :: FirstClash(items, j, MergeAll(items).error)
  {
    if |items| > 0 {
      var front, last := items[..|items| - 1], items[|items| - 1];
      MergeReportsFirst(front);
      MergeAllIs(front);
      ClashesExactly(front);
      hide Holds, ClashRefusal, MergeStep, NothingClashes, Distinct, FirstClash;
      assert items == front + [last];
      if MergeAll(front).Err? {
        var j :| FirstClash(front, j, MergeAll(front).error);
        ClashStays(front, last, j, MergeAll(front).error);
      } else if MergeAll(items).Err? {
        StepReports(MergeAll(front).value, front, last);
        LastClash(front, last, MergeAll(items).error);
      }
    }
  }

  lemma LastClash(front: seq<LocalBundle>, last: LocalBundle, error: MirrorError)
    requires NothingClashes(front) && ClashRefusal(front, last, error)
    ensures FirstClash(front + [last], |front|, error)
  {
    hide ClashRefusal, NothingClashes;
    assert (front + [last])[..|front|] == front;
  }

  /** The refusal to publish: the expiry, the validators, the size, and then what verification of the index says. */
  ghost predicate PublicationRefusal(env: Env, items: seq<LocalBundle>, keyId: string, publishedAt: int, error: MirrorError)
    requires |items| > 0
  {
    var index := IndexFor(env.lib, env.source, items, keyId, publishedAt);
    var data := env.codec.encode(index);
    if items[|items| - 1].bundle.manifest.expiresAt <= publishedAt then error.LatestExpired?
    else if !SoundIndex(index) then error.IndexSchemaInvalid?
    else if env.source.limits.maximumIndexBytes < |data| then error.IndexSizeInvalid?
    else IndexRefusal(env.lib, env.codec, env.registry, env.source, data, env.codec.sign(data), publishedAt, error)
  }

  lemma PublicationReportsFirst(env: Env, items: seq<LocalBundle>, keyId: string, publishedAt: int)
    requires |items| > 0
    ensures
      var published := Publish(env, items, keyId, publishedAt);
      published.Err? ==> PublicationRefusal(env, items, keyId, publishedAt, published.error)
  {
    var index := IndexFor(env.lib, env.source, items, keyId, publishedAt);
    var data := env.codec.encode(index);
    IndexExactly(index);
    IndexReportsFirst(env.lib, env.codec, env.registry, env.source, data, env.codec.sign(data), publishedAt);
    hide IndexFor, ValidIndex, SoundIndex, VerifyIndex, IndexRefusal, TreeOf;
  }

  /** The newest of the bundles cannot be published. */
  ghost predicate NewestRefusal(env: Env, items: seq<LocalBundle>, keyId: string, publishedAt: int, retainPrior: nat, error: MirrorError) {
    exists retained ::
      |retained| > 0 && AreNewest(retained, items, retainPrior + 1) && PublicationRefusal(env, retained, keyId, publishedAt, error)
  }

  /** The refusal of what was loaded: nothing is newer, or two bundles clash, or the newest cannot be published. */
  ghost predicate LoadedRefusal(
      env: Env, prior: seq<LocalBundle>, added: seq<LocalBundle>, keyId: string, publishedAt: int, retainPrior: nat, error: MirrorError)
  {
    if !Advances(prior, added) then error.CatalogNotAdvanced?
    else if !NothingClashes(prior + added) then exists j :: FirstClash(prior + added, j, error)
    else NewestRefusal(env, prior + added, keyId, publishedAt, retainPrior, error)
  }

  lemma LoadedReportsFirst(env: Env, prior: seq<LocalBundle>, added: seq<LocalBundle>, keyId: string, publishedAt: int, retainPrior: nat)
    requires |added| > 0
    ensures
      var result := BuildFrom(env, prior, added, keyId, publishedAt, retainPrior);
      result.Err? ==> LoadedRefusal(env, prior, added, keyId, publishedAt, retainPrior, result.error)
  {
    var items := prior + added;
    AdvancesExactly(prior, added);
    ClashesExactly(items);
    MergeReportsFirst(items);
    hide MergeAll, Highest, Publish, PublicationRefusal, AreNewest, Advances, NothingClashes, FirstClash, Retained, KeptSequences;
    if MergeAll(items).Ok? {
      MergedKept(items, retainPrior);
      PickedAreNewest(items, retainPrior);
      PublicationReportsFirst(env, Retained(MergeAll(items).value, items, retainPrior), keyId, publishedAt);
      RetainedSize(items, retainPrior);
    }
  }

  lemma RetainedSize(items: seq<LocalBundle>, retainPrior: nat)
    requires MergeAll(items).Ok? && forall k :: k in KeptSequences(items, retainPrior) ==> k in MergeAll(items).value.bySequence
    ensures |Retained(MergeAll(items).value, items, retainPrior)| == |KeptSequences(items, retainPrior)|
  {
  }

  /** The refusal of a build: what is wrong with the request, else with the existing mirror, else with the first directory
      that does not load, else with all of them together. */
  ghost predicate BuildRefusal(
      env: Env, directories: seq<Files>, keyId: string, publishedAt: int, retainPrior: int, existing: Option<Tree>, error: MirrorError)
  {
    if !Allowed(env, directories, keyId, retainPrior) then FirstRequestFault(env, directories, keyId, retainPrior, error)
    else if existing.Some? && LoadedMirror(env, existing.value, publishedAt).Err? then MirrorRefusal(env, existing.value, publishedAt, error)
    else
      || (exists i :: FirstDirectoryRefusal(env, directories, publishedAt, i, error))
      || InputsRefusal(env, directories, keyId, publishedAt, retainPrior, existing, error)
  }

  ghost predicate InputsRefusal(
      env: Env, directories: seq<Files>, keyId: string, publishedAt: int, retainPrior: nat, existing: Option<Tree>, error: MirrorError)
  {
    exists prior, added ::
      && InputsLoad(env, directories, publishedAt, existing, prior, added)
      && LoadedRefusal(env, prior, added, keyId, publishedAt, retainPrior, error)
  }

  lemma InputsReportFirst(env: Env, directories: seq<Files>, keyId: string, publishedAt: int, retainPrior: nat, existing: Option<Tree>)
    ensures
      var prior, added := PriorOf(env, publishedAt, existing), LoadLocals(env, directories, publishedAt, |directories|);
      prior.Ok? && added.Ok? && |added.value| > 0 ==>
        var result := BuildFrom(env, prior.value, added.value, keyId, publishedAt, retainPrior);
        result.Err? ==> InputsRefusal(env, directories, keyId, publishedAt, retainPrior, existing, result.error)
  {
    var prior, added := PriorOf(env, publishedAt, existing), LoadLocals(env, directories, publishedAt, |directories|);
    hide PriorOf, LoadLocals, BuildFrom, LoadedRefusal, InputsLoad;
    if prior.Ok? && added.Ok? && |added.value| > 0 {
      InputsExactly(env, directories, publishedAt, existing, prior.value, added.value);
      LoadedReportsFirst(env, prior.value, added.value, keyId, publishedAt, retainPrior);
    }
  }

  /** Where a refusal comes from. */
  lemma RefusalOrigin(env: Env, directories: seq<Files>, keyId: string, publishedAt: int, retainPrior: int, existing: Option<Tree>)
    ensures
      var result := Build(env, directories, keyId, publishedAt, retainPrior, existing);
      var prior, added := PriorOf(env, publishedAt, existing), LoadLocals(env, directories, publishedAt, |directories|);
      result.Err? ==>
        if !Allowed(env, directories, keyId, retainPrior) then FirstRequestFault(env, directories, keyId, retainPrior, result.error)
        else if prior.Err? then existing.Some? && prior.error == result.error
        else if added.Err? then added.error == result.error
        else |added.value| > 0 && BuildFrom(env, prior.value, added.value, keyId, publishedAt, retainPrior) == Err(result.error)
  {
    hide LoadedMirror, LoadLocals, BuildFrom;
  }

  /** A refused build is refused with the first thing that is wrong. */
  lemma BuildReportsFirst(env: Env, directories: seq<Files>, keyId: string, publishedAt: int, retainPrior: int, existing: Option<Tree>)
    ensures
      var result := Build(env, directories, keyId, publishedAt, retainPrior, existing);
      result.Err? ==> BuildRefusal(env, directories, keyId, publishedAt, retainPrior, existing, result.error)
  {
    RefusalOrigin(env, directories, keyId, publishedAt, retainPrior, existing);
    DirectoriesReportFirst(env, directories, publishedAt, |directories|);
    hide Build, LoadedMirror, LoadLocals, BuildFrom, FirstRequestFault, MirrorRefusal, FirstDirectoryRefusal, InputsRefusal;
    if existing.Some? {
      MirrorReportsFirst(env, existing.value, publishedAt);
    }
    if Allowed(env, directories, keyId, retainPrior) {
      AllowedRetention(env, directories, keyId, retainPrior);
      InputsReportFirst(env, directories, keyId, publishedAt, retainPrior, existing);
    }
  }
}
