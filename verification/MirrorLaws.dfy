/** What it means that a mirror path, entry, index or tree is accepted, in terms of its text, its fields and the bytes
    in the tree; and that a refusal names the first thing that is wrong. */
module MirrorLaws {
  import opened Prelude
  import opened Ordering
  import opened BundlePolicy
  import opened MirrorPaths
  import opened MirrorIndex
  import opened MirrorBuild
  import opened MirrorTheorems
  import opened MirrorRetention
  import opened AcceptanceLaws

  /* ---------- Paths ---------- */

  /** The piece from `i` up to `j` lies between slashes, or the ends. */
  predicate IsPiece(s: string, i: int, j: int) {
    && 0 <= i <= j <= |s| && (i == 0 || s[i - 1] == '/') && (j == |s| || s[j] == '/') && '/' !in s[i..j]
  }

  /** The pieces after the first slash are those of the rest. */
  lemma ShiftedPiece(s: string, k: nat, i: int, j: int)
    requires k < |s| && s[k] == '/' && 0 <= i <= j <= |s| - k - 1
    ensures IsPiece(s[k + 1..], i, j) <==> IsPiece(s, k + 1 + i, k + 1 + j)
    ensures s[k + 1..][i..j] == s[k + 1 + i..k + 1 + j]
  {
    var rest := s[k + 1..];
    assert i > 0 ==> rest[i - 1] == s[k + i];
    assert j < |rest| ==> rest[j] == s[k + 1 + j];
    assert rest[i..j] == s[k + 1 + i..k + 1 + j];
  }

  lemma WholePiece(s: string, i: int, j: int)
    requires IsPiece(s, i, j) && '/' !in s
    ensures i == 0 && j == |s| && s[i..j] == s
  {
    assert forall x :: 0 <= x < |s| ==> s[x] in s;
  }

  /** A piece is the first one, or starts after the first slash. */
  lemma LaterPiece(s: string, i: int, j: int, k: nat)
    requires IsPiece(s, i, j) && k < |s| && s[k] == '/' && '/' !in s[..k]
    ensures if i == 0 then j == k else i > k
  {
    assert forall x :: 0 <= x < k ==> s[..k][x] == s[x] && s[x] in s[..k];
    assert forall x :: i <= x < j ==> s[i..j][x - i] == s[x];
    assert forall x :: i <= x < j ==> s[x] != '/';
  }

  ghost predicate SomePiece(s: string, segment: string) {
    exists i, j :: IsPiece(s, i, j) && segment == s[i..j]
  }

  lemma OnlyPiece(s: string, segment: string)
    requires '/' !in s
    ensures SomePiece(s, segment) <==> segment == s
  {
    assert IsPiece(s, 0, |s|) && s[0..|s|] == s;
    if SomePiece(s, segment) {
      var i, j :| IsPiece(s, i, j) && segment == s[i..j];
      WholePiece(s, i, j);
    }
  }

  /** The segments of a text are exactly its pieces between slashes. */
  lemma {:induction false} SegmentsArePieces(s: string, segment: string)
    ensures segment in Segments(s) <==> SomePiece(s, segment)
  {
    hide IsPiece, SomePiece;
    var k := FirstSlash(s);
    FirstPiece(s);
    if k == |s| {
      assert s[..|s|] == s;
      OnlyPiece(s, segment);
    } else {
      SegmentsArePieces(s[k + 1..], segment);
      PiecesSplit(s, k, segment);
    }
  }

  lemma FirstPiece(s: string)
    ensures IsPiece(s, 0, FirstSlash(s)) && s[0..FirstSlash(s)] == s[..FirstSlash(s)]
  {
  }

  lemma PiecesSplit(s: string, k: nat, segment: string)
    requires k < |s| && s[k] == '/' && '/' !in s[..k] && IsPiece(s, 0, k)
    ensures SomePiece(s, segment) <==> segment == s[..k] || SomePiece(s[k + 1..], segment)
  {
    var rest := s[k + 1..];
    if SomePiece(rest, segment) {
      var i, j :| IsPiece(rest, i, j) && segment == rest[i..j];
      ShiftedPiece(s, k, i, j);
    }
    if SomePiece(s, segment) {
      var i, j :| IsPiece(s, i, j) && segment == s[i..j];
      LaterPiece(s, i, j, k);
      if i > 0 {
        ShiftedPiece(s, k, i - k - 1, j - k - 1);
      }
    }
    assert s[0..k] == s[..k];
  }

  /** The characters of a mirror path: printable ASCII other than blank, backslash, percent, question mark and hash. */
  predicate PathCharacter(c: char) {
    '!' <= c <= '~' && c != '\\' && c != '%' && c != '?' && c != '#'
  }

  /** A mirror path has 1 to 500 such characters, and every piece between its slashes is nonempty and no dot segment. */
  lemma RelativePathExactly(s: string)
    ensures ValidRelativePath(s) <==>
      && 1 <= |s| <= 500 && (forall i :: 0 <= i < |s| ==> PathCharacter(s[i]))
      && forall i, j :: IsPiece(s, i, j) ==> s[i..j] != "" && s[i..j] != "." && s[i..j] != ".."
  {
    forall i, j | IsPiece(s, i, j) ensures s[i..j] in Segments(s) {
      SegmentsArePieces(s, s[i..j]);
    }
    forall segment | segment in Segments(s) ensures exists i, j :: IsPiece(s, i, j) && segment == s[i..j] {
      SegmentsArePieces(s, segment);
    }
    hide Segments;
    forall x | EmptyAt(s, x) ensures IsPiece(s, x, x) && s[x..x] == "" {
    }
    assert |s| > 0 ==> (EmptyAt(s, 0) <==> s[0] == '/') && (EmptyAt(s, |s|) <==> s[|s| - 1] == '/');
    assert forall i :: 0 <= i < |s| - 1 && s[i] == '/' && s[i + 1] == '/' ==> EmptyAt(s, i + 1);
    assert forall i :: 0 <= i < |s| ==> s[i] in s;
    NoEmptyPieces(s);
  }

  /** An empty piece at `x`. */
  predicate EmptyAt(s: string, x: int) {
    0 <= x <= |s| && (x == 0 || s[x - 1] == '/') && (x == |s| || s[x] == '/')
  }

  lemma NoEmptyPieces(s: string)
    ensures |s| > 0 && s[0] != '/' && s[|s| - 1] != '/' && !HasDoubleSlash(s) ==> forall i, j :: IsPiece(s, i, j) ==> s[i..j] != ""
  {
    if |s| > 0 && s[0] != '/' && s[|s| - 1] != '/' && !HasDoubleSlash(s) {
      forall i, j | IsPiece(s, i, j) ensures i < j {
        assert i == j ==> EmptyAt(s, i);
      }
    }
  }

  /** Parent and name are what the last slash separates. */
  lemma SplitsExactly(s: string, parent: string, name: string)
    ensures '/' in s && Parent(s) == parent && Name(s) == name <==> s == parent + "/" + name && '/' !in name
  {
    ParentAndName(s);
    if s == parent + "/" + name && '/' !in name {
      assert s[|parent|] == '/';
      NameAppend(parent, name);
    }
  }

  /* ---------- Entries and indices ---------- */

  predicate HexDigest(digest: string) {
    |digest| == 64 && forall i :: 0 <= i < 64 ==> '0' <= digest[i] <= '9' || 'a' <= digest[i] <= 'f'
  }

  /** The artifacts of an entry lie in one directory below `catalogs/`, under two fixed names and a third one. */
  ghost predicate OneDirectory(e: Entry) {
    exists directory: string, name: string ::
      && "catalogs/" <= directory && '/' !in name && name != "manifest.json" && name != "manifest.ed25519"
      && e.manifestPath == directory + "/" + "manifest.json" && e.signaturePath == directory + "/" + "manifest.ed25519"
      && e.payloadPath == directory + "/" + name
  }

  ghost predicate SoundEntry(e: Entry) {
    && 1 <= e.catalogSequence <= 9_223_372_036_854_775_807 && e.createdAt < e.expiresAt
    && HexDigest(e.manifestDigest) && HexDigest(e.signatureDigest) && HexDigest(e.payloadDigest)
    && 1 <= e.manifestBytes <= 65_536 && 1 <= e.signatureBytes <= 4_096 && 1 <= e.payloadBytes <= 8_388_608
    && 1 <= e.minimumCatalogVersion <= 1_000_000 && 1 <= |e.minimumVersion| <= 80
    && ValidRelativePath(e.manifestPath) && ValidRelativePath(e.signaturePath) && ValidRelativePath(e.payloadPath)
    && OneDirectory(e)
  }

  lemma InDirectoryExactly(e: Entry)
    requires '/' in e.manifestPath && '/' in e.signaturePath && '/' in e.payloadPath
    ensures OneDirectory(e) <==>
      && e.manifestPath != e.signaturePath && e.manifestPath != e.payloadPath && e.signaturePath != e.payloadPath
      && Parent(e.manifestPath) == Parent(e.signaturePath) == Parent(e.payloadPath) && "catalogs/" <= Parent(e.manifestPath)
      && Name(e.manifestPath) == "manifest.json" && Name(e.signaturePath) == "manifest.ed25519"
  {
    hide Parent, Name;
    var directory, name := Parent(e.payloadPath), Name(e.payloadPath);
    SplitsExactly(e.manifestPath, Parent(e.manifestPath), Name(e.manifestPath));
    SplitsExactly(e.signaturePath, Parent(e.signaturePath), Name(e.signaturePath));
    SplitsExactly(e.payloadPath, directory, name);
    assert '/' !in "manifest.json" && '/' !in "manifest.ed25519" && |"manifest.json"| != |"manifest.ed25519"|;
    if OneDirectory(e) {
      var d: string, n: string :|
        && "catalogs/" <= d && '/' !in n && n != "manifest.json" && n != "manifest.ed25519"
        && e.manifestPath == d + "/" + "manifest.json" && e.signaturePath == d + "/" + "manifest.ed25519" && e.payloadPath == d + "/" + n;
      SplitsExactly(e.manifestPath, d, "manifest.json");
      SplitsExactly(e.signaturePath, d, "manifest.ed25519");
      SplitsExactly(e.payloadPath, d, n);
    }
  }

  lemma HasSlash(e: Entry)
    ensures OneDirectory(e) ==> '/' in e.manifestPath && '/' in e.signaturePath && '/' in e.payloadPath
  {
    if OneDirectory(e) {
      var d: string, n: string :|
        && "catalogs/" <= d && '/' !in n && n != "manifest.json" && n != "manifest.ed25519"
        && e.manifestPath == d + "/" + "manifest.json" && e.signaturePath == d + "/" + "manifest.ed25519" && e.payloadPath == d + "/" + n;
      assert e.manifestPath[|d|] == '/' && e.signaturePath[|d|] == '/' && e.payloadPath[|d|] == '/';
    }
  }

  lemma {:induction false} ParentHasSlash(s: string)
    ensures Parent(s) != "" ==> '/' in s
  {
    if |s| > 0 && s[|s| - 1] != '/' {
      ParentHasSlash(s[..|s| - 1]);
    }
  }

  /** The validators of an entry accept exactly the sound ones. */
  lemma EntryExactly(e: Entry)
    ensures ValidEntry(e) <==> SoundEntry(e)
  {
    hide ValidRelativePath, Parent, Name, OneDirectory;
    ParentHasSlash(e.manifestPath);
    ParentHasSlash(e.signaturePath);
    ParentHasSlash(e.payloadPath);
    HasSlash(e);
    assert "catalogs/" <= Parent(e.manifestPath) ==> Parent(e.manifestPath) != "" by {
      assert |"catalogs/"| == 9;
    }
    HexExactly(e.manifestDigest);
    HexExactly(e.signatureDigest);
    HexExactly(e.payloadDigest);
    hide HexDigest, IsHex;
    if '/' in e.manifestPath && '/' in e.signaturePath && '/' in e.payloadPath {
      InDirectoryExactly(e);
    }
  }

  lemma HexExactly(digest: string)
    ensures IsHex(digest) <==> HexDigest(digest)
  {
    assert forall i :: 0 <= i < |digest| ==> digest[i] in digest;
  }

  /** An index lists at most 32 sound entries in rising sequence, with different versions and no shared path; they agree
      with it on license, attribution, origin and compatibility, and its own fields are those of the last one. */
  ghost predicate SoundIndex(index: Index) {
    var n := |index.catalogs|;
    && 1 <= n <= 32
    && (forall i :: 0 <= i < n ==>
          var e := index.catalogs[i];
          && SoundEntry(e) && e.license == index.license && e.attribution == index.attribution
          && e.provenance.sourceName == index.provenance.sourceName && e.adapterVersion == index.adapterVersion
          && e.minimumCatalogVersion == index.minimumCatalogVersion && e.minimumVersion == index.minimumVersion)
    && (forall i, j :: 0 <= i < j < n ==>
          var e, f := index.catalogs[i], index.catalogs[j];
          && e.catalogSequence < f.catalogSequence && e.catalogVersion != f.catalogVersion
          && {e.manifestPath, e.signaturePath, e.payloadPath} !! {f.manifestPath, f.signaturePath, f.payloadPath})
    && var latest := index.catalogs[n - 1];
       && index.latestVersion == latest.catalogVersion && index.latestSequence == latest.catalogSequence
       && index.provenance == latest.provenance && latest.createdAt <= index.publishedAt
  }

  lemma IndexExactly(index: Index)
    ensures ValidIndex(index) <==> SoundIndex(index)
  {
    forall i | 0 <= i < |index.catalogs| ensures ValidEntry(index.catalogs[i]) <==> SoundEntry(index.catalogs[i]) {
      EntryExactly(index.catalogs[i]);
    }
    hide ValidEntry, SoundEntry;
  }

  /* ---------- Verification of an index ---------- */

  /** The index key is listed by the source, known, active, and in force now and at the publication. */
  predicate IndexKeyInForce(source: FeedSource, registry: Registry, index: Index, now: int) {
    && source.mirrorKeys.Some? && index.signingKeyId in source.mirrorKeys.value && index.signingKeyId in registry
    && var key := registry[index.signingKeyId];
       && key.status == ActiveKey
       && (key.notBefore.Some? ==> key.notBefore.value <= now && key.notBefore.value <= index.publishedAt)
       && (key.notAfter.Some? ==> now < key.notAfter.value && index.publishedAt < key.notAfter.value)
  }

  /** The index is as fresh, as short and as compatible as the source's policy asks. */
  ghost predicate IndexWithinPolicy(source: FeedSource, index: Index, now: int) {
    && index.sourceId == source.sourceId
    && index.publishedAt <= now + 300 * 1_000_000 && now - index.publishedAt <= source.limits.maximumIndexAge * 1_000_000
    && 0 < |index.catalogs| <= source.limits.maximumMirrorCatalogs && now < index.catalogs[|index.catalogs| - 1].expiresAt
    && index.license in source.acceptedLicenses && index.attribution == source.requiredAttribution
    && index.provenance.sourceName == source.expectedCatalogSource && index.adapterVersion == source.adapterVersion
    && index.minimumCatalogVersion <= 1 && index.minimumVersion == source.minimumVersion
    && forall i :: 0 <= i < |index.catalogs| ==>
         var e := index.catalogs[i];
         && e.publisherKeyId in source.trustedPublishers && e.payloadBytes <= source.limits.maximumCompressedBytes
         && Name(e.payloadPath) == source.expectedPayloadName
  }

  /** The bytes are the canonical text of the index, signed by a key in force. */
  ghost predicate IndexAccepted(lib: Library, codec: Codec, registry: Registry, source: FeedSource, data: Bytes, signatureBytes: Bytes, now: int, index: Index) {
    && 0 < |data| <= source.limits.maximumIndexBytes && codec.parse(data) == Some(index) && codec.encode(index) == data
    && SoundIndex(index) && IndexKeyInForce(source, registry, index, now) && IndexWithinPolicy(source, index, now)
    && Signs(lib, signatureBytes, source.limits.maximumSignatureBytes, registry[index.signingKeyId], data)
  }

  lemma {:induction false} EntriesExactly(catalogs: seq<Entry>, source: FeedSource)
    ensures CheckEntries(catalogs, source).None? <==> forall i :: 0 <= i < |catalogs| ==> CheckEntryPolicy(catalogs[i], source).None?
  {
    if |catalogs| > 0 {
      EntriesExactly(catalogs[1..], source);
      assert forall i :: 1 <= i < |catalogs| ==> catalogs[i] == catalogs[1..][i - 1];
    }
  }

  lemma IndexPolicyExactly(source: FeedSource, registry: Registry, index: Index, now: int)
    requires |index.catalogs| > 0
    ensures CheckIndexKey(index, source, registry, now).Ok? && CheckIndexPolicy(index, source, now).None? <==>
              IndexKeyInForce(source, registry, index, now) && IndexWithinPolicy(source, index, now)
    ensures CheckIndexKey(index, source, registry, now).Ok? ==>
              index.signingKeyId in registry && CheckIndexKey(index, source, registry, now).value == registry[index.signingKeyId]
  {
    EntriesExactly(index.catalogs, source);
    hide CheckEntries, Name;
  }

  lemma SignedExactly(lib: Library, data: Bytes, maximumBytes: nat, key: Publisher, message: Bytes)
    ensures
      var decoded := DecodeSignature(lib, data, maximumBytes);
      Signs(lib, data, maximumBytes, key, message) <==> decoded.Ok? && lib.signatureHolds(key.publicKey, decoded.value, message)
  {
    hide DecodeSignature, Spells;
    var decoded := DecodeSignature(lib, data, maximumBytes);
    if Signs(lib, data, maximumBytes, key, message) {
      var text, signature :| Spells(lib, data, text, signature) && lib.signatureHolds(key.publicKey, signature, message);
      DecodesExactly(lib, data, maximumBytes, signature);
    }
    if decoded.Ok? {
      DecodesExactly(lib, data, maximumBytes, decoded.value);
    }
  }

  /** Verification accepts exactly the canonical, signed, sound and timely indices, and gives back what was parsed. */
  lemma IndexVerifiesExactly(lib: Library, codec: Codec, registry: Registry, source: FeedSource, data: Bytes, signatureBytes: Bytes, now: int, index: Index)
    ensures VerifyIndex(lib, codec, registry, source, data, signatureBytes, now) == Ok(index) <==>
              IndexAccepted(lib, codec, registry, source, data, signatureBytes, now, index)
  {
    IndexExactly(index);
    hide ValidIndex, CheckIndexKey, CheckIndexPolicy, DecodeSignature, Signs, IndexKeyInForce, IndexWithinPolicy;
    SoundIsNonempty(index);
    hide SoundIndex;
    if |index.catalogs| > 0 {
      IndexPolicyExactly(source, registry, index, now);
      if index.signingKeyId in registry {
        SignedExactly(lib, signatureBytes, source.limits.maximumSignatureBytes, registry[index.signingKeyId], data);
      }
    }
    KeyIsKnown(source, registry, index, now);
  }

  lemma SoundIsNonempty(index: Index)
    ensures SoundIndex(index) ==> |index.catalogs| > 0
  {
  }

  lemma KeyIsKnown(source: FeedSource, registry: Registry, index: Index, now: int)
    ensures IndexKeyInForce(source, registry, index, now) ==> index.signingKeyId in registry
  {
  }

  /** Whatever else it says, an index under a key that the source does not list, or that is unknown, retired or revoked,
      never verifies, at any clock. */
  lemma RefusedKeysNeverVerify(lib: Library, codec: Codec, registry: Registry, source: FeedSource, data: Bytes, signatureBytes: Bytes, now: int, index: Index)
    requires codec.parse(data) == Some(index)
    requires
      || source.mirrorKeys.None? || index.signingKeyId !in source.mirrorKeys.value
      || index.signingKeyId !in registry || registry[index.signingKeyId].status != ActiveKey
    ensures VerifyIndex(lib, codec, registry, source, data, signatureBytes, now).Err?
  {
    hide VerifyIndex, SoundIndex, Signs, IndexWithinPolicy;
    var verified := VerifyIndex(lib, codec, registry, source, data, signatureBytes, now);
    if verified.Ok? {
      IndexVerifiesExactly(lib, codec, registry, source, data, signatureBytes, now, verified.value);
    }
  }

  /* ---------- Refusals of an index ---------- */

  /** What a refusal of the index's key claims. */
  predicate IndexKeyFault(source: FeedSource, registry: Registry, index: Index, now: int, error: MirrorError) {
    if error.SourceModeInvalid? then source.mirrorKeys.None?
    else if error.MirrorSourceMismatch? then index.sourceId != source.sourceId
    else if error.IndexKeySubstitution? then source.mirrorKeys.Some? && index.signingKeyId !in source.mirrorKeys.value
    else if error.IndexKeyUnknown? then index.signingKeyId !in registry
    else
      && index.signingKeyId in registry
      && var key := registry[index.signingKeyId];
         if error.IndexKeyRevoked? then key.status == RevokedKey
         else if error.IndexKeyRetired? then key.status == RetiredKey
         else if error.IndexKeyNotYetValid? then key.notBefore.Some? && (now < key.notBefore.value || index.publishedAt < key.notBefore.value)
         else error.IndexKeyExpired? && key.notAfter.Some? && (key.notAfter.value <= now || key.notAfter.value <= index.publishedAt)
  }

  function IndexKeyRank(error: MirrorError): nat {
    if error.SourceModeInvalid? then 0
    else if error.MirrorSourceMismatch? then 1
    else if error.IndexKeySubstitution? then 2
    else if error.IndexKeyUnknown? then 3
    else if error.IndexKeyRevoked? then 4
    else if error.IndexKeyRetired? then 5
    else if error.IndexKeyNotYetValid? then 6
    else 7
  }

  predicate EntryPolicyFault(source: FeedSource, e: Entry, error: MirrorError) {
    if error.MirrorPublisherSubstitution? then e.publisherKeyId !in source.trustedPublishers
    else if error.MirrorPayloadClaimTooLarge? then source.limits.maximumCompressedBytes < e.payloadBytes
    else error.MirrorPayloadNameMismatch? && Name(e.payloadPath) != source.expectedPayloadName
  }

  function EntryPolicyRank(error: MirrorError): nat {
    if error.MirrorPublisherSubstitution? then 0 else if error.MirrorPayloadClaimTooLarge? then 1 else 2
  }

  /** The entry at `i` has this fault, none that is checked before, and no entry before it has any. */
  ghost predicate FirstEntryPolicyFault(source: FeedSource, catalogs: seq<Entry>, i: int, error: MirrorError) {
    && 0 <= i < |catalogs| && EntryPolicyFault(source, catalogs[i], error)
    && (forall earlier :: EntryPolicyRank(earlier) < EntryPolicyRank(error) ==> !EntryPolicyFault(source, catalogs[i], earlier))
    && forall j, other :: 0 <= j < i ==> !EntryPolicyFault(source, catalogs[j], other)
  }

  /** What a refusal of the index under the source's policy claims. */
  ghost predicate IndexPolicyFault(source: FeedSource, index: Index, now: int, error: MirrorError) {
    if error.IndexFutureDated? then now + 300 * 1_000_000 < index.publishedAt
    else if error.IndexStale? then source.limits.maximumIndexAge * 1_000_000 < now - index.publishedAt
    else if error.CatalogLimit? then source.limits.maximumMirrorCatalogs < |index.catalogs|
    else if error.LatestExpired? then |index.catalogs| > 0 && index.catalogs[|index.catalogs| - 1].expiresAt <= now
    else if error.MirrorLicenseMismatch? then index.license !in source.acceptedLicenses
    else if error.MirrorAttributionMismatch? then index.attribution != source.requiredAttribution
    else if error.MirrorProvenanceMismatch? then index.provenance.sourceName != source.expectedCatalogSource
    else if error.MirrorAdapterMismatch? then index.adapterVersion != source.adapterVersion
    else if error.MirrorCatalogVersionUnsupported? then index.minimumCatalogVersion > 1
    else if error.MirrorVersionMismatch? then index.minimumVersion != source.minimumVersion
    else exists i :: FirstEntryPolicyFault(source, index.catalogs, i, error)
  }

  function IndexPolicyRank(error: MirrorError): nat {
    if error.IndexFutureDated? then 0
    else if error.IndexStale? then 1
    else if error.CatalogLimit? then 2
    else if error.LatestExpired? then 3
    else if error.MirrorLicenseMismatch? then 4
    else if error.MirrorAttributionMismatch? then 5
    else if error.MirrorProvenanceMismatch? then 6
    else if error.MirrorAdapterMismatch? then 7
    else if error.MirrorCatalogVersionUnsupported? then 8
    else if error.MirrorVersionMismatch? then 9
    else 10
  }

  ghost predicate FirstIndexKeyFault(source: FeedSource, registry: Registry, index: Index, now: int, error: MirrorError) {
    && IndexKeyFault(source, registry, index, now, error)
    && forall earlier :: IndexKeyRank(earlier) < IndexKeyRank(error) ==> !IndexKeyFault(source, registry, index, now, earlier)
  }

  ghost predicate FirstIndexPolicyFault(source: FeedSource, index: Index, now: int, error: MirrorError) {
    && IndexPolicyFault(source, index, now, error)
    && forall earlier :: IndexPolicyRank(earlier) < IndexPolicyRank(error) ==> !IndexPolicyFault(source, index, now, earlier)
  }

  ghost predicate FirstIndexSignatureFault(
      lib: Library, source: FeedSource, key: Publisher, data: Bytes, signatureBytes: Bytes, error: MirrorError)
  {
    && (error.IndexSignatureMalformed? || error.IndexSignatureInvalid?)
    && FirstSignatureFault(lib, signatureBytes, source.limits.maximumSignatureBytes, key, data,
                           if error.IndexSignatureMalformed? then error.error else SignatureInvalid)
  }

  /** The refusal of an index: the first thing that is wrong with it, in the order of size, schema, canonical text, key,
      signature and policy. */
  ghost predicate IndexRefusal(
      lib: Library, codec: Codec, registry: Registry, source: FeedSource, data: Bytes, signatureBytes: Bytes, now: int, error: MirrorError)
  {
    if !(0 < |data| <= source.limits.maximumIndexBytes) then error.IndexSizeInvalid?
    else if codec.parse(data).None? || !SoundIndex(codec.parse(data).value) then error.IndexSchemaInvalid?
    else
      var index := codec.parse(data).value;
      if codec.encode(index) != data then error.IndexNoncanonical?
      else if !(IndexKeyInForce(source, registry, index, now) && index.sourceId == source.sourceId)
      then FirstIndexKeyFault(source, registry, index, now, error)
      else if !Signs(lib, signatureBytes, source.limits.maximumSignatureBytes, registry[index.signingKeyId], data)
      then FirstIndexSignatureFault(lib, source, registry[index.signingKeyId], data, signatureBytes, error)
      else FirstIndexPolicyFault(source, index, now, error)
  }

  lemma EntryReportsFirst(e: Entry, source: FeedSource)
    ensures
      var error := CheckEntryPolicy(e, source);
      && (error.Some? ==> FirstEntryPolicyFault(source, [e], 0, error.value))
      && (error.None? ==> forall other :: !EntryPolicyFault(source, e, other))
  {
    hide Name;
  }

  lemma {:induction false} EntriesReportFirst(catalogs: seq<Entry>, source: FeedSource)
    ensures
      var error := CheckEntries(catalogs, source);
      && (error.Some? ==> exists i :: FirstEntryPolicyFault(source, catalogs, i, error.value))
      && (error.Some? ==> IndexPolicyRank(error.value) == 10)
  {
    if |catalogs| > 0 {
      EntriesReportFirst(catalogs[1..], source);
      EntryReportsFirst(catalogs[0], source);
      hide EntryPolicyFault, CheckEntryPolicy;
      var error := CheckEntries(catalogs, source);
      var here := CheckEntryPolicy(catalogs[0], source);
      EntryRanks(catalogs[0], source);
      if here.Some? {
        assert FirstEntryPolicyFault(source, catalogs, 0, error.value);
      } else if error.Some? {
        var i :| FirstEntryPolicyFault(source, catalogs[1..], i, error.value);
        assert forall j :: 1 <= j < |catalogs| ==> catalogs[1..][j - 1] == catalogs[j];
        assert FirstEntryPolicyFault(source, catalogs, i + 1, error.value);
      }
    }
  }

  lemma EntryRanks(e: Entry, source: FeedSource)
    ensures var error := CheckEntryPolicy(e, source); error.Some? ==> IndexPolicyRank(error.value) == 10
  {
    hide Name;
  }

  lemma KeyReportsFirst(source: FeedSource, registry: Registry, index: Index, now: int)
    ensures
      var key := CheckIndexKey(index, source, registry, now);
      && (key.Err? ==> FirstIndexKeyFault(source, registry, index, now, key.error))
      && (key.Ok? ==> index.signingKeyId in registry && key.value == registry[index.signingKeyId])
      && (key.Ok? <==> IndexKeyInForce(source, registry, index, now) && index.sourceId == source.sourceId)
  {
  }

  lemma IndexPolicyReportsFirst(source: FeedSource, index: Index, now: int)
    requires |index.catalogs| > 0
    ensures var error := CheckIndexPolicy(index, source, now); error.Some? ==> FirstIndexPolicyFault(source, index, now, error.value)
  {
    EntriesReportFirst(index.catalogs, source);
    hide CheckEntries, FirstEntryPolicyFault;
  }

  /** A refused index is refused with the first thing that is wrong with it. */
  lemma IndexReportsFirst(lib: Library, codec: Codec, registry: Registry, source: FeedSource, data: Bytes, signatureBytes: Bytes, now: int)
    ensures
      var verified := VerifyIndex(lib, codec, registry, source, data, signatureBytes, now);
      verified.Err? ==> IndexRefusal(lib, codec, registry, source, data, signatureBytes, now, verified.error)
  {
    if codec.parse(data).Some? {
      var index := codec.parse(data).value;
      IndexExactly(index);
      SoundIsNonempty(index);
      hide ValidIndex, SoundIndex;
      ParsedReportsFirst(lib, codec, registry, source, data, signatureBytes, now, index);
      hide CheckIndexKey, CheckIndexPolicy, DecodeSignature, FirstIndexKeyFault, FirstIndexPolicyFault, FirstIndexSignatureFault, Signs,
        IndexKeyInForce;
    }
  }

  /** The checks after the parse. */
  lemma ParsedReportsFirst(lib: Library, codec: Codec, registry: Registry, source: FeedSource, data: Bytes, signatureBytes: Bytes, now: int, index: Index)
    ensures
      var verified := VerifyIndex(lib, codec, registry, source, data, signatureBytes, now);
      ParseIndex(codec, data, source.limits.maximumIndexBytes) == Ok(index) && |index.catalogs| > 0 && verified.Err? ==>
        if !(IndexKeyInForce(source, registry, index, now) && index.sourceId == source.sourceId)
        then FirstIndexKeyFault(source, registry, index, now, verified.error)
        else if !Signs(lib, signatureBytes, source.limits.maximumSignatureBytes, registry[index.signingKeyId], data)
        then FirstIndexSignatureFault(lib, source, registry[index.signingKeyId], data, signatureBytes, verified.error)
        else FirstIndexPolicyFault(source, index, now, verified.error)
  {
    KeyReportsFirst(source, registry, index, now);
    if |index.catalogs| > 0 {
      IndexPolicyReportsFirst(source, index, now);
    }
    hide ParseIndex, CheckIndexKey, CheckIndexPolicy, DecodeSignature, FirstIndexKeyFault, FirstIndexPolicyFault, FirstSignatureFault, Signs,
      IndexKeyInForce;
    var key := CheckIndexKey(index, source, registry, now);
    if key.Ok? {
      SignatureReportsFirst(lib, signatureBytes, source.limits.maximumSignatureBytes, key.value, data);
      SignedExactly(lib, signatureBytes, source.limits.maximumSignatureBytes, key.value, data);
    }
  }

  /* ---------- Loading ---------- */

  /** The file is in the tree, within the limit, and has the size and the digest the entry claims. */
  predicate HasArtifact(lib: Library, tree: Tree, path: string, maximumBytes: nat, bytes: nat, digest: string, data: Bytes) {
    path in tree && tree[path] == data && |data| == bytes <= maximumBytes && lib.sha256(data) == digest
  }

  /** The entry says of the bundle what its manifest says. */
  predicate SaysBundle(e: Entry, bundle: VerifiedBundle) {
    var m := bundle.manifest;
    && e.catalogVersion == m.catalogVersion && e.catalogSequence == m.catalogSequence && e.createdAt == m.createdAt && e.expiresAt == m.expiresAt
    && e.publisherKeyId == m.publisherKeyId && e.license == m.license && e.attribution == m.attribution && e.provenance == m.provenance
    && e.adapterVersion == m.adapterVersion && e.minimumCatalogVersion == m.minimumCatalogVersion
    && e.manifestDigest == bundle.manifestDigest && e.payloadDigest == bundle.payloadDigest
  }

  ghost predicate EntryLoaded(env: Env, tree: Tree, e: Entry, item: LocalBundle) {
    var limits, files := env.source.limits, item.files;
    && HasArtifact(env.lib, tree, e.manifestPath, limits.maximumManifestBytes, e.manifestBytes, e.manifestDigest, files.manifest)
    && HasArtifact(env.lib, tree, e.signaturePath, limits.maximumSignatureBytes, e.signatureBytes, e.signatureDigest, files.signature)
    && HasArtifact(env.lib, tree, e.payloadPath, limits.maximumCompressedBytes, e.payloadBytes, e.payloadDigest, files.payload)
    && VerifyBundle(env.lib, env.registry, env.source, files, e.createdAt) == Ok(item.bundle) && SaysBundle(e, item.bundle)
  }

  lemma EntryLoadsExactly(env: Env, tree: Tree, e: Entry, item: LocalBundle)
    ensures LoadEntry(env, tree, e) == Ok(item) <==> EntryLoaded(env, tree, e, item)
  {
    hide VerifyBundle;
    assert item == LocalBundle(item.bundle, Files(item.files.manifest, item.files.signature, item.files.payload));
  }

  /** Why a file cannot be read, if so. */
  predicate Unreadable(tree: Tree, path: string, maximumBytes: nat, error: MirrorError) {
    if path in tree then maximumBytes < |tree[path]| && error.ArtifactTooLarge? else error.ArtifactMissing?
  }

  predicate Readable(tree: Tree, path: string, maximumBytes: nat) {
    path in tree && |tree[path]| <= maximumBytes
  }

  /** The file is not the one the entry claims. */
  predicate NotAsClaimed(lib: Library, bytes: nat, digest: string, data: Bytes, error: MirrorError) {
    if |data| == bytes then lib.sha256(data) != digest && error.ArtifactDigestMismatch? else error.ArtifactSizeMismatch?
  }

  predicate AsClaimed(lib: Library, bytes: nat, digest: string, data: Bytes) {
    |data| == bytes && lib.sha256(data) == digest
  }

  /** The refusal of one catalog of a mirror: the first of its three files that cannot be read, then the first that is not
      as claimed, then what bundle verification says, and then that the entry disagrees. */
  ghost predicate EntryRefusal(env: Env, tree: Tree, e: Entry, error: MirrorError) {
    var limits := env.source.limits;
    if !Readable(tree, e.manifestPath, limits.maximumManifestBytes) then Unreadable(tree, e.manifestPath, limits.maximumManifestBytes, error)
    else if !Readable(tree, e.signaturePath, limits.maximumSignatureBytes)
    then Unreadable(tree, e.signaturePath, limits.maximumSignatureBytes, error)
    else if !Readable(tree, e.payloadPath, limits.maximumCompressedBytes) then Unreadable(tree, e.payloadPath, limits.maximumCompressedBytes, error)
    else FilesRefusal(env, e, Files(tree[e.manifestPath], tree[e.signaturePath], tree[e.payloadPath]), error)
  }

  ghost predicate FilesRefusal(env: Env, e: Entry, files: Files, error: MirrorError) {
    if !AsClaimed(env.lib, e.manifestBytes, e.manifestDigest, files.manifest)
    then NotAsClaimed(env.lib, e.manifestBytes, e.manifestDigest, files.manifest, error)
    else if !AsClaimed(env.lib, e.signatureBytes, e.signatureDigest, files.signature)
    then NotAsClaimed(env.lib, e.signatureBytes, e.signatureDigest, files.signature, error)
    else if !AsClaimed(env.lib, e.payloadBytes, e.payloadDigest, files.payload)
    then NotAsClaimed(env.lib, e.payloadBytes, e.payloadDigest, files.payload, error)
    else
      var verified := VerifyBundle(env.lib, env.registry, env.source, files, e.createdAt);
      if verified.Err? then error == BundleRejected(verified.error) else error.BundleMetadataMismatch? && !SaysBundle(e, verified.value)
  }

  lemma EntryLoadReportsFirst(env: Env, tree: Tree, e: Entry)
    ensures var loaded := LoadEntry(env, tree, e); loaded.Err? ==> EntryRefusal(env, tree, e, loaded.error)
  {
    hide VerifyBundle;
  }

  /** The refusal of a mirror: the first thing that is wrong with its index, or with the first catalog of the accepted
      index that does not load. */
  ghost predicate MirrorRefusal(env: Env, tree: Tree, now: int, error: MirrorError) {
    var limits := env.source.limits;
    if !Readable(tree, INDEX_NAME, limits.maximumIndexBytes) then Unreadable(tree, INDEX_NAME, limits.maximumIndexBytes, error)
    else if !Readable(tree, INDEX_SIGNATURE_NAME, limits.maximumSignatureBytes)
    then Unreadable(tree, INDEX_SIGNATURE_NAME, limits.maximumSignatureBytes, error)
    else
      || IndexRefusal(env.lib, env.codec, env.registry, env.source, tree[INDEX_NAME], tree[INDEX_SIGNATURE_NAME], now, error)
      || exists index, i ::
           && IndexAccepted(env.lib, env.codec, env.registry, env.source, tree[INDEX_NAME], tree[INDEX_SIGNATURE_NAME], now, index)
           && FirstUnloaded(env, tree, index.catalogs, i, error)
  }

  ghost predicate Loads(env: Env, tree: Tree, e: Entry) {
    exists item :: EntryLoaded(env, tree, e, item)
  }

  ghost predicate FirstUnloaded(env: Env, tree: Tree, catalogs: seq<Entry>, i: int, error: MirrorError) {
    0 <= i < |catalogs| && EntryRefusal(env, tree, catalogs[i], error) && forall j :: 0 <= j < i ==> Loads(env, tree, catalogs[j])
  }

  lemma {:induction false} EntriesReportFirstUnloaded(env: Env, tree: Tree, catalogs: seq<Entry>, n: nat)
    requires n <= |catalogs|
    ensures
      var loaded := LoadEntries(env, tree, catalogs, n);
      if loaded.Err? then exists i :: i < n && FirstUnloaded(env, tree, catalogs, i, loaded.error)
      else forall j :: 0 <= j < n ==> Loads(env, tree, catalogs[j])
  {
    hide LoadEntry, EntryRefusal, EntryLoaded;
    if n > 0 {
      EntriesReportFirstUnloaded(env, tree, catalogs, n - 1);
      EntryLoadReportsFirst(env, tree, catalogs[n - 1]);
      var last := LoadEntry(env, tree, catalogs[n - 1]);
      if last.Ok? {
        EntryLoadsExactly(env, tree, catalogs[n - 1], last.value);
      }
      if LoadEntries(env, tree, catalogs, n - 1).Ok? && last.Err? {
        assert FirstUnloaded(env, tree, catalogs, n - 1, last.error);
      }
    }
  }

  /** A refused mirror is refused with the first thing that is wrong with it. */
  lemma MirrorReportsFirst(env: Env, tree: Tree, now: int)
    ensures var loaded := LoadedMirror(env, tree, now); loaded.Err? ==> MirrorRefusal(env, tree, now, loaded.error)
  {
    hide VerifyIndex, IndexRefusal, LoadEntries, EntryRefusal, IndexAccepted, FirstUnloaded;
    if INDEX_NAME in tree && INDEX_SIGNATURE_NAME in tree {
      var data, signature := tree[INDEX_NAME], tree[INDEX_SIGNATURE_NAME];
      IndexReportsFirst(env.lib, env.codec, env.registry, env.source, data, signature, now);
      var verified := VerifyIndex(env.lib, env.codec, env.registry, env.source, data, signature, now);
      if verified.Ok? {
        IndexVerifiesExactly(env.lib, env.codec, env.registry, env.source, data, signature, now, verified.value);
        EntriesReportFirstUnloaded(env, tree, verified.value.catalogs, |verified.value.catalogs|);
      }
    }
  }

  lemma {:induction false} EntriesLoadExactly(env: Env, tree: Tree, catalogs: seq<Entry>, n: nat, items: seq<LocalBundle>)
    requires n <= |catalogs|
    ensures LoadEntries(env, tree, catalogs, n) == Ok(items) <==>
              |items| == n && forall i :: 0 <= i < n ==> EntryLoaded(env, tree, catalogs[i], items[i])
  {
    hide LoadEntry, EntryLoaded;
    if n > 0 {
      if |items| == n {
        var front, last := items[..n - 1], items[n - 1];
        EntriesLoadExactly(env, tree, catalogs, n - 1, front);
        EntryLoadsExactly(env, tree, catalogs[n - 1], last);
        assert items == front + [last];
        var before := LoadEntries(env, tree, catalogs, n - 1);
        if LoadEntries(env, tree, catalogs, n) == Ok(items) {
          assert before.value == front;
        }
      }
    }
  }

  /** A tree loads exactly when its index is accepted and every entry of it loads, and then as these bundles in order:
      each verified at its own creation time, of the claimed sizes and digests, and with what its entry says. */
  lemma MirrorLoadsExactly(env: Env, tree: Tree, now: int, items: seq<LocalBundle>)
    ensures LoadedMirror(env, tree, now) == Ok(items) <==>
      exists index ::
        && INDEX_NAME in tree && INDEX_SIGNATURE_NAME in tree
        && |tree[INDEX_SIGNATURE_NAME]| <= env.source.limits.maximumSignatureBytes
        && IndexAccepted(env.lib, env.codec, env.registry, env.source, tree[INDEX_NAME], tree[INDEX_SIGNATURE_NAME], now, index)
        && |items| == |index.catalogs| && forall i :: 0 <= i < |items| ==> EntryLoaded(env, tree, index.catalogs[i], items[i])
  {
    hide VerifyIndex, IndexAccepted, LoadEntries, EntryLoaded;
    if INDEX_NAME in tree && INDEX_SIGNATURE_NAME in tree {
      var data, signature := tree[INDEX_NAME], tree[INDEX_SIGNATURE_NAME];
      var verified := VerifyIndex(env.lib, env.codec, env.registry, env.source, data, signature, now);
      forall index ensures verified == Ok(index) <==> IndexAccepted(env.lib, env.codec, env.registry, env.source, data, signature, now, index) {
        IndexVerifiesExactly(env.lib, env.codec, env.registry, env.source, data, signature, now, index);
      }
      if verified.Ok? {
        var index := verified.value;
        assert IndexAccepted(env.lib, env.codec, env.registry, env.source, data, signature, now, index);
        AcceptedIsShort(env, data, signature, now, index);
        EntriesLoadExactly(env, tree, index.catalogs, |index.catalogs|, items);
      }
    }
  }

  lemma AcceptedIsShort(env: Env, data: Bytes, signature: Bytes, now: int, index: Index)
    requires IndexAccepted(env.lib, env.codec, env.registry, env.source, data, signature, now, index)
    ensures |data| <= env.source.limits.maximumIndexBytes && |signature| <= env.source.limits.maximumSignatureBytes
  {
    hide SoundIndex, IndexWithinPolicy;
  }
}
