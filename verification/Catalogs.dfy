/** Advisory catalogs: their content, the reviewed validators and the identifiers derived from them. */
module Catalogs {
  import opened Prelude

  /** The library text functions the catalog code calls: Unicode case folding, the database's `LOWER`,
      package URL identities and token normalization. Nothing is assumed about them here. */
  datatype Text = Text(
    casefold: string -> string,
    lower: string -> string,
    purlIdentity: string -> Option<string>,
    token: string -> string)

  /** A SHA-256 digest stands for what was digested: equal digests mean equal content. */
  datatype Digest<T> = Sha256(content: T)

  datatype Severity = Critical | High | Medium | Low | Informational

  datatype Reference = Reference(kind: string, url: string)

  datatype VersionRange = VersionRange(
    introduced: Option<string>, introducedUnbounded: bool, introducedInclusive: bool,
    fixed: Option<string>, fixedInclusive: bool,
    lastAffected: Option<string>, lastAffectedInclusive: bool)

  datatype Affected = Affected(
    ecosystem: string, name: string, identifier: Option<string>,
    namespace: Option<string>, vendor: Option<string>,
    ranges: seq<VersionRange>, exactVersions: seq<string>, fixedVersions: seq<string>,
    architectures: seq<string>, platforms: seq<string>)

  /** The stored scalar columns of one advisory. */
  datatype Facts = Facts(
    title: string, summary: string, severity: Severity, cvss: Option<real>, knownExploited: bool,
    publishedAt: int, modifiedAt: int, withdrawnAt: Option<int>)

  /** `background` collects the fields that are digested but stored in no table column. */
  datatype Record = Record(
    id: string, aliases: seq<string>, facts: Facts,
    affected: seq<Affected>, references: seq<Reference>, background: string)

  datatype Catalog = Catalog(
    version: string, sourceName: string, sourceVersion: string, license: string,
    generatedAt: int, advisories: seq<Record>)

  const MAX_ADVISORIES := 20_000

  /* ---------- Validators ---------- */

  ghost predicate DistinctIds(text: Text, records: seq<Record>) {
    forall i, j :: 0 <= i < j < |records| ==> text.casefold(records[i].id) != text.casefold(records[j].id)
  }

  /** An alias names one advisory: records that share it carry the same id. */
  ghost predicate AliasesHaveOneOwner(records: seq<Record>) {
    forall i, j, alias :: 0 <= i < |records| && 0 <= j < |records| && alias in records[i].aliases && alias in records[j].aliases
                          ==> records[i].id == records[j].id
  }

  const SUPPORTED_ECOSYSTEMS: set<string> :=
    {"pypi", "npm", "maven", "nuget", "golang", "deb", "rpm", "alpine", "generic", "firmware", "operating-system"}

  const VENDOR_ECOSYSTEMS: set<string> := {"firmware", "generic", "operating-system"}

  predicate IsAlphanumeric(c: char) {
    '0' <= c <= '9' || 'A' <= c <= 'Z' || 'a' <= c <= 'z'
  }

  /** `^[A-Za-z0-9][A-Za-z0-9._:-]{2,119}$` */
  predicate ValidRecordId(id: string) {
    && 3 <= |id| <= 120 && IsAlphanumeric(id[0])
    && forall i :: 0 <= i < |id| ==> IsAlphanumeric(id[i]) || id[i] in "._:-"
  }

  predicate ValidRange(r: VersionRange) {
    && (r.introducedUnbounded ==> r.introduced.None?)
    && (r.introduced.Some? || r.introducedUnbounded || r.fixed.Some? || r.lastAffected.Some?)
    && (r.fixed.None? || r.lastAffected.None?)
  }

  /** An affected component names a supported ecosystem, carries a range or an exact version, and has a vendor where
      its ecosystem gives no identity. */
  ghost predicate ValidAffected(item: Affected) {
    && item.ecosystem in SUPPORTED_ECOSYSTEMS && 1 <= |item.name| <= 240
    && (item.ranges != [] || item.exactVersions != [])
    && (forall i :: 0 <= i < |item.ranges| ==> ValidRange(item.ranges[i]))
    && NoDuplicates(item.exactVersions) && NoDuplicates(item.fixedVersions)
    && (item.identifier.None? && item.vendor in {None, Some("")} ==> item.ecosystem !in VENDOR_ECOSYSTEMS)
  }

  predicate ValidFacts(facts: Facts) {
    && 1 <= |facts.title| <= 240 && 1 <= |facts.summary| <= 1000
    && facts.publishedAt <= facts.modifiedAt
    && (facts.withdrawnAt.Some? ==> facts.publishedAt <= facts.withdrawnAt.value)
  }

  ghost predicate ValidRecord(record: Record) {
    && ValidRecordId(record.id) && ValidFacts(record.facts)
    && |record.aliases| <= 32 && NoDuplicates(record.aliases)
    && 1 <= |record.affected| <= 64 && (forall i :: 0 <= i < |record.affected| ==> ValidAffected(record.affected[i]))
    && |record.references| <= 16
  }

  ghost predicate ValidCatalog(text: Text, catalog: Catalog) {
    && |catalog.advisories| <= MAX_ADVISORIES
    && (forall i :: 0 <= i < |catalog.advisories| ==> ValidRecord(catalog.advisories[i]))
    && DistinctIds(text, catalog.advisories)
    && AliasesHaveOneOwner(catalog.advisories)
  }

  datatype IdentifierError = IdentifierLength | IdentifierDuplicate

  const MAX_IDENTIFIER := 120

  /** `len(values) == len(set(values))` */
  method AllDistinct(values: seq<string>) returns (distinct: bool)
    ensures distinct <==> NoDuplicates(values)
  {
    var seen: set<string> := {};
    for i := 0 to |values|
      invariant seen == ToSet(values[..i]) && |seen| <= i
      invariant |seen| == i <==> NoDuplicates(values[..i])
    {
      assert values[..i + 1] == values[..i] + [values[i]];
      AppendDistinct(values[..i], values[i]);
      seen := seen + {values[i]};
    }
    assert values[..|values|] == values;
    return |seen| == |values|;
  }

  /** The alias list validator: normalize every value, check each length, then reject repeats. */
  method NormalizeIdentifiers(values: seq<string>, normalize: string -> string) returns (result: Result<seq<string>, IdentifierError>)
    ensures result.Ok? <==>
              && (forall i :: 0 <= i < |values| ==> 1 <= |normalize(values[i])| <= 120)
              && (forall i, j :: 0 <= i < j < |values| ==> normalize(values[i]) != normalize(values[j]))
    ensures result == Err(IdentifierLength) <==> exists i :: 0 <= i < |values| && !(1 <= |normalize(values[i])| <= 120)
    ensures result.Ok? ==> NoDuplicates(result.value) && |result.value| == |values|
    ensures result.Ok? ==> forall i :: 0 <= i < |values| ==> result.value[i] == normalize(values[i])
  {
    var normalized := seq(|values|, i requires 0 <= i < |values| => normalize(values[i]));
    for i := 0 to |normalized|
      invariant forall k :: 0 <= k < i ==> 1 <= |normalized[k]| <= MAX_IDENTIFIER
    {
      if |normalized[i]| == 0 || |normalized[i]| > MAX_IDENTIFIER {
        return Err(IdentifierLength);
      }
    }
    var distinct := AllDistinct(normalized);
    MappedDistinct(values, normalized, normalize);
    return if distinct then Ok(normalized) else Err(IdentifierDuplicate);
  }

  lemma MappedDistinct(values: seq<string>, normalized: seq<string>, normalize: string -> string)
    requires |normalized| == |values| && forall i :: 0 <= i < |values| ==> normalized[i] == normalize(values[i])
    ensures NoDuplicates(normalized) <==> forall i, j :: 0 <= i < j < |values| ==> normalize(values[i]) != normalize(values[j])
  {
    if !NoDuplicates(normalized) {
      var i, j :| 0 <= i < j < |normalized| && normalized[i] == normalized[j];
      assert normalize(values[i]) == normalize(values[j]);
    }
  }

  lemma AppendDistinct<T>(s: seq<T>, x: T)
    ensures ToSet(s + [x]) == ToSet(s) + {x}
    ensures NoDuplicates(s + [x]) <==> NoDuplicates(s) && x !in s
  {
    var t := s + [x];
    if NoDuplicates(t) {
      forall i, j | 0 <= i < j < |s| ensures s[i] != s[j] {
        assert t[i] != t[j];
      }
      forall i | 0 <= i < |s| ensures s[i] != x {
        assert t[i] != t[|s|];
      }
    }
  }

  /** `validate_catalog_uniqueness`: folded ids are distinct and the alias-owner dictionary never conflicts. */
  method ValidateCatalogUniqueness(text: Text, records: seq<Record>) returns (ok: bool)
    ensures ok <==> DistinctIds(text, records) && AliasesHaveOneOwner(records)
  {
    var ids := seq(|records|, i requires 0 <= i < |records| => text.casefold(records[i].id));
    var distinct := AllDistinct(ids);
    assert distinct <==> DistinctIds(text, records) by {
      assert forall i :: 0 <= i < |records| ==> ids[i] == text.casefold(records[i].id);
    }
    if !distinct {
      return false;
    }
    hide DistinctIds, AliasesHaveOneOwner, Owned, OwnersNamed;
    var owners: map<string, string> := map[];
    NoOwners(records);
    for i := 0 to |records|
      invariant Owned(records, owners, i, 0) && OwnersNamed(records, owners, i)
    {
      var record := records[i];
      NamedLater(records, owners, i);
      for a := 0 to |record.aliases|
        invariant Owned(records, owners, i, a) && OwnersNamed(records, owners, i + 1)
      {
        var alias := record.aliases[a];
        if alias !in owners {
          NameOwner(records, owners, i, a);
          owners := owners[alias := record.id];
        }
        if owners[alias] != record.id {
          ConflictIsSeen(records, owners, i, alias);
          return false;
        }
        OwnNext(records, owners, i, a);
      }
      OwnNext(records, owners, i, |record.aliases|);
    }
    OwnedIsUnique(records, owners);
    return true;
  }

  /** The dictionary gives every alias seen so far the id of its record: all aliases of the first `i` records,
      and the first `a` of the next. */
  ghost predicate Owned(records: seq<Record>, owners: map<string, string>, i: nat, a: nat) {
    && (forall k, alias :: 0 <= k < i && k < |records| && alias in records[k].aliases ==> alias in owners && owners[alias] == records[k].id)
    && (i < |records| ==> forall b :: 0 <= b < a && b < |records[i].aliases| ==>
          records[i].aliases[b] in owners && owners[records[i].aliases[b]] == records[i].id)
  }

  ghost predicate OwnersNamed(records: seq<Record>, owners: map<string, string>, n: nat) {
    forall alias :: alias in owners ==> exists k :: 0 <= k < n && k < |records| && alias in records[k].aliases && records[k].id == owners[alias]
  }

  lemma NoOwners(records: seq<Record>)
    ensures Owned(records, map[], 0, 0) && OwnersNamed(records, map[], 0)
  {
  }

  lemma OwnedIsUnique(records: seq<Record>, owners: map<string, string>)
    requires Owned(records, owners, |records|, 0)
    ensures AliasesHaveOneOwner(records)
  {
    forall i, j, alias | 0 <= i < |records| && 0 <= j < |records| && alias in records[i].aliases && alias in records[j].aliases
      ensures records[i].id == records[j].id
    {
      assert owners[alias] == records[i].id;
    }
  }

  lemma ConflictIsSeen(records: seq<Record>, owners: map<string, string>, i: nat, alias: string)
    requires i < |records| && alias in records[i].aliases && OwnersNamed(records, owners, i + 1)
    requires alias in owners && owners[alias] != records[i].id
    ensures !AliasesHaveOneOwner(records)
  {
    var k :| 0 <= k <= i && alias in records[k].aliases && records[k].id == owners[alias];
  }

  lemma NameOwner(records: seq<Record>, owners: map<string, string>, i: nat, a: nat)
    requires i < |records| && a < |records[i].aliases| && OwnersNamed(records, owners, i + 1) && Owned(records, owners, i, a)
    requires records[i].aliases[a] !in owners
    ensures
      var owners' := owners[records[i].aliases[a] := records[i].id];
      OwnersNamed(records, owners', i + 1) && Owned(records, owners', i, a)
  {
    assert records[i].aliases[a] in records[i].aliases;
  }

  lemma OwnNext(records: seq<Record>, owners: map<string, string>, i: nat, a: nat)
    requires i < |records| && Owned(records, owners, i, a)
    requires a < |records[i].aliases| ==> records[i].aliases[a] in owners && owners[records[i].aliases[a]] == records[i].id
    ensures a < |records[i].aliases| ==> Owned(records, owners, i, a + 1)
    ensures a == |records[i].aliases| ==> Owned(records, owners, i + 1, 0)
  {
  }

  lemma NamedLater(records: seq<Record>, owners: map<string, string>, i: nat)
    requires OwnersNamed(records, owners, i)
    ensures OwnersNamed(records, owners, i + 1)
  {
  }

  /* ---------- Identifiers ---------- */

  /** The digest of the folded source name and the folded record id, joined by a NUL character. */
  datatype AdvisoryId = AdvisoryId(source: string, record: string)

  datatype AffectedId = AffectedId(advisory: AdvisoryId, ecosystem: string, identity: string, ordinal: nat)

  datatype RangeId = RangeId(affected: AffectedId, ordinal: nat)

  function AdvisoryIdFor(text: Text, source: string, recordId: string): AdvisoryId {
    AdvisoryId(text.casefold(source), text.casefold(recordId))
  }

  const UNIT_SEPARATOR: string := [31 as char]

  function Identity(text: Text, affected: Affected): string {
    match CanonicalIdentifier(text, affected)
    case Some(identifier) => identifier
    case None =>
      (if affected.vendor.Some? then affected.vendor.value else "") + UNIT_SEPARATOR
      + (if affected.namespace.Some? then affected.namespace.value else "") + UNIT_SEPARATOR
      + text.token(affected.name)
  }

  function CanonicalIdentifier(text: Text, affected: Affected): Option<string> {
    if affected.identifier.Some? && affected.identifier.value != "" then
      (match text.purlIdentity(affected.identifier.value)
       case Some(identifier) => if identifier == "" then None else Some(identifier)
       case None => None)
    else
      None
  }

  function IdsOf(text: Text, sourceName: string, records: seq<Record>): set<AdvisoryId> {
    set i | 0 <= i < |records| :: AdvisoryIdFor(text, sourceName, records[i].id)
  }

  function CatalogIds(text: Text, catalog: Catalog): set<AdvisoryId> {
    IdsOf(text, catalog.sourceName, catalog.advisories)
  }

  lemma RecordIdInCatalog(text: Text, catalog: Catalog, i: nat)
    requires i < |catalog.advisories|
    ensures AdvisoryIdFor(text, catalog.sourceName, catalog.advisories[i].id) in CatalogIds(text, catalog)
  {
  }
}
