/** The advisory tables as values: what one catalog import does to them, and what a reader then sees. */
module AdvisoryTables {
  import opened Prelude
  import opened Catalogs

  datatype AdvisoryRow = AdvisoryRow(
    source: string, sourceRecordId: string, sourceVersion: string, facts: Facts,
    current: bool, importId: nat, checksum: Digest<Record>)

  datatype AliasRow = AliasRow(advisory: AdvisoryId, alias: string)

  datatype ReferenceRow = ReferenceRow(advisory: AdvisoryId, ordinal: nat, reference: Reference)

  datatype Component = Component(
    ecosystem: string, namespace: Option<string>, vendor: Option<string>,
    name: string, normalizedName: string, canonicalIdentifier: Option<string>,
    exactVersions: seq<string>, fixedVersions: seq<string>, architectures: seq<string>, platforms: seq<string>)

  datatype AffectedRow = AffectedRow(id: AffectedId, advisory: AdvisoryId, component: Component)

  datatype RangeRow = RangeRow(id: RangeId, affected: AffectedId, ordinal: nat, range: VersionRange)

  /** Every import row ever written has status `completed`, so the status column is not kept. */
  datatype ImportRow = ImportRow(
    source: string, version: string, sourceVersion: string, license: string,
    checksum: Digest<Catalog>, advisoryCount: nat)

  /** A table is a set of rows; the advisories are indexed by their primary key, imports by position. */
  datatype Tables = Tables(
    advisories: map<AdvisoryId, AdvisoryRow>,
    aliases: set<AliasRow>,
    references: set<ReferenceRow>,
    affected: set<AffectedRow>,
    ranges: set<RangeRow>,
    imports: seq<ImportRow>)

  const EmptyTables := Tables(map[], {}, {}, {}, {}, [])

  /* ---------- Rows written for one record ---------- */

  function AliasRows(a: AdvisoryId, record: Record): set<AliasRow> {
    set i | 0 <= i < |record.aliases| :: AliasRow(a, record.aliases[i])
  }

  function ReferenceRows(a: AdvisoryId, record: Record): set<ReferenceRow> {
    set i | 0 <= i < |record.references| :: ReferenceRow(a, i, record.references[i])
  }

  function AffectedRowAt(text: Text, a: AdvisoryId, record: Record, i: nat): AffectedRow
    requires i < |record.affected|
  {
    var item := record.affected[i];
    AffectedRow(
      AffectedId(a, item.ecosystem, Identity(text, item), i), a,
      Component(item.ecosystem, item.namespace, item.vendor, item.name, text.token(item.name),
                CanonicalIdentifier(text, item),
                item.exactVersions, item.fixedVersions, item.architectures, item.platforms))
  }

  function RangeRowAt(text: Text, a: AdvisoryId, record: Record, i: nat, j: nat): RangeRow
    requires i < |record.affected| && j < |record.affected[i].ranges|
  {
    var id := AffectedRowAt(text, a, record, i).id;
    RangeRow(RangeId(id, j), id, j, record.affected[i].ranges[j])
  }

  function AffectedRows(text: Text, a: AdvisoryId, record: Record, count: nat): set<AffectedRow>
    requires count <= |record.affected|
  {
    set i | 0 <= i < count :: AffectedRowAt(text, a, record, i)
  }

  function ComponentRanges(text: Text, a: AdvisoryId, record: Record, i: nat, count: nat): set<RangeRow>
    requires i < |record.affected| && count <= |record.affected[i].ranges|
  {
    set j | 0 <= j < count :: RangeRowAt(text, a, record, i, j)
  }

  function RangeRows(text: Text, a: AdvisoryId, record: Record, count: nat): set<RangeRow>
    requires count <= |record.affected|
  {
    set i, j | 0 <= i < count && 0 <= j < |record.affected[i].ranges| :: RangeRowAt(text, a, record, i, j)
  }

  /* ---------- One import ---------- */

  /** `ON CONFLICT DO UPDATE`: the source, the record id and the creation time keep their first values. */
  function UpsertedRow(prior: Option<AdvisoryRow>, sourceName: string, sourceVersion: string, record: Record, importId: nat): AdvisoryRow {
    match prior
    case None => AdvisoryRow(sourceName, record.id, sourceVersion, record.facts, true, importId, Sha256(record))
    case Some(row) =>
      row.(sourceVersion := sourceVersion, facts := record.facts, current := true, importId := importId, checksum := Sha256(record))
  }

  function Lookup<K, V>(m: map<K, V>, key: K): Option<V> {
    if key in m then Some(m[key]) else None
  }

  /** Deleting an affected component cascades to its version ranges. */
  function WithoutChildren(t: Tables, a: AdvisoryId): Tables {
    var doomed := set x | x in t.affected && x.advisory == a :: x.id;
    t.(aliases := (set x | x in t.aliases && x.advisory != a),
       references := (set x | x in t.references && x.advisory != a),
       affected := (set x | x in t.affected && x.advisory != a),
       ranges := (set x | x in t.ranges && x.affected !in doomed))
  }

  function UpsertRecord(text: Text, t: Tables, catalog: Catalog, record: Record, importId: nat): Tables {
    var a := AdvisoryIdFor(text, catalog.sourceName, record.id);
    var row := UpsertedRow(Lookup(t.advisories, a), catalog.sourceName, catalog.sourceVersion, record, importId);
    var cleared := WithoutChildren(t.(advisories := t.advisories[a := row]), a);
    cleared.(aliases := cleared.aliases + AliasRows(a, record),
             references := cleared.references + ReferenceRows(a, record),
             affected := cleared.affected + AffectedRows(text, a, record, |record.affected|),
             ranges := cleared.ranges + RangeRows(text, a, record, |record.affected|))
  }

  function UpsertAll(text: Text, t: Tables, catalog: Catalog, importId: nat, count: nat): Tables
    requires count <= |catalog.advisories|
  {
    if count == 0 then t
    else UpsertRecord(text, UpsertAll(text, t, catalog, importId, count - 1), catalog, catalog.advisories[count - 1], importId)
  }

  predicate IsStale(text: Text, row: AdvisoryRow, sourceName: string) {
    text.lower(row.source) == text.lower(sourceName) && row.current
  }

  /** Retire the current advisories of the source, compared without case, that were not imported. */
  function Sweep(text: Text, t: Tables, sourceName: string, imported: set<AdvisoryId>): Tables {
    t.(advisories :=
         map a | a in t.advisories ::
           var row := t.advisories[a];
           if IsStale(text, row, sourceName) && a !in imported then row.(current := false) else row)
  }

  predicate SameImport(text: Text, row: ImportRow, catalog: Catalog, checksum: Digest<Catalog>) {
    text.lower(row.source) == text.lower(catalog.sourceName) && row.version == catalog.version && row.checksum == checksum
  }

  function FindImport(text: Text, imports: seq<ImportRow>, catalog: Catalog, checksum: Digest<Catalog>): (found: Option<nat>)
    ensures found.Some? ==> found.value < |imports| && SameImport(text, imports[found.value], catalog, checksum)
    ensures found.None? ==> forall i :: 0 <= i < |imports| ==> !SameImport(text, imports[i], catalog, checksum)
  {
    if |imports| == 0 then None
    else if SameImport(text, imports[|imports| - 1], catalog, checksum) then Some(|imports| - 1)
    else FindImport(text, imports[..|imports| - 1], catalog, checksum)
  }

  function ImportRowFor(catalog: Catalog, checksum: Digest<Catalog>): ImportRow {
    ImportRow(catalog.sourceName, catalog.version, catalog.sourceVersion, catalog.license, checksum, |catalog.advisories|)
  }

  /** Record the import, unless this snapshot is already known; its import row is then reused. */
  function Prepare(text: Text, t: Tables, catalog: Catalog, checksum: Digest<Catalog>): (result: (Tables, nat))
    ensures result.1 < |result.0.imports| && SameImport(text, result.0.imports[result.1], catalog, checksum)
  {
    match FindImport(text, t.imports, catalog, checksum)
    case Some(existing) => (t, existing)
    case None => (t.(imports := t.imports + [ImportRowFor(catalog, checksum)]), |t.imports|)
  }

  /** `import_catalog`: replace one source's advisory snapshot. A known snapshot is left alone unless it
      is to be reactivated; then its import row is reused. */
  function Import(text: Text, t: Tables, catalog: Catalog, checksum: Digest<Catalog>, reactivate: bool): Tables {
    if FindImport(text, t.imports, catalog, checksum).Some? && !reactivate then
      t
    else
      var (prepared, importId) := Prepare(text, t, catalog, checksum);
      var upserted := UpsertAll(text, prepared, catalog, importId, |catalog.advisories|);
      Sweep(text, upserted, catalog.sourceName, CatalogIds(text, catalog))
  }

  /* ---------- Key constraints ---------- */

  ghost predicate AdvisoryKeys(text: Text, t: Tables) {
    && (forall a :: a in t.advisories ==> a == AdvisoryIdFor(text, t.advisories[a].source, t.advisories[a].sourceRecordId))
    && (forall a :: a in t.advisories ==> t.advisories[a].importId < |t.imports|)
  }

  ghost predicate ChildKeys(t: Tables) {
    && (forall x :: x in t.aliases ==> x.advisory in t.advisories)
    && (forall x :: x in t.references ==> x.advisory in t.advisories)
    && (forall x, y :: x in t.references && y in t.references && x.advisory == y.advisory && x.ordinal == y.ordinal ==> x == y)
  }

  ghost predicate AffectedKeys(t: Tables) {
    && (forall x :: x in t.affected ==> x.advisory in t.advisories && x.id.advisory == x.advisory)
    && (forall x, y :: x in t.affected && y in t.affected && x.id == y.id ==> x == y)
  }

  ghost predicate RangeKeys(t: Tables) {
    && (forall x :: x in t.ranges ==> x.id == RangeId(x.affected, x.ordinal))
    && (forall x :: x in t.ranges ==> exists y :: y in t.affected && y.id == x.affected)
    && (forall x, y :: x in t.ranges && y in t.ranges && x.id == y.id ==> x == y)
  }

  ghost predicate ImportKeys(text: Text, t: Tables) {
    forall i, j :: 0 <= i < j < |t.imports| ==>
      !(text.lower(t.imports[i].source) == text.lower(t.imports[j].source)
        && t.imports[i].version == t.imports[j].version && t.imports[i].checksum == t.imports[j].checksum)
  }

  /** Every primary, unique and foreign key of the advisory tables holds. */
  ghost predicate WellFormed(text: Text, t: Tables) {
    AdvisoryKeys(text, t) && ChildKeys(t) && AffectedKeys(t) && RangeKeys(t) && ImportKeys(text, t)
  }

  /** `UNIQUE (source, source_record_id)` follows from the advisory id being their digest. */
  lemma SourceRecordIsUnique(text: Text, t: Tables, a: AdvisoryId, b: AdvisoryId)
    requires AdvisoryKeys(text, t) && a in t.advisories && b in t.advisories
    requires t.advisories[a].source == t.advisories[b].source
    requires t.advisories[a].sourceRecordId == t.advisories[b].sourceRecordId
    ensures a == b
  {
    assert a == AdvisoryIdFor(text, t.advisories[a].source, t.advisories[a].sourceRecordId);
  }

  lemma UpsertRecordKeepsChildren(text: Text, t: Tables, catalog: Catalog, record: Record, importId: nat)
    requires AdvisoryKeys(text, t) && ChildKeys(t) && AffectedKeys(t) && importId < |t.imports|
    ensures
      var after := UpsertRecord(text, t, catalog, record, importId);
      AdvisoryKeys(text, after) && ChildKeys(after) && AffectedKeys(after)
  {
    hide ImportKeys, RangeKeys, RangeRows, Identity, CanonicalIdentifier;
  }

  lemma UpsertRecordKeepsRanges(text: Text, t: Tables, catalog: Catalog, record: Record, importId: nat)
    requires AffectedKeys(t) && RangeKeys(t)
    ensures RangeKeys(UpsertRecord(text, t, catalog, record, importId))
  {
    hide ImportKeys, ChildKeys, AdvisoryKeys, AliasRows, ReferenceRows, Identity, CanonicalIdentifier;
    var a := AdvisoryIdFor(text, catalog.sourceName, record.id);
    var after := UpsertRecord(text, t, catalog, record, importId);
    forall x | x in after.ranges ensures exists y :: y in after.affected && y.id == x.affected {
      if x in t.ranges && x.affected.advisory != a {
        var y :| y in t.affected && y.id == x.affected;
        assert y in after.affected;
      } else {
        var i, j :| 0 <= i < |record.affected| && 0 <= j < |record.affected[i].ranges| && x == RangeRowAt(text, a, record, i, j);
        assert AffectedRowAt(text, a, record, i) in after.affected;
      }
    }
  }

  lemma UpsertRecordKeepsKeys(text: Text, t: Tables, catalog: Catalog, record: Record, importId: nat)
    requires WellFormed(text, t) && importId < |t.imports|
    ensures WellFormed(text, UpsertRecord(text, t, catalog, record, importId))
    ensures UpsertRecord(text, t, catalog, record, importId).imports == t.imports
  {
    hide AdvisoryKeys, ChildKeys, AffectedKeys, RangeKeys, AliasRows, ReferenceRows, AffectedRows, RangeRows;
    UpsertRecordKeepsChildren(text, t, catalog, record, importId);
    UpsertRecordKeepsRanges(text, t, catalog, record, importId);
  }

  lemma {:induction false} UpsertAllKeepsKeys(text: Text, t: Tables, catalog: Catalog, importId: nat, count: nat)
    requires WellFormed(text, t) && importId < |t.imports| && count <= |catalog.advisories|
    ensures WellFormed(text, UpsertAll(text, t, catalog, importId, count))
    ensures UpsertAll(text, t, catalog, importId, count).imports == t.imports
  {
    hide UpsertRecord, WellFormed;
    if count > 0 {
      UpsertAllKeepsKeys(text, t, catalog, importId, count - 1);
      UpsertRecordKeepsKeys(text, UpsertAll(text, t, catalog, importId, count - 1), catalog, catalog.advisories[count - 1], importId);
    }
  }

  lemma PrepareKeepsKeys(text: Text, t: Tables, catalog: Catalog, checksum: Digest<Catalog>)
    requires WellFormed(text, t)
    ensures WellFormed(text, Prepare(text, t, catalog, checksum).0)
  {
    assert ImportKeys(text, Prepare(text, t, catalog, checksum).0);
  }

  lemma SweepKeepsKeys(text: Text, t: Tables, sourceName: string, imported: set<AdvisoryId>)
    requires WellFormed(text, t)
    ensures WellFormed(text, Sweep(text, t, sourceName, imported))
  {
  }

  /** An import keeps every key constraint, from any table state that satisfies them. */
  lemma ImportKeepsKeys(text: Text, t: Tables, catalog: Catalog, checksum: Digest<Catalog>, reactivate: bool)
    requires WellFormed(text, t)
    ensures WellFormed(text, Import(text, t, catalog, checksum, reactivate))
  {
    hide WellFormed, UpsertAll, Sweep;
    if FindImport(text, t.imports, catalog, checksum).None? || reactivate {
      var (prepared, importId) := Prepare(text, t, catalog, checksum);
      PrepareKeepsKeys(text, t, catalog, checksum);
      UpsertAllKeepsKeys(text, prepared, catalog, importId, |catalog.advisories|);
      SweepKeepsKeys(text, UpsertAll(text, prepared, catalog, importId, |catalog.advisories|), catalog.sourceName, CatalogIds(text, catalog));
    }
  }

  /* ---------- What a reader sees ---------- */

  /** Everything stored about one advisory that its catalog record determines. Left out: the update time,
      the import that last wrote the row, the catalog's source version, and the columns that keep
      their first values. */
  datatype AdvisoryView = AdvisoryView(
    current: bool, facts: Facts, checksum: Digest<Record>,
    aliases: set<AliasRow>, references: set<ReferenceRow>, affected: set<AffectedRow>, ranges: set<RangeRow>)

  ghost function View(t: Tables, a: AdvisoryId): Option<AdvisoryView> {
    if a !in t.advisories then
      None
    else
      Some(AdvisoryView(
             t.advisories[a].current, t.advisories[a].facts, t.advisories[a].checksum,
             set x | x in t.aliases && x.advisory == a,
             set x | x in t.references && x.advisory == a,
             set x | x in t.affected && x.advisory == a,
             set x | x in t.ranges && x.affected.advisory == a))
  }

  ghost function RecordView(text: Text, a: AdvisoryId, record: Record): AdvisoryView {
    AdvisoryView(true, record.facts, Sha256(record), AliasRows(a, record), ReferenceRows(a, record),
                 AffectedRows(text, a, record, |record.affected|), RangeRows(text, a, record, |record.affected|))
  }

  ghost function Retired(view: Option<AdvisoryView>): Option<AdvisoryView> {
    if view.Some? then Some(view.value.(current := false)) else None
  }

  /** Upserting a record makes its own view exactly the record's, and touches no other advisory. */
  lemma UpsertRecordView(text: Text, t: Tables, catalog: Catalog, record: Record, importId: nat, x: AdvisoryId)
    requires WellFormed(text, t)
    ensures
      var a := AdvisoryIdFor(text, catalog.sourceName, record.id);
      View(UpsertRecord(text, t, catalog, record, importId), x)
      == if x == a then Some(RecordView(text, a, record)) else View(t, x)
  {
    var a := AdvisoryIdFor(text, catalog.sourceName, record.id);
    var after := UpsertRecord(text, t, catalog, record, importId);
    var row := UpsertedRow(Lookup(t.advisories, a), catalog.sourceName, catalog.sourceVersion, record, importId);
    var cleared := WithoutChildren(t.(advisories := t.advisories[a := row]), a);
    forall r | r in t.ranges ensures r in cleared.ranges <==> r.affected.advisory != a {
      var y :| y in t.affected && y.id == r.affected;
      assert y.advisory == r.affected.advisory;
    }
    if x in after.advisories {
      var expected := if x == a then RecordView(text, a, record) else View(t, x).value;
      var actual := View(after, x).value;
      assert actual.aliases == expected.aliases;
      assert actual.references == expected.references;
      assert actual.affected == expected.affected;
      assert actual.ranges == expected.ranges;
    }
  }

  lemma UpsertStepView(text: Text, t: Tables, catalog: Catalog, importId: nat, count: nat, x: AdvisoryId)
    requires WellFormed(text, t) && importId < |t.imports| && count < |catalog.advisories|
    ensures
      View(UpsertAll(text, t, catalog, importId, count + 1), x)
      == if x == AdvisoryIdFor(text, catalog.sourceName, catalog.advisories[count].id)
         then Some(RecordView(text, x, catalog.advisories[count]))
         else View(UpsertAll(text, t, catalog, importId, count), x)
  {
    UpsertAllKeepsKeys(text, t, catalog, importId, count);
    UpsertRecordView(text, UpsertAll(text, t, catalog, importId, count), catalog, catalog.advisories[count], importId, x);
  }

  lemma {:induction false} UpsertAllMisses(text: Text, t: Tables, catalog: Catalog, importId: nat, count: nat, x: AdvisoryId)
    requires WellFormed(text, t) && importId < |t.imports| && count <= |catalog.advisories|
    requires forall i :: 0 <= i < count ==> x != AdvisoryIdFor(text, catalog.sourceName, catalog.advisories[i].id)
    ensures View(UpsertAll(text, t, catalog, importId, count), x) == View(t, x)
  {
    hide UpsertRecord, AdvisoryIdFor;
    if count > 0 {
      UpsertAllMisses(text, t, catalog, importId, count - 1, x);
      UpsertStepView(text, t, catalog, importId, count - 1, x);
    }
  }

  /** A later record of the same catalog has another id, so it cannot overwrite an earlier one. */
  lemma {:induction false} UpsertAllHits(text: Text, t: Tables, catalog: Catalog, importId: nat, count: nat, i: nat, x: AdvisoryId)
    requires WellFormed(text, t) && importId < |t.imports|
    requires i < count <= |catalog.advisories| && DistinctIds(text, catalog.advisories)
    requires x == AdvisoryIdFor(text, catalog.sourceName, catalog.advisories[i].id)
    ensures View(UpsertAll(text, t, catalog, importId, count), x) == Some(RecordView(text, x, catalog.advisories[i]))
  {
    hide WellFormed, View, RecordView, UpsertRecord;
    UpsertStepView(text, t, catalog, importId, count - 1, x);
    if i < count - 1 {
      UpsertAllHits(text, t, catalog, importId, count - 1, i, x);
      assert text.casefold(catalog.advisories[i].id) != text.casefold(catalog.advisories[count - 1].id);
    }
  }

  /** Whether the row of `x`, if any, belongs to the named source up to case. */
  predicate RowOfSource(text: Text, t: Tables, x: AdvisoryId, sourceName: string) {
    x in t.advisories && text.lower(t.advisories[x].source) == text.lower(sourceName)
  }

  /** What an import shows, for every advisory id: an imported id shows exactly its record, an id of the
      same source that was not imported is retired, and every other id shows what it showed before. */
  lemma ImportView(text: Text, t: Tables, catalog: Catalog, checksum: Digest<Catalog>, x: AdvisoryId)
    requires WellFormed(text, t) && ValidCatalog(text, catalog)
    ensures
      var after := View(Import(text, t, catalog, checksum, true), x);
      && (forall i :: 0 <= i < |catalog.advisories| && x == AdvisoryIdFor(text, catalog.sourceName, catalog.advisories[i].id)
                      ==> after == Some(RecordView(text, x, catalog.advisories[i])))
      && (x !in CatalogIds(text, catalog) ==>
            after == if RowOfSource(text, t, x, catalog.sourceName) then Retired(View(t, x)) else View(t, x))
  {
    var (prepared, importId) := Prepare(text, t, catalog, checksum);
    PrepareKeepsKeys(text, t, catalog, checksum);
    assert View(prepared, x) == View(t, x);
    var n := |catalog.advisories|;
    var upserted := UpsertAll(text, prepared, catalog, importId, n);
    UpsertAllSources(text, prepared, catalog, importId, n, x);
    SweepView(text, upserted, catalog.sourceName, CatalogIds(text, catalog), x);
    forall i | 0 <= i < n && x == AdvisoryIdFor(text, catalog.sourceName, catalog.advisories[i].id)
      ensures View(Import(text, t, catalog, checksum, true), x) == Some(RecordView(text, x, catalog.advisories[i]))
    {
      UpsertAllHits(text, prepared, catalog, importId, n, i, x);
      RecordIdInCatalog(text, catalog, i);
    }
    if x !in CatalogIds(text, catalog) {
      forall i | 0 <= i < n ensures x != AdvisoryIdFor(text, catalog.sourceName, catalog.advisories[i].id) {
        RecordIdInCatalog(text, catalog, i);
      }
      UpsertAllMisses(text, prepared, catalog, importId, n, x);
    }
  }

  lemma SweepView(text: Text, t: Tables, sourceName: string, imported: set<AdvisoryId>, x: AdvisoryId)
    ensures View(Sweep(text, t, sourceName, imported), x)
         == if RowOfSource(text, t, x, sourceName) && x !in imported then Retired(View(t, x)) else View(t, x)
  {
  }

  lemma UpsertRecordSource(text: Text, t: Tables, catalog: Catalog, record: Record, importId: nat, x: AdvisoryId)
    ensures
      var after := UpsertRecord(text, t, catalog, record, importId);
      && (x in after.advisories <==> x in t.advisories || x == AdvisoryIdFor(text, catalog.sourceName, record.id))
      && (x in t.advisories ==> after.advisories[x].source == t.advisories[x].source)
      && (x in after.advisories && x !in t.advisories ==> after.advisories[x].source == catalog.sourceName)
  {
    hide AliasRows, ReferenceRows, AffectedRows, RangeRows, AdvisoryIdFor;
  }

  /** A row keeps the source it was first written with. */
  lemma {:induction false} UpsertAllSources(text: Text, t: Tables, catalog: Catalog, importId: nat, count: nat, x: AdvisoryId)
    requires count <= |catalog.advisories|
    ensures
      var after := UpsertAll(text, t, catalog, importId, count);
      && (x in t.advisories ==> x in after.advisories && after.advisories[x].source == t.advisories[x].source)
      && (x in after.advisories && x !in t.advisories ==> after.advisories[x].source == catalog.sourceName)
      && (x in after.advisories && x !in t.advisories ==>
            exists i :: 0 <= i < count && x == AdvisoryIdFor(text, catalog.sourceName, catalog.advisories[i].id))
  {
    hide UpsertRecord, AdvisoryIdFor;
    if count > 0 {
      var before := UpsertAll(text, t, catalog, importId, count - 1);
      UpsertAllSources(text, t, catalog, importId, count - 1, x);
      UpsertRecordSource(text, before, catalog, catalog.advisories[count - 1], importId, x);
    }
  }
}
