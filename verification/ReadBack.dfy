/** Reading the advisory tables back: what the rows of an advisory say, list by list and in order, and that it is what
    its catalog record says. */
module ReadBack {
  import opened Prelude
  import opened Catalogs
  import opened CatalogDiffs
  import opened AdvisoryTables
  import opened SyncState
  import opened Matching
  import opened Lifecycle
  import opened RunInvariants
  import opened TableInvariants
  import opened CurrentImports

  /** An affected component as a reader puts it together from its row and its ranges. */
  datatype ReadComponent = ReadComponent(
    ecosystem: string, namespace: Option<string>, vendor: Option<string>, name: string, normalizedName: string,
    identifier: Option<string>, exactVersions: seq<string>, fixedVersions: seq<string>,
    architectures: seq<string>, platforms: seq<string>, ranges: seq<VersionRange>)

  datatype ReadAdvisory = ReadAdvisory(
    current: bool, facts: Facts, aliases: set<string>, references: seq<Reference>, components: seq<ReadComponent>)

  /* ---------- The reader ---------- */

  /** The one row of a set with this ordinal. */
  ghost predicate HasReference(view: AdvisoryView, i: nat, reference: Reference) {
    exists row :: row in view.references && row.ordinal == i && row.reference == reference
  }

  ghost predicate HasRange(view: AdvisoryView, i: nat, j: nat, range: VersionRange) {
    exists row :: row in view.ranges && row.affected.ordinal == i && row.ordinal == j && row.range == range
  }

  /** The query's columns of the component with ordinal `i`. */
  ghost predicate HasComponent(view: AdvisoryView, i: nat, read: ReadComponent) {
    exists row :: row in view.affected && row.id.ordinal == i
      && row.component.ecosystem == read.ecosystem && row.component.namespace == read.namespace && row.component.vendor == read.vendor
      && row.component.name == read.name && row.component.normalizedName == read.normalizedName
      && row.component.canonicalIdentifier == read.identifier
      && row.component.exactVersions == read.exactVersions && row.component.fixedVersions == read.fixedVersions
      && row.component.architectures == read.architectures && row.component.platforms == read.platforms
  }

  /** `read` is what the rows of the view say: every list entry is the row with its ordinal, and there are no other
      rows. */
  ghost predicate Reads(view: AdvisoryView, read: ReadAdvisory) {
    && read.current == view.current && read.facts == view.facts
    && read.aliases == (set row | row in view.aliases :: row.alias)
    && (forall i :: 0 <= i < |read.references| ==> HasReference(view, i, read.references[i]))
    && (forall row :: row in view.references ==> row.ordinal < |read.references| && read.references[row.ordinal] == row.reference)
    && (forall i :: 0 <= i < |read.components| ==> HasComponent(view, i, read.components[i]))
    && (forall row :: row in view.affected ==> row.id.ordinal < |read.components|)
    && (forall row, other :: row in view.affected && other in view.affected && row.id.ordinal == other.id.ordinal ==> row == other)
    && (forall i, j :: 0 <= i < |read.components| && 0 <= j < |read.components[i].ranges| ==> HasRange(view, i, j, read.components[i].ranges[j]))
    && (forall row :: row in view.ranges ==>
          && row.affected.ordinal < |read.components| && row.ordinal < |read.components[row.affected.ordinal].ranges|
          && read.components[row.affected.ordinal].ranges[row.ordinal] == row.range)
  }

  /** Each list of one reading is no longer than that of another. */
  lemma NoLonger(view: AdvisoryView, one: ReadAdvisory, two: ReadAdvisory)
    requires Reads(view, one) && Reads(view, two)
    ensures |one.references| <= |two.references| && |one.components| <= |two.components|
  {
    var n, m := |one.references|, |one.components|;
    assert n > 0 ==> HasReference(view, n - 1, one.references[n - 1]);
    assert m > 0 ==> HasComponent(view, m - 1, one.components[m - 1]);
  }

  lemma NoMoreRanges(view: AdvisoryView, one: ReadAdvisory, two: ReadAdvisory, i: nat)
    requires Reads(view, one) && Reads(view, two) && i < |one.components| && i < |two.components|
    ensures |one.components[i].ranges| <= |two.components[i].ranges|
  {
    var n := |one.components[i].ranges|;
    assert n > 0 ==> HasRange(view, i, n - 1, one.components[i].ranges[n - 1]);
  }

  lemma SameComponent(view: AdvisoryView, one: ReadAdvisory, two: ReadAdvisory, i: nat)
    requires Reads(view, one) && Reads(view, two) && i < |one.components| && i < |two.components|
    ensures one.components[i] == two.components[i]
  {
    var a, b := one.components[i], two.components[i];
    NoMoreRanges(view, one, two, i);
    NoMoreRanges(view, two, one, i);
    assert HasComponent(view, i, a) && HasComponent(view, i, b);
    forall j | 0 <= j < |a.ranges| ensures a.ranges[j] == b.ranges[j] {
      assert HasRange(view, i, j, a.ranges[j]);
    }
    assert a.ranges == b.ranges;
  }

  /** Rows are read in one way only. */
  lemma ReadsOnce(view: AdvisoryView, one: ReadAdvisory, two: ReadAdvisory)
    requires Reads(view, one) && Reads(view, two)
    ensures one == two
  {
    NoLonger(view, one, two);
    NoLonger(view, two, one);
    forall i | 0 <= i < |one.references| ensures one.references[i] == two.references[i] {
      assert HasReference(view, i, one.references[i]);
    }
    forall i | 0 <= i < |one.components| ensures one.components[i] == two.components[i] {
      SameComponent(view, one, two, i);
    }
    assert one.references == two.references && one.components == two.components;
  }

  /* ---------- The record ---------- */

  /** The identifier column: the package URL identity, where there is a nonempty one. */
  function IdentifierOf(text: Text, item: Affected): Option<string> {
    if item.identifier == None || item.identifier == Some("") then None
    else if text.purlIdentity(item.identifier.value) == Some("") then None
    else text.purlIdentity(item.identifier.value)
  }

  /** What a record says of its `i`-th component. */
  ghost predicate SaysComponent(text: Text, item: Affected, read: ReadComponent) {
    && read.ecosystem == item.ecosystem && read.namespace == item.namespace && read.vendor == item.vendor
    && read.name == item.name && read.normalizedName == text.token(item.name) && read.identifier == IdentifierOf(text, item)
    && read.exactVersions == item.exactVersions && read.fixedVersions == item.fixedVersions
    && read.architectures == item.architectures && read.platforms == item.platforms && read.ranges == item.ranges
  }

  ghost predicate SaysRecord(text: Text, record: Record, read: ReadAdvisory) {
    && read.current && read.facts == record.facts && read.aliases == ToSet(record.aliases) && read.references == record.references
    && |read.components| == |record.affected|
    && forall i :: 0 <= i < |record.affected| ==> SaysComponent(text, record.affected[i], read.components[i])
  }

  function SaidOf(text: Text, item: Affected): ReadComponent {
    ReadComponent(item.ecosystem, item.namespace, item.vendor, item.name, text.token(item.name), IdentifierOf(text, item),
                  item.exactVersions, item.fixedVersions, item.architectures, item.platforms, item.ranges)
  }

  function SaidBy(text: Text, record: Record): ReadAdvisory {
    ReadAdvisory(true, record.facts, ToSet(record.aliases), record.references,
                 seq(|record.affected|, i requires 0 <= i < |record.affected| => SaidOf(text, record.affected[i])))
  }

  lemma ReferencesReadBack(text: Text, a: AdvisoryId, record: Record)
    ensures
      var view, read := RecordView(text, a, record), SaidBy(text, record);
      && read.aliases == (set row | row in view.aliases :: row.alias)
      && (forall i :: 0 <= i < |read.references| ==> HasReference(view, i, read.references[i]))
      && (forall row :: row in view.references ==> row.ordinal < |read.references| && read.references[row.ordinal] == row.reference)
  {
    hide AffectedRows, RangeRows;
    var view, read := RecordView(text, a, record), SaidBy(text, record);
    forall alias | alias in read.aliases ensures exists row :: row in view.aliases && row.alias == alias {
      var i :| 0 <= i < |record.aliases| && record.aliases[i] == alias;
      assert AliasRow(a, record.aliases[i]) in view.aliases;
    }
    forall i | 0 <= i < |read.references| ensures HasReference(view, i, read.references[i]) {
      assert ReferenceRow(a, i, record.references[i]) in view.references;
    }
  }

  lemma ComponentsReadBack(text: Text, a: AdvisoryId, record: Record)
    ensures
      var view, read := RecordView(text, a, record), SaidBy(text, record);
      && (forall i :: 0 <= i < |read.components| ==> HasComponent(view, i, read.components[i]))
      && (forall row :: row in view.affected ==> row.id.ordinal < |read.components|)
      && (forall row, other :: row in view.affected && other in view.affected && row.id.ordinal == other.id.ordinal ==> row == other)
  {
    hide AliasRows, ReferenceRows, RangeRows, Identity;
    var view, read := RecordView(text, a, record), SaidBy(text, record);
    forall i | 0 <= i < |read.components| ensures HasComponent(view, i, read.components[i]) {
      assert AffectedRowAt(text, a, record, i) in view.affected;
    }
  }

  lemma RangesReadBack(text: Text, a: AdvisoryId, record: Record)
    ensures
      var view, read := RecordView(text, a, record), SaidBy(text, record);
      && (forall i, j :: 0 <= i < |read.components| && 0 <= j < |read.components[i].ranges| ==> HasRange(view, i, j, read.components[i].ranges[j]))
      && (forall row :: row in view.ranges ==>
            && row.affected.ordinal < |read.components| && row.ordinal < |read.components[row.affected.ordinal].ranges|
            && read.components[row.affected.ordinal].ranges[row.ordinal] == row.range)
  {
    hide AliasRows, ReferenceRows, AffectedRows, Identity, CanonicalIdentifier, IdentifierOf;
    var view, read := RecordView(text, a, record), SaidBy(text, record);
    forall i, j | 0 <= i < |read.components| && 0 <= j < |read.components[i].ranges| ensures HasRange(view, i, j, read.components[i].ranges[j]) {
      assert RangeRowAt(text, a, record, i, j) in view.ranges;
    }
  }

  /** What was written for a record reads back as the record. */
  lemma RecordReadsBack(text: Text, a: AdvisoryId, record: Record)
    ensures exists read :: Reads(RecordView(text, a, record), read) && SaysRecord(text, record, read)
  {
    ReferencesReadBack(text, a, record);
    ComponentsReadBack(text, a, record);
    RangesReadBack(text, a, record);
    hide AliasRows, ReferenceRows, AffectedRows, RangeRows, IdentifierOf, HasReference, HasComponent, HasRange;
    assert Reads(RecordView(text, a, record), SaidBy(text, record));
  }

  /* ---------- After an import ---------- */

  /** The tables hold rows of `a`, and they read back as the record. */
  ghost predicate ShowsRecord(text: Text, t: Tables, a: AdvisoryId, record: Record) {
    View(t, a).Some? && exists read :: Reads(View(t, a).value, read) && SaysRecord(text, record, read)
  }

  /** After any import, every record of the catalog reads back. */
  lemma ImportReadsBack(text: Text, t: Tables, catalog: Catalog, checksum: Digest<Catalog>, i: nat)
    requires WellFormed(text, t) && ValidCatalog(text, catalog) && i < |catalog.advisories|
    ensures ShowsRecord(text, Import(text, t, catalog, checksum, true), AdvisoryIdFor(text, catalog.sourceName, catalog.advisories[i].id), catalog.advisories[i])
  {
    hide Import, WellFormed, ValidCatalog, View, RecordView, Reads, SaysRecord, AdvisoryIdFor;
    var a := AdvisoryIdFor(text, catalog.sourceName, catalog.advisories[i].id);
    ImportView(text, t, catalog, checksum, a);
    RecordReadsBack(text, a, catalog.advisories[i]);
  }

  lemma ActiveIsVerified(feeds: Feeds, s: System, source: SourceId)
    requires Inv(feeds, s) && ActiveContent(s.db.catalogs, s.db.log, source).Some?
    ensures
      var active := ActiveContent(s.db.catalogs, s.db.log, source).value;
      ValidCatalog(feeds.text, active) && active.sourceName == feeds.nameOf(source)
  {
    hide Inv, LogRefs, LogChain, FlagsAgree, ValidCatalog, LastOf;
    InvHasRefs(feeds, s);
    LastIsOfSource(s.db.catalogs, s.db.log, source);
    RetainedIsVerified(feeds, s, LastOf(s.db.log, |s.db.log|, source).value);
  }

  lemma LastIsOfSource(catalogs: seq<CatalogRow>, log: seq<Activation>, source: SourceId)
    requires LogRefs(catalogs, log) && LastOf(log, |log|, source).Some?
    ensures LastOf(log, |log|, source).value < |catalogs| && catalogs[LastOf(log, |log|, source).value].source == source
  {
    LastOfIsLogged(log, |log|, source);
  }

  /** In every reachable state, every record of a source's active catalog reads back from the tables: its facts,
      aliases, references, components with all their lists, and ranges. */
  lemma {:induction false} ReachableReads(feeds: Feeds, matcher: Matcher, actions: seq<Action>, source: SourceId, i: nat)
    requires DistinctNames(feeds)
    ensures
      var db := Exec(feeds, matcher, actions).db;
      var active := ActiveContent(db.catalogs, db.log, source);
      active.Some? && i < |active.value.advisories| ==>
        ShowsRecord(feeds.text, db.tables, AdvisoryIdFor(feeds.text, feeds.nameOf(source), active.value.advisories[i].id), active.value.advisories[i])
  {
    hide Exec, Inv, DistinctNames, ActiveContent, ById, View, RecordView, Reads, SaysRecord, WellFormed, RowsOwned, ValidRecord;
    ReachableTables(feeds, matcher, actions);
    ReachableInv(feeds, matcher, actions);
    var db := Exec(feeds, matcher, actions).db;
    var active := ActiveContent(db.catalogs, db.log, source);
    if active.Some? && i < |active.value.advisories| {
      ActiveIsVerified(feeds, Exec(feeds, matcher, actions), source);
      var record := active.value.advisories[i];
      var a := AdvisoryIdFor(feeds.text, feeds.nameOf(source), record.id);
      IndexHoldsRecords(feeds.text, active.value.advisories);
      assert IndexedAs(feeds.text, Index(feeds.text, active), record);
      assert OwnedId(feeds, source, a);
      assert Agrees(feeds.text, db.tables, active, a);
      RecordReadsBack(feeds.text, a, record);
    }
  }

  /* ---------- The row of an advisory, and of an import ---------- */

  /** The source and the record id of a row are those of its first import; everything else is of the last one. */
  lemma {:induction false} RowOrigins(text: Text, t: Tables, catalog: Catalog, importId: nat, count: nat, x: AdvisoryId)
    requires count <= |catalog.advisories|
    ensures
      var after := UpsertAll(text, t, catalog, importId, count);
      && (x in t.advisories ==>
            && x in after.advisories && after.advisories[x].source == t.advisories[x].source
            && after.advisories[x].sourceRecordId == t.advisories[x].sourceRecordId)
      && (x in after.advisories && x !in t.advisories ==>
            && after.advisories[x].source == catalog.sourceName
            && exists i :: 0 <= i < count && x == AdvisoryIdFor(text, catalog.sourceName, catalog.advisories[i].id)
                           && after.advisories[x].sourceRecordId == catalog.advisories[i].id)
  {
    hide UpsertRecord, AdvisoryIdFor;
    if count > 0 {
      var before := UpsertAll(text, t, catalog, importId, count - 1);
      RowOrigins(text, t, catalog, importId, count - 1, x);
      RowOrigin(text, before, catalog, catalog.advisories[count - 1], importId, x);
    }
  }

  lemma RowOrigin(text: Text, t: Tables, catalog: Catalog, record: Record, importId: nat, x: AdvisoryId)
    ensures
      var after := UpsertRecord(text, t, catalog, record, importId);
      && (x in t.advisories ==>
            && x in after.advisories && after.advisories[x].source == t.advisories[x].source
            && after.advisories[x].sourceRecordId == t.advisories[x].sourceRecordId)
      && (x in after.advisories && x !in t.advisories ==>
            && x == AdvisoryIdFor(text, catalog.sourceName, record.id)
            && after.advisories[x].source == catalog.sourceName && after.advisories[x].sourceRecordId == record.id)
  {
    hide AliasRows, ReferenceRows, AffectedRows, RangeRows, AdvisoryIdFor;
  }

  /** The tables know the snapshot: an import row has its version and checksum, and its source up to `LOWER`. */
  ghost predicate Knows(text: Text, t: Tables, catalog: Catalog, checksum: Digest<Catalog>) {
    exists k :: 0 <= k < |t.imports| && text.lower(t.imports[k].source) == text.lower(catalog.sourceName)
                && t.imports[k].version == catalog.version && t.imports[k].checksum == checksum
  }

  /** An import of a snapshot that is known adds no import row, and is left out altogether unless it is to be
      reactivated; of any other snapshot it adds one row, which describes the catalog. */
  lemma ImportRows(text: Text, t: Tables, catalog: Catalog, checksum: Digest<Catalog>, reactivate: bool)
    ensures
      var after := Import(text, t, catalog, checksum, reactivate);
      if Knows(text, t, catalog, checksum) then after.imports == t.imports && (!reactivate ==> after == t)
      else
        && |after.imports| == |t.imports| + 1 && after.imports[..|t.imports|] == t.imports
        && var row := after.imports[|t.imports|];
           && row.source == catalog.sourceName && row.version == catalog.version && row.sourceVersion == catalog.sourceVersion
           && row.license == catalog.license && row.checksum == checksum && row.advisoryCount == |catalog.advisories|
  {
    hide UpsertAll, FindImport;
    var found := FindImport(text, t.imports, catalog, checksum);
    assert Knows(text, t, catalog, checksum) <==> found.Some? by {
      if Knows(text, t, catalog, checksum) {
        var k :| 0 <= k < |t.imports| && text.lower(t.imports[k].source) == text.lower(catalog.sourceName)
                 && t.imports[k].version == catalog.version && t.imports[k].checksum == checksum;
        assert SameImport(text, t.imports[k], catalog, checksum);
      }
    }
    if found.None? || reactivate {
      var (prepared, importId) := Prepare(text, t, catalog, checksum);
      UpsertedRows(text, prepared, catalog, importId, |catalog.advisories|, AdvisoryIdFor(text, "", ""));
    }
  }
}
