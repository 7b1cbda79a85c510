/** What readers of the advisory tables see over a run: a source's view is a function of its active catalog,
    so rolling back restores it exactly, and nothing another source does can change it. */
module Restoration {
  import opened Prelude
  import opened Catalogs
  import opened CatalogDiffs
  import opened AdvisoryTables
  import opened SyncState
  import opened Matching
  import opened Lifecycle
  import opened RunInvariants
  import opened TableInvariants
  import opened RunTheorems

  /** What the matcher's query shows of an advisory: nothing unless it is current. */
  ghost function Shown(t: Tables, a: AdvisoryId): Option<AdvisoryView> {
    var view := View(t, a);
    if view.Some? && view.value.current then view else None
  }

  ghost function CatalogShows(text: Text, active: Option<Catalog>, a: AdvisoryId): Option<AdvisoryView> {
    var records := Index(text, active);
    if a.record in records then Some(RecordView(text, a, records[a.record])) else None
  }

  /** In every reachable state, the current advisories of a source, with their aliases, references, affected
      components and ranges, are exactly the records of its active catalog. */
  lemma {:induction false} ShownIsActive(feeds: Feeds, matcher: Matcher, actions: seq<Action>, source: SourceId, a: AdvisoryId)
    requires DistinctNames(feeds) && OwnedId(feeds, source, a)
    ensures
      var db := Exec(feeds, matcher, actions).db;
      Shown(db.tables, a) == CatalogShows(feeds.text, ActiveContent(db.catalogs, db.log, source), a)
  {
    ReachableTables(feeds, matcher, actions);
    hide Exec, WellFormed, RowsOwned, DistinctNames, Index, ActiveContent, View, RecordView;
    var db := Exec(feeds, matcher, actions).db;
    assert Agrees(feeds.text, db.tables, ActiveContent(db.catalogs, db.log, source), a);
    RecordViewIsCurrent(feeds.text, a);
  }

  lemma RecordViewIsCurrent(text: Text, a: AdvisoryId)
    ensures forall record :: RecordView(text, a, record).current
  {
  }

  /** Rolling back restores: whenever the same catalog is active again, however much was activated and rolled
      back in between, every advisory of the source shows exactly what it showed before. */
  lemma RollbackRestores(feeds: Feeds, matcher: Matcher, actions: seq<Action>, more: seq<Action>, source: SourceId, a: AdvisoryId)
    requires DistinctNames(feeds) && OwnedId(feeds, source, a)
    requires
      var db, db' := Exec(feeds, matcher, actions).db, Exec(feeds, matcher, actions + more).db;
      ActiveCatalog(db'.catalogs, source) == ActiveCatalog(db.catalogs, source)
    ensures
      var db, db' := Exec(feeds, matcher, actions).db, Exec(feeds, matcher, actions + more).db;
      Shown(db'.tables, a) == Shown(db.tables, a)
  {
    hide *;
    ShownIsActive(feeds, matcher, actions, source, a);
    ShownIsActive(feeds, matcher, actions + more, source, a);
    SameActiveContent(feeds, matcher, actions, more, source);
  }

  lemma SameActiveContent(feeds: Feeds, matcher: Matcher, actions: seq<Action>, more: seq<Action>, source: SourceId)
    requires
      var db, db' := Exec(feeds, matcher, actions).db, Exec(feeds, matcher, actions + more).db;
      ActiveCatalog(db'.catalogs, source) == ActiveCatalog(db.catalogs, source)
    ensures
      var db, db' := Exec(feeds, matcher, actions).db, Exec(feeds, matcher, actions + more).db;
      ActiveContent(db'.catalogs, db'.log, source) == ActiveContent(db.catalogs, db.log, source)
  {
    hide Exec, Inv, ActiveCatalog, LastOf, LogRefs, LogChain, FlagsAgree;
    var s, s' := Exec(feeds, matcher, actions), Exec(feeds, matcher, actions + more);
    HistoryStays(feeds, matcher, actions, more);
    ReachableInv(feeds, matcher, actions);
    ReachableInv(feeds, matcher, actions + more);
    InvHasRefs(feeds, s);
    InvHasRefs(feeds, s');
    ActiveIsLast(s.db.catalogs, s.db.log, source);
    ActiveIsLast(s'.db.catalogs, s'.db.log, source);
    if LastOf(s.db.log, |s.db.log|, source).Some? {
      LastOfIsRef(s.db.catalogs, s.db.log, |s.db.log|, source);
    }
  }

  /** A step that appends no log entry of the source leaves all its advisories as they were, retired rows included. */
  lemma OthersAreSpared(feeds: Feeds, matcher: Matcher, actions: seq<Action>, action: Action, source: SourceId, a: AdvisoryId)
    requires DistinctNames(feeds) && OwnedId(feeds, source, a)
    ensures
      var s := Exec(feeds, matcher, actions);
      var s' := Next(feeds, matcher, s, action);
      (|s'.db.log| > |s.db.log| ==> s'.db.log[|s.db.log|].source != source) ==> View(s'.db.tables, a) == View(s.db.tables, a)
  {
    hide *;
    ReachableInv(feeds, matcher, actions);
    ReachableTables(feeds, matcher, actions);
    var s := Exec(feeds, matcher, actions);
    StepSpares(feeds, matcher, s, action, source, a);
  }

  lemma StepSpares(feeds: Feeds, matcher: Matcher, s: System, action: Action, source: SourceId, a: AdvisoryId)
    requires DistinctNames(feeds) && OwnedId(feeds, source, a) && Inv(feeds, s) && TableInv(feeds, s.db)
    ensures
      var s' := Next(feeds, matcher, s, action);
      (|s'.db.log| > |s.db.log| ==> s'.db.log[|s.db.log|].source != source) ==> View(s'.db.tables, a) == View(s.db.tables, a)
  {
    hide Inv, TableInv, Next, IsSwitch, View, DistinctNames, OwnedId, Import, EntryFor, SameContents;
    var s' := Next(feeds, matcher, s, action);
    StepShape(feeds, matcher, s, action);
    if !Still(s.db, s'.db) {
      var kind, c: CatalogId, now :| IsSwitch(feeds, s, s', kind, c, now);
      SwitchInBounds(feeds, s, s', kind, c, now);
      SwitchParts(feeds, s, s', kind, c, now);
      var row := s.db.catalogs[c];
      if row.source != source {
        SwitchSpares(feeds, s, row, source, a);
      }
    }
  }

  lemma SwitchSpares(feeds: Feeds, s: System, row: CatalogRow, source: SourceId, a: AdvisoryId)
    requires DistinctNames(feeds) && OwnedId(feeds, source, a) && Inv(feeds, s) && TableInv(feeds, s.db)
    requires row in s.db.catalogs && row.source != source
    ensures View(Import(feeds.text, s.db.tables, row.bundle.content, Sha256(row.bundle.content), true), a) == View(s.db.tables, a)
  {
    var c :| 0 <= c < |s.db.catalogs| && s.db.catalogs[c] == row;
    RetainedIsVerified(feeds, s, c);
    hide Inv, WellFormed, RowsOwned, TablesAgree, ValidCatalog, Import, View, DistinctNames, OwnedId;
    OwnersDiffer(feeds, source, row.source, a);
    ImportSparesOthers(feeds, s.db.tables, row.source, row.bundle.content, Sha256(row.bundle.content), a);
  }

  /** The import writes another record over what is shown of `a`, whichever source wrote that. */
  ghost predicate Overwrites(text: Text, t: Tables, catalog: Catalog, a: AdvisoryId) {
    exists i :: 0 <= i < |catalog.advisories| && a == AdvisoryIdFor(text, catalog.sourceName, catalog.advisories[i].id)
                && Shown(t, a) != Some(RecordView(text, a, catalog.advisories[i]))
  }

  /** The import retires `a`: its catalog does not hold it, and the database compares the source names equal. */
  ghost predicate Retires(text: Text, t: Tables, catalog: Catalog, a: AdvisoryId) {
    Shown(t, a).Some? && a !in CatalogIds(text, catalog) && text.lower(t.advisories[a].source) == text.lower(catalog.sourceName)
  }

  /** Why the names must differ. An import changes what is shown of an advisory exactly when it overwrites or
      retires it: the first reaches other sources when folded names agree, the second when `LOWER` names do. */
  lemma SharedNamesRetire(text: Text, t: Tables, catalog: Catalog, checksum: Digest<Catalog>, a: AdvisoryId)
    requires WellFormed(text, t) && ValidCatalog(text, catalog)
    ensures Shown(Import(text, t, catalog, checksum, true), a) != Shown(t, a) <==> Overwrites(text, t, catalog, a) || Retires(text, t, catalog, a)
    ensures Retires(text, t, catalog, a) ==> Shown(Import(text, t, catalog, checksum, true), a).None?
    ensures a in CatalogIds(text, catalog) ==> a.source == text.casefold(catalog.sourceName)
  {
    hide Import, WellFormed, ValidCatalog, RecordView;
    ImportView(text, t, catalog, checksum, a);
    RecordViewIsCurrent(text, a);
    if a in CatalogIds(text, catalog) {
      var i :| 0 <= i < |catalog.advisories| && a == AdvisoryIdFor(text, catalog.sourceName, catalog.advisories[i].id);
      assert Shown(Import(text, t, catalog, checksum, true), a) == Some(RecordView(text, a, catalog.advisories[i]));
    } else {
      forall i | 0 <= i < |catalog.advisories| ensures a != AdvisoryIdFor(text, catalog.sourceName, catalog.advisories[i].id) {
        RecordIdInCatalog(text, catalog, i);
      }
    }
  }
}
