/** Where a current advisory row comes from: it always names the import of its source's active catalog. */
module CurrentImports {
  import opened Prelude
  import opened Catalogs
  import opened AdvisoryTables
  import opened SyncState
  import opened Matching
  import opened Lifecycle
  import opened RunInvariants
  import opened TableInvariants

  /** A current row carries the active catalog's source version, and its import row is that catalog's: the same
      source name up to case, the same version and the same digest. */
  ghost predicate PointsAt(text: Text, t: Tables, active: Option<Catalog>, a: AdvisoryId) {
    a in t.advisories && t.advisories[a].current ==>
      var row := t.advisories[a];
      && active.Some? && row.sourceVersion == active.value.sourceVersion
      && row.importId < |t.imports| && SameImport(text, t.imports[row.importId], active.value, Sha256(active.value))
  }

  ghost predicate ImportsAgree(feeds: Feeds, db: Db) {
    forall source, a :: OwnedId(feeds, source, a) ==> PointsAt(feeds.text, db.tables, ActiveContent(db.catalogs, db.log, source), a)
  }

  /* ---------- One import ---------- */

  predicate Imported(text: Text, catalog: Catalog, count: nat, x: AdvisoryId)
    requires count <= |catalog.advisories|
  {
    exists i :: 0 <= i < count && x == AdvisoryIdFor(text, catalog.sourceName, catalog.advisories[i].id)
  }

  lemma UpsertedRowIs(text: Text, t: Tables, catalog: Catalog, record: Record, importId: nat, x: AdvisoryId)
    ensures
      var after := UpsertRecord(text, t, catalog, record, importId);
      && after.imports == t.imports
      && (if x == AdvisoryIdFor(text, catalog.sourceName, record.id)
          then x in after.advisories && after.advisories[x].importId == importId && after.advisories[x].sourceVersion == catalog.sourceVersion
          else Lookup(after.advisories, x) == Lookup(t.advisories, x))
  {
    hide AdvisoryIdFor, AliasRows, ReferenceRows, AffectedRows, RangeRows;
  }

  /** Imported rows carry this import; every other row is as before. */
  lemma {:induction false} UpsertedRows(text: Text, t: Tables, catalog: Catalog, importId: nat, count: nat, x: AdvisoryId)
    requires count <= |catalog.advisories|
    ensures
      var after := UpsertAll(text, t, catalog, importId, count);
      && after.imports == t.imports
      && (if Imported(text, catalog, count, x)
          then x in after.advisories && after.advisories[x].importId == importId && after.advisories[x].sourceVersion == catalog.sourceVersion
          else Lookup(after.advisories, x) == Lookup(t.advisories, x))
  {
    hide UpsertRecord, AdvisoryIdFor;
    if count > 0 {
      var record := catalog.advisories[count - 1];
      UpsertedRows(text, t, catalog, importId, count - 1, x);
      UpsertedRowIs(text, UpsertAll(text, t, catalog, importId, count - 1), catalog, record, importId, x);
      assert Imported(text, catalog, count, x)
        <==> Imported(text, catalog, count - 1, x) || x == AdvisoryIdFor(text, catalog.sourceName, record.id);
    }
  }

  /** After an import, a current row of the catalog's source points at this import. */
  lemma ImportPoints(feeds: Feeds, t: Tables, source: SourceId, catalog: Catalog, a: AdvisoryId)
    requires DistinctNames(feeds) && AdvisoryKeys(feeds.text, t) && RowsOwned(feeds, t)
    requires catalog.sourceName == feeds.nameOf(source) && OwnedId(feeds, source, a)
    ensures PointsAt(feeds.text, Import(feeds.text, t, catalog, Sha256(catalog), true), Some(catalog), a)
  {
    var (prepared, importId) := Prepare(feeds.text, t, catalog, Sha256(catalog));
    UpsertedRows(feeds.text, prepared, catalog, importId, |catalog.advisories|, a);
    if a in t.advisories {
      var owner :| t.advisories[a].source == feeds.nameOf(owner);
      assert a == AdvisoryIdFor(feeds.text, t.advisories[a].source, t.advisories[a].sourceRecordId);
      assert owner == source;
    }
    hide UpsertAll;
  }

  /** Rows of other sources, and the import rows they point at, stay. */
  lemma ImportSparesPoints(feeds: Feeds, t: Tables, source: SourceId, catalog: Catalog, active: Option<Catalog>, a: AdvisoryId)
    requires DistinctNames(feeds) && AdvisoryKeys(feeds.text, t) && RowsOwned(feeds, t)
    requires catalog.sourceName == feeds.nameOf(source) && !OwnedId(feeds, source, a)
    requires PointsAt(feeds.text, t, active, a)
    ensures PointsAt(feeds.text, Import(feeds.text, t, catalog, Sha256(catalog), true), active, a)
  {
    var (prepared, importId) := Prepare(feeds.text, t, catalog, Sha256(catalog));
    UpsertedRows(feeds.text, prepared, catalog, importId, |catalog.advisories|, a);
    hide UpsertAll, FindImport;
  }

  /* ---------- Every run ---------- */

  lemma StillKeepsImports(feeds: Feeds, db: Db, db': Db)
    requires LogRefs(db.catalogs, db.log) && Still(db, db') && ImportsAgree(feeds, db)
    ensures ImportsAgree(feeds, db')
  {
    hide PointsAt, OwnedId, ActiveContent, LogRefs;
    forall source, a | OwnedId(feeds, source, a)
      ensures PointsAt(feeds.text, db'.tables, ActiveContent(db'.catalogs, db'.log, source), a)
    {
      StillContent(feeds, db, db', source);
    }
  }

  lemma SwitchKeepsImports(feeds: Feeds, s: System, s': System, kind: ActivationKind, c: CatalogId, now: int)
    requires DistinctNames(feeds) && Inv(feeds, s) && TableInv(feeds, s.db) && ImportsAgree(feeds, s.db)
    requires c < |s.db.catalogs| && IsSwitch(feeds, s, s', kind, c, now)
    ensures ImportsAgree(feeds, s'.db)
  {
    hide Inv, PointsAt, IsSwitch, EntryFor, ActiveContent, ValidCatalog, Import, DistinctNames, OwnedId, SameContents, LogRefs, RowsOwned,
      TablesAgree, AdvisoryKeys, ChildKeys, AffectedKeys, RangeKeys, ImportKeys;
    RetainedIsVerified(feeds, s, c);
    SwitchParts(feeds, s, s', kind, c, now);
    var row := s.db.catalogs[c];
    var content := row.bundle.content;
    forall source, a | OwnedId(feeds, source, a)
      ensures PointsAt(feeds.text, s'.db.tables, ActiveContent(s'.db.catalogs, s'.db.log, source), a)
    {
      SwitchContent(s.db, s'.db.catalogs, EntryFor(s.db, kind, c, now), source);
      if source == row.source {
        ImportPoints(feeds, s.db.tables, source, content, a);
      } else {
        OwnersDiffer(feeds, source, row.source, a);
        ImportSparesPoints(feeds, s.db.tables, row.source, content, ActiveContent(s.db.catalogs, s.db.log, source), a);
      }
    }
  }

  lemma NextKeepsImports(feeds: Feeds, matcher: Matcher, s: System, action: Action)
    requires DistinctNames(feeds) && Inv(feeds, s) && TableInv(feeds, s.db) && ImportsAgree(feeds, s.db)
    ensures ImportsAgree(feeds, Next(feeds, matcher, s, action).db)
  {
    hide Inv, TableInv, Next, Still, IsSwitch, LogRefs, LogChain, FlagsAgree, DistinctNames, ImportsAgree;
    var s' := Next(feeds, matcher, s, action);
    StepShape(feeds, matcher, s, action);
    InvHasRefs(feeds, s);
    if Still(s.db, s'.db) {
      StillKeepsImports(feeds, s.db, s'.db);
    } else {
      var kind, c: CatalogId, now :| IsSwitch(feeds, s, s', kind, c, now);
      SwitchInBounds(feeds, s, s', kind, c, now);
      SwitchKeepsImports(feeds, s, s', kind, c, now);
    }
  }

  lemma InitialImports(feeds: Feeds)
    ensures ImportsAgree(feeds, Initial.db)
  {
  }

  /** In every reachable state, a current advisory of a source names the import of the source's active catalog and
      its source version. */
  lemma {:induction false} ReachableImports(feeds: Feeds, matcher: Matcher, actions: seq<Action>)
    requires DistinctNames(feeds)
    ensures ImportsAgree(feeds, Exec(feeds, matcher, actions).db)
  {
    hide Inv, TableInv, Next, DistinctNames, ImportsAgree;
    if |actions| == 0 {
      InitialImports(feeds);
    } else {
      var before := actions[..|actions| - 1];
      ReachableImports(feeds, matcher, before);
      ReachableTables(feeds, matcher, before);
      ReachableInv(feeds, matcher, before);
      NextKeepsImports(feeds, matcher, Exec(feeds, matcher, before), actions[|actions| - 1]);
    }
  }
}
