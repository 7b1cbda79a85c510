/** The advisory tables always show exactly the records of each source's active catalog. */
module TableInvariants {
  import opened Prelude
  import opened Catalogs
  import opened CatalogDiffs
  import opened AdvisoryTables
  import opened SyncState
  import opened Matching
  import opened Lifecycle
  import opened RunInvariants

  /** Sources have catalog names that differ in both comparisons the code makes: case folding in the
      advisory ids, and the database's `LOWER` in the sweep. */
  ghost predicate DistinctNames(feeds: Feeds) {
    forall s, t :: s != t ==>
      && feeds.text.casefold(feeds.nameOf(s)) != feeds.text.casefold(feeds.nameOf(t))
      && feeds.text.lower(feeds.nameOf(s)) != feeds.text.lower(feeds.nameOf(t))
  }

  ghost predicate OwnedId(feeds: Feeds, source: SourceId, a: AdvisoryId) {
    a.source == feeds.text.casefold(feeds.nameOf(source))
  }

  /** Every row was written for a configured source. */
  ghost predicate RowsOwned(feeds: Feeds, t: Tables) {
    forall a :: a in t.advisories ==> exists source :: t.advisories[a].source == feeds.nameOf(source)
  }

  /** The table shows of `a` what the active catalog says: its record, or nothing current. */
  ghost predicate Agrees(text: Text, t: Tables, active: Option<Catalog>, a: AdvisoryId) {
    var records := Index(text, active);
    if a.record in records then View(t, a) == Some(RecordView(text, a, records[a.record]))
    else View(t, a).None? || !View(t, a).value.current
  }

  function ActiveContent(catalogs: seq<CatalogRow>, log: seq<Activation>, source: SourceId): Option<Catalog> {
    ContentOf(catalogs, LastOf(log, |log|, source))
  }

  ghost predicate TablesAgree(feeds: Feeds, db: Db) {
    forall source, a :: OwnedId(feeds, source, a) ==> Agrees(feeds.text, db.tables, ActiveContent(db.catalogs, db.log, source), a)
  }

  ghost predicate TableInv(feeds: Feeds, db: Db) {
    WellFormed(feeds.text, db.tables) && RowsOwned(feeds, db.tables) && TablesAgree(feeds, db)
  }

  /* ---------- One import ---------- */

  lemma IndexedId(text: Text, catalog: Catalog, a: AdvisoryId)
    requires ValidCatalog(text, catalog) && a.source == text.casefold(catalog.sourceName)
    ensures a in CatalogIds(text, catalog) <==> a.record in Index(text, Some(catalog))
    ensures a.record in Index(text, Some(catalog)) ==>
      exists i :: 0 <= i < |catalog.advisories| && a == AdvisoryIdFor(text, catalog.sourceName, catalog.advisories[i].id)
                  && Index(text, Some(catalog))[a.record] == catalog.advisories[i]
  {
    IndexHoldsRecords(text, catalog.advisories);
    if a.record in Index(text, Some(catalog)) {
      var i :| 0 <= i < |catalog.advisories| && a.record == text.casefold(catalog.advisories[i].id);
      assert IndexedAs(text, Index(text, Some(catalog)), catalog.advisories[i]);
      assert a == AdvisoryIdFor(text, catalog.sourceName, catalog.advisories[i].id);
    }
    if a in CatalogIds(text, catalog) {
      var i :| 0 <= i < |catalog.advisories| && a == AdvisoryIdFor(text, catalog.sourceName, catalog.advisories[i].id);
      assert IndexedAs(text, Index(text, Some(catalog)), catalog.advisories[i]);
    }
  }

  /** After importing a catalog, its source's view is exactly the catalog. */
  lemma ImportAgrees(feeds: Feeds, t: Tables, source: SourceId, catalog: Catalog, checksum: Digest<Catalog>, a: AdvisoryId)
    requires DistinctNames(feeds) && WellFormed(feeds.text, t) && RowsOwned(feeds, t)
    requires ValidCatalog(feeds.text, catalog) && catalog.sourceName == feeds.nameOf(source)
    requires OwnedId(feeds, source, a)
    ensures Agrees(feeds.text, Import(feeds.text, t, catalog, checksum, true), Some(catalog), a)
  {
    ImportView(feeds.text, t, catalog, checksum, a);
    IndexedId(feeds.text, catalog, a);
    if a in t.advisories {
      var owner :| t.advisories[a].source == feeds.nameOf(owner);
      assert a == AdvisoryIdFor(feeds.text, t.advisories[a].source, t.advisories[a].sourceRecordId);
      assert owner == source;
    }
    hide Import, ValidCatalog, WellFormed, RecordView;
  }

  /** An import leaves the advisories of every other source as they were. */
  lemma ImportSparesOthers(feeds: Feeds, t: Tables, source: SourceId, catalog: Catalog, checksum: Digest<Catalog>, a: AdvisoryId)
    requires DistinctNames(feeds) && WellFormed(feeds.text, t) && RowsOwned(feeds, t)
    requires ValidCatalog(feeds.text, catalog) && catalog.sourceName == feeds.nameOf(source)
    requires !OwnedId(feeds, source, a)
    ensures View(Import(feeds.text, t, catalog, checksum, true), a) == View(t, a)
  {
    ImportView(feeds.text, t, catalog, checksum, a);
    if a in t.advisories {
      var owner :| t.advisories[a].source == feeds.nameOf(owner);
      assert a == AdvisoryIdFor(feeds.text, t.advisories[a].source, t.advisories[a].sourceRecordId);
      assert owner != source;
    }
    hide Import, ValidCatalog, WellFormed, View;
  }

  /** Replacing the active catalog changes the view of no advisory outside the changed set of the two catalogs. */
  lemma ImportChangesOnlyChanged(
      feeds: Feeds, t: Tables, source: SourceId, catalog: Catalog, previous: Option<Catalog>, checksum: Digest<Catalog>, a: AdvisoryId)
    requires DistinctNames(feeds) && WellFormed(feeds.text, t) && RowsOwned(feeds, t)
    requires ValidCatalog(feeds.text, catalog) && catalog.sourceName == feeds.nameOf(source)
    requires OwnedId(feeds, source, a) ==> Agrees(feeds.text, t, previous, a)
    requires a !in ChangedIds(feeds.text, catalog, previous)
    ensures View(Import(feeds.text, t, catalog, checksum, true), a) == View(t, a)
  {
    if OwnedId(feeds, source, a) {
      ImportView(feeds.text, t, catalog, checksum, a);
      IndexedId(feeds.text, catalog, a);
      UnchangedRecord(feeds.text, catalog, previous, a);
      if a in t.advisories {
        var owner :| t.advisories[a].source == feeds.nameOf(owner);
        assert a == AdvisoryIdFor(feeds.text, t.advisories[a].source, t.advisories[a].sourceRecordId);
        assert owner == source;
      }
      hide Import, ValidCatalog, WellFormed, RecordView, ChangedIds, Index;
    } else {
      ImportSparesOthers(feeds, t, source, catalog, checksum, a);
    }
  }

  lemma ImportKeepsOwners(feeds: Feeds, t: Tables, source: SourceId, catalog: Catalog, checksum: Digest<Catalog>)
    requires RowsOwned(feeds, t) && catalog.sourceName == feeds.nameOf(source)
    ensures RowsOwned(feeds, Import(feeds.text, t, catalog, checksum, true))
  {
    hide UpsertAll;
    var (prepared, importId) := Prepare(feeds.text, t, catalog, checksum);
    var after := Import(feeds.text, t, catalog, checksum, true);
    forall a | a in after.advisories ensures exists owner :: after.advisories[a].source == feeds.nameOf(owner) {
      UpsertAllSources(feeds.text, prepared, catalog, importId, |catalog.advisories|, a);
      if a in t.advisories {
        var owner :| t.advisories[a].source == feeds.nameOf(owner);
        assert after.advisories[a].source == feeds.nameOf(owner);
      } else {
        assert after.advisories[a].source == feeds.nameOf(source);
      }
    }
  }

  /* ---------- The shape of a step ---------- */

  ghost predicate SameContents(catalogs: seq<CatalogRow>, catalogs': seq<CatalogRow>) {
    && |catalogs| <= |catalogs'|
    && forall c :: 0 <= c < |catalogs| ==>
         catalogs'[c] == catalogs[c].(active := catalogs'[c].active, activationCount := catalogs'[c].activationCount)
  }

  /** Catalogs may be added and entries marked; tables and the history of the log stay. */
  ghost predicate Still(db: Db, db': Db) {
    && SameContents(db.catalogs, db'.catalogs) && db'.tables == db.tables
    && |db'.log| == |db.log| && SameHistory(db.log, db'.log, |db.log|)
  }

  /** The step activates, or rolls back to, the content of catalog `c`. */
  ghost predicate IsSwitch(feeds: Feeds, s: System, s': System, kind: ActivationKind, c: CatalogId, now: int) {
    && CanSwitch(s, kind, c)
    && var content := s.db.catalogs[c].bundle.content;
       s' == AfterSwitch(s, kind, c, now, Import(feeds.text, s.db.tables, content, Sha256(content), true))
  }

  ghost predicate IsSomeSwitch(feeds: Feeds, s: System, s': System) {
    exists kind, c, now :: IsSwitch(feeds, s, s', kind, c, now)
  }

  lemma MarkIsStill(db: Db, i: ActivationId, status: Reevaluation)
    ensures Still(db, MarkReevaluation(db, i, status).db)
  {
  }

  lemma ActivateShape(feeds: Feeds, matcher: Matcher, s: System, r: RunId, now: int)
    requires Inv(feeds, s)
    ensures
      var s' := Next(feeds, matcher, s, ActivateApproved(r, now));
      || (Still(s.db, s'.db) && s'.db.log == s.db.log && s'.workers == s.workers && s'.matches == s.matches)
      || IsSomeSwitch(feeds, s, s')
  {
    hide StatusAgrees, ActivatedRunsLogged, WaitingAbove, Monotone, FlagsAgree, OneActivation, LogChain, LoggedRuns, LogRefs,
      OneSlot, CommittedStates, CatalogLinks, VerifiedFor, Retention, LocksAbove, SwitchActive, Import, ActiveCatalog;
    var found := CatalogForRun(s.db.catalogs, r);
    if found.Some? && r < |s.db.runs| {
      var content := s.db.catalogs[found.value].bundle.content;
      if SyncState.ActivateRun(feeds.text, s.db, r, content, Sha256(content), now).error.None? {
        assert IsSwitch(feeds, s, Next(feeds, matcher, s, ActivateApproved(r, now)), Activate, found.value, now);
      }
    }
  }

  lemma RollbackShape(feeds: Feeds, matcher: Matcher, s: System, c: CatalogId, now: int)
    requires Inv(feeds, s)
    ensures
      var s' := Next(feeds, matcher, s, RollBackTo(c, now));
      s' == s || IsSomeSwitch(feeds, s, s')
  {
    hide StatusAgrees, ActivatedRunsLogged, WaitingAbove, Monotone, FlagsAgree, OneActivation, LogChain, LoggedRuns, LogRefs,
      OneSlot, CommittedStates, VerifiedFor, Retention, LocksAbove, SwitchActive, Import, ActiveCatalog, ControlledRecently;
    if c < |s.db.catalogs| {
      var row := s.db.catalogs[c];
      assert SavedBy(s.db.runs, s.sessions, row);
      if RollbackCatalog(feeds.text, s.db, c, row.bundle.content, Sha256(row.bundle.content), feeds.cooldown(row.source), now).error.None? {
        assert IsSwitch(feeds, s, Next(feeds, matcher, s, RollBackTo(c, now)), Rollback, c, now);
      }
    }
  }

  predicate IsWork(action: Action) {
    action.RetryReevaluation? || action.BeginWork? || action.ReadChunk? || action.WriteChunk? || action.FinishWork? || action.BreakWork?
  }

  lemma WorkShape(feeds: Feeds, matcher: Matcher, s: System, action: Action)
    requires IsWork(action)
    ensures Still(s.db, Next(feeds, matcher, s, action).db)
  {
    hide WorkOf, WriteMatches, ViewsOf, MarkReevaluation, Still;
    assert Still(s.db, s.db) by {
      StillIsReflexive(s.db);
    }
    if !action.RetryReevaluation? && action.worker < |s.workers| && !s.workers[action.worker].Stopped? {
      MarkIsStill(s.db, s.workers[action.worker].entry, Running);
      MarkIsStill(s.db, s.workers[action.worker].entry, Broken);
      MarkIsStill(s.db, s.workers[action.worker].entry, Completed);
    }
  }

  lemma StillIsReflexive(db: Db)
    ensures Still(db, db)
  {
  }

  lemma RunShape(feeds: Feeds, matcher: Matcher, s: System, action: Action)
    requires !IsWork(action) && !action.ActivateApproved? && !action.RollBackTo?
    ensures
      var s' := Next(feeds, matcher, s, action);
      Still(s.db, s'.db) && s'.db.log == s.db.log && s'.workers == s.workers && s'.matches == s.matches
  {
    hide SaveCheck, ActiveCatalog, PreviewFor, VerifiedFor, ViolatesCatalogKeys, HasActiveRun, RequestedRecently, SavedRun, Still;
    StillIsReflexive(s.db);
    if action.CommitSave? && CanSave(s, action.run) {
      SaveIsStill(s, action.run);
      assert Next(feeds, matcher, s, action) == AfterSave(s, action.run);
    } else if !action.CommitSave? {
      RunsAreStill(s.db, Next(feeds, matcher, s, action).db);
    }
  }

  lemma SaveIsStill(s: System, r: RunId)
    requires CanSave(s, r)
    ensures Still(s.db, AfterSave(s, r).db) && s.sessions[r].phase.Based?
  {
    hide ViolatesCatalogKeys;
  }

  lemma RunsAreStill(db: Db, db': Db)
    requires db' == db.(runs := db'.runs)
    ensures Still(db, db')
  {
  }

  /** Every step either keeps contents and history still, or is one activation or rollback; and only the
      reevaluation steps and the committed switches touch workers and match states. */
  lemma StepShape(feeds: Feeds, matcher: Matcher, s: System, action: Action)
    requires Inv(feeds, s)
    ensures
      var s' := Next(feeds, matcher, s, action);
      || (Still(s.db, s'.db) && (IsWork(action) || (s'.db.log == s.db.log && s'.workers == s.workers && s'.matches == s.matches)))
      || IsSomeSwitch(feeds, s, s')
  {
    hide Inv, IsSomeSwitch, Next, Still;
    match action {
      case ActivateApproved(r, now) => ActivateShape(feeds, matcher, s, r, now);
      case RollBackTo(c, now) =>
        RollbackShape(feeds, matcher, s, c, now);
        StillIsReflexive(s.db);
      case _ =>
        if IsWork(action) {
          WorkShape(feeds, matcher, s, action);
        } else {
          RunShape(feeds, matcher, s, action);
        }
    }
  }

  /* ---------- The tables over every step ---------- */

  lemma LastOfIsRef(catalogs: seq<CatalogRow>, log: seq<Activation>, n: nat, source: SourceId)
    requires LogRefs(catalogs, log) && n <= |log| && LastOf(log, n, source).Some?
    ensures LastOf(log, n, source).value < |catalogs|
  {
    LastOfIsLogged(log, n, source);
  }

  lemma StillContent(feeds: Feeds, db: Db, db': Db, source: SourceId)
    requires LogRefs(db.catalogs, db.log) && Still(db, db')
    ensures ActiveContent(db'.catalogs, db'.log, source) == ActiveContent(db.catalogs, db.log, source)
  {
    HistoryFrame(db.log, db'.log, |db.log|, source, 0);
    if LastOf(db.log, |db.log|, source).Some? {
      LastOfIsRef(db.catalogs, db.log, |db.log|, source);
    }
  }

  lemma StillKeepsTables(feeds: Feeds, db: Db, db': Db)
    requires LogRefs(db.catalogs, db.log) && Still(db, db') && TableInv(feeds, db)
    ensures TableInv(feeds, db')
  {
    hide Agrees, WellFormed, RowsOwned, OwnedId, ActiveContent;
    forall source, a | OwnedId(feeds, source, a) ensures Agrees(feeds.text, db'.tables, ActiveContent(db'.catalogs, db'.log, source), a) {
      StillContent(feeds, db, db', source);
    }
  }

  lemma SwitchContent(db: Db, catalogs: seq<CatalogRow>, entry: Activation, source: SourceId)
    requires LogRefs(db.catalogs, db.log) && SameContents(db.catalogs, catalogs) && entry.catalog < |db.catalogs|
    ensures ActiveContent(catalogs, db.log + [entry], source)
         == if source == entry.source then Some(db.catalogs[entry.catalog].bundle.content) else ActiveContent(db.catalogs, db.log, source)
  {
    AppendHistory(db.log, entry, |db.log|, source, 0);
    if LastOf(db.log, |db.log|, source).Some? {
      LastOfIsRef(db.catalogs, db.log, |db.log|, source);
    }
  }

  /** What verification and the session links say about a retained catalog. */
  lemma RetainedIsVerified(feeds: Feeds, s: System, c: CatalogId)
    requires Inv(feeds, s) && c < |s.db.catalogs|
    ensures VerifiedFor(feeds, s.db.catalogs[c].source, s.db.catalogs[c].bundle)
  {
    hide StatusAgrees, ActivatedRunsLogged, WaitingAbove, Monotone, FlagsAgree, OneActivation, LogChain, LoggedRuns, LogRefs,
      OneSlot, CommittedStates, Retention, LocksAbove, VerifiedFor;
    assert SavedBy(s.db.runs, s.sessions, s.db.catalogs[c]);
  }

  /** The catalogs an entry names are small enough to diff. */
  lemma RetainedContents(feeds: Feeds, s: System, entry: Activation)
    requires Inv(feeds, s) && entry.catalog < |s.db.catalogs|
    ensures |s.db.catalogs[entry.catalog].bundle.content.advisories| <= MAX_ADVISORIES
    ensures
      var previous := ContentOf(s.db.catalogs, entry.previous);
      previous.Some? ==> |previous.value.advisories| <= MAX_ADVISORIES
  {
    hide Inv, ValidRecord, DistinctIds, AliasesHaveOneOwner;
    RetainedIsVerified(feeds, s, entry.catalog);
    if entry.previous.Some? && entry.previous.value < |s.db.catalogs| {
      RetainedIsVerified(feeds, s, entry.previous.value);
    }
  }

  lemma SwitchKeepsTables(feeds: Feeds, s: System, s': System, kind: ActivationKind, c: CatalogId, now: int)
    requires DistinctNames(feeds) && Inv(feeds, s) && TableInv(feeds, s.db) && IsSwitch(feeds, s, s', kind, c, now)
    ensures TableInv(feeds, s'.db)
  {
    RetainedIsVerified(feeds, s, c);
    hide Inv, Agrees, WellFormed, RowsOwned, ActiveContent, ValidCatalog, Import, EntryFor, SwitchActive, RunsAfter, DistinctNames, CanSwitch;
    var row := s.db.catalogs[c];
    var content := row.bundle.content;
    var entry := EntryFor(s.db, kind, c, now);
    SwitchParts(feeds, s, s', kind, c, now);
    ImportKeepsKeys(feeds.text, s.db.tables, content, Sha256(content), true);
    ImportKeepsOwners(feeds, s.db.tables, row.source, content, Sha256(content));
    forall source, a | OwnedId(feeds, source, a) ensures Agrees(feeds.text, s'.db.tables, ActiveContent(s'.db.catalogs, s'.db.log, source), a) {
      SwitchContent(s.db, s'.db.catalogs, entry, source);
      if source == row.source {
        ImportAgrees(feeds, s.db.tables, source, content, Sha256(content), a);
      } else {
        OwnersDiffer(feeds, source, row.source, a);
        ImportSparesOthers(feeds, s.db.tables, row.source, content, Sha256(content), a);
        AgreesFrame(feeds.text, s.db.tables, s'.db.tables, ActiveContent(s.db.catalogs, s.db.log, source), a);
      }
    }
  }

  lemma OwnersDiffer(feeds: Feeds, s: SourceId, t: SourceId, a: AdvisoryId)
    requires DistinctNames(feeds) && s != t && OwnedId(feeds, s, a)
    ensures !OwnedId(feeds, t, a)
  {
  }

  lemma AgreesFrame(text: Text, t: Tables, t': Tables, active: Option<Catalog>, a: AdvisoryId)
    requires View(t', a) == View(t, a) && Agrees(text, t, active, a)
    ensures Agrees(text, t', active, a)
  {
  }

  lemma SwitchParts(feeds: Feeds, s: System, s': System, kind: ActivationKind, c: CatalogId, now: int)
    requires Inv(feeds, s) && IsSwitch(feeds, s, s', kind, c, now)
    ensures
      var content := s.db.catalogs[c].bundle.content;
      var entry := EntryFor(s.db, kind, c, now);
      && entry.source == s.db.catalogs[c].source && entry.catalog == c && entry.status == Pending
      && entry.previous == LastOf(s.db.log, |s.db.log|, entry.source)
      && s'.db.log == s.db.log + [entry]
      && s'.db.tables == Import(feeds.text, s.db.tables, content, Sha256(content), true)
      && SameContents(s.db.catalogs, s'.db.catalogs)
      && LogRefs(s.db.catalogs, s.db.log)
  {
    hide StatusAgrees, ActivatedRunsLogged, WaitingAbove, Monotone, OneActivation, LogChain, LoggedRuns, FlagsAgree, LogRefs,
      OneSlot, CommittedStates, CatalogLinks, Retention, LocksAbove, SessionLinks, RunsAfter, Import, ActiveCatalog;
    ActiveIsLast(s.db.catalogs, s.db.log, s.db.catalogs[c].source);
  }

  lemma SwitchInBounds(feeds: Feeds, s: System, s': System, kind: ActivationKind, c: CatalogId, now: int)
    requires IsSwitch(feeds, s, s', kind, c, now)
    ensures c < |s.db.catalogs|
  {
  }

  lemma NextKeepsTables(feeds: Feeds, matcher: Matcher, s: System, action: Action)
    requires DistinctNames(feeds) && Inv(feeds, s) && TableInv(feeds, s.db)
    ensures TableInv(feeds, Next(feeds, matcher, s, action).db)
  {
    var s' := Next(feeds, matcher, s, action);
    StepShape(feeds, matcher, s, action);
    InvHasRefs(feeds, s);
    hide Inv, TableInv, Next, Still, IsSwitch, LogRefs, DistinctNames;
    if Still(s.db, s'.db) {
      StillKeepsTables(feeds, s.db, s'.db);
    } else {
      var kind, c, now :| IsSwitch(feeds, s, s', kind, c, now);
      SwitchKeepsTables(feeds, s, s', kind, c, now);
    }
  }

  lemma InvHasRefs(feeds: Feeds, s: System)
    requires Inv(feeds, s)
    ensures LogRefs(s.db.catalogs, s.db.log) && LogChain(s.db.log) && FlagsAgree(s.db.catalogs, s.db.log)
  {
  }

  lemma {:induction false} ReachableTables(feeds: Feeds, matcher: Matcher, actions: seq<Action>)
    requires DistinctNames(feeds)
    ensures TableInv(feeds, Exec(feeds, matcher, actions).db)
  {
    hide Inv, Next, DistinctNames;
    if |actions| > 0 {
      var before := actions[..|actions| - 1];
      ReachableTables(feeds, matcher, before);
      ReachableInv(feeds, matcher, before);
      hide TableInv;
      NextKeepsTables(feeds, matcher, Exec(feeds, matcher, before), actions[|actions| - 1]);
    }
  }
}
