/** The synchronization store: a class whose methods update the three tables transaction by transaction,
    each proved against the function of `SyncState` that specifies it. */
module SyncStores {
  import opened Prelude
  import opened Catalogs
  import opened CatalogDiffs
  import opened AdvisoryTables
  import opened AdvisoryStores
  import opened SyncState

  class SyncStore {
    var runs: seq<Run>
    var catalogs: seq<CatalogRow>
    var log: seq<Activation>
    const advisories: AdvisoryStore

    ghost function Snapshot(): Db
      reads this, advisories
    {
      Db(runs, catalogs, log, advisories.Contents())
    }

    constructor ()
      ensures Snapshot() == EmptyDb && fresh(advisories)
    {
      runs, catalogs, log := [], [], [];
      advisories := new AdvisoryStore();
    }

    method Create(source: SourceId, mode: RequestMode, interval: int, now: int) returns (result: Result<RunId, StoreError>)
      modifies this`runs
      ensures Snapshot() == CreateRun(old(Snapshot()), source, mode, interval, now).db
      ensures result == match CreateRun(old(Snapshot()), source, mode, interval, now).error
                        case Some(error) => Err(error)
                        case None => Ok(|old(runs)|)
    {
      if HasActiveRun(runs, source) {
        return Err(SyncAlreadyActive);
      }
      if RequestedRecently(runs, source, interval, now) {
        return Err(SyncRateLimited);
      }
      result := Ok(|runs|);
      runs := runs + [Run(source, mode, Created, now, None, None, None, None, NotStarted)];
    }

    method ChangeState(r: RunId, expected: set<RunState>, state: RunState) returns (error: Option<StoreError>)
      modifies this`runs
      ensures Outcome(Snapshot(), error) == Transition(old(Snapshot()), r, expected, state)
    {
      if r < |runs| && runs[r].state in expected {
        runs := runs[r := runs[r].(state := state)];
        return None;
      }
      return Some(RunStateConflict);
    }

    method Fail(r: RunId)
      modifies this`runs
      ensures Snapshot() == FailRun(old(Snapshot()), r).db
    {
      var _ := ChangeState(r, ACTIVE_RUN_STATES, Failed);
    }

    method Save(r: RunId, source: SourceId, bundle: Bundle, preview: CatalogPreview) returns (error: Option<StoreError>)
      modifies this`runs, this`catalogs
      ensures Outcome(Snapshot(), error) == SaveVerifiedBundle(old(Snapshot()), r, source, bundle, preview)
    {
      if !(r < |runs| && runs[r].source == source && runs[r].state == Verifying) {
        return Some(RunStateConflict);
      }
      var prior := HighestActivated(source);
      if |RetainedOf(catalogs, source)| >= MAX_RETAINED_CATALOGS_PER_SOURCE {
        return Some(CatalogRetentionLimit);
      }
      if prior.Some? {
        if bundle.sequence <= catalogs[prior.value].bundle.sequence {
          return Some(CatalogDowngrade);
        }
        if bundle.version == catalogs[prior.value].bundle.version {
          return Some(CatalogVersionReplay);
        }
      }
      if HasManifest(catalogs, source, bundle.manifestDigest) {
        return Some(ManifestReplay);
      }
      if HasConflictingPayload(catalogs, source, bundle) {
        return Some(PayloadMetadataConflict);
      }
      var activeBefore := ActiveCatalog(catalogs, source);
      if ViolatesCatalogKeys(catalogs, r, source, bundle) {
        return Some(CatalogReplay);
      }
      catalogs := catalogs + [CatalogRow(r, source, bundle, preview, false, 0)];
      runs := runs[r := runs[r].(state := PendingApproval, sequence := Some(bundle.sequence),
                                 preview := Some(preview), activeBefore := activeBefore)];
      return None;
    }

    /** The query for the highest catalog sequence of the source that was ever activated. */
    method HighestActivated(source: SourceId) returns (prior: Option<CatalogId>)
      ensures prior == Prior(Snapshot(), source, |catalogs|)
    {
      prior := None;
      for c := 0 to |catalogs|
        invariant prior == Prior(Snapshot(), source, c)
      {
        if catalogs[c].source == source && EverLogged(log, c) {
          if prior.None? || catalogs[prior.value].bundle.sequence < catalogs[c].bundle.sequence {
            prior := Some(c);
          }
        }
      }
    }

    method ApproveRun(r: RunId) returns (error: Option<StoreError>)
      modifies this`runs
      ensures Outcome(Snapshot(), error) == Approve(old(Snapshot()), r)
    {
      error := ChangeState(r, {PendingApproval}, Approved);
    }

    method RejectRun(r: RunId) returns (error: Option<StoreError>)
      modifies this`runs
      ensures Outcome(Snapshot(), error) == Reject(old(Snapshot()), r)
    {
      error := ChangeState(r, {PendingApproval}, Rejected);
    }

    /** Two statements: deactivate the source's active catalog, then activate the chosen one. */
    method SwitchTo(source: SourceId, chosen: CatalogId)
      requires chosen < |catalogs|
      modifies this`catalogs
      ensures catalogs == SwitchActive(old(catalogs), source, chosen)
    {
      var rows := catalogs;
      catalogs := seq(|rows|, c requires 0 <= c < |rows| =>
        if rows[c].source == source && rows[c].active then rows[c].(active := false) else rows[c]);
      catalogs := catalogs[chosen := catalogs[chosen].(active := true, activationCount := catalogs[chosen].activationCount + 1)];
    }

    method ActivateApproved(text: Text, r: RunId, catalog: Catalog, checksum: Digest<Catalog>, now: int)
      returns (error: Option<StoreError>)
      requires WellFormed(text, advisories.Contents()) && ValidCatalog(text, catalog)
      modifies this, advisories
      ensures Outcome(Snapshot(), error) == ActivateRun(text, old(Snapshot()), r, catalog, checksum, now)
      ensures WellFormed(text, advisories.Contents())
    {
      hide WellFormed, Import;
      var found := CatalogForRun(catalogs, r);
      if !(r < |runs| && found.Some? && runs[r].state == Approved) {
        return Some(RunStateConflict);
      }
      var row := catalogs[found.value];
      if row.bundle.expiresAt <= now {
        runs := runs[r := runs[r].(state := Expired)];
        return Some(ManifestExpired);
      }
      if !DigestHolds(row, checksum) {
        return Some(RetainedCatalogDigestInvalid);
      }
      var previous := ActiveCatalog(catalogs, row.source);
      if runs[r].activeBefore != previous {
        return Some(ActivationPreviewStale);
      }
      runs := runs[r := runs[r].(state := Importing)];
      var _, _ := advisories.ImportCatalog(text, catalog, checksum, true);
      SwitchTo(row.source, found.value);
      runs := runs[r := runs[r].(state := Activated, activatedAfter := Some(found.value), reevaluation := Pending)];
      log := log + [Activation(Activate, row.source, found.value, previous, now, Pending)];
      return None;
    }

    method RollBack(text: Text, c: CatalogId, catalog: Catalog, checksum: Digest<Catalog>, cooldown: int, now: int)
      returns (error: Option<StoreError>)
      requires WellFormed(text, advisories.Contents()) && ValidCatalog(text, catalog)
      modifies this, advisories
      ensures Outcome(Snapshot(), error) == RollbackCatalog(text, old(Snapshot()), c, catalog, checksum, cooldown, now)
      ensures WellFormed(text, advisories.Contents())
    {
      hide WellFormed, Import;
      if c >= |catalogs| || catalogs[c].activationCount < 1 {
        return Some(RollbackTargetInvalid);
      }
      if catalogs[c].active {
        return Some(RollbackTargetActive);
      }
      var source := catalogs[c].source;
      if ControlledRecently(log, source, cooldown, now) {
        return Some(ControlActionRateLimited);
      }
      if !DigestHolds(catalogs[c], checksum) {
        return Some(RetainedCatalogDigestInvalid);
      }
      var previous := ActiveCatalog(catalogs, source);
      var _, _ := advisories.ImportCatalog(text, catalog, checksum, true);
      SwitchTo(source, c);
      log := log + [Activation(Rollback, source, c, previous, now, Pending)];
      return None;
    }

    method Mark(i: ActivationId, status: Reevaluation) returns (error: Option<StoreError>)
      modifies this`runs, this`log
      ensures Outcome(Snapshot(), error) == MarkReevaluation(old(Snapshot()), i, status)
    {
      if status.NotStarted? || status.Pending? {
        return Some(ReevaluationStateInvalid);
      }
      if i >= |log| {
        return Some(ActivationNotFound);
      }
      var entry := log[i];
      log := log[i := entry.(status := status)];
      if entry.kind == Activate && entry.catalog < |catalogs| && catalogs[entry.catalog].run < |runs| {
        var r := catalogs[entry.catalog].run;
        runs := runs[r := runs[r].(reevaluation := status, state := MarkedState(runs[r].state, status))];
      }
      return None;
    }
  }
}
