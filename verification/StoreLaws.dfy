/** What each transaction on runs and retained catalogs does, and exactly when it is refused, in terms of the rows
    alone. */
module StoreLaws {
  import opened Prelude
  import opened Catalogs
  import opened CatalogDiffs
  import opened AdvisoryTables
  import opened SyncState

  /** A run that still occupies its source. */
  predicate Unfinished(run: Run) {
    run.state !in {Activated, ActivatedDegraded, Rejected, Failed, Expired}
  }

  /* ---------- Requesting a run ---------- */

  /** A request is granted exactly when every run of the source is finished and at least the interval old; an
      unfinished run is reported before a recent one; a refusal changes nothing. */
  lemma RequestLaw(db: Db, source: SourceId, mode: RequestMode, interval: int, now: int)
    ensures
      var outcome := CreateRun(db, source, mode, interval, now);
      var ours := set r | 0 <= r < |db.runs| && db.runs[r].source == source;
      && (outcome.error.None? <==> forall r :: r in ours ==> !Unfinished(db.runs[r]) && now - db.runs[r].createdAt >= interval)
      && (outcome.error == Some(SyncAlreadyActive) <==> exists r :: r in ours && Unfinished(db.runs[r]))
      && (outcome.error == Some(SyncRateLimited) <==>
            (forall r :: r in ours ==> !Unfinished(db.runs[r])) && exists r :: r in ours && now - db.runs[r].createdAt < interval)
      && (outcome.error.Some? ==> outcome.db == db)
      && (outcome.error.None? ==>
            && |outcome.db.runs| == |db.runs| + 1 && outcome.db.runs[..|db.runs|] == db.runs
            && outcome.db.catalogs == db.catalogs && outcome.db.log == db.log && outcome.db.tables == db.tables
            && var run := outcome.db.runs[|db.runs|];
               && run.source == source && run.mode == mode && run.state == Created && run.createdAt == now
               && run.sequence.None? && run.preview.None? && run.activeBefore.None? && run.activatedAfter.None?
               && run.reevaluation == NotStarted)
  {
    var ours := set r | 0 <= r < |db.runs| && db.runs[r].source == source;
    assert HasActiveRun(db.runs, source) <==> exists r :: r in ours && Unfinished(db.runs[r]) by {
      if HasActiveRun(db.runs, source) {
        var r :| 0 <= r < |db.runs| && db.runs[r].source == source && IsActive(db.runs[r].state);
        assert r in ours && Unfinished(db.runs[r]);
      }
    }
    assert RequestedRecently(db.runs, source, interval, now) <==> exists r :: r in ours && now - db.runs[r].createdAt < interval by {
      if RequestedRecently(db.runs, source, interval, now) {
        var r :| 0 <= r < |db.runs| && db.runs[r].source == source && now - db.runs[r].createdAt < interval;
        assert r in ours;
      }
    }
    hide HasActiveRun, RequestedRecently;
  }

  /* ---------- Deciding on a run, and failing it ---------- */

  /** Only the state of run `r` changes. */
  ghost predicate OnlyState(db: Db, db': Db, r: RunId, state: RunState) {
    && r < |db.runs| == |db'.runs| && db'.catalogs == db.catalogs && db'.log == db.log && db'.tables == db.tables
    && db'.runs[r].state == state && db'.runs[r].(state := db.runs[r].state) == db.runs[r]
    && forall q :: 0 <= q < |db.runs| && q != r ==> db'.runs[q] == db.runs[q]
  }

  /** An approval turns a run that is pending approval into an approved one, a rejection into a rejected one, and
      nothing else changes; for any other run both are refused. */
  lemma DecisionLaw(db: Db, r: RunId)
    ensures
      var pending := r < |db.runs| && db.runs[r].state == PendingApproval;
      if pending then
        && Approve(db, r).error.None? && OnlyState(db, Approve(db, r).db, r, Approved)
        && Reject(db, r).error.None? && OnlyState(db, Reject(db, r).db, r, Rejected)
      else
        && Approve(db, r) == Outcome(db, Some(RunStateConflict)) && Reject(db, r) == Outcome(db, Some(RunStateConflict))
  {
  }

  /** A failure ends an unfinished run, and nothing else changes; a finished run stays, without an error. */
  lemma FailureLaw(db: Db, r: RunId)
    ensures FailRun(db, r).error.None?
    ensures
      if r < |db.runs| && Unfinished(db.runs[r]) then OnlyState(db, FailRun(db, r).db, r, Failed)
      else FailRun(db, r).db == db
  {
  }

  /* ---------- Saving a bundle ---------- */

  ghost predicate Logged(db: Db, c: CatalogId) {
    exists i :: 0 <= i < |db.log| && db.log[i].catalog == c
  }

  /** The unique keys of the retained catalogs: one per run, and per source one per sequence, version, manifest and
      payload. */
  ghost predicate CatalogKeys(catalogs: seq<CatalogRow>) {
    forall c, d :: 0 <= c < d < |catalogs| ==>
      && catalogs[c].run != catalogs[d].run
      && (catalogs[c].source == catalogs[d].source ==>
            var one, two := catalogs[c].bundle, catalogs[d].bundle;
            && one.sequence != two.sequence && one.version != two.version
            && one.manifestDigest != two.manifestDigest && one.payloadDigest != two.payloadDigest)
  }

  /** The run awaits the verification of a bundle of this source. */
  predicate AwaitsBundle(db: Db, r: RunId, source: SourceId) {
    r < |db.runs| && db.runs[r].source == source && db.runs[r].state == Verifying
  }

  ghost predicate SourceIsFull(db: Db, source: SourceId) {
    |set c | 0 <= c < |db.catalogs| && db.catalogs[c].source == source| >= 100
  }

  /** Some catalog of the source that was ever activated has at least this sequence. */
  ghost predicate NotNewer(db: Db, source: SourceId, bundle: Bundle) {
    exists c :: 0 <= c < |db.catalogs| && db.catalogs[c].source == source && Logged(db, c)
                && db.catalogs[c].bundle.sequence >= bundle.sequence
  }

  /** The newest catalog of the source that was ever activated has this version. */
  ghost predicate NewestHasVersion(db: Db, source: SourceId, version: string) {
    exists c :: 0 <= c < |db.catalogs| && db.catalogs[c].source == source && Logged(db, c) && db.catalogs[c].bundle.version == version
                && forall d :: 0 <= d < |db.catalogs| && db.catalogs[d].source == source && Logged(db, d)
                               ==> db.catalogs[d].bundle.sequence <= db.catalogs[c].bundle.sequence
  }

  /** The bundle shares a unique value with what is retained of its source, or its run has saved before. */
  ghost predicate Clashes(db: Db, r: RunId, source: SourceId, bundle: Bundle) {
    exists c :: 0 <= c < |db.catalogs| &&
      (|| db.catalogs[c].run == r
       || (db.catalogs[c].source == source
           && var kept := db.catalogs[c].bundle;
              || kept.sequence == bundle.sequence || kept.version == bundle.version
              || kept.manifestDigest == bundle.manifestDigest || kept.payloadDigest == bundle.payloadDigest))
  }

  ghost predicate HasManifestOf(db: Db, source: SourceId, bundle: Bundle) {
    exists c :: 0 <= c < |db.catalogs| && db.catalogs[c].source == source && db.catalogs[c].bundle.manifestDigest == bundle.manifestDigest
  }

  ghost predicate HasPayloadOf(db: Db, source: SourceId, bundle: Bundle) {
    exists c :: 0 <= c < |db.catalogs| && db.catalogs[c].source == source && db.catalogs[c].bundle.payloadDigest == bundle.payloadDigest
  }

  /** The row a save adds, and what it writes to its run. */
  ghost predicate SavedTogether(db: Db, db': Db, r: RunId, source: SourceId, bundle: Bundle, preview: CatalogPreview, activeBefore: Option<CatalogId>) {
    && r < |db.runs| == |db'.runs| && db'.log == db.log && db'.tables == db.tables
    && |db'.catalogs| == |db.catalogs| + 1 && db'.catalogs[..|db.catalogs|] == db.catalogs
    && (var row := db'.catalogs[|db.catalogs|];
        && row.run == r && row.source == source && row.bundle == bundle && row.preview == preview && !row.active && row.activationCount == 0)
    && (var run, run' := db.runs[r], db'.runs[r];
        && run'.state == PendingApproval && run'.sequence == Some(bundle.sequence) && run'.preview == Some(preview)
        && run'.activeBefore == activeBefore
        && run'.source == run.source && run'.mode == run.mode && run'.createdAt == run.createdAt
        && run'.activatedAfter == run.activatedAfter && run'.reevaluation == run.reevaluation)
    && forall q :: 0 <= q < |db.runs| && q != r ==> db'.runs[q] == db.runs[q]
  }

  /** The active catalog of the source, read off the flags. */
  ghost predicate IsActiveOf(db: Db, source: SourceId, active: Option<CatalogId>) {
    match active
    case Some(c) => c < |db.catalogs| && db.catalogs[c].source == source && db.catalogs[c].active
    case None => forall c :: 0 <= c < |db.catalogs| && db.catalogs[c].source == source ==> !db.catalogs[c].active
  }

  lemma PriorIsNewest(db: Db, source: SourceId, bundle: Bundle)
    requires CatalogKeys(db.catalogs)
    ensures
      var prior := Prior(db, source, |db.catalogs|);
      && (prior.Some? && bundle.sequence <= db.catalogs[prior.value].bundle.sequence <==> NotNewer(db, source, bundle))
      && (prior.Some? && bundle.version == db.catalogs[prior.value].bundle.version <==> NewestHasVersion(db, source, bundle.version))
  {
    hide Prior;
    var prior := Prior(db, source, |db.catalogs|);
    assert forall c :: Logged(db, c) <==> EverLogged(db.log, c);
    if prior.Some? {
      var p := prior.value;
      assert Logged(db, p);
      if NewestHasVersion(db, source, bundle.version) {
        var c :| 0 <= c < |db.catalogs| && db.catalogs[c].source == source && Logged(db, c) && db.catalogs[c].bundle.version == bundle.version
                 && forall d :: 0 <= d < |db.catalogs| && db.catalogs[d].source == source && Logged(db, d)
                                ==> db.catalogs[d].bundle.sequence <= db.catalogs[c].bundle.sequence;
        assert db.catalogs[c].bundle.sequence == db.catalogs[p].bundle.sequence;
        assert c == p;
      }
    }
  }

  /** The checks at the start of a save, each with its exact condition, in order. */
  lemma SaveCheckLaw(db: Db, r: RunId, source: SourceId, bundle: Bundle)
    requires CatalogKeys(db.catalogs)
    ensures
      var refusal := SaveCheck(db, r, source, bundle);
      if !AwaitsBundle(db, r, source) then refusal == Some(RunStateConflict)
      else if SourceIsFull(db, source) then refusal == Some(CatalogRetentionLimit)
      else if NotNewer(db, source, bundle) then refusal == Some(CatalogDowngrade)
      else if NewestHasVersion(db, source, bundle.version) then refusal == Some(CatalogVersionReplay)
      else if HasManifestOf(db, source, bundle) then refusal == Some(ManifestReplay)
      else if HasPayloadOf(db, source, bundle) then refusal == Some(PayloadMetadataConflict)
      else refusal.None?
  {
    PriorIsNewest(db, source, bundle);
    hide NotNewer, NewestHasVersion, Prior;
    assert RetainedOf(db.catalogs, source) == set c | 0 <= c < |db.catalogs| && db.catalogs[c].source == source;
    assert HasManifest(db.catalogs, source, bundle.manifestDigest) <==> HasManifestOf(db, source, bundle);
    if !HasManifestOf(db, source, bundle) {
      assert HasConflictingPayload(db.catalogs, source, bundle) <==> HasPayloadOf(db, source, bundle);
    }
  }

  /** The insert at the end of a save. */
  lemma SaveInsertLaw(db: Db, r: RunId, source: SourceId, bundle: Bundle, preview: CatalogPreview, activeBefore: Option<CatalogId>)
    requires r < |db.runs|
    ensures
      var outcome := SaveInsert(db, r, source, bundle, preview, activeBefore);
      if Clashes(db, r, source, bundle) then outcome == Outcome(db, Some(CatalogReplay))
      else outcome.error.None? && SavedTogether(db, outcome.db, r, source, bundle, preview, activeBefore)
  {
    assert ViolatesCatalogKeys(db.catalogs, r, source, bundle) <==> Clashes(db, r, source, bundle) by {
      if Clashes(db, r, source, bundle) {
        var c :| 0 <= c < |db.catalogs| &&
          (|| db.catalogs[c].run == r
           || (db.catalogs[c].source == source
               && (|| db.catalogs[c].bundle.sequence == bundle.sequence || db.catalogs[c].bundle.version == bundle.version
                   || db.catalogs[c].bundle.manifestDigest == bundle.manifestDigest || db.catalogs[c].bundle.payloadDigest == bundle.payloadDigest)));
      }
    }
    hide ViolatesCatalogKeys, Clashes;
  }

  /** A save is accepted exactly when its run awaits a bundle of the source, there is room, no catalog of the source
      that was ever activated is as new, and the bundle clashes with nothing retained; then it adds its row and
      updates its run. Every refusal has its exact condition, in order, and changes nothing. */
  lemma SaveLaw(db: Db, r: RunId, source: SourceId, bundle: Bundle, preview: CatalogPreview)
    requires CatalogKeys(db.catalogs)
    ensures
      SaveVerifiedBundle(db, r, source, bundle, preview).error.None? <==>
        AwaitsBundle(db, r, source) && !SourceIsFull(db, source) && !NotNewer(db, source, bundle) && !Clashes(db, r, source, bundle)
    ensures
      var outcome := SaveVerifiedBundle(db, r, source, bundle, preview);
      if !AwaitsBundle(db, r, source) then outcome == Outcome(db, Some(RunStateConflict))
      else if SourceIsFull(db, source) then outcome == Outcome(db, Some(CatalogRetentionLimit))
      else if NotNewer(db, source, bundle) then outcome == Outcome(db, Some(CatalogDowngrade))
      else if NewestHasVersion(db, source, bundle.version) then outcome == Outcome(db, Some(CatalogVersionReplay))
      else if HasManifestOf(db, source, bundle) then outcome == Outcome(db, Some(ManifestReplay))
      else if HasPayloadOf(db, source, bundle) then outcome == Outcome(db, Some(PayloadMetadataConflict))
      else if Clashes(db, r, source, bundle) then outcome == Outcome(db, Some(CatalogReplay))
      else exists active :: IsActiveOf(db, source, active) && SavedTogether(db, outcome.db, r, source, bundle, preview, active)
  {
    SaveCheckLaw(db, r, source, bundle);
    hide SaveCheck, SourceIsFull, NotNewer, CatalogKeys, SaveInsert, SavedTogether, ActiveCatalog;
    var active := ActiveCatalog(db.catalogs, source);
    assert IsActiveOf(db, source, active);
    if AwaitsBundle(db, r, source) {
      SaveInsertLaw(db, r, source, bundle, preview, active);
    }
  }

  /* ---------- Marking a reevaluation ---------- */

  /** The state an activated run has under each status of its reevaluation. */
  function StateUnder(state: RunState, status: Reevaluation): RunState {
    if status == Broken then ActivatedDegraded else if status == Completed then Activated else state
  }

  /** The status is written to the entry and, for an activation, to the run of the entry's catalog, whose state follows;
      nothing else changes. */
  ghost predicate Marked(db: Db, db': Db, i: ActivationId, status: Reevaluation) {
    && db'.catalogs == db.catalogs && db'.tables == db.tables && |db'.log| == |db.log| && |db'.runs| == |db.runs|
    && i < |db.log| && db'.log[i].status == status && db'.log[i].(status := db.log[i].status) == db.log[i]
    && (forall j :: 0 <= j < |db.log| && j != i ==> db'.log[j] == db.log[j])
    && forall r :: 0 <= r < |db.runs| ==>
         if db.log[i].kind == Activate && db.log[i].catalog < |db.catalogs| && db.catalogs[db.log[i].catalog].run == r
         then db'.runs[r] == db.runs[r].(reevaluation := status, state := StateUnder(db.runs[r].state, status))
         else db'.runs[r] == db.runs[r]
  }

  /** Running, completed and failed can be marked, on entries there are; every refusal changes nothing. */
  lemma MarkLaw(db: Db, i: ActivationId, status: Reevaluation)
    ensures
      var outcome := MarkReevaluation(db, i, status);
      && (outcome.error == Some(ReevaluationStateInvalid) <==> status in {NotStarted, Reevaluation.Pending})
      && (outcome.error == Some(ActivationNotFound) <==> status !in {NotStarted, Reevaluation.Pending} && i >= |db.log|)
      && (outcome.error.None? <==> status in {Running, Completed, Broken} && i < |db.log|)
      && (outcome.error.Some? ==> outcome.db == db)
      && (outcome.error.None? ==> Marked(db, outcome.db, i, status))
  {
  }

  /* ---------- The refusals of an activation and of a rollback ---------- */

  /** Run `r` is approved and has saved catalog `c`. */
  predicate ApprovedWith(db: Db, r: RunId, c: CatalogId) {
    r < |db.runs| && db.runs[r].state == Approved && c < |db.catalogs| && db.catalogs[c].run == r
  }

  lemma ActivationRefusals(text: Text, db: Db, r: RunId, catalog: Catalog, checksum: Digest<Catalog>, now: int)
    requires CatalogKeys(db.catalogs)
    ensures
      var error := ActivateRun(text, db, r, catalog, checksum, now).error;
      && (error == Some(RunStateConflict) <==> forall c: CatalogId :: !ApprovedWith(db, r, c))
      && forall c: CatalogId :: ApprovedWith(db, r, c) ==>
           var bundle, active := db.catalogs[c].bundle, ActiveCatalog(db.catalogs, db.catalogs[c].source);
           var intact := bundle.checksum == checksum == Sha256(bundle.content);
           && (error == Some(ManifestExpired) <==> bundle.expiresAt <= now)
           && (error == Some(RetainedCatalogDigestInvalid) <==> now < bundle.expiresAt && !intact)
           && (error == Some(ActivationPreviewStale) <==> now < bundle.expiresAt && intact && db.runs[r].activeBefore != active)
           && (error.None? <==> now < bundle.expiresAt && intact && db.runs[r].activeBefore == active)
  {
    hide Import, SwitchActive, ActiveCatalog, CatalogForRun;
    var found := CatalogForRun(db.catalogs, r);
    if found.Some? {
      forall c: CatalogId | ApprovedWith(db, r, c) ensures c == found.value {
      }
      assert r < |db.runs| && db.runs[r].state == Approved ==> ApprovedWith(db, r, found.value);
    }
  }

  lemma RollbackRefusals(text: Text, db: Db, c: CatalogId, catalog: Catalog, checksum: Digest<Catalog>, cooldown: int, now: int)
    ensures
      var error := RollbackCatalog(text, db, c, catalog, checksum, cooldown, now).error;
      && (error == Some(RollbackTargetInvalid) <==> c >= |db.catalogs| || db.catalogs[c].activationCount == 0)
      && (c < |db.catalogs| && db.catalogs[c].activationCount > 0 ==>
            var row := db.catalogs[c];
            var cooled := forall i :: 0 <= i < |db.log| && db.log[i].source == row.source ==> now - db.log[i].createdAt >= cooldown;
            var intact := row.bundle.checksum == checksum == Sha256(row.bundle.content);
            && (error == Some(RollbackTargetActive) <==> row.active)
            && (error == Some(ControlActionRateLimited) <==> !row.active && !cooled)
            && (error == Some(RetainedCatalogDigestInvalid) <==> !row.active && cooled && !intact)
            && (error.None? <==> !row.active && cooled && intact))
  {
    hide Import, SwitchActive, ActiveCatalog;
  }
}
