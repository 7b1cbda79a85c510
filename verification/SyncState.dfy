/** The synchronization database as a value, and each store transaction as a function on it.
    Generated identifiers are modelled by insertion position: they never collide. */
module SyncState {
  import opened Prelude
  import opened Catalogs
  import opened CatalogDiffs
  import opened AdvisoryTables

  type SourceId = string
  type RunId = nat
  type CatalogId = nat
  type ActivationId = nat

  datatype RequestMode = RemoteSync | LocalReviewedBundle

  datatype RunState =
    | Created | Downloading | Downloaded | Verifying | Verified | PreviewReady
    | PendingApproval | Approved | Importing
    | Activated | ActivatedDegraded | Rejected | Failed | Expired

  predicate IsActive(state: RunState) {
    !(state.Activated? || state.ActivatedDegraded? || state.Rejected? || state.Failed? || state.Expired?)
  }

  predicate IsActivated(state: RunState) {
    state.Activated? || state.ActivatedDegraded?
  }

  datatype Reevaluation = NotStarted | Pending | Running | Completed | Broken

  datatype Run = Run(
    source: SourceId, mode: RequestMode, state: RunState, createdAt: int,
    sequence: Option<nat>, preview: Option<CatalogPreview>,
    activeBefore: Option<CatalogId>, activatedAfter: Option<CatalogId>, reevaluation: Reevaluation)

  /** A verified signed bundle, reduced to what the store keeps of it. */
  datatype Bundle = Bundle(
    version: string, sequence: nat, manifestDigest: string, payloadDigest: string,
    checksum: Digest<Catalog>, content: Catalog, expiresAt: int)

  datatype CatalogRow = CatalogRow(
    run: RunId, source: SourceId, bundle: Bundle, preview: CatalogPreview, active: bool, activationCount: nat)

  datatype ActivationKind = Activate | Rollback

  datatype Activation = Activation(
    kind: ActivationKind, source: SourceId, catalog: CatalogId, previous: Option<CatalogId>,
    createdAt: int, status: Reevaluation)

  datatype Db = Db(runs: seq<Run>, catalogs: seq<CatalogRow>, log: seq<Activation>, tables: Tables)

  const EmptyDb := Db([], [], [], EmptyTables)

  datatype StoreError =
    | SyncAlreadyActive | SyncRateLimited | RunStateConflict
    | CatalogRetentionLimit | CatalogDowngrade | CatalogVersionReplay | ManifestReplay
    | PayloadMetadataConflict | CatalogReplay
    | RetainedCatalogDigestInvalid | ActivationPreviewStale | ManifestExpired
    | RollbackTargetInvalid | RollbackTargetActive | ControlActionRateLimited
    | ActivationNotFound | ReevaluationStateInvalid

  datatype Outcome = Outcome(db: Db, error: Option<StoreError>)

  function Refused(db: Db, error: StoreError): Outcome {
    Outcome(db, Some(error))
  }

  const MAX_RETAINED_CATALOGS_PER_SOURCE := 100

  /* ---------- Runs ---------- */

  predicate HasActiveRun(runs: seq<Run>, source: SourceId) {
    exists r :: 0 <= r < |runs| && runs[r].source == source && IsActive(runs[r].state)
  }

  /** The newest run of the source is younger than the interval. */
  predicate RequestedRecently(runs: seq<Run>, source: SourceId, interval: int, now: int) {
    exists r :: 0 <= r < |runs| && runs[r].source == source && now - runs[r].createdAt < interval
  }

  function CreateRun(db: Db, source: SourceId, mode: RequestMode, interval: int, now: int): Outcome {
    if HasActiveRun(db.runs, source) then Refused(db, SyncAlreadyActive)
    else if RequestedRecently(db.runs, source, interval, now) then Refused(db, SyncRateLimited)
    else
      Outcome(db.(runs := db.runs + [Run(source, mode, Created, now, None, None, None, None, NotStarted)]), None)
  }

  function WithState(runs: seq<Run>, r: RunId, state: RunState): seq<Run>
    requires r < |runs|
  {
    runs[r := runs[r].(state := state)]
  }

  function Transition(db: Db, r: RunId, expected: set<RunState>, state: RunState): Outcome {
    if r < |db.runs| && db.runs[r].state in expected then
      Outcome(db.(runs := WithState(db.runs, r, state)), None)
    else
      Refused(db, RunStateConflict)
  }

  const ACTIVE_RUN_STATES := {Created, Downloading, Downloaded, Verifying, Verified, PreviewReady, PendingApproval, Approved, Importing}

  /** A run that is no longer active stays as it is, without an error. */
  function FailRun(db: Db, r: RunId): Outcome {
    Outcome(Transition(db, r, ACTIVE_RUN_STATES, Failed).db, None)
  }

  function Approve(db: Db, r: RunId): Outcome {
    Transition(db, r, {PendingApproval}, Approved)
  }

  function Reject(db: Db, r: RunId): Outcome {
    Transition(db, r, {PendingApproval}, Rejected)
  }

  /* ---------- Retaining a verified bundle ---------- */

  predicate EverLogged(log: seq<Activation>, c: CatalogId) {
    exists i :: 0 <= i < |log| && log[i].catalog == c
  }

  /** The catalog of highest sequence among the source's catalogs that occur in the activation log. */
  function Prior(db: Db, source: SourceId, count: nat): (prior: Option<CatalogId>)
    requires count <= |db.catalogs|
    ensures prior.Some? ==>
      && prior.value < count && db.catalogs[prior.value].source == source && EverLogged(db.log, prior.value)
      && forall c :: 0 <= c < count && db.catalogs[c].source == source && EverLogged(db.log, c)
                     ==> db.catalogs[c].bundle.sequence <= db.catalogs[prior.value].bundle.sequence
    ensures prior.None? ==> forall c :: 0 <= c < count && db.catalogs[c].source == source ==> !EverLogged(db.log, c)
  {
    if count == 0 then
      None
    else
      var best := Prior(db, source, count - 1);
      var c := count - 1;
      if db.catalogs[c].source == source && EverLogged(db.log, c)
         && (best.Some? ==> db.catalogs[best.value].bundle.sequence < db.catalogs[c].bundle.sequence)
      then Some(c) else best
  }

  function RetainedOf(catalogs: seq<CatalogRow>, source: SourceId): set<CatalogId> {
    set c | 0 <= c < |catalogs| && catalogs[c].source == source
  }

  predicate HasManifest(catalogs: seq<CatalogRow>, source: SourceId, digest: string) {
    exists c :: 0 <= c < |catalogs| && catalogs[c].source == source && catalogs[c].bundle.manifestDigest == digest
  }

  predicate HasConflictingPayload(catalogs: seq<CatalogRow>, source: SourceId, bundle: Bundle) {
    exists c :: 0 <= c < |catalogs| && catalogs[c].source == source
                && catalogs[c].bundle.payloadDigest == bundle.payloadDigest
                && catalogs[c].bundle.manifestDigest != bundle.manifestDigest
  }

  /** The checks a save makes before it reads the active catalog and inserts. */
  function SaveCheck(db: Db, r: RunId, source: SourceId, bundle: Bundle): Option<StoreError> {
    if !(r < |db.runs| && db.runs[r].source == source && db.runs[r].state == Verifying) then
      Some(RunStateConflict)
    else if |RetainedOf(db.catalogs, source)| >= MAX_RETAINED_CATALOGS_PER_SOURCE then
      Some(CatalogRetentionLimit)
    else
      var prior := Prior(db, source, |db.catalogs|);
      if prior.Some? && bundle.sequence <= db.catalogs[prior.value].bundle.sequence then
        Some(CatalogDowngrade)
      else if prior.Some? && bundle.version == db.catalogs[prior.value].bundle.version then
        Some(CatalogVersionReplay)
      else if HasManifest(db.catalogs, source, bundle.manifestDigest) then
        Some(ManifestReplay)
      else if HasConflictingPayload(db.catalogs, source, bundle) then
        Some(PayloadMetadataConflict)
      else
        None
  }

  function ActiveCatalog(catalogs: seq<CatalogRow>, source: SourceId): (active: Option<CatalogId>)
    ensures active.Some? ==> active.value < |catalogs| && catalogs[active.value].source == source && catalogs[active.value].active
    ensures active.None? ==> forall c :: 0 <= c < |catalogs| && catalogs[c].source == source ==> !catalogs[c].active
  {
    if |catalogs| == 0 then None
    else
      var last := |catalogs| - 1;
      if catalogs[last].source == source && catalogs[last].active then Some(last) else ActiveCatalog(catalogs[..last], source)
  }

  /** The unique constraints of the retained-catalog table. */
  predicate ViolatesCatalogKeys(catalogs: seq<CatalogRow>, r: RunId, source: SourceId, bundle: Bundle) {
    exists c :: 0 <= c < |catalogs| &&
      (catalogs[c].run == r
       || (catalogs[c].source == source
           && (catalogs[c].bundle.sequence == bundle.sequence
               || catalogs[c].bundle.version == bundle.version
               || catalogs[c].bundle.manifestDigest == bundle.manifestDigest
               || catalogs[c].bundle.payloadDigest == bundle.payloadDigest)))
  }

  function SavedRun(run: Run, bundle: Bundle, preview: CatalogPreview, activeBefore: Option<CatalogId>): Run {
    run.(state := PendingApproval, sequence := Some(bundle.sequence), preview := Some(preview), activeBefore := activeBefore)
  }

  /** The insert and the run update that end a save. */
  function SaveInsert(db: Db, r: RunId, source: SourceId, bundle: Bundle, preview: CatalogPreview, activeBefore: Option<CatalogId>): Outcome
    requires r < |db.runs|
  {
    if ViolatesCatalogKeys(db.catalogs, r, source, bundle) then
      Refused(db, CatalogReplay)
    else
      Outcome(db.(catalogs := db.catalogs + [CatalogRow(r, source, bundle, preview, false, 0)],
                  runs := db.runs[r := SavedRun(db.runs[r], bundle, preview, activeBefore)]), None)
  }

  /** The whole save, when nothing else commits between its statements. */
  function SaveVerifiedBundle(db: Db, r: RunId, source: SourceId, bundle: Bundle, preview: CatalogPreview): Outcome {
    match SaveCheck(db, r, source, bundle)
    case Some(error) => Refused(db, error)
    case None => SaveInsert(db, r, source, bundle, preview, ActiveCatalog(db.catalogs, source))
  }

  /* ---------- Activation and rollback ---------- */

  function CatalogForRun(catalogs: seq<CatalogRow>, r: RunId): (found: Option<CatalogId>)
    ensures found.Some? ==> found.value < |catalogs| && catalogs[found.value].run == r
    ensures found.None? ==> forall c :: 0 <= c < |catalogs| ==> catalogs[c].run != r
  {
    if |catalogs| == 0 then None
    else
      var last := |catalogs| - 1;
      if catalogs[last].run == r then Some(last) else CatalogForRun(catalogs[..last], r)
  }

  /** Clear the source's active flag, then set it on the chosen catalog and count the activation. */
  function SwitchActive(catalogs: seq<CatalogRow>, source: SourceId, chosen: CatalogId): (after: seq<CatalogRow>)
    ensures |after| == |catalogs|
  {
    seq(|catalogs|, c requires 0 <= c < |catalogs| =>
      if c == chosen then catalogs[c].(active := true, activationCount := catalogs[c].activationCount + 1)
      else if catalogs[c].source == source then catalogs[c].(active := false)
      else catalogs[c])
  }

  predicate DigestHolds(row: CatalogRow, checksum: Digest<Catalog>) {
    Sha256(row.bundle.content) == checksum && row.bundle.checksum == checksum
  }

  function ActivateRun(text: Text, db: Db, r: RunId, catalog: Catalog, checksum: Digest<Catalog>, now: int): Outcome {
    var found := CatalogForRun(db.catalogs, r);
    if !(r < |db.runs| && found.Some? && db.runs[r].state == Approved) then
      Refused(db, RunStateConflict)
    else
      var c := found.value;
      var row := db.catalogs[c];
      if row.bundle.expiresAt <= now then
        Refused(db.(runs := WithState(db.runs, r, Expired)), ManifestExpired)
      else if !DigestHolds(row, checksum) then
        Refused(db, RetainedCatalogDigestInvalid)
      else
        var previous := ActiveCatalog(db.catalogs, row.source);
        if db.runs[r].activeBefore != previous then
          Refused(db, ActivationPreviewStale)
        else
          Outcome(
            Db(db.runs[r := db.runs[r].(state := Activated, activatedAfter := Some(c), reevaluation := Pending)],
               SwitchActive(db.catalogs, row.source, c),
               db.log + [Activation(Activate, row.source, c, previous, now, Pending)],
               Import(text, db.tables, catalog, checksum, true)),
            None)
  }

  predicate ControlledRecently(log: seq<Activation>, source: SourceId, cooldown: int, now: int) {
    exists i :: 0 <= i < |log| && log[i].source == source && now - log[i].createdAt < cooldown
  }

  function RollbackCatalog(text: Text, db: Db, c: CatalogId, catalog: Catalog, checksum: Digest<Catalog>, cooldown: int, now: int): Outcome {
    if c >= |db.catalogs| || db.catalogs[c].activationCount < 1 then
      Refused(db, RollbackTargetInvalid)
    else if db.catalogs[c].active then
      Refused(db, RollbackTargetActive)
    else
      var source := db.catalogs[c].source;
      if ControlledRecently(db.log, source, cooldown, now) then
        Refused(db, ControlActionRateLimited)
      else if !DigestHolds(db.catalogs[c], checksum) then
        Refused(db, RetainedCatalogDigestInvalid)
      else
        Outcome(
          Db(db.runs,
             SwitchActive(db.catalogs, source, c),
             db.log + [Activation(Rollback, source, c, ActiveCatalog(db.catalogs, source), now, Pending)],
             Import(text, db.tables, catalog, checksum, true)),
          None)
  }

  /* ---------- Reevaluation marks ---------- */

  function MarkedState(state: RunState, status: Reevaluation): RunState {
    match status
    case Broken => ActivatedDegraded
    case Completed => Activated
    case _ => state
  }

  function MarkReevaluation(db: Db, i: ActivationId, status: Reevaluation): Outcome {
    if status.NotStarted? || status.Pending? then
      Refused(db, ReevaluationStateInvalid)
    else if i >= |db.log| then
      Refused(db, ActivationNotFound)
    else
      var entry := db.log[i];
      var marked := db.(log := db.log[i := entry.(status := status)]);
      if entry.kind == Activate && entry.catalog < |db.catalogs| && db.catalogs[entry.catalog].run < |db.runs| then
        var r := db.catalogs[entry.catalog].run;
        Outcome(marked.(runs := db.runs[r := db.runs[r].(reevaluation := status, state := MarkedState(db.runs[r].state, status))]), None)
      else
        Outcome(marked, None)
  }
}
