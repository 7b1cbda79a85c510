/** What every reachable state keeps about runs, retained catalogs and the activation log. */
module RunInvariants {
  import opened Prelude
  import opened Catalogs
  import opened CatalogDiffs
  import opened AdvisoryTables
  import opened SyncState
  import opened Matching
  import opened Lifecycle

  type Sessions = map<RunId, Session>

  predicate Early(state: RunState) {
    state.Created? || state.Downloading? || state.Downloaded?
  }

  predicate Waiting(state: RunState) {
    state.PendingApproval? || state.Approved?
  }

  /* ---------- Runs, sessions and retained catalogs ---------- */

  /** At most one run of a source is active. */
  ghost predicate OneSlot(runs: seq<Run>) {
    forall r, q :: 0 <= r < q < |runs| && runs[r].source == runs[q].source ==> !(IsActive(runs[r].state) && IsActive(runs[q].state))
  }

  /** No state that only exists inside a transaction is ever committed. */
  ghost predicate CommittedStates(runs: seq<Run>) {
    forall r :: 0 <= r < |runs| ==> !runs[r].state.Verified? && !runs[r].state.PreviewReady? && !runs[r].state.Importing?
  }

  ghost predicate SessionLinks(feeds: Feeds, runs: seq<Run>, sessions: Sessions) {
    && (forall r :: r in sessions ==>
          r < |runs| && runs[r].source == sessions[r].source && !Early(runs[r].state)
          && VerifiedFor(feeds, sessions[r].source, sessions[r].bundle))
    && (forall r: RunId :: Locked(sessions, r) ==> r < |runs| && runs[r].state == Verifying)
  }

  /** A retained catalog is what its run's session saved. */
  ghost predicate SavedBy(runs: seq<Run>, sessions: Sessions, row: CatalogRow) {
    && row.run < |runs| && row.run in sessions
    && sessions[row.run].phase.Saved?
    && sessions[row.run].source == row.source == runs[row.run].source
    && sessions[row.run].bundle == row.bundle
    && sessions[row.run].preview == row.preview
    && runs[row.run].activeBefore == sessions[row.run].phase.activeBefore
    && !Early(runs[row.run].state) && runs[row.run].state != Verifying
  }

  ghost predicate DistinctRuns(catalogs: seq<CatalogRow>) {
    forall c, d :: 0 <= c < d < |catalogs| ==> catalogs[c].run != catalogs[d].run
  }

  ghost predicate CatalogLinks(runs: seq<Run>, sessions: Sessions, catalogs: seq<CatalogRow>) {
    && (forall c :: 0 <= c < |catalogs| ==> SavedBy(runs, sessions, catalogs[c]))
    && DistinctRuns(catalogs)
  }

  ghost predicate Retention(catalogs: seq<CatalogRow>, sessions: Sessions) {
    && (forall source :: |RetainedOf(catalogs, source)| <= MAX_RETAINED_CATALOGS_PER_SOURCE)
    && (forall r: RunId :: Locked(sessions, r) ==> |RetainedOf(catalogs, sessions[r].source)| < MAX_RETAINED_CATALOGS_PER_SOURCE)
  }

  /* ---------- The activation log ---------- */

  ghost predicate LogRefs(catalogs: seq<CatalogRow>, log: seq<Activation>) {
    forall i :: 0 <= i < |log| ==> log[i].catalog < |catalogs| && catalogs[log[i].catalog].source == log[i].source
  }

  function RunOf(catalogs: seq<CatalogRow>, entry: Activation): RunId
    requires entry.catalog < |catalogs|
  {
    catalogs[entry.catalog].run
  }

  ghost predicate LoggedRuns(runs: seq<Run>, catalogs: seq<CatalogRow>, log: seq<Activation>)
    requires LogRefs(catalogs, log)
  {
    forall i :: 0 <= i < |log| ==> RunOf(catalogs, log[i]) < |runs| && IsActivated(runs[RunOf(catalogs, log[i])].state)
  }

  /** Each entry's previous catalog is the catalog of the source's entry before it. */
  ghost predicate LogChain(log: seq<Activation>) {
    forall i :: 0 <= i < |log| ==> log[i].previous == LastOf(log, i, log[i].source)
  }

  /** The active flag and the activation count are functions of the log. */
  ghost predicate FlagsAgree(catalogs: seq<CatalogRow>, log: seq<Activation>) {
    forall c :: 0 <= c < |catalogs| ==>
      && (catalogs[c].active <==> LastOf(log, |log|, catalogs[c].source) == Some(c))
      && catalogs[c].activationCount == CountOf(log, |log|, c)
  }

  /** One of the first `n` entries activates the catalog. */
  ghost predicate ActivatedBy(log: seq<Activation>, n: nat, c: CatalogId) {
    exists j :: 0 <= j < n && j < |log| && log[j].kind == Activate && log[j].catalog == c
  }

  /** A catalog is activated once; every other entry of it is a later rollback. */
  ghost predicate OneActivation(log: seq<Activation>) {
    DistinctActivations(log) && RollbacksFollow(log)
  }

  ghost predicate DistinctActivations(log: seq<Activation>) {
    forall i, j :: 0 <= i < j < |log| && log[i].kind == log[j].kind == Activate ==> log[i].catalog != log[j].catalog
  }

  ghost predicate RollbacksFollow(log: seq<Activation>) {
    forall i :: 0 <= i < |log| ==> ActivatedBy(log, i + 1, log[i].catalog)
  }

  predicate StateFits(state: RunState, status: Reevaluation) {
    match status
    case Broken => state == ActivatedDegraded
    case Running => IsActivated(state)
    case _ => state == Activated
  }

  /** A run's reevaluation status is that of its own activation entry, and its state fits. */
  ghost predicate StatusAgrees(runs: seq<Run>, catalogs: seq<CatalogRow>, log: seq<Activation>)
    requires LogRefs(catalogs, log) && LoggedRuns(runs, catalogs, log)
  {
    forall i :: 0 <= i < |log| && log[i].kind == Activate ==>
      && runs[RunOf(catalogs, log[i])].reevaluation == log[i].status
      && StateFits(runs[RunOf(catalogs, log[i])].state, log[i].status)
      && !log[i].status.NotStarted?
  }

  /** An activated run's catalog is in the log. */
  ghost predicate ActivatedRunsLogged(runs: seq<Run>, catalogs: seq<CatalogRow>, log: seq<Activation>) {
    forall r :: 0 <= r < |runs| && IsActivated(runs[r].state) ==>
      exists i :: 0 <= i < |log| && log[i].kind == Activate && log[i].catalog < |catalogs| && RunOf(catalogs, log[i]) == r
  }

  /* ---------- Sequences only rise ---------- */

  ghost predicate LogBelow(catalogs: seq<CatalogRow>, log: seq<Activation>, source: SourceId, sequence: nat) {
    forall i :: 0 <= i < |log| && log[i].source == source && log[i].catalog < |catalogs|
                ==> catalogs[log[i].catalog].bundle.sequence < sequence
  }

  /** An activation goes above every earlier entry of its source. */
  ghost predicate Monotone(catalogs: seq<CatalogRow>, log: seq<Activation>)
    requires LogRefs(catalogs, log)
  {
    forall i, j :: 0 <= i < j < |log| && log[i].source == log[j].source && log[j].kind == Activate
                   ==> catalogs[log[i].catalog].bundle.sequence < catalogs[log[j].catalog].bundle.sequence
  }

  ghost predicate WaitingAbove(runs: seq<Run>, catalogs: seq<CatalogRow>, log: seq<Activation>) {
    forall c :: 0 <= c < |catalogs| && catalogs[c].run < |runs| && Waiting(runs[catalogs[c].run].state)
                ==> LogBelow(catalogs, log, catalogs[c].source, catalogs[c].bundle.sequence)
  }

  ghost predicate LocksAbove(catalogs: seq<CatalogRow>, log: seq<Activation>, sessions: Sessions) {
    forall r: RunId :: Locked(sessions, r) ==> LogBelow(catalogs, log, sessions[r].source, sessions[r].bundle.sequence)
  }

  ghost predicate Inv(feeds: Feeds, s: System) {
    var Db(runs, catalogs, log, _) := s.db;
    && OneSlot(runs) && CommittedStates(runs)
    && SessionLinks(feeds, runs, s.sessions) && CatalogLinks(runs, s.sessions, catalogs) && Retention(catalogs, s.sessions)
    && LogRefs(catalogs, log) && LoggedRuns(runs, catalogs, log)
    && LogChain(log) && FlagsAgree(catalogs, log) && OneActivation(log)
    && StatusAgrees(runs, catalogs, log) && ActivatedRunsLogged(runs, catalogs, log)
    && Monotone(catalogs, log) && WaitingAbove(runs, catalogs, log) && LocksAbove(catalogs, log, s.sessions)
  }

  /* ---------- Runs change state ---------- */

  predicate LegalMove(from: RunState, to: RunState) {
    || (from == Created && to == Downloading)
    || (from == Downloading && to == Downloaded)
    || (from == Downloaded && to == Verifying)
    || (from == PendingApproval && to == Approved)
    || (from == PendingApproval && to == Rejected)
    || (from == Approved && to == Expired)
    || (IsActive(from) && to == Failed)
  }

  /** Runs are added in their first state; an unlocked run may take a legal step; nothing else changes. */
  ghost predicate RunsEvolve(runs: seq<Run>, runs': seq<Run>, sessions: Sessions) {
    && |runs| <= |runs'|
    && (forall r :: 0 <= r < |runs| ==>
          && runs'[r] == runs[r].(state := runs'[r].state)
          && (runs'[r].state == runs[r].state || (LegalMove(runs[r].state, runs'[r].state) && !Locked(sessions, r))))
    && (forall r :: |runs| <= r < |runs'| ==> runs'[r].state == Created)
  }

  lemma EvolveLinks(feeds: Feeds, runs: seq<Run>, runs': seq<Run>, sessions: Sessions, catalogs: seq<CatalogRow>)
    requires RunsEvolve(runs, runs', sessions)
    requires SessionLinks(feeds, runs, sessions) && CatalogLinks(runs, sessions, catalogs)
    ensures SessionLinks(feeds, runs', sessions) && CatalogLinks(runs', sessions, catalogs)
  {
    hide VerifiedFor;
    forall c | 0 <= c < |catalogs| ensures SavedBy(runs', sessions, catalogs[c]) {
      assert SavedBy(runs, sessions, catalogs[c]);
    }
  }

  lemma EvolveLog(runs: seq<Run>, runs': seq<Run>, sessions: Sessions, catalogs: seq<CatalogRow>, log: seq<Activation>)
    requires RunsEvolve(runs, runs', sessions) && LogRefs(catalogs, log)
    requires LoggedRuns(runs, catalogs, log) && StatusAgrees(runs, catalogs, log) && ActivatedRunsLogged(runs, catalogs, log)
    ensures LoggedRuns(runs', catalogs, log) && StatusAgrees(runs', catalogs, log) && ActivatedRunsLogged(runs', catalogs, log)
  {
  }

  lemma EvolveWaiting(runs: seq<Run>, runs': seq<Run>, sessions: Sessions, catalogs: seq<CatalogRow>, log: seq<Activation>)
    requires RunsEvolve(runs, runs', sessions)
    requires CatalogLinks(runs, sessions, catalogs) && WaitingAbove(runs, catalogs, log)
    ensures WaitingAbove(runs', catalogs, log)
  {
    forall c | 0 <= c < |catalogs| && catalogs[c].run < |runs'| && Waiting(runs'[catalogs[c].run].state)
      ensures LogBelow(catalogs, log, catalogs[c].source, catalogs[c].bundle.sequence)
    {
      assert SavedBy(runs, sessions, catalogs[c]);
    }
  }

  lemma EvolveKeepsInv(feeds: Feeds, s: System, runs': seq<Run>)
    requires Inv(feeds, s) && RunsEvolve(s.db.runs, runs', s.sessions) && OneSlot(runs')
    ensures Inv(feeds, WithDb(s, s.db.(runs := runs')))
  {
    hide SessionLinks, CatalogLinks, LoggedRuns, StatusAgrees, ActivatedRunsLogged, WaitingAbove, Monotone, LocksAbove, FlagsAgree,
      OneActivation, LogChain, Retention;
    EvolveLinks(feeds, s.db.runs, runs', s.sessions, s.db.catalogs);
    EvolveLog(s.db.runs, runs', s.sessions, s.db.catalogs, s.db.log);
    EvolveWaiting(s.db.runs, runs', s.sessions, s.db.catalogs, s.db.log);
  }

  function Moved(s: System, r: RunId, to: RunState): System
    requires r < |s.db.runs|
  {
    WithDb(s, s.db.(runs := WithState(s.db.runs, r, to)))
  }

  lemma MoveKeepsInv(feeds: Feeds, s: System, r: RunId, to: RunState)
    requires Inv(feeds, s) && r < |s.db.runs| && LegalMove(s.db.runs[r].state, to) && !Locked(s.sessions, r)
    ensures Inv(feeds, Moved(s, r, to))
  {
    hide SessionLinks, CatalogLinks, LoggedRuns, StatusAgrees, ActivatedRunsLogged, WaitingAbove, Monotone, LocksAbove, FlagsAgree,
      OneActivation, LogChain, LogRefs, Retention;
    EvolveKeepsInv(feeds, s, WithState(s.db.runs, r, to));
  }

  lemma CreateKeepsInv(feeds: Feeds, s: System, source: SourceId, mode: RequestMode, interval: int, now: int)
    requires Inv(feeds, s)
    ensures Inv(feeds, WithDb(s, CreateRun(s.db, source, mode, interval, now).db))
  {
    hide SessionLinks, CatalogLinks, LoggedRuns, StatusAgrees, ActivatedRunsLogged, WaitingAbove, Monotone, LocksAbove, FlagsAgree,
      OneActivation, LogChain, LogRefs, Retention;
    EvolveKeepsInv(feeds, s, CreateRun(s.db, source, mode, interval, now).db.runs);
  }

  /* ---------- The service's session with a run ---------- */

  /** A session may be opened, or change phase before it is saved, while its run is being verified. */
  ghost predicate SessionStep(feeds: Feeds, s: System, r: RunId, session: Session) {
    && r < |s.db.runs| && s.db.runs[r].state == Verifying
    && session.source == s.db.runs[r].source && VerifiedFor(feeds, session.source, session.bundle)
    && !session.phase.Saved?
    && (session.phase.Checked? || session.phase.Based? ==>
          && LogBelow(s.db.catalogs, s.db.log, session.source, session.bundle.sequence)
          && |RetainedOf(s.db.catalogs, session.source)| < MAX_RETAINED_CATALOGS_PER_SOURCE)
  }

  lemma SessionStepKeepsInv(feeds: Feeds, s: System, r: RunId, session: Session)
    requires Inv(feeds, s) && SessionStep(feeds, s, r, session)
    ensures Inv(feeds, s.(sessions := s.sessions[r := session]))
  {
    hide VerifiedFor, LoggedRuns, StatusAgrees, ActivatedRunsLogged, WaitingAbove, Monotone, FlagsAgree, OneActivation, LogChain, LogRefs,
      OneSlot, CommittedStates, LogBelow;
    var sessions' := s.sessions[r := session];
    forall c | 0 <= c < |s.db.catalogs| ensures SavedBy(s.db.runs, sessions', s.db.catalogs[c]) {
      assert SavedBy(s.db.runs, s.sessions, s.db.catalogs[c]);
    }
  }

  /** Passing the save checks puts the bundle above everything logged for its source. */
  lemma CheckedAboveLog(db: Db, r: RunId, source: SourceId, bundle: Bundle)
    requires LogRefs(db.catalogs, db.log) && SaveCheck(db, r, source, bundle).None?
    ensures LogBelow(db.catalogs, db.log, source, bundle.sequence)
    ensures |RetainedOf(db.catalogs, source)| < MAX_RETAINED_CATALOGS_PER_SOURCE
    ensures r < |db.runs| && db.runs[r].source == source && db.runs[r].state == Verifying
  {
    forall i | 0 <= i < |db.log| && db.log[i].source == source
      ensures db.catalogs[db.log[i].catalog].bundle.sequence < bundle.sequence
    {
      assert EverLogged(db.log, db.log[i].catalog);
    }
  }

  /* ---------- A bundle is saved ---------- */

  ghost predicate CanSave(s: System, r: RunId) {
    && r in s.sessions && s.sessions[r].phase.Based? && r < |s.db.runs|
    && !ViolatesCatalogKeys(s.db.catalogs, r, s.sessions[r].source, s.sessions[r].bundle)
  }

  function RowSaved(session: Session, r: RunId): CatalogRow {
    CatalogRow(r, session.source, session.bundle, session.preview, false, 0)
  }

  ghost function AfterSave(s: System, r: RunId): System
    requires CanSave(s, r)
  {
    var session := s.sessions[r];
    System(
      s.db.(catalogs := s.db.catalogs + [RowSaved(session, r)],
            runs := s.db.runs[r := SavedRun(s.db.runs[r], session.bundle, session.preview, session.phase.activeBefore)]),
      s.sessions[r := session.(phase := Saved(session.phase.activeBefore, session.phase.at))],
      s.workers, s.matches)
  }

  lemma RetainedStep(catalogs: seq<CatalogRow>, row: CatalogRow, source: SourceId)
    ensures RetainedOf(catalogs + [row], source)
         == RetainedOf(catalogs, source) + (if row.source == source then {|catalogs|} else {})
  {
  }

  lemma SaveKeepsSlots(s: System, r: RunId)
    requires CanSave(s, r) && s.db.runs[r].state == Verifying
    requires OneSlot(s.db.runs) && CommittedStates(s.db.runs)
    ensures OneSlot(AfterSave(s, r).db.runs) && CommittedStates(AfterSave(s, r).db.runs)
  {
    hide ViolatesCatalogKeys;
  }

  lemma SaveKeepsSessions(feeds: Feeds, s: System, r: RunId)
    requires CanSave(s, r) && SessionLinks(feeds, s.db.runs, s.sessions)
    ensures SessionLinks(feeds, AfterSave(s, r).db.runs, AfterSave(s, r).sessions)
  {
    hide VerifiedFor, ViolatesCatalogKeys;
  }

  lemma SaveKeepsCatalogs(s: System, r: RunId)
    requires CanSave(s, r) && s.db.runs[r].state == Verifying && s.sessions[r].source == s.db.runs[r].source
    requires CatalogLinks(s.db.runs, s.sessions, s.db.catalogs)
    ensures CatalogLinks(AfterSave(s, r).db.runs, AfterSave(s, r).sessions, AfterSave(s, r).db.catalogs)
  {
    hide ViolatesCatalogKeys;
    var s' := AfterSave(s, r);
    forall c | 0 <= c < |s.db.catalogs| ensures s.db.catalogs[c].run != r && SavedBy(s'.db.runs, s'.sessions, s'.db.catalogs[c]) {
      assert SavedBy(s.db.runs, s.sessions, s.db.catalogs[c]);
    }
    assert SavedBy(s'.db.runs, s'.sessions, RowSaved(s.sessions[r], r));
  }

  lemma SaveKeepsRetention(feeds: Feeds, s: System, r: RunId)
    requires CanSave(s, r) && SessionLinks(feeds, s.db.runs, s.sessions) && OneSlot(s.db.runs)
    requires Retention(s.db.catalogs, s.sessions)
    ensures Retention(AfterSave(s, r).db.catalogs, AfterSave(s, r).sessions)
  {
    hide VerifiedFor, ViolatesCatalogKeys;
    var s' := AfterSave(s, r);
    var row := RowSaved(s.sessions[r], r);
    assert Locked(s.sessions, r);
    forall source ensures |RetainedOf(s'.db.catalogs, source)| <= MAX_RETAINED_CATALOGS_PER_SOURCE {
      RetainedStep(s.db.catalogs, row, source);
    }
    forall q: RunId | Locked(s'.sessions, q)
      ensures |RetainedOf(s'.db.catalogs, s'.sessions[q].source)| < MAX_RETAINED_CATALOGS_PER_SOURCE
    {
      assert q != r && Locked(s.sessions, q);
      RetainedStep(s.db.catalogs, row, s.sessions[q].source);
    }
  }

  lemma SaveKeepsFlags(s: System, r: RunId)
    requires CanSave(s, r)
    requires LogRefs(s.db.catalogs, s.db.log) && FlagsAgree(s.db.catalogs, s.db.log) && Monotone(s.db.catalogs, s.db.log)
    ensures
      var Db(_, catalogs, log, _) := AfterSave(s, r).db;
      LogRefs(catalogs, log) && FlagsAgree(catalogs, log) && Monotone(catalogs, log)
  {
    hide ViolatesCatalogKeys, SavedRun;
    var Db(_, catalogs, log, _) := AfterSave(s, r).db;
    var c := |s.db.catalogs|;
    CountIsZero(log, |log|, c);
    if LastOf(log, |log|, catalogs[c].source) == Some(c) {
      LastOfIsLogged(log, |log|, catalogs[c].source);
    }
  }

  lemma SaveKeepsLoggedRuns(s: System, r: RunId)
    requires CanSave(s, r) && s.db.runs[r].state == Verifying
    requires LogRefs(s.db.catalogs, s.db.log)
    requires LoggedRuns(s.db.runs, s.db.catalogs, s.db.log) && StatusAgrees(s.db.runs, s.db.catalogs, s.db.log)
    requires ActivatedRunsLogged(s.db.runs, s.db.catalogs, s.db.log)
    ensures
      var Db(runs, catalogs, log, _) := AfterSave(s, r).db;
      && LogRefs(catalogs, log)
      && LoggedRuns(runs, catalogs, log) && StatusAgrees(runs, catalogs, log) && ActivatedRunsLogged(runs, catalogs, log)
  {
    hide ViolatesCatalogKeys;
    var Db(runs, catalogs, log, _) := AfterSave(s, r).db;
    assert forall i :: 0 <= i < |log| ==> RunOf(catalogs, log[i]) == RunOf(s.db.catalogs, log[i]);
    forall q | 0 <= q < |runs| && IsActivated(runs[q].state)
      ensures exists i :: 0 <= i < |log| && log[i].kind == Activate && log[i].catalog < |catalogs| && RunOf(catalogs, log[i]) == q
    {
      var i :| 0 <= i < |log| && log[i].kind == Activate && log[i].catalog < |s.db.catalogs| && RunOf(s.db.catalogs, log[i]) == q;
      assert RunOf(catalogs, log[i]) == q;
    }
  }

  lemma SaveKeepsOrder(feeds: Feeds, s: System, r: RunId)
    requires CanSave(s, r) && SessionLinks(feeds, s.db.runs, s.sessions) && CatalogLinks(s.db.runs, s.sessions, s.db.catalogs)
    requires LogRefs(s.db.catalogs, s.db.log)
    requires WaitingAbove(s.db.runs, s.db.catalogs, s.db.log) && LocksAbove(s.db.catalogs, s.db.log, s.sessions)
    ensures
      var s' := AfterSave(s, r);
      WaitingAbove(s'.db.runs, s'.db.catalogs, s'.db.log) && LocksAbove(s'.db.catalogs, s'.db.log, s'.sessions)
  {
    hide VerifiedFor;
    var s' := AfterSave(s, r);
    assert Locked(s.sessions, r);
    forall c | 0 <= c < |s'.db.catalogs| && s'.db.catalogs[c].run < |s'.db.runs| && Waiting(s'.db.runs[s'.db.catalogs[c].run].state)
      ensures LogBelow(s'.db.catalogs, s'.db.log, s'.db.catalogs[c].source, s'.db.catalogs[c].bundle.sequence)
    {
      if c < |s.db.catalogs| {
        assert SavedBy(s.db.runs, s.sessions, s.db.catalogs[c]);
        assert LogBelow(s.db.catalogs, s.db.log, s.db.catalogs[c].source, s.db.catalogs[c].bundle.sequence);
      }
    }
    forall q: RunId | Locked(s'.sessions, q)
      ensures LogBelow(s'.db.catalogs, s'.db.log, s'.sessions[q].source, s'.sessions[q].bundle.sequence)
    {
      assert Locked(s.sessions, q);
    }
  }

  lemma SaveKeepsInv(feeds: Feeds, s: System, r: RunId)
    requires Inv(feeds, s) && CanSave(s, r)
    ensures Inv(feeds, AfterSave(s, r))
  {
    hide CatalogLinks, LoggedRuns, StatusAgrees, ActivatedRunsLogged, WaitingAbove, Monotone, LocksAbove, FlagsAgree,
      OneActivation, LogChain, LogRefs, Retention, OneSlot, CommittedStates, VerifiedFor, ViolatesCatalogKeys;
    assert Locked(s.sessions, r);
    SaveKeepsSlots(s, r);
    SaveKeepsSessions(feeds, s, r);
    SaveKeepsCatalogs(s, r);
    SaveKeepsRetention(feeds, s, r);
    SaveKeepsFlags(s, r);
    SaveKeepsLoggedRuns(s, r);
    SaveKeepsOrder(feeds, s, r);
  }

  /* ---------- A catalog becomes active ---------- */

  /** Reading the active flag is reading the last log entry of the source. */
  lemma ActiveIsLast(catalogs: seq<CatalogRow>, log: seq<Activation>, source: SourceId)
    requires LogRefs(catalogs, log) && FlagsAgree(catalogs, log)
    ensures ActiveCatalog(catalogs, source) == LastOf(log, |log|, source)
  {
    var last := LastOf(log, |log|, source);
    if last.Some? {
      LastOfIsLogged(log, |log|, source);
      assert catalogs[last.value].active;
    }
  }

  function EntryFor(db: Db, kind: ActivationKind, c: CatalogId, now: int): Activation
    requires c < |db.catalogs|
  {
    Activation(kind, db.catalogs[c].source, c, ActiveCatalog(db.catalogs, db.catalogs[c].source), now, Pending)
  }

  /** The history of the log does not change when an entry is appended. */
  lemma AppendHistory(log: seq<Activation>, entry: Activation, n: nat, source: SourceId, c: CatalogId)
    requires n <= |log|
    ensures LastOf(log + [entry], n, source) == LastOf(log, n, source)
    ensures CountOf(log + [entry], n, c) == CountOf(log, n, c)
  {
    HistoryFrame(log, log + [entry], n, source, c);
  }

  lemma {:induction false} AppendKeepsChain(log: seq<Activation>, entry: Activation)
    requires LogChain(log) && entry.previous == LastOf(log, |log|, entry.source)
    ensures LogChain(log + [entry])
  {
    hide LastOf, CountOf;
    var log' := log + [entry];
    forall i | 0 <= i < |log'| ensures log'[i].previous == LastOf(log', i, log'[i].source) {
      AppendHistory(log, entry, i, log'[i].source, 0);
      assert log'[i] == if i < |log| then log[i] else entry;
    }
  }

  lemma SwitchKeepsFlags(catalogs: seq<CatalogRow>, log: seq<Activation>, entry: Activation)
    requires LogRefs(catalogs, log) && FlagsAgree(catalogs, log)
    requires entry.catalog < |catalogs| && entry.source == catalogs[entry.catalog].source
    ensures
      var catalogs', log' := SwitchActive(catalogs, entry.source, entry.catalog), log + [entry];
      LogRefs(catalogs', log') && FlagsAgree(catalogs', log')
  {
    var catalogs', log' := SwitchActive(catalogs, entry.source, entry.catalog), log + [entry];
    forall d | 0 <= d < |catalogs'|
      ensures catalogs'[d].active <==> LastOf(log', |log'|, catalogs'[d].source) == Some(d)
      ensures catalogs'[d].activationCount == CountOf(log', |log'|, d)
    {
      AppendHistory(log, entry, |log|, catalogs[d].source, d);
      assert LastOf(log', |log'|, catalogs[d].source) ==
        if entry.source == catalogs[d].source then Some(entry.catalog) else LastOf(log, |log|, catalogs[d].source);
    }
  }

  lemma AppendKeepsActivatedBy(log: seq<Activation>, entry: Activation, n: nat, c: CatalogId)
    requires n <= |log| && ActivatedBy(log, n, c)
    ensures ActivatedBy(log + [entry], n, c) && ActivatedBy(log + [entry], |log| + 1, c)
  {
    var j :| 0 <= j < n && log[j].kind == Activate && log[j].catalog == c;
    assert (log + [entry])[j] == log[j];
  }

  lemma AppendKeepsRollbacksFollow(log: seq<Activation>, entry: Activation)
    requires RollbacksFollow(log)
    requires entry.kind == Rollback ==> EverLogged(log, entry.catalog)
    ensures RollbacksFollow(log + [entry])
  {
    hide ActivatedBy;
    var log' := log + [entry];
    if entry.kind == Rollback {
      var k :| 0 <= k < |log| && log[k].catalog == entry.catalog;
      AppendKeepsActivatedBy(log, entry, k + 1, entry.catalog);
    } else {
      LastActivates(log, entry);
    }
    forall i | 0 <= i < |log'| ensures ActivatedBy(log', i + 1, log'[i].catalog) {
      if i < |log| {
        AppendKeepsActivatedBy(log, entry, i + 1, log[i].catalog);
      }
    }
  }

  lemma AppendKeepsDistinct(log: seq<Activation>, entry: Activation)
    requires DistinctActivations(log)
    requires entry.kind == Activate ==> !EverLogged(log, entry.catalog)
    ensures DistinctActivations(log + [entry])
  {
    var log' := log + [entry];
    forall i, j | 0 <= i < j < |log'| && log'[i].kind == log'[j].kind == Activate ensures log'[i].catalog != log'[j].catalog {
      assert log'[i] == log[i];
    }
  }

  lemma LastActivates(log: seq<Activation>, entry: Activation)
    requires entry.kind == Activate
    ensures ActivatedBy(log + [entry], |log| + 1, entry.catalog)
  {
    assert (log + [entry])[|log|] == entry;
  }

  function RunsAfter(db: Db, kind: ActivationKind, c: CatalogId): seq<Run>
    requires c < |db.catalogs| && db.catalogs[c].run < |db.runs|
  {
    var r := db.catalogs[c].run;
    if kind == Activate
    then db.runs[r := db.runs[r].(state := Activated, activatedAfter := Some(c), reevaluation := Pending)]
    else db.runs
  }

  /** What `activate_run` and `rollback_catalog` do to the synchronization tables. */
  function AfterSwitch(s: System, kind: ActivationKind, c: CatalogId, now: int, tables: Tables): System
    requires c < |s.db.catalogs| && s.db.catalogs[c].run < |s.db.runs|
  {
    s.(db := Db(RunsAfter(s.db, kind, c), SwitchActive(s.db.catalogs, s.db.catalogs[c].source, c),
                s.db.log + [EntryFor(s.db, kind, c, now)], tables),
       workers := s.workers + [Admitted(|s.db.log|)])
  }

  ghost predicate CanSwitch(s: System, kind: ActivationKind, c: CatalogId) {
    && c < |s.db.catalogs| && s.db.catalogs[c].run < |s.db.runs|
    && (kind == Activate ==>
          var run := s.db.runs[s.db.catalogs[c].run];
          run.state == Approved && run.activeBefore == ActiveCatalog(s.db.catalogs, s.db.catalogs[c].source))
    && (kind == Rollback ==> s.db.catalogs[c].activationCount >= 1)
  }

  lemma SwitchFacts(s: System, kind: ActivationKind, c: CatalogId)
    requires CanSwitch(s, kind, c) && LogRefs(s.db.catalogs, s.db.log)
    requires LoggedRuns(s.db.runs, s.db.catalogs, s.db.log) && FlagsAgree(s.db.catalogs, s.db.log)
    ensures kind == Activate ==> !EverLogged(s.db.log, c)
    ensures kind == Rollback ==> EverLogged(s.db.log, c) && IsActivated(s.db.runs[s.db.catalogs[c].run].state)
  {
    CountIsZero(s.db.log, |s.db.log|, c);
    assert s.db.catalogs[c].activationCount == CountOf(s.db.log, |s.db.log|, c);
    forall i | 0 <= i < |s.db.log| && s.db.log[i].catalog == c ensures IsActivated(s.db.runs[s.db.catalogs[c].run].state) {
      assert RunOf(s.db.catalogs, s.db.log[i]) == s.db.catalogs[c].run;
    }
  }

  lemma SwitchKeepsSlots(feeds: Feeds, s: System, kind: ActivationKind, c: CatalogId)
    requires CanSwitch(s, kind, c)
    requires SessionLinks(feeds, s.db.runs, s.sessions) && OneSlot(s.db.runs) && CommittedStates(s.db.runs)
    ensures
      var runs := RunsAfter(s.db, kind, c);
      SessionLinks(feeds, runs, s.sessions) && OneSlot(runs) && CommittedStates(runs)
  {
    hide VerifiedFor, ActiveCatalog;
  }

  lemma SwitchKeepsSaved(s: System, kind: ActivationKind, c: CatalogId)
    requires CanSwitch(s, kind, c) && CatalogLinks(s.db.runs, s.sessions, s.db.catalogs)
    ensures CatalogLinks(RunsAfter(s.db, kind, c), s.sessions, SwitchActive(s.db.catalogs, s.db.catalogs[c].source, c))
  {
    hide ActiveCatalog;
    var runs, catalogs := RunsAfter(s.db, kind, c), SwitchActive(s.db.catalogs, s.db.catalogs[c].source, c);
    forall d | 0 <= d < |catalogs| ensures SavedBy(runs, s.sessions, catalogs[d]) {
      assert SavedBy(s.db.runs, s.sessions, s.db.catalogs[d]);
    }
  }

  lemma SwitchKeepsRetention(catalogs: seq<CatalogRow>, source: SourceId, c: CatalogId, sessions: Sessions)
    requires Retention(catalogs, sessions)
    ensures Retention(SwitchActive(catalogs, source, c), sessions)
  {
    forall s ensures RetainedOf(SwitchActive(catalogs, source, c), s) == RetainedOf(catalogs, s) {
    }
  }

  /** Only the activated run changes, and it was not activated before. */
  ghost predicate RunsReady(runs: seq<Run>, runs': seq<Run>, catalogs: seq<CatalogRow>, log: seq<Activation>, entry: Activation) {
    && entry.catalog < |catalogs| && entry.source == catalogs[entry.catalog].source
    && RunOf(catalogs, entry) < |runs| == |runs'|
    && (forall q :: 0 <= q < |runs| && !(entry.kind == Activate && q == RunOf(catalogs, entry)) ==> runs'[q] == runs[q])
    && IsActivated(runs'[RunOf(catalogs, entry)].state)
    && (entry.kind == Activate ==>
          && !EverLogged(log, entry.catalog) && entry.status == Pending
          && runs'[RunOf(catalogs, entry)].state == Activated && runs'[RunOf(catalogs, entry)].reevaluation == Pending)
  }

  lemma SwitchKeepsLoggedRuns(runs: seq<Run>, runs': seq<Run>, catalogs: seq<CatalogRow>, log: seq<Activation>, entry: Activation)
    requires LogRefs(catalogs, log) && DistinctRuns(catalogs) && RunsReady(runs, runs', catalogs, log, entry)
    requires LoggedRuns(runs, catalogs, log) && StatusAgrees(runs, catalogs, log)
    ensures LogRefs(catalogs, log + [entry])
    ensures LoggedRuns(runs', catalogs, log + [entry]) && StatusAgrees(runs', catalogs, log + [entry])
  {
    var log' := log + [entry];
    forall i | 0 <= i < |log| && entry.kind == Activate ensures RunOf(catalogs, log[i]) != RunOf(catalogs, entry) {
      assert log[i].catalog != entry.catalog;
    }
    assert forall i :: 0 <= i < |log| ==> log'[i] == log[i];
  }

  lemma SwitchKeepsActivatedRuns(runs: seq<Run>, runs': seq<Run>, catalogs: seq<CatalogRow>, log: seq<Activation>, entry: Activation)
    requires ActivatedRunsLogged(runs, catalogs, log) && RunsReady(runs, runs', catalogs, log, entry)
    ensures ActivatedRunsLogged(runs', catalogs, log + [entry])
  {
    var log' := log + [entry];
    forall q | 0 <= q < |runs'| && IsActivated(runs'[q].state)
      ensures exists i :: 0 <= i < |log'| && log'[i].kind == Activate && log'[i].catalog < |catalogs| && RunOf(catalogs, log'[i]) == q
    {
      if entry.kind == Activate && q == RunOf(catalogs, entry) {
        assert log'[|log|] == entry;
      } else {
        var i :| 0 <= i < |log| && log[i].kind == Activate && log[i].catalog < |catalogs| && RunOf(catalogs, log[i]) == q;
        assert log'[i] == log[i];
      }
    }
  }

  /** Rows that differ only in flags and counts have the same runs, sources and sequences. */
  ghost predicate SameRows(catalogs: seq<CatalogRow>, catalogs': seq<CatalogRow>) {
    && |catalogs| == |catalogs'|
    && forall c :: 0 <= c < |catalogs| ==>
         catalogs'[c] == catalogs[c].(active := catalogs'[c].active, activationCount := catalogs'[c].activationCount)
  }

  lemma SwitchRunsFrame(runs: seq<Run>, catalogs: seq<CatalogRow>, catalogs': seq<CatalogRow>, log: seq<Activation>)
    requires SameRows(catalogs, catalogs') && LogRefs(catalogs, log)
    ensures LogRefs(catalogs', log)
    ensures LoggedRuns(runs, catalogs, log) <==> LoggedRuns(runs, catalogs', log)
    ensures LoggedRuns(runs, catalogs, log) && StatusAgrees(runs, catalogs, log) ==> StatusAgrees(runs, catalogs', log)
    ensures ActivatedRunsLogged(runs, catalogs, log) ==> ActivatedRunsLogged(runs, catalogs', log)
  {
    assert forall i :: 0 <= i < |log| ==> RunOf(catalogs', log[i]) == RunOf(catalogs, log[i]);
    if ActivatedRunsLogged(runs, catalogs, log) {
      forall q | 0 <= q < |runs| && IsActivated(runs[q].state)
        ensures exists i :: 0 <= i < |log| && log[i].kind == Activate && log[i].catalog < |catalogs'| && RunOf(catalogs', log[i]) == q
      {
        var i :| 0 <= i < |log| && log[i].kind == Activate && log[i].catalog < |catalogs| && RunOf(catalogs, log[i]) == q;
        assert RunOf(catalogs', log[i]) == q;
      }
    }
  }

  lemma SwitchOrderFrame(runs: seq<Run>, catalogs: seq<CatalogRow>, catalogs': seq<CatalogRow>, log: seq<Activation>, sessions: Sessions)
    requires SameRows(catalogs, catalogs') && LogRefs(catalogs, log)
    ensures LogRefs(catalogs', log)
    ensures Monotone(catalogs, log) ==> Monotone(catalogs', log)
    ensures WaitingAbove(runs, catalogs, log) ==> WaitingAbove(runs, catalogs', log)
    ensures LocksAbove(catalogs, log, sessions) ==> LocksAbove(catalogs', log, sessions)
  {
    forall source, sequence | LogBelow(catalogs, log, source, sequence) ensures LogBelow(catalogs', log, source, sequence) {
    }
  }

  lemma AppendBelow(catalogs: seq<CatalogRow>, log: seq<Activation>, entry: Activation, source: SourceId, sequence: nat)
    requires LogBelow(catalogs, log, source, sequence)
    requires entry.catalog < |catalogs| && (entry.source == source ==> catalogs[entry.catalog].bundle.sequence < sequence)
    ensures LogBelow(catalogs, log + [entry], source, sequence)
  {
  }

  /** An activated catalog lies above the log and nothing else of its source waits or saves; a rolled-back
      catalog is in the log. */
  ghost predicate OrderReady(
      runs: seq<Run>, runs': seq<Run>, catalogs: seq<CatalogRow>, log: seq<Activation>, sessions: Sessions, entry: Activation)
  {
    && entry.catalog < |catalogs| && entry.source == catalogs[entry.catalog].source
    && |runs| == |runs'| && (forall q :: 0 <= q < |runs| && Waiting(runs'[q].state) ==> Waiting(runs[q].state))
    && (entry.kind == Rollback ==> EverLogged(log, entry.catalog))
    && (entry.kind == Activate ==>
          && LogBelow(catalogs, log, entry.source, catalogs[entry.catalog].bundle.sequence)
          && (forall d :: 0 <= d < |catalogs| && catalogs[d].run < |runs| && Waiting(runs'[catalogs[d].run].state)
                          ==> catalogs[d].source != entry.source)
          && (forall q: RunId :: Locked(sessions, q) ==> sessions[q].source != entry.source))
  }

  /** The one active run slot of the source is the activated run's, so nothing else of the source waits or
      saves; a rolled-back catalog was already below whatever does. */
  lemma SwitchKeepsOrder(runs: seq<Run>, runs': seq<Run>, catalogs: seq<CatalogRow>, log: seq<Activation>, sessions: Sessions, entry: Activation)
    requires LogRefs(catalogs, log) && Monotone(catalogs, log)
    requires WaitingAbove(runs, catalogs, log) && LocksAbove(catalogs, log, sessions)
    requires OrderReady(runs, runs', catalogs, log, sessions, entry)
    ensures LogRefs(catalogs, log + [entry])
    ensures Monotone(catalogs, log + [entry])
    ensures WaitingAbove(runs', catalogs, log + [entry]) && LocksAbove(catalogs, log + [entry], sessions)
  {
    forall source, sequence | LogBelow(catalogs, log, source, sequence) && (entry.kind == Activate ==> source != entry.source)
      ensures LogBelow(catalogs, log + [entry], source, sequence)
    {
      if entry.kind == Rollback && source == entry.source {
        var k :| 0 <= k < |log| && log[k].catalog == entry.catalog;
        assert catalogs[log[k].catalog].bundle.sequence < sequence;
      }
      AppendBelow(catalogs, log, entry, source, sequence);
    }
    var log' := log + [entry];
    forall i, j | 0 <= i < j < |log'| && log'[i].source == log'[j].source && log'[j].kind == Activate
      ensures catalogs[log'[i].catalog].bundle.sequence < catalogs[log'[j].catalog].bundle.sequence
    {
      assert log'[i] == log[i];
    }
  }

  lemma SwitchIsSameRows(catalogs: seq<CatalogRow>, source: SourceId, c: CatalogId)
    ensures SameRows(catalogs, SwitchActive(catalogs, source, c))
  {
  }

  lemma SwitchIsRunsReady(s: System, kind: ActivationKind, c: CatalogId, now: int)
    requires CanSwitch(s, kind, c) && LogRefs(s.db.catalogs, s.db.log)
    requires LoggedRuns(s.db.runs, s.db.catalogs, s.db.log) && FlagsAgree(s.db.catalogs, s.db.log)
    ensures RunsReady(s.db.runs, RunsAfter(s.db, kind, c), s.db.catalogs, s.db.log, EntryFor(s.db, kind, c, now))
  {
    SwitchFacts(s, kind, c);
    hide LogRefs, LoggedRuns, FlagsAgree, EverLogged;
  }

  lemma SwitchKeepsRuns(feeds: Feeds, s: System, kind: ActivationKind, c: CatalogId, now: int)
    requires Inv(feeds, s) && CanSwitch(s, kind, c)
    ensures
      var Db(runs, catalogs, log, _) := AfterSwitch(s, kind, c, now, s.db.tables).db;
      && LogRefs(catalogs, log)
      && LoggedRuns(runs, catalogs, log) && StatusAgrees(runs, catalogs, log) && ActivatedRunsLogged(runs, catalogs, log)
  {
    hide LoggedRuns, StatusAgrees, ActivatedRunsLogged, WaitingAbove, Monotone, LocksAbove, FlagsAgree, OneActivation, LogChain, Retention,
      OneSlot, CommittedStates, SessionLinks, SavedBy, SwitchActive, SameRows, DistinctRuns, RunsReady, RunsAfter, ActiveCatalog, LogRefs;
    var entry := EntryFor(s.db, kind, c, now);
    var runs' := RunsAfter(s.db, kind, c);
    SwitchIsRunsReady(s, kind, c, now);
    SwitchKeepsLoggedRuns(s.db.runs, runs', s.db.catalogs, s.db.log, entry);
    SwitchKeepsActivatedRuns(s.db.runs, runs', s.db.catalogs, s.db.log, entry);
    SwitchIsSameRows(s.db.catalogs, entry.source, c);
    SwitchRunsFrame(runs', s.db.catalogs, SwitchActive(s.db.catalogs, entry.source, c), s.db.log + [entry]);
  }

  lemma ApprovedAbove(s: System, c: CatalogId)
    requires CanSwitch(s, Activate, c) && WaitingAbove(s.db.runs, s.db.catalogs, s.db.log)
    ensures LogBelow(s.db.catalogs, s.db.log, s.db.catalogs[c].source, s.db.catalogs[c].bundle.sequence)
  {
  }

  lemma SwitchIsOrderReady(feeds: Feeds, s: System, kind: ActivationKind, c: CatalogId, now: int)
    requires Inv(feeds, s) && CanSwitch(s, kind, c)
    ensures OrderReady(s.db.runs, RunsAfter(s.db, kind, c), s.db.catalogs, s.db.log, s.sessions, EntryFor(s.db, kind, c, now))
  {
    hide LoggedRuns, StatusAgrees, ActivatedRunsLogged, Monotone, LocksAbove, FlagsAgree, OneActivation, LogChain, LogRefs, Retention,
      OneSlot, CommittedStates, VerifiedFor, SessionLinks, EverLogged, LogBelow, CatalogLinks, WaitingAbove, ActiveCatalog;
    SwitchFacts(s, kind, c);
    if kind == Activate {
      SlotIsTaken(feeds, s, c);
      ApprovedAbove(s, c);
    }
  }

  lemma SwitchKeepsSequences(feeds: Feeds, s: System, kind: ActivationKind, c: CatalogId, now: int)
    requires Inv(feeds, s) && CanSwitch(s, kind, c)
    ensures
      var Db(runs, catalogs, log, _) := AfterSwitch(s, kind, c, now, s.db.tables).db;
      && LogRefs(catalogs, log) && Monotone(catalogs, log)
      && WaitingAbove(runs, catalogs, log) && LocksAbove(catalogs, log, s.sessions)
  {
    hide LoggedRuns, StatusAgrees, ActivatedRunsLogged, Monotone, LocksAbove, FlagsAgree, OneActivation, LogChain, LogRefs, Retention,
      OneSlot, CommittedStates, SessionLinks, CatalogLinks, WaitingAbove, OrderReady, SameRows, SwitchActive, RunsAfter, ActiveCatalog;
    var entry := EntryFor(s.db, kind, c, now);
    var runs' := RunsAfter(s.db, kind, c);
    SwitchIsOrderReady(feeds, s, kind, c, now);
    SwitchKeepsOrder(s.db.runs, runs', s.db.catalogs, s.db.log, s.sessions, entry);
    SwitchIsSameRows(s.db.catalogs, entry.source, c);
    SwitchOrderFrame(runs', s.db.catalogs, SwitchActive(s.db.catalogs, entry.source, c), s.db.log + [entry], s.sessions);
  }

  /** While a run is approved, no other run of its source waits for approval or holds a save lock. */
  lemma SlotIsTaken(feeds: Feeds, s: System, c: CatalogId)
    requires Inv(feeds, s) && CanSwitch(s, Activate, c)
    ensures forall d :: 0 <= d < |s.db.catalogs| && d != c && s.db.catalogs[d].run < |s.db.runs| && Waiting(s.db.runs[s.db.catalogs[d].run].state)
                        ==> s.db.catalogs[d].source != s.db.catalogs[c].source
    ensures forall q: RunId :: Locked(s.sessions, q) ==> s.sessions[q].source != s.db.catalogs[c].source
  {
    hide LoggedRuns, StatusAgrees, ActivatedRunsLogged, Monotone, LocksAbove, FlagsAgree, WaitingAbove,
      OneActivation, LogChain, LogRefs, Retention, CommittedStates, VerifiedFor, EverLogged, LogBelow;
    assert SavedBy(s.db.runs, s.sessions, s.db.catalogs[c]);
    forall d | 0 <= d < |s.db.catalogs| && d != c && Waiting(s.db.runs[s.db.catalogs[d].run].state)
      ensures s.db.catalogs[d].source != s.db.catalogs[c].source
    {
      assert SavedBy(s.db.runs, s.sessions, s.db.catalogs[d]);
      assert s.db.catalogs[d].run != s.db.catalogs[c].run;
    }
  }

  /** Appending a fitting entry keeps everything the log says. */
  lemma AppendKeepsLog(catalogs: seq<CatalogRow>, log: seq<Activation>, entry: Activation)
    requires LogRefs(catalogs, log) && FlagsAgree(catalogs, log) && LogChain(log) && OneActivation(log)
    requires entry.catalog < |catalogs| && entry.source == catalogs[entry.catalog].source
    requires entry.previous == ActiveCatalog(catalogs, entry.source)
    requires if entry.kind == Activate then !EverLogged(log, entry.catalog) else EverLogged(log, entry.catalog)
    ensures
      var catalogs', log' := SwitchActive(catalogs, entry.source, entry.catalog), log + [entry];
      LogRefs(catalogs', log') && FlagsAgree(catalogs', log') && LogChain(log') && OneActivation(log')
  {
    hide LogRefs, FlagsAgree, LogChain, DistinctActivations, RollbacksFollow, EverLogged, SwitchActive, ActiveCatalog, LastOf;
    ActiveIsLast(catalogs, log, entry.source);
    AppendKeepsChain(log, entry);
    SwitchKeepsFlags(catalogs, log, entry);
    AppendKeepsDistinct(log, entry);
    AppendKeepsRollbacksFollow(log, entry);
  }

  lemma SwitchKeepsLog(feeds: Feeds, s: System, kind: ActivationKind, c: CatalogId, now: int)
    requires Inv(feeds, s) && CanSwitch(s, kind, c)
    ensures
      var Db(_, catalogs, log, _) := AfterSwitch(s, kind, c, now, s.db.tables).db;
      LogRefs(catalogs, log) && FlagsAgree(catalogs, log) && LogChain(log) && OneActivation(log)
  {
    hide LoggedRuns, StatusAgrees, ActivatedRunsLogged, WaitingAbove, Monotone, LocksAbove, FlagsAgree, RunsAfter, OneActivation,
      CatalogLinks, EverLogged, LogChain, LogRefs, Retention, OneSlot, CommittedStates, SessionLinks, SwitchActive, ActiveCatalog;
    SwitchFacts(s, kind, c);
    AppendKeepsLog(s.db.catalogs, s.db.log, EntryFor(s.db, kind, c, now));
  }

  lemma SwitchKeepsInv(feeds: Feeds, s: System, kind: ActivationKind, c: CatalogId, now: int, tables: Tables)
    requires Inv(feeds, s) && CanSwitch(s, kind, c)
    ensures Inv(feeds, AfterSwitch(s, kind, c, now, tables))
  {
    var source := s.db.catalogs[c].source;
    hide LoggedRuns, StatusAgrees, ActivatedRunsLogged, WaitingAbove, Monotone, LocksAbove, FlagsAgree, RunsAfter, CanSwitch,
      OneActivation, CatalogLinks, LogChain, LogRefs, Retention, OneSlot, CommittedStates, SessionLinks, SwitchActive, EntryFor;
    SwitchKeepsLog(feeds, s, kind, c, now);
    SwitchKeepsSlots(feeds, s, kind, c);
    SwitchKeepsSaved(s, kind, c);
    SwitchKeepsRetention(s.db.catalogs, source, c, s.sessions);
    SwitchKeepsRuns(feeds, s, kind, c, now);
    SwitchKeepsSequences(feeds, s, kind, c, now);
  }

  /* ---------- A reevaluation is marked ---------- */

  ghost predicate MarkedLog(log: seq<Activation>, log': seq<Activation>, i: ActivationId, status: Reevaluation) {
    && i < |log| && !status.NotStarted? && !status.Pending?
    && log' == log[i := log[i].(status := status)]
  }

  lemma MarkKeepsHistory(catalogs: seq<CatalogRow>, log: seq<Activation>, log': seq<Activation>, i: ActivationId, status: Reevaluation)
    requires MarkedLog(log, log', i, status)
    requires LogRefs(catalogs, log) && LogChain(log) && FlagsAgree(catalogs, log)
    ensures LogRefs(catalogs, log') && LogChain(log') && FlagsAgree(catalogs, log')
  {
    forall j | 0 <= j < |log'| ensures log'[j].previous == LastOf(log', j, log'[j].source) {
      HistoryFrame(log, log', j, log'[j].source, 0);
    }
    forall c | 0 <= c < |catalogs|
      ensures catalogs[c].active <==> LastOf(log', |log'|, catalogs[c].source) == Some(c)
      ensures catalogs[c].activationCount == CountOf(log', |log'|, c)
    {
      HistoryFrame(log, log', |log|, catalogs[c].source, c);
    }
  }

  lemma MarkKeepsActivatedBy(log: seq<Activation>, log': seq<Activation>, i: ActivationId, status: Reevaluation, n: nat, c: CatalogId)
    requires MarkedLog(log, log', i, status) && ActivatedBy(log, n, c)
    ensures ActivatedBy(log', n, c)
  {
    var j :| 0 <= j < n && j < |log| && log[j].kind == Activate && log[j].catalog == c;
    assert log'[j].kind == Activate && log'[j].catalog == c;
  }

  lemma MarkKeepsActivations(log: seq<Activation>, log': seq<Activation>, i: ActivationId, status: Reevaluation)
    requires MarkedLog(log, log', i, status)
    requires DistinctActivations(log) && RollbacksFollow(log)
    ensures DistinctActivations(log') && RollbacksFollow(log')
  {
    hide ActivatedBy;
    assert forall k :: 0 <= k < |log'| ==> log'[k].catalog == log[k].catalog && log'[k].kind == log[k].kind;
    forall k | 0 <= k < |log'| ensures ActivatedBy(log', k + 1, log'[k].catalog) {
      MarkKeepsActivatedBy(log, log', i, status, k + 1, log[k].catalog);
    }
  }

  lemma MarkKeepsOrder(runs: seq<Run>, runs': seq<Run>, catalogs: seq<CatalogRow>, log: seq<Activation>, log': seq<Activation>,
                       sessions: Sessions, i: ActivationId, status: Reevaluation)
    requires MarkedLog(log, log', i, status) && LogRefs(catalogs, log)
    requires |runs| == |runs'| && forall q :: 0 <= q < |runs| && Waiting(runs'[q].state) ==> Waiting(runs[q].state)
    requires Monotone(catalogs, log) && WaitingAbove(runs, catalogs, log) && LocksAbove(catalogs, log, sessions)
    ensures LogRefs(catalogs, log')
    ensures Monotone(catalogs, log') && WaitingAbove(runs', catalogs, log') && LocksAbove(catalogs, log', sessions)
  {
    forall source, sequence | LogBelow(catalogs, log, source, sequence) ensures LogBelow(catalogs, log', source, sequence) {
    }
  }

  /** The marked run is the activation's own, and already activated. */
  ghost predicate MarkedRuns(
      runs: seq<Run>, runs': seq<Run>, catalogs: seq<CatalogRow>, entry: Activation, status: Reevaluation)
  {
    && entry.catalog < |catalogs| && RunOf(catalogs, entry) < |runs|
    && var r := RunOf(catalogs, entry);
       && IsActivated(runs[r].state)
       && runs' == if entry.kind == Activate
                   then runs[r := runs[r].(reevaluation := status, state := MarkedState(runs[r].state, status))]
                   else runs
  }

  lemma MarkKeepsSlots(feeds: Feeds, runs: seq<Run>, runs': seq<Run>, catalogs: seq<CatalogRow>, sessions: Sessions,
                       entry: Activation, status: Reevaluation)
    requires MarkedRuns(runs, runs', catalogs, entry, status)
    requires OneSlot(runs) && CommittedStates(runs) && SessionLinks(feeds, runs, sessions)
    ensures |runs| == |runs'| && forall q :: 0 <= q < |runs| && Waiting(runs'[q].state) ==> Waiting(runs[q].state)
    ensures OneSlot(runs') && CommittedStates(runs') && SessionLinks(feeds, runs', sessions)
  {
    hide VerifiedFor;
    assert forall q :: 0 <= q < |runs| ==>
      && runs'[q].source == runs[q].source
      && (runs'[q].state == runs[q].state || (IsActivated(runs[q].state) && IsActivated(runs'[q].state)));
  }

  lemma MarkKeepsSaved(runs: seq<Run>, runs': seq<Run>, catalogs: seq<CatalogRow>, sessions: Sessions, entry: Activation, status: Reevaluation)
    requires MarkedRuns(runs, runs', catalogs, entry, status) && CatalogLinks(runs, sessions, catalogs)
    ensures CatalogLinks(runs', sessions, catalogs)
  {
    forall c | 0 <= c < |catalogs| ensures SavedBy(runs', sessions, catalogs[c]) {
      assert SavedBy(runs, sessions, catalogs[c]);
    }
  }

  lemma MarkKeepsRuns(runs: seq<Run>, runs': seq<Run>, catalogs: seq<CatalogRow>, log: seq<Activation>, log': seq<Activation>,
                      i: ActivationId, status: Reevaluation)
    requires MarkedLog(log, log', i, status) && MarkedRuns(runs, runs', catalogs, log[i], status)
    requires LogRefs(catalogs, log) && DistinctRuns(catalogs) && DistinctActivations(log)
    requires LoggedRuns(runs, catalogs, log) && StatusAgrees(runs, catalogs, log)
    ensures LogRefs(catalogs, log') && LoggedRuns(runs', catalogs, log') && StatusAgrees(runs', catalogs, log')
  {
    assert forall j :: 0 <= j < |log'| ==> RunOf(catalogs, log'[j]) == RunOf(catalogs, log[j]);
    forall j | 0 <= j < |log| && j != i && log[j].kind == log[i].kind == Activate ensures RunOf(catalogs, log[j]) != RunOf(catalogs, log[i]) {
      assert log[j].catalog != log[i].catalog;
    }
  }

  lemma MarkKeepsActivatedRuns(runs: seq<Run>, runs': seq<Run>, catalogs: seq<CatalogRow>, log: seq<Activation>, log': seq<Activation>,
                               i: ActivationId, status: Reevaluation)
    requires MarkedLog(log, log', i, status) && MarkedRuns(runs, runs', catalogs, log[i], status)
    requires ActivatedRunsLogged(runs, catalogs, log)
    ensures ActivatedRunsLogged(runs', catalogs, log')
  {
    forall q | 0 <= q < |runs'| && IsActivated(runs'[q].state)
      ensures exists j :: 0 <= j < |log'| && log'[j].kind == Activate && log'[j].catalog < |catalogs| && RunOf(catalogs, log'[j]) == q
    {
      assert IsActivated(runs[q].state);
      var j :| 0 <= j < |log| && log[j].kind == Activate && log[j].catalog < |catalogs| && RunOf(catalogs, log[j]) == q;
      assert log'[j].kind == Activate && RunOf(catalogs, log'[j]) == q;
    }
  }

  lemma MarkFits(feeds: Feeds, s: System, i: ActivationId, status: Reevaluation)
    requires Inv(feeds, s) && i < |s.db.log| && !status.NotStarted? && !status.Pending?
    ensures
      var db := MarkReevaluation(s.db, i, status).db;
      && MarkedLog(s.db.log, db.log, i, status) && MarkedRuns(s.db.runs, db.runs, s.db.catalogs, s.db.log[i], status)
      && db.catalogs == s.db.catalogs && db.tables == s.db.tables
  {
    hide StatusAgrees, ActivatedRunsLogged, WaitingAbove, Monotone, LocksAbove, FlagsAgree, OneActivation, LogChain, Retention,
      OneSlot, CommittedStates, SessionLinks, CatalogLinks;
    assert RunOf(s.db.catalogs, s.db.log[i]) < |s.db.runs|;
  }

  lemma MarkKeepsInv(feeds: Feeds, s: System, i: ActivationId, status: Reevaluation)
    requires Inv(feeds, s) && i < |s.db.log| && !status.NotStarted? && !status.Pending?
    ensures Inv(feeds, WithDb(s, MarkReevaluation(s.db, i, status).db))
  {
    hide LoggedRuns, StatusAgrees, ActivatedRunsLogged, WaitingAbove, Monotone, LocksAbove, FlagsAgree, DistinctActivations, RollbacksFollow,
      LogChain, LogRefs, Retention, OneSlot, CommittedStates, SessionLinks, SavedBy, DistinctRuns, MarkedLog, MarkedRuns, MarkReevaluation;
    MarkFits(feeds, s, i, status);
    var db := MarkReevaluation(s.db, i, status).db;
    MarkKeepsHistory(s.db.catalogs, s.db.log, db.log, i, status);
    MarkKeepsActivations(s.db.log, db.log, i, status);
    MarkKeepsSlots(feeds, s.db.runs, db.runs, s.db.catalogs, s.sessions, s.db.log[i], status);
    MarkKeepsSaved(s.db.runs, db.runs, s.db.catalogs, s.sessions, s.db.log[i], status);
    MarkKeepsOrder(s.db.runs, db.runs, s.db.catalogs, s.db.log, db.log, s.sessions, i, status);
    MarkKeepsRuns(s.db.runs, db.runs, s.db.catalogs, s.db.log, db.log, i, status);
    MarkKeepsActivatedRuns(s.db.runs, db.runs, s.db.catalogs, s.db.log, db.log, i, status);
  }

  /* ---------- Every step ---------- */

  lemma InitialInv(feeds: Feeds)
    ensures Inv(feeds, Initial)
  {
    forall source ensures RetainedOf([], source) == {} {
    }
  }

  lemma SessionActionKeepsInv(feeds: Feeds, matcher: Matcher, s: System, action: Action)
    requires Inv(feeds, s)
    requires action.ReadBaseline? || action.OpenSave? || action.ReadActive? || action.AbortSave?
    ensures Inv(feeds, Next(feeds, matcher, s, action))
  {
    hide StatusAgrees, ActivatedRunsLogged, WaitingAbove, Monotone, FlagsAgree, OneActivation, LogChain, LoggedRuns, LogRefs,
      OneSlot, CommittedStates, CatalogLinks, VerifiedFor, LogBelow, PreviewFor, SaveCheck, ActiveCatalog, RetainedOf;
    var s' := Next(feeds, matcher, s, action);
    var r := action.run;
    if s' != s {
      var session := s'.sessions[r];
      assert s' == s.(sessions := s.sessions[r := session]);
      if action.OpenSave? {
        CheckedAboveLog(s.db, r, session.source, session.bundle);
      } else if !action.ReadBaseline? {
        assert Locked(s.sessions, r);
      }
      SessionStepKeepsInv(feeds, s, r, session);
    }
  }

  lemma SaveActionKeepsInv(feeds: Feeds, matcher: Matcher, s: System, r: RunId)
    requires Inv(feeds, s)
    ensures Inv(feeds, Next(feeds, matcher, s, CommitSave(r)))
  {
    hide StatusAgrees, ActivatedRunsLogged, WaitingAbove, Monotone, FlagsAgree, OneActivation, LogChain, LoggedRuns, LogRefs,
      OneSlot, CommittedStates, CatalogLinks, VerifiedFor, LogBelow, ViolatesCatalogKeys, Retention, LocksAbove;
    if CanSave(s, r) {
      SaveKeepsInv(feeds, s, r);
      assert Next(feeds, matcher, s, CommitSave(r)) == AfterSave(s, r);
    } else if r in s.sessions && s.sessions[r].phase.Based? {
      assert Locked(s.sessions, r);
      SessionStepKeepsInv(feeds, s, r, s.sessions[r].(phase := Previewed));
    }
  }

  lemma ActivateActionKeepsInv(feeds: Feeds, matcher: Matcher, s: System, r: RunId, now: int)
    requires Inv(feeds, s)
    ensures Inv(feeds, Next(feeds, matcher, s, ActivateApproved(r, now)))
  {
    hide StatusAgrees, ActivatedRunsLogged, WaitingAbove, Monotone, FlagsAgree, OneActivation, LogChain, LoggedRuns, LogRefs,
      OneSlot, CommittedStates, CatalogLinks, VerifiedFor, Retention, LocksAbove, SwitchActive, Import, ActiveCatalog;
    var found := CatalogForRun(s.db.catalogs, r);
    if found.Some? && r < |s.db.runs| && s.db.runs[r].state == Approved {
      var c := found.value;
      var content := s.db.catalogs[c].bundle.content;
      var outcome := SyncState.ActivateRun(feeds.text, s.db, r, content, Sha256(content), now);
      if s.db.catalogs[c].bundle.expiresAt <= now {
        MoveKeepsInv(feeds, s, r, Expired);
      } else if outcome.error.None? {
        SwitchKeepsInv(feeds, s, Activate, c, now, Import(feeds.text, s.db.tables, content, Sha256(content), true));
      }
    }
  }

  lemma RollbackActionKeepsInv(feeds: Feeds, matcher: Matcher, s: System, c: CatalogId, now: int)
    requires Inv(feeds, s)
    ensures Inv(feeds, Next(feeds, matcher, s, RollBackTo(c, now)))
  {
    hide StatusAgrees, ActivatedRunsLogged, WaitingAbove, Monotone, FlagsAgree, OneActivation, LogChain, LoggedRuns, LogRefs,
      OneSlot, CommittedStates, VerifiedFor, Retention, LocksAbove, SwitchActive, Import, ActiveCatalog, ControlledRecently;
    if c < |s.db.catalogs| {
      var row := s.db.catalogs[c];
      assert SavedBy(s.db.runs, s.sessions, row);
      var content := row.bundle.content;
      if RollbackCatalog(feeds.text, s.db, c, content, Sha256(content), feeds.cooldown(row.source), now).error.None? {
        SwitchKeepsInv(feeds, s, Rollback, c, now, Import(feeds.text, s.db.tables, content, Sha256(content), true));
      }
    }
  }

  /** Workers and match states do not occur in the invariant. */
  lemma WorkersFrame(feeds: Feeds, s: System, workers: seq<Worker>, matches: Matches)
    requires Inv(feeds, s)
    ensures Inv(feeds, s.(workers := workers, matches := matches))
  {
    hide StatusAgrees, ActivatedRunsLogged, WaitingAbove, Monotone, FlagsAgree, OneActivation, LogChain, LoggedRuns, LogRefs,
      OneSlot, CommittedStates, CatalogLinks, Retention, LocksAbove, SessionLinks;
  }

  lemma MarkedKeepsInv(feeds: Feeds, s: System, i: ActivationId, status: Reevaluation, workers: seq<Worker>)
    requires Inv(feeds, s) && !status.NotStarted? && !status.Pending?
    ensures Inv(feeds, s.(db := MarkReevaluation(s.db, i, status).db, workers := workers))
  {
    hide Inv;
    if i < |s.db.log| {
      MarkKeepsInv(feeds, s, i, status);
    }
    WorkersFrame(feeds, WithDb(s, MarkReevaluation(s.db, i, status).db), workers, s.matches);
  }

  lemma WorkActionKeepsInv(feeds: Feeds, matcher: Matcher, s: System, action: Action)
    requires Inv(feeds, s)
    requires action.RetryReevaluation? || action.BeginWork? || action.ReadChunk? || action.WriteChunk? || action.FinishWork? || action.BreakWork?
    ensures Inv(feeds, Next(feeds, matcher, s, action))
  {
    hide Inv, MarkReevaluation, WorkOf, WriteMatches, ViewsOf;
    var s' := Next(feeds, matcher, s, action);
    if action.RetryReevaluation? || action.ReadChunk? || action.WriteChunk? {
      WorkersFrame(feeds, s, s'.workers, s'.matches);
    } else if s' != s {
      var i := s.workers[action.worker].entry;
      MarkedKeepsInv(feeds, s, i, Running, s'.workers);
      MarkedKeepsInv(feeds, s, i, Broken, s'.workers);
      MarkedKeepsInv(feeds, s, i, Completed, s'.workers);
    }
  }

  lemma MoveActionKeepsInv(feeds: Feeds, s: System, r: RunId, from: RunState, to: RunState)
    requires Inv(feeds, s) && LegalMove(from, to)
    ensures Inv(feeds, Move(s, r, from, to))
  {
    hide Inv;
    if r < |s.db.runs| && s.db.runs[r].state == from && !Locked(s.sessions, r) {
      MoveKeepsInv(feeds, s, r, to);
    }
  }

  lemma FailActionKeepsInv(feeds: Feeds, matcher: Matcher, s: System, r: RunId)
    requires Inv(feeds, s)
    ensures Inv(feeds, Next(feeds, matcher, s, FailSync(r)))
  {
    hide Inv;
    if r < |s.db.runs| && s.db.runs[r].state in ACTIVE_RUN_STATES && !Locked(s.sessions, r) {
      MoveKeepsInv(feeds, s, r, Failed);
    }
  }

  lemma NextKeepsInv(feeds: Feeds, matcher: Matcher, s: System, action: Action)
    requires Inv(feeds, s)
    ensures Inv(feeds, Next(feeds, matcher, s, action))
  {
    hide Inv, Move, CreateRun;
    match action {
      case RequestSync(source, mode, now) => CreateKeepsInv(feeds, s, source, mode, feeds.interval(source), now);
      case StartDownload(r) => MoveActionKeepsInv(feeds, s, r, Created, Downloading);
      case EndDownload(r) => MoveActionKeepsInv(feeds, s, r, Downloading, Downloaded);
      case BeginVerification(r) => MoveActionKeepsInv(feeds, s, r, Downloaded, Verifying);
      case FailSync(r) => FailActionKeepsInv(feeds, matcher, s, r);
      case ReadBaseline(_, _, _) => SessionActionKeepsInv(feeds, matcher, s, action);
      case OpenSave(_) => SessionActionKeepsInv(feeds, matcher, s, action);
      case ReadActive(_) => SessionActionKeepsInv(feeds, matcher, s, action);
      case CommitSave(r) => SaveActionKeepsInv(feeds, matcher, s, r);
      case AbortSave(_) => SessionActionKeepsInv(feeds, matcher, s, action);
      case ApproveRun(r) =>
        DecisionMoves(feeds, matcher, s, r);
        MoveActionKeepsInv(feeds, s, r, PendingApproval, Approved);
      case RejectRun(r) =>
        DecisionMoves(feeds, matcher, s, r);
        MoveActionKeepsInv(feeds, s, r, PendingApproval, Rejected);
      case ActivateApproved(r, now) => ActivateActionKeepsInv(feeds, matcher, s, r, now);
      case RollBackTo(c, now) => RollbackActionKeepsInv(feeds, matcher, s, c, now);
      case RetryReevaluation(_) => WorkActionKeepsInv(feeds, matcher, s, action);
      case BeginWork(_) => WorkActionKeepsInv(feeds, matcher, s, action);
      case ReadChunk(_) => WorkActionKeepsInv(feeds, matcher, s, action);
      case WriteChunk(_, _) => WorkActionKeepsInv(feeds, matcher, s, action);
      case FinishWork(_) => WorkActionKeepsInv(feeds, matcher, s, action);
      case BreakWork(_) => WorkActionKeepsInv(feeds, matcher, s, action);
    }
  }

  lemma {:induction false} ReachableInv(feeds: Feeds, matcher: Matcher, actions: seq<Action>)
    ensures Inv(feeds, Exec(feeds, matcher, actions))
  {
    hide Inv, Next;
    if |actions| == 0 {
      InitialInv(feeds);
    } else {
      ReachableInv(feeds, matcher, actions[..|actions| - 1]);
      NextKeepsInv(feeds, matcher, Exec(feeds, matcher, actions[..|actions| - 1]), actions[|actions| - 1]);
    }
  }
}
