/** The lifecycle's guarantees over whole runs, in the words a reader would use. */
module RunTheorems {
  import opened Prelude
  import opened Catalogs
  import opened CatalogDiffs
  import opened AdvisoryTables
  import opened SyncState
  import opened Matching
  import opened Lifecycle
  import opened RunInvariants
  import opened TableInvariants

  /* ---------- Every reachable state ---------- */

  /** An activation has a higher sequence than every earlier entry of its source, whatever rollbacks, failed
      runs and never-activated catalogs lie between. */
  lemma {:induction false} ActivationsRise(feeds: Feeds, matcher: Matcher, actions: seq<Action>, i: ActivationId, j: ActivationId)
    ensures
      var Db(_, catalogs, log, _) := Exec(feeds, matcher, actions).db;
      i < j < |log| && log[i].source == log[j].source && log[j].kind == Activate ==>
        log[i].catalog < |catalogs| && log[j].catalog < |catalogs|
        && catalogs[log[i].catalog].bundle.sequence < catalogs[log[j].catalog].bundle.sequence
  {
    ReachableInv(feeds, matcher, actions);
    hide Exec, OneSlot, CommittedStates, SessionLinks, CatalogLinks, Retention, LoggedRuns, LogChain, FlagsAgree, OneActivation,
      StatusAgrees, ActivatedRunsLogged, WaitingAbove, LocksAbove;
  }

  /** A rollback goes to a catalog that some earlier entry of its source activated. */
  lemma RollbacksReturn(feeds: Feeds, matcher: Matcher, actions: seq<Action>, i: ActivationId)
    ensures
      var log := Exec(feeds, matcher, actions).db.log;
      i < |log| && log[i].kind == Rollback ==>
        exists j :: 0 <= j < i && log[j].kind == Activate && log[j].catalog == log[i].catalog && log[j].source == log[i].source
  {
    hide *;
    ReachableInv(feeds, matcher, actions);
    var s := Exec(feeds, matcher, actions);
    InvHasRefs(feeds, s);
    InvHasActivations(feeds, s);
    if i < |s.db.log| && s.db.log[i].kind == Rollback {
      RollbackFollows(s.db.catalogs, s.db.log, i);
    }
  }

  lemma RollbackFollows(catalogs: seq<CatalogRow>, log: seq<Activation>, i: ActivationId)
    requires LogRefs(catalogs, log) && OneActivation(log) && i < |log| && log[i].kind == Rollback
    ensures exists j :: 0 <= j < i && log[j].kind == Activate && log[j].catalog == log[i].catalog && log[j].source == log[i].source
  {
    hide DistinctActivations;
    assert ActivatedBy(log, i + 1, log[i].catalog);
  }

  lemma InvHasActivations(feeds: Feeds, s: System)
    requires Inv(feeds, s)
    ensures OneActivation(s.db.log)
  {
  }

  /** The log determines the active flag: per source, the one active catalog is that of the last entry, and
      each entry's previous catalog is that of the source's entry before it, none for the first. */
  lemma {:induction false} LogDeterminesActive(feeds: Feeds, matcher: Matcher, actions: seq<Action>)
    ensures
      var Db(_, catalogs, log, _) := Exec(feeds, matcher, actions).db;
      && (forall c :: 0 <= c < |catalogs| ==> (catalogs[c].active <==> LastOf(log, |log|, catalogs[c].source) == Some(c)))
      && (forall source :: ActiveCatalog(catalogs, source) == LastOf(log, |log|, source))
      && (forall c, d :: (0 <= c < |catalogs| && 0 <= d < |catalogs| && catalogs[c].source == catalogs[d].source
                          && catalogs[c].active && catalogs[d].active) ==> c == d)
      && (forall i :: 0 <= i < |log| ==> log[i].previous == LastOf(log, i, log[i].source))
  {
    ReachableInv(feeds, matcher, actions);
    var s := Exec(feeds, matcher, actions);
    InvHasRefs(feeds, s);
    hide Exec, Inv, LogRefs, LastOf, ActiveCatalog;
    forall source ensures ActiveCatalog(s.db.catalogs, source) == LastOf(s.db.log, |s.db.log|, source) {
      ActiveIsLast(s.db.catalogs, s.db.log, source);
    }
  }

  /** The downgrade check asks the log and rollback asks the count; in every reachable state they select the
      same catalogs, and each of those has exactly one activation in the log. */
  lemma EverActivatedAgrees(feeds: Feeds, matcher: Matcher, actions: seq<Action>, c: CatalogId)
    ensures
      var Db(_, catalogs, log, _) := Exec(feeds, matcher, actions).db;
      c < |catalogs| ==>
        && (EverLogged(log, c) <==> catalogs[c].activationCount >= 1)
        && catalogs[c].activationCount == CountOf(log, |log|, c)
        && (EverLogged(log, c) ==> OnceActivated(log, c))
  {
    hide *;
    ReachableInv(feeds, matcher, actions);
    var s := Exec(feeds, matcher, actions);
    InvHasRefs(feeds, s);
    InvHasActivations(feeds, s);
    if c < |s.db.catalogs| {
      LoggedIsCounted(s.db.catalogs, s.db.log, c);
      if EverLogged(s.db.log, c) {
        LoggedIsActivated(s.db.log, c);
      }
    }
  }

  ghost predicate OnceActivated(log: seq<Activation>, c: CatalogId) {
    exists j :: 0 <= j < |log| && log[j].catalog == c && log[j].kind == Activate && OnlyActivation(log, c, j)
  }

  ghost predicate OnlyActivation(log: seq<Activation>, c: CatalogId, j: nat) {
    forall i :: 0 <= i < |log| && log[i].catalog == c && log[i].kind == Activate ==> i == j
  }

  lemma LoggedIsCounted(catalogs: seq<CatalogRow>, log: seq<Activation>, c: CatalogId)
    requires FlagsAgree(catalogs, log) && c < |catalogs|
    ensures EverLogged(log, c) <==> catalogs[c].activationCount >= 1
    ensures catalogs[c].activationCount == CountOf(log, |log|, c)
  {
    hide LastOf;
    CountIsZero(log, |log|, c);
  }

  lemma LoggedIsActivated(log: seq<Activation>, c: CatalogId)
    requires OneActivation(log) && EverLogged(log, c)
    ensures OnceActivated(log, c)
  {
    hide DistinctActivations, OnlyActivation;
    var i :| 0 <= i < |log| && log[i].catalog == c;
    assert ActivatedBy(log, i + 1, log[i].catalog);
    var j :| 0 <= j < i + 1 && j < |log| && log[j].kind == Activate && log[j].catalog == log[i].catalog;
    DistinctIsOnly(log, c, j);
  }

  lemma DistinctIsOnly(log: seq<Activation>, c: CatalogId, j: nat)
    requires DistinctActivations(log) && j < |log| && log[j].catalog == c && log[j].kind == Activate
    ensures OnlyActivation(log, c, j)
  {
  }

  /** At most one run of a source is active; no state that lives only inside a transaction is committed; an
      activated run shows the reevaluation status of its own activation entry; a source retains at most
      a hundred catalogs. */
  lemma {:induction false} RunsAreOrderly(feeds: Feeds, matcher: Matcher, actions: seq<Action>)
    ensures
      var Db(runs, catalogs, log, _) := Exec(feeds, matcher, actions).db;
      && (forall r, q :: (0 <= r < |runs| && 0 <= q < |runs| && runs[r].source == runs[q].source
                          && IsActive(runs[r].state) && IsActive(runs[q].state)) ==> r == q)
      && (forall r :: 0 <= r < |runs| ==> runs[r].state !in {Verified, PreviewReady, Importing})
      && (forall r :: 0 <= r < |runs| && IsActivated(runs[r].state) ==>
            exists i :: 0 <= i < |log| && log[i].kind == Activate && log[i].catalog < |catalogs|
                        && catalogs[log[i].catalog].run == r && runs[r].reevaluation == log[i].status)
      && (forall source :: |RetainedOf(catalogs, source)| <= MAX_RETAINED_CATALOGS_PER_SOURCE)
  {
    ReachableInv(feeds, matcher, actions);
    var s := Exec(feeds, matcher, actions);
    hide Exec, SessionLinks, CatalogLinks, LogChain, LogRefs, FlagsAgree, OneActivation, WaitingAbove, LocksAbove, Monotone, LoggedRuns;
    var Db(runs, catalogs, log, _) := s.db;
    forall r | 0 <= r < |runs| && IsActivated(runs[r].state)
      ensures exists i :: 0 <= i < |log| && log[i].kind == Activate && log[i].catalog < |catalogs|
                          && catalogs[log[i].catalog].run == r && runs[r].reevaluation == log[i].status
    {
      var i :| 0 <= i < |log| && log[i].kind == Activate && log[i].catalog < |catalogs| && RunOf(catalogs, log[i]) == r;
      assert runs[r].reevaluation == log[i].status;
    }
  }

  /* ---------- From one state to a later one ---------- */

  /** What a step may do to a run's state. */
  predicate StateStep(from: RunState, to: RunState) {
    || to == from || LegalMove(from, to)
    || (from == Verifying && to == PendingApproval)
    || (from == Approved && to == Activated)
    || (IsActivated(from) && IsActivated(to))
  }

  predicate RunStep(run: Run, run': Run) {
    run'.source == run.source && run'.mode == run.mode && run'.createdAt == run.createdAt && StateStep(run.state, run'.state)
  }

  ghost predicate RunsStep(runs: seq<Run>, runs': seq<Run>) {
    |runs| <= |runs'| && forall r :: 0 <= r < |runs| ==> RunStep(runs[r], runs'[r])
  }

  /** At most run `r` changes, and other runs may be added. */
  lemma OneRunSteps(runs: seq<Run>, runs': seq<Run>, r: RunId)
    requires |runs| <= |runs'| && forall q :: 0 <= q < |runs| && q != r ==> runs'[q] == runs[q]
    requires r < |runs| ==> RunStep(runs[r], runs'[r])
    ensures RunsStep(runs, runs')
  {
  }

  lemma MarkSteps(feeds: Feeds, s: System, i: ActivationId, status: Reevaluation)
    requires Inv(feeds, s)
    ensures RunsStep(s.db.runs, MarkReevaluation(s.db, i, status).db.runs)
  {
    hide Inv;
    if i < |s.db.log| && !status.NotStarted? && !status.Pending? {
      MarkFits(feeds, s, i, status);
      hide MarkReevaluation, RunsStep, MarkedLog;
      OneRunSteps(s.db.runs, MarkReevaluation(s.db, i, status).db.runs, RunOf(s.db.catalogs, s.db.log[i]));
    }
  }

  lemma WorkSteps(feeds: Feeds, matcher: Matcher, s: System, action: Action)
    requires Inv(feeds, s) && IsWork(action)
    ensures RunsStep(s.db.runs, Next(feeds, matcher, s, action).db.runs)
  {
    hide Inv, WorkOf, WriteMatches, ViewsOf, MarkReevaluation, RunsStep;
    OneRunSteps(s.db.runs, s.db.runs, |s.db.runs|);
    if !action.RetryReevaluation? && action.worker < |s.workers| && !s.workers[action.worker].Stopped? {
      MarkSteps(feeds, s, s.workers[action.worker].entry, Running);
      MarkSteps(feeds, s, s.workers[action.worker].entry, Broken);
      MarkSteps(feeds, s, s.workers[action.worker].entry, Completed);
    }
  }

  lemma SaveSteps(feeds: Feeds, matcher: Matcher, s: System, r: RunId)
    requires Inv(feeds, s)
    ensures RunsStep(s.db.runs, Next(feeds, matcher, s, CommitSave(r)).db.runs)
  {
    hide Inv, RunsStep, ViolatesCatalogKeys;
    if CanSave(s, r) {
      CanSaveIsVerifying(feeds, s, r);
    }
    OneRunSteps(s.db.runs, Next(feeds, matcher, s, CommitSave(r)).db.runs, r);
  }

  lemma CanSaveIsVerifying(feeds: Feeds, s: System, r: RunId)
    requires Inv(feeds, s) && CanSave(s, r)
    ensures s.db.runs[r].state == Verifying
  {
    hide OneSlot, CommittedStates, CatalogLinks, Retention, LoggedRuns, LogChain, LogRefs, FlagsAgree, OneActivation,
      StatusAgrees, ActivatedRunsLogged, WaitingAbove, LocksAbove, Monotone, VerifiedFor, ViolatesCatalogKeys;
    assert Locked(s.sessions, r);
  }

  lemma StateSteps(runs: seq<Run>, r: RunId, to: RunState)
    requires r < |runs| && StateStep(runs[r].state, to)
    ensures RunsStep(runs, WithState(runs, r, to))
  {
    hide RunsStep, StateStep;
    OneRunSteps(runs, WithState(runs, r, to), r);
  }

  lemma MoveSteps(s: System, r: RunId, from: RunState, to: RunState)
    requires StateStep(from, to)
    ensures RunsStep(s.db.runs, Move(s, r, from, to).db.runs)
  {
    hide RunsStep, Locked, StateStep, WithState;
    OneRunSteps(s.db.runs, s.db.runs, r);
    if r < |s.db.runs| && s.db.runs[r].state == from {
      StateSteps(s.db.runs, r, to);
    }
  }

  lemma FailSteps(db: Db, r: RunId)
    ensures RunsStep(db.runs, FailRun(db, r).db.runs)
  {
    hide RunsStep;
    OneRunSteps(db.runs, FailRun(db, r).db.runs, r);
  }

  lemma CreateSteps(db: Db, source: SourceId, mode: RequestMode, interval: int, now: int)
    ensures RunsStep(db.runs, CreateRun(db, source, mode, interval, now).db.runs)
  {
    hide HasActiveRun, RequestedRecently;
  }

  lemma RunActionSteps(feeds: Feeds, matcher: Matcher, s: System, action: Action)
    requires !IsWork(action) && !action.CommitSave? && !action.ActivateApproved? && !action.RollBackTo?
    ensures RunsStep(s.db.runs, Next(feeds, matcher, s, action).db.runs)
  {
    hide SaveCheck, ActiveCatalog, PreviewFor, VerifiedFor, RunsStep, Move, FailRun, CreateRun;
    match action {
      case RequestSync(source, mode, now) => CreateSteps(s.db, source, mode, feeds.interval(source), now);
      case StartDownload(r) => MoveSteps(s, r, Created, Downloading);
      case EndDownload(r) => MoveSteps(s, r, Downloading, Downloaded);
      case BeginVerification(r) => MoveSteps(s, r, Downloaded, Verifying);
      case FailSync(r) => FailSteps(s.db, r);
      case ApproveRun(r) =>
        DecisionMoves(feeds, matcher, s, r);
        MoveSteps(s, r, PendingApproval, Approved);
      case RejectRun(r) =>
        DecisionMoves(feeds, matcher, s, r);
        MoveSteps(s, r, PendingApproval, Rejected);
      case _ =>
    }
    OneRunSteps(s.db.runs, s.db.runs, |s.db.runs|);
  }

  lemma ActivateSteps(feeds: Feeds, matcher: Matcher, s: System, r: RunId, now: int)
    ensures RunsStep(s.db.runs, Next(feeds, matcher, s, ActivateApproved(r, now)).db.runs)
  {
    hide ActiveCatalog, Import, SwitchActive, RunsStep, CatalogForRun;
    OneRunSteps(s.db.runs, Next(feeds, matcher, s, ActivateApproved(r, now)).db.runs, r);
  }

  lemma RollbackSteps(feeds: Feeds, matcher: Matcher, s: System, c: CatalogId, now: int)
    ensures Next(feeds, matcher, s, RollBackTo(c, now)).db.runs == s.db.runs
  {
    hide ActiveCatalog, Import, SwitchActive, ControlledRecently;
  }

  lemma NextSteps(feeds: Feeds, matcher: Matcher, s: System, action: Action)
    requires Inv(feeds, s)
    ensures RunsStep(s.db.runs, Next(feeds, matcher, s, action).db.runs)
  {
    hide Inv, Next, RunsStep;
    if IsWork(action) {
      WorkSteps(feeds, matcher, s, action);
    } else if action.CommitSave? {
      SaveSteps(feeds, matcher, s, action.run);
    } else if action.ActivateApproved? {
      ActivateSteps(feeds, matcher, s, action.run, action.now);
    } else if action.RollBackTo? {
      RollbackSteps(feeds, matcher, s, action.catalog, action.now);
      OneRunSteps(s.db.runs, s.db.runs, |s.db.runs|);
    } else {
      RunActionSteps(feeds, matcher, s, action);
    }
  }

  /** Whatever happens later, a rejected, failed or expired run keeps its state, and an activated run only
      moves between activated and activated-degraded. */
  lemma {:induction false} EndStatesStay(feeds: Feeds, matcher: Matcher, actions: seq<Action>, more: seq<Action>, r: RunId)
    ensures
      var runs, runs' := Exec(feeds, matcher, actions).db.runs, Exec(feeds, matcher, actions + more).db.runs;
      r < |runs| ==>
        && r < |runs'| && runs'[r].source == runs[r].source
        && (runs[r].state in {Rejected, Failed, Expired} ==> runs'[r].state == runs[r].state)
        && (IsActivated(runs[r].state) ==> IsActivated(runs'[r].state))
        && (!Early(runs[r].state) ==> !Early(runs'[r].state))
  {
    hide Next, Inv;
    if |more| == 0 {
      assert actions + more == actions;
    } else {
      var before := more[..|more| - 1];
      EndStatesStay(feeds, matcher, actions, before, r);
      ReachableInv(feeds, matcher, actions + before);
      NextSteps(feeds, matcher, Exec(feeds, matcher, actions + before), more[|more| - 1]);
      ExecPrefix(feeds, matcher, actions, more);
    }
  }

  lemma StepKeepsHistory(feeds: Feeds, matcher: Matcher, s: System, action: Action)
    requires Inv(feeds, s)
    ensures
      var s' := Next(feeds, matcher, s, action);
      |s.db.log| <= |s'.db.log| && SameHistory(s.db.log, s'.db.log, |s.db.log|) && SameContents(s.db.catalogs, s'.db.catalogs)
  {
    hide Inv, Next, IsSwitch, SameContents;
    var s' := Next(feeds, matcher, s, action);
    StepShape(feeds, matcher, s, action);
    if !Still(s.db, s'.db) {
      var kind, c, now :| IsSwitch(feeds, s, s', kind, c, now);
      SwitchParts(feeds, s, s', kind, c, now);
    }
  }

  /** The log is append-only, apart from the reevaluation status of its entries; retained catalogs are kept. */
  lemma {:induction false} HistoryStays(feeds: Feeds, matcher: Matcher, actions: seq<Action>, more: seq<Action>)
    ensures
      var db, db' := Exec(feeds, matcher, actions).db, Exec(feeds, matcher, actions + more).db;
      |db.log| <= |db'.log| && SameHistory(db.log, db'.log, |db.log|) && SameContents(db.catalogs, db'.catalogs)
  {
    hide Next, Inv;
    if |more| == 0 {
      assert actions + more == actions;
    } else {
      var before := more[..|more| - 1];
      HistoryStays(feeds, matcher, actions, before);
      ReachableInv(feeds, matcher, actions + before);
      StepKeepsHistory(feeds, matcher, Exec(feeds, matcher, actions + before), more[|more| - 1]);
      ExecPrefix(feeds, matcher, actions, more);
    }
  }

  /* ---------- Activation is all or nothing ---------- */

  /** The condition under which `activate_run` commits an activation. */
  ghost predicate Activatable(s: System, r: RunId, now: int) {
    && r < |s.db.runs| && s.db.runs[r].state == Approved
    && exists c :: 0 <= c < |s.db.catalogs| && s.db.catalogs[c].run == r && s.db.catalogs[c].bundle.expiresAt > now
                   && s.db.runs[r].activeBefore == LastOf(s.db.log, |s.db.log|, s.db.catalogs[c].source)
  }

  /** The condition under which it only expires the run. */
  ghost predicate Overdue(s: System, r: RunId, now: int) {
    && r < |s.db.runs| && s.db.runs[r].state == Approved
    && exists c :: 0 <= c < |s.db.catalogs| && s.db.catalogs[c].run == r && s.db.catalogs[c].bundle.expiresAt <= now
  }

  /** The import, the flag switch, the run state and the log entry, together. */
  ghost predicate ActivatedTogether(feeds: Feeds, s: System, s': System, r: RunId, now: int) {
    exists c :: 0 <= c < |s.db.catalogs| && s.db.catalogs[c].run == r
                && CanSwitch(s, Activate, c) && IsSwitch(feeds, s, s', Activate, c, now)
  }

  lemma CatalogOfRun(feeds: Feeds, s: System, r: RunId)
    requires Inv(feeds, s)
    ensures
      var found := CatalogForRun(s.db.catalogs, r);
      && (found.Some? ==> forall c :: 0 <= c < |s.db.catalogs| && s.db.catalogs[c].run == r ==> c == found.value)
      && (found.Some? ==> r < |s.db.runs| && s.db.catalogs[found.value].bundle.checksum == Sha256(s.db.catalogs[found.value].bundle.content))
  {
    var found := CatalogForRun(s.db.catalogs, r);
    if found.Some? {
      RetainedIsVerified(feeds, s, found.value);
      InvHasSaved(feeds, s, found.value);
    }
    hide Inv, SavedBy, CatalogForRun;
  }

  lemma InvHasSaved(feeds: Feeds, s: System, c: CatalogId)
    requires Inv(feeds, s) && c < |s.db.catalogs|
    ensures SavedBy(s.db.runs, s.sessions, s.db.catalogs[c]) && DistinctRuns(s.db.catalogs)
  {
    hide SavedBy, DistinctRuns, OneSlot, CommittedStates, SessionLinks, Retention, LoggedRuns, LogChain, LogRefs, FlagsAgree, OneActivation,
      StatusAgrees, ActivatedRunsLogged, WaitingAbove, LocksAbove, Monotone;
  }

  lemma ActivateOutcome(text: Text, db: Db, r: RunId, c: CatalogId, now: int)
    requires CatalogForRun(db.catalogs, r) == Some(c) && r < |db.runs|
    requires db.catalogs[c].bundle.checksum == Sha256(db.catalogs[c].bundle.content)
    ensures
      var row := db.catalogs[c];
      var outcome := SyncState.ActivateRun(text, db, r, row.bundle.content, Sha256(row.bundle.content), now);
      if db.runs[r].state != Approved then outcome == Refused(db, RunStateConflict)
      else if row.bundle.expiresAt <= now then outcome == Refused(db.(runs := WithState(db.runs, r, Expired)), ManifestExpired)
      else if db.runs[r].activeBefore != ActiveCatalog(db.catalogs, row.source) then outcome == Refused(db, ActivationPreviewStale)
      else outcome.error.None?
  {
    hide Import, SwitchActive, ActiveCatalog, CatalogForRun;
  }

  lemma ActivatesTogether(feeds: Feeds, matcher: Matcher, s: System, r: RunId, c: CatalogId, now: int)
    requires CatalogForRun(s.db.catalogs, r) == Some(c) && r < |s.db.runs|
    requires
      SyncState.ActivateRun(feeds.text, s.db, r, s.db.catalogs[c].bundle.content, Sha256(s.db.catalogs[c].bundle.content), now).error.None?
    ensures ActivatedTogether(feeds, s, Next(feeds, matcher, s, ActivateApproved(r, now)), r, now)
  {
    hide Import, SwitchActive, ActiveCatalog, CatalogForRun;
    assert IsSwitch(feeds, s, Next(feeds, matcher, s, ActivateApproved(r, now)), Activate, c, now);
  }

  /** In a reachable state an activation attempt has exactly three outcomes, each with its exact condition: all
      four effects together; only this run from approved to expired; or nothing at all. */
  lemma ActivationIsAllOrNothing(feeds: Feeds, matcher: Matcher, s: System, r: RunId, now: int)
    requires Inv(feeds, s)
    ensures
      var s' := Next(feeds, matcher, s, ActivateApproved(r, now));
      && (Activatable(s, r, now) ==> ActivatedTogether(feeds, s, s', r, now))
      && (Overdue(s, r, now) ==> s' == Moved(s, r, Expired))
      && (!Activatable(s, r, now) && !Overdue(s, r, now) ==> s' == s)
      && !(Activatable(s, r, now) && Overdue(s, r, now))
  {
    hide Inv, LogRefs, LogChain, FlagsAgree, SwitchActive, Import, ActiveCatalog, LastOf, IsSwitch, SyncState.ActivateRun, CatalogForRun,
      ActivatedTogether;
    var found := CatalogForRun(s.db.catalogs, r);
    CatalogOfRun(feeds, s, r);
    InvHasRefs(feeds, s);
    if found.Some? {
      ActiveIsLast(s.db.catalogs, s.db.log, s.db.catalogs[found.value].source);
      ActivateOutcome(feeds.text, s.db, r, found.value, now);
      if Activatable(s, r, now) {
        ActivatesTogether(feeds, matcher, s, r, found.value, now);
      }
    }
  }

  /* ---------- A save that nothing interrupts ---------- */

  lemma SaveRefused(feeds: Feeds, matcher: Matcher, s: System, r: RunId)
    requires r in s.sessions && s.sessions[r].phase.Previewed?
    requires SaveCheck(s.db, r, s.sessions[r].source, s.sessions[r].bundle).Some?
    ensures
      Next(feeds, matcher, Next(feeds, matcher, Next(feeds, matcher, s, OpenSave(r)), ReadActive(r)), CommitSave(r)) == s
  {
    hide SaveCheck, ActiveCatalog, ViolatesCatalogKeys;
  }

  lemma SavePhases(feeds: Feeds, matcher: Matcher, s: System, r: RunId)
    requires r in s.sessions && s.sessions[r].phase.Previewed?
    requires SaveCheck(s.db, r, s.sessions[r].source, s.sessions[r].bundle).None?
    ensures
      Next(feeds, matcher, Next(feeds, matcher, s, OpenSave(r)), ReadActive(r))
      == WithPhase(s, r, Based(ActiveCatalog(s.db.catalogs, s.sessions[r].source), |s.db.log|))
  {
    hide SaveCheck, ActiveCatalog, ViolatesCatalogKeys;
    var checked := WithPhase(s, r, Checked);
    var based := WithPhase(s, r, Based(ActiveCatalog(s.db.catalogs, s.sessions[r].source), |s.db.log|));
    assert Next(feeds, matcher, s, OpenSave(r)) == checked;
    assert checked.sessions[r := based.sessions[r]] == based.sessions;
  }

  lemma SavePermits(db: Db, r: RunId, source: SourceId, bundle: Bundle)
    requires SaveCheck(db, r, source, bundle).None?
    ensures r < |db.runs|
  {
  }

  /** The three steps of a save, taken in a row, are the store's one transaction. */
  lemma SaveIsThreeSteps(feeds: Feeds, matcher: Matcher, s: System, r: RunId)
    requires r in s.sessions && s.sessions[r].phase.Previewed?
    ensures
      var s' := Next(feeds, matcher, Next(feeds, matcher, Next(feeds, matcher, s, OpenSave(r)), ReadActive(r)), CommitSave(r));
      var session := s.sessions[r];
      var outcome := SaveVerifiedBundle(s.db, r, session.source, session.bundle, session.preview);
      && s'.db == outcome.db && r in s'.sessions && (s'.sessions[r].phase.Saved? <==> outcome.error.None?)
      && s'.workers == s.workers && s'.matches == s.matches
  {
    hide SaveCheck, ActiveCatalog, ViolatesCatalogKeys, SavedRun;
    var session := s.sessions[r];
    if SaveCheck(s.db, r, session.source, session.bundle).Some? {
      SaveRefused(feeds, matcher, s, r);
    } else {
      SavePhases(feeds, matcher, s, r);
      SavePermits(s.db, r, session.source, session.bundle);
    }
  }
}
