/** Preview fidelity: what an approver was shown is what activation and reevaluation then apply, unless a
    rollback of the source commits between the service's read of the active catalog and the store's. */
module PreviewFidelity {
  import opened Prelude
  import opened Catalogs
  import opened CatalogDiffs
  import opened AdvisoryTables
  import opened SyncState
  import opened Matching
  import opened Lifecycle
  import opened RunInvariants
  import opened TableInvariants

  predicate HasBase(phase: Phase) {
    phase.Based? || phase.Saved?
  }

  /** The preview was computed against the catalog that was active when the log had `readAt` entries, and the
      run's recorded baseline is the catalog that was active when it had `at` entries. */
  ghost predicate SessionRead(text: Text, catalogs: seq<CatalogRow>, log: seq<Activation>, session: Session) {
    && session.readAt <= |log| && session.baseline == LastOf(log, session.readAt, session.source)
    && session.preview == PreviewBundle(text, session.bundle.content, session.bundle.sequence, session.bundle.expiresAt,
                                        ContentOf(catalogs, session.baseline), session.previewedAt)
    && (HasBase(session.phase) ==>
          && session.readAt <= session.phase.at <= |log|
          && session.phase.activeBefore == LastOf(log, session.phase.at, session.source))
  }

  ghost predicate OnlyRollbacks(log: seq<Activation>, m: nat, n: nat, source: SourceId) {
    forall j :: m <= j < n && j < |log| && log[j].source == source ==> log[j].kind == Rollback
  }

  /** While a run is being verified it holds its source's one active slot, so nothing else is activated. */
  ghost predicate SessionQuiet(runs: seq<Run>, log: seq<Activation>, r: RunId, session: Session) {
    && r < |runs|
    && (runs[r].state == Verifying ==> OnlyRollbacks(log, session.readAt, |log|, session.source))
    && (HasBase(session.phase) ==> OnlyRollbacks(log, session.readAt, session.phase.at, session.source))
  }

  ghost predicate SessionsFaithful(text: Text, db: Db, sessions: Sessions) {
    forall r :: r in sessions ==> SessionRead(text, db.catalogs, db.log, sessions[r]) && SessionQuiet(db.runs, db.log, r, sessions[r])
  }

  ghost predicate EntryBased(catalogs: seq<CatalogRow>, sessions: Sessions, entry: Activation, i: nat) {
    entry.kind == Activate ==>
      && entry.catalog < |catalogs| && RunOf(catalogs, entry) in sessions
      && var phase := sessions[RunOf(catalogs, entry)].phase;
         phase.Saved? && entry.previous == phase.activeBefore && phase.at <= i
  }

  /** Every activation replaced exactly the catalog its run was saved against. */
  ghost predicate ActivationsBased(catalogs: seq<CatalogRow>, log: seq<Activation>, sessions: Sessions) {
    forall i :: 0 <= i < |log| ==> EntryBased(catalogs, sessions, log[i], i)
  }

  ghost predicate FidelityInv(text: Text, s: System) {
    SessionsFaithful(text, s.db, s.sessions) && ActivationsBased(s.db.catalogs, s.db.log, s.sessions)
  }

  /* ---------- Steps that change no session and append nothing ---------- */

  ghost predicate NoneStarts(runs: seq<Run>, runs': seq<Run>, sessions: Sessions) {
    && |runs| <= |runs'|
    && forall r :: r in sessions && r < |runs| && runs'[r].state == Verifying ==> runs[r].state == Verifying
  }

  lemma ReadFrame(text: Text, db: Db, db': Db, session: Session)
    requires LogRefs(db.catalogs, db.log) && SameContents(db.catalogs, db'.catalogs)
    requires |db.log| <= |db'.log| && SameHistory(db.log, db'.log, |db.log|)
    requires SessionRead(text, db.catalogs, db.log, session)
    ensures SessionRead(text, db'.catalogs, db'.log, session)
  {
    hide PreviewBundle;
    HistoryFrame(db.log, db'.log, session.readAt, session.source, 0);
    if session.baseline.Some? {
      LastOfIsRef(db.catalogs, db.log, session.readAt, session.source);
    }
    if HasBase(session.phase) {
      HistoryFrame(db.log, db'.log, session.phase.at, session.source, 0);
    }
  }

  lemma BasedFrame(db: Db, db': Db, sessions: Sessions)
    requires ActivationsBased(db.catalogs, db.log, sessions) && Still(db, db')
    ensures ActivationsBased(db'.catalogs, db'.log, sessions)
  {
    forall i | 0 <= i < |db'.log| ensures EntryBased(db'.catalogs, sessions, db'.log[i], i) {
      assert EntryBased(db.catalogs, sessions, db.log[i], i);
    }
  }

  lemma QuietKeepsFidelity(text: Text, s: System, s': System)
    requires FidelityInv(text, s) && LogRefs(s.db.catalogs, s.db.log) && Still(s.db, s'.db)
    requires s'.sessions == s.sessions && NoneStarts(s.db.runs, s'.db.runs, s.sessions)
    ensures FidelityInv(text, s')
  {
    hide SessionRead, LogRefs, EntryBased, SameContents;
    BasedFrame(s.db, s'.db, s.sessions);
    forall r | r in s.sessions ensures SessionRead(text, s'.db.catalogs, s'.db.log, s.sessions[r]) {
      ReadFrame(text, s.db, s'.db, s.sessions[r]);
    }
  }

  predicate IsSessionAction(action: Action) {
    action.ReadBaseline? || action.OpenSave? || action.ReadActive? || action.CommitSave? || action.AbortSave?
  }

  lemma MoveStartsNone(s: System, r: RunId, from: RunState, to: RunState)
    requires to == Verifying && r < |s.db.runs| && r in s.sessions ==> s.db.runs[r].state != from
    ensures Move(s, r, from, to).sessions == s.sessions && NoneStarts(s.db.runs, Move(s, r, from, to).db.runs, s.sessions)
  {
  }

  lemma OthersStartNone(db: Db, r: RunId, source: SourceId, mode: RequestMode, interval: int, now: int, sessions: Sessions)
    ensures NoneStarts(db.runs, FailRun(db, r).db.runs, sessions)
    ensures NoneStarts(db.runs, CreateRun(db, source, mode, interval, now).db.runs, sessions)
  {
    hide HasActiveRun, RequestedRecently;
  }

  lemma NoSessionStarts(feeds: Feeds, matcher: Matcher, s: System, action: Action)
    requires SessionLinks(feeds, s.db.runs, s.sessions)
    requires !IsSessionAction(action) && !action.ActivateApproved? && !action.RollBackTo? && !IsWork(action)
    ensures
      var s' := Next(feeds, matcher, s, action);
      s'.sessions == s.sessions && NoneStarts(s.db.runs, s'.db.runs, s.sessions)
  {
    hide VerifiedFor, Move, FailRun, CreateRun, NoneStarts;
    assert forall r :: r in s.sessions ==> r < |s.db.runs| && s.db.runs[r].state != Downloaded;
    hide SessionLinks;
    match action {
      case RequestSync(source, mode, now) => OthersStartNone(s.db, 0, source, mode, feeds.interval(source), now, s.sessions);
      case StartDownload(r) => MoveStartsNone(s, r, Created, Downloading);
      case EndDownload(r) => MoveStartsNone(s, r, Downloading, Downloaded);
      case BeginVerification(r) => MoveStartsNone(s, r, Downloaded, Verifying);
      case FailSync(r) =>
        OthersStartNone(s.db, r, "", RemoteSync, 0, 0, s.sessions);
        NoneStartsSame(s.db.runs, s.sessions);
      case ApproveRun(r) =>
        DecisionMoves(feeds, matcher, s, r);
        MoveStartsNone(s, r, PendingApproval, Approved);
      case RejectRun(r) =>
        DecisionMoves(feeds, matcher, s, r);
        MoveStartsNone(s, r, PendingApproval, Rejected);
    }
  }

  lemma NoneStartsSame(runs: seq<Run>, sessions: Sessions)
    ensures NoneStarts(runs, runs, sessions)
  {
  }

  lemma MarkStartsNone(db: Db, i: ActivationId, status: Reevaluation, sessions: Sessions)
    ensures NoneStarts(db.runs, MarkReevaluation(db, i, status).db.runs, sessions)
  {
  }

  lemma NoWorkStarts(feeds: Feeds, matcher: Matcher, s: System, action: Action)
    requires IsWork(action)
    ensures
      var s' := Next(feeds, matcher, s, action);
      s'.sessions == s.sessions && NoneStarts(s.db.runs, s'.db.runs, s.sessions)
  {
    hide WorkOf, WriteMatches, ViewsOf, MarkReevaluation, NoneStarts, ChunkOf, ChunkEnd;
    NoneStartsSame(s.db.runs, s.sessions);
    if !action.RetryReevaluation? && action.worker < |s.workers| && !s.workers[action.worker].Stopped? {
      MarkStartsNone(s.db, s.workers[action.worker].entry, Running, s.sessions);
      MarkStartsNone(s.db, s.workers[action.worker].entry, Broken, s.sessions);
      MarkStartsNone(s.db, s.workers[action.worker].entry, Completed, s.sessions);
    }
  }

  /* ---------- Session steps ---------- */

  lemma SetSessionKeepsFidelity(text: Text, s: System, r: RunId, session: Session)
    requires FidelityInv(text, s)
    requires SessionRead(text, s.db.catalogs, s.db.log, session) && SessionQuiet(s.db.runs, s.db.log, r, session)
    requires r in s.sessions ==> !s.sessions[r].phase.Saved?
    ensures FidelityInv(text, s.(sessions := s.sessions[r := session]))
  {
    hide SessionRead, SessionQuiet;
    var sessions := s.sessions[r := session];
    forall i | 0 <= i < |s.db.log| ensures EntryBased(s.db.catalogs, sessions, s.db.log[i], i) {
      assert EntryBased(s.db.catalogs, s.sessions, s.db.log[i], i);
    }
  }

  lemma BaselineIsFaithful(text: Text, db: Db, r: RunId, session: Session)
    requires r < |db.runs| && session.phase.Previewed?
    requires session.readAt == |db.log| && session.baseline == LastOf(db.log, |db.log|, session.source)
    requires session.preview == PreviewBundle(text, session.bundle.content, session.bundle.sequence, session.bundle.expiresAt,
                                              ContentOf(db.catalogs, session.baseline), session.previewedAt)
    ensures SessionRead(text, db.catalogs, db.log, session) && SessionQuiet(db.runs, db.log, r, session)
  {
    hide PreviewBundle, LastOf;
  }

  ghost function SessionFor(feeds: Feeds, s: System, r: RunId, bundle: Bundle, now: int): Session
    requires r < |s.db.runs|
  {
    var source := s.db.runs[r].source;
    var baseline := ActiveCatalog(s.db.catalogs, source);
    Session(source, bundle, baseline, |s.db.log|, PreviewFor(feeds, s.db, bundle, baseline, now), now, Previewed)
  }

  lemma ReadBaselineIs(feeds: Feeds, matcher: Matcher, s: System, r: RunId, bundle: Bundle, now: int)
    ensures
      var s' := Next(feeds, matcher, s, ReadBaseline(r, bundle, now));
      s' == s || (r < |s.db.runs| && r !in s.sessions && s' == s.(sessions := s.sessions[r := SessionFor(feeds, s, r, bundle, now)]))
  {
    hide ActiveCatalog, PreviewFor, VerifiedFor;
  }

  lemma ReadIsFaithful(feeds: Feeds, s: System, r: RunId, bundle: Bundle, now: int)
    requires r < |s.db.runs| && LogRefs(s.db.catalogs, s.db.log) && FlagsAgree(s.db.catalogs, s.db.log)
    ensures
      var session := SessionFor(feeds, s, r, bundle, now);
      SessionRead(feeds.text, s.db.catalogs, s.db.log, session) && SessionQuiet(s.db.runs, s.db.log, r, session)
  {
    hide LogRefs, FlagsAgree, PreviewBundle, SessionRead, SessionQuiet, LastOf, ActiveCatalog;
    ActiveIsLast(s.db.catalogs, s.db.log, s.db.runs[r].source);
    BaselineIsFaithful(feeds.text, s.db, r, SessionFor(feeds, s, r, bundle, now));
  }

  lemma ReadBaselineKeepsFidelity(feeds: Feeds, matcher: Matcher, s: System, r: RunId, bundle: Bundle, now: int)
    requires Inv(feeds, s) && FidelityInv(feeds.text, s)
    ensures FidelityInv(feeds.text, Next(feeds, matcher, s, ReadBaseline(r, bundle, now)))
  {
    hide *;
    InvHasRefs(feeds, s);
    ReadBaselineIs(feeds, matcher, s, r, bundle, now);
    if r < |s.db.runs| && r !in s.sessions {
      ReadIsFaithful(feeds, s, r, bundle, now);
      SetSessionKeepsFidelity(feeds.text, s, r, SessionFor(feeds, s, r, bundle, now));
    }
  }

  /** A session that is not saved may go back, be checked, or record what is active now. */
  lemma RephasedIsFaithful(text: Text, db: Db, r: RunId, session: Session, phase: Phase)
    requires SessionRead(text, db.catalogs, db.log, session) && SessionQuiet(db.runs, db.log, r, session)
    requires
      || phase.Previewed? || phase.Checked?
      || (phase == Based(LastOf(db.log, |db.log|, session.source), |db.log|) && db.runs[r].state == Verifying)
    ensures SessionRead(text, db.catalogs, db.log, session.(phase := phase)) && SessionQuiet(db.runs, db.log, r, session.(phase := phase))
  {
    hide PreviewBundle, LastOf;
  }

  lemma PhaseKeepsFidelity(feeds: Feeds, s: System, r: RunId, phase: Phase)
    requires Inv(feeds, s) && FidelityInv(feeds.text, s) && r in s.sessions && !s.sessions[r].phase.Saved?
    requires phase.Previewed? || phase.Checked? || phase == Based(ActiveCatalog(s.db.catalogs, s.sessions[r].source), |s.db.log|)
    requires phase.Based? ==> s.sessions[r].phase.Checked?
    ensures FidelityInv(feeds.text, WithPhase(s, r, phase))
  {
    hide *;
    SessionIsFaithful(feeds.text, s, r);
    InvHasRefs(feeds, s);
    if phase.Based? {
      CheckedIsLocked(s.sessions, r);
      LockedIsVerifying(feeds, s, r);
    }
    ActiveIsLast(s.db.catalogs, s.db.log, s.sessions[r].source);
    RephasedIsFaithful(feeds.text, s.db, r, s.sessions[r], phase);
    SetSessionKeepsFidelity(feeds.text, s, r, s.sessions[r].(phase := phase));
    WithPhaseIs(s, r, phase);
  }

  lemma CheckedIsLocked(sessions: Sessions, r: RunId)
    requires r in sessions && sessions[r].phase.Checked?
    ensures Locked(sessions, r)
  {
  }

  lemma WithPhaseIs(s: System, r: RunId, phase: Phase)
    requires r in s.sessions
    ensures WithPhase(s, r, phase) == s.(sessions := s.sessions[r := s.sessions[r].(phase := phase)])
  {
  }

  lemma SessionIsFaithful(text: Text, s: System, r: RunId)
    requires FidelityInv(text, s) && r in s.sessions
    ensures SessionRead(text, s.db.catalogs, s.db.log, s.sessions[r]) && SessionQuiet(s.db.runs, s.db.log, r, s.sessions[r])
  {
  }

  lemma LockedIsVerifying(feeds: Feeds, s: System, r: RunId)
    requires Inv(feeds, s) && Locked(s.sessions, r)
    ensures r < |s.db.runs| && s.db.runs[r].state == Verifying
  {
  }

  lemma CommitKeepsFidelity(feeds: Feeds, matcher: Matcher, s: System, r: RunId)
    requires Inv(feeds, s) && FidelityInv(feeds.text, s) && CanSave(s, r)
    ensures FidelityInv(feeds.text, AfterSave(s, r))
  {
    InvHasRefs(feeds, s);
    SessionIsFaithful(feeds.text, s, r);
    SaveIsStill(s, r);
    SaveStartsNone(s, r);
    hide Inv, LogRefs, LogChain, FlagsAgree, PreviewBundle, CanSave, ViolatesCatalogKeys, SavedRun, SessionRead, Still,
      SessionsFaithful, ActivationsBased;
    var session := s.sessions[r];
    var saved := session.(phase := Saved(session.phase.activeBefore, session.phase.at));
    SavedIsFaithful(feeds.text, s, r);
    SetSessionKeepsFidelity(feeds.text, s, r, saved);
    QuietKeepsFidelity(feeds.text, s.(sessions := s.sessions[r := saved]), AfterSave(s, r));
  }

  lemma SaveStartsNone(s: System, r: RunId)
    requires CanSave(s, r)
    ensures NoneStarts(s.db.runs, AfterSave(s, r).db.runs, AfterSave(s, r).sessions)
  {
    hide ViolatesCatalogKeys;
  }

  lemma SavedIsFaithful(text: Text, s: System, r: RunId)
    requires r in s.sessions && s.sessions[r].phase.Based?
    requires SessionRead(text, s.db.catalogs, s.db.log, s.sessions[r]) && SessionQuiet(s.db.runs, s.db.log, r, s.sessions[r])
    ensures
      var session := s.sessions[r];
      var saved := session.(phase := Saved(session.phase.activeBefore, session.phase.at));
      SessionRead(text, s.db.catalogs, s.db.log, saved) && SessionQuiet(s.db.runs, s.db.log, r, saved)
  {
    hide PreviewBundle;
  }

  lemma SessionActionKeepsFidelity(feeds: Feeds, matcher: Matcher, s: System, action: Action)
    requires Inv(feeds, s) && FidelityInv(feeds.text, s) && IsSessionAction(action)
    ensures FidelityInv(feeds.text, Next(feeds, matcher, s, action))
  {
    hide Inv, FidelityInv, SaveCheck, ActiveCatalog, PreviewFor, ViolatesCatalogKeys, SavedRun, VerifiedFor;
    match action {
      case ReadBaseline(r, bundle, now) => ReadBaselineKeepsFidelity(feeds, matcher, s, r, bundle, now);
      case OpenSave(r) =>
        if r in s.sessions && s.sessions[r].phase.Previewed? {
          PhaseKeepsFidelity(feeds, s, r, Checked);
        }
      case ReadActive(r) =>
        if r in s.sessions && s.sessions[r].phase.Checked? {
          PhaseKeepsFidelity(feeds, s, r, Based(ActiveCatalog(s.db.catalogs, s.sessions[r].source), |s.db.log|));
        }
      case CommitSave(r) =>
        if CanSave(s, r) {
          CommitKeepsFidelity(feeds, matcher, s, r);
          assert Next(feeds, matcher, s, action) == AfterSave(s, r);
        } else if r in s.sessions && s.sessions[r].phase.Based? {
          PhaseKeepsFidelity(feeds, s, r, Previewed);
        }
      case AbortSave(r) =>
        if Locked(s.sessions, r) {
          PhaseKeepsFidelity(feeds, s, r, Previewed);
        }
    }
  }

  /* ---------- Activation and rollback ---------- */

  lemma QuietUnderSwitch(feeds: Feeds, s: System, kind: ActivationKind, c: CatalogId, now: int, q: RunId)
    requires Inv(feeds, s) && CanSwitch(s, kind, c) && q in s.sessions
    requires SessionQuiet(s.db.runs, s.db.log, q, s.sessions[q])
    requires SessionRead(feeds.text, s.db.catalogs, s.db.log, s.sessions[q])
    ensures SessionQuiet(RunsAfter(s.db, kind, c), s.db.log + [EntryFor(s.db, kind, c, now)], q, s.sessions[q])
  {
    hide LoggedRuns, StatusAgrees, ActivatedRunsLogged, Monotone, LocksAbove, FlagsAgree, WaitingAbove,
      OneActivation, LogChain, LogRefs, Retention, CommittedStates, VerifiedFor, PreviewBundle, ActiveCatalog, LastOf;
    assert SavedBy(s.db.runs, s.sessions, s.db.catalogs[c]);
    var session, entry := s.sessions[q], EntryFor(s.db, kind, c, now);
    if kind == Activate && s.db.runs[q].state == Verifying {
      assert q != s.db.catalogs[c].run;
      assert session.source != entry.source;
    }
  }

  lemma SwitchIsBased(feeds: Feeds, s: System, kind: ActivationKind, c: CatalogId, now: int)
    requires Inv(feeds, s) && CanSwitch(s, kind, c) && FidelityInv(feeds.text, s)
    ensures EntryBased(s.db.catalogs, s.sessions, EntryFor(s.db, kind, c, now), |s.db.log|)
  {
    hide LoggedRuns, StatusAgrees, ActivatedRunsLogged, Monotone, LocksAbove, FlagsAgree, WaitingAbove,
      OneActivation, LogChain, LogRefs, Retention, CommittedStates, VerifiedFor, PreviewBundle, ActiveCatalog, LastOf, SessionLinks;
    assert SavedBy(s.db.runs, s.sessions, s.db.catalogs[c]);
    SessionIsFaithful(feeds.text, s, s.db.catalogs[c].run);
  }

  lemma AppendBased(catalogs: seq<CatalogRow>, catalogs': seq<CatalogRow>, log: seq<Activation>, entry: Activation, sessions: Sessions)
    requires ActivationsBased(catalogs, log, sessions) && EntryBased(catalogs, sessions, entry, |log|)
    requires SameContents(catalogs, catalogs')
    ensures ActivationsBased(catalogs', log + [entry], sessions)
  {
    forall i | 0 <= i <= |log| ensures EntryBased(catalogs', sessions, (log + [entry])[i], i) {
      if i < |log| {
        assert EntryBased(catalogs, sessions, log[i], i);
      }
    }
  }

  /** The sessions, runs and log a switch leaves. */
  lemma SwitchLeaves(feeds: Feeds, s: System, s': System, kind: ActivationKind, c: CatalogId, now: int)
    requires IsSwitch(feeds, s, s', kind, c, now)
    ensures CanSwitch(s, kind, c) && s'.sessions == s.sessions && s'.db.runs == RunsAfter(s.db, kind, c)
  {
  }

  lemma SessionUnderSwitch(feeds: Feeds, s: System, s': System, kind: ActivationKind, c: CatalogId, now: int, q: RunId)
    requires Inv(feeds, s) && FidelityInv(feeds.text, s) && IsSwitch(feeds, s, s', kind, c, now) && q in s.sessions
    ensures SessionRead(feeds.text, s'.db.catalogs, s'.db.log, s.sessions[q])
    ensures SessionQuiet(s'.db.runs, s'.db.log, q, s.sessions[q])
  {
    hide *;
    SwitchParts(feeds, s, s', kind, c, now);
    SwitchLeaves(feeds, s, s', kind, c, now);
    SessionIsFaithful(feeds.text, s, q);
    AppendIsHistory(s.db.log, EntryFor(s.db, kind, c, now));
    ReadFrame(feeds.text, s.db, s'.db, s.sessions[q]);
    QuietUnderSwitch(feeds, s, kind, c, now, q);
  }

  lemma AppendIsHistory(log: seq<Activation>, entry: Activation)
    ensures SameHistory(log, log + [entry], |log|)
  {
  }

  lemma SwitchKeepsBased(feeds: Feeds, s: System, s': System, kind: ActivationKind, c: CatalogId, now: int)
    requires Inv(feeds, s) && FidelityInv(feeds.text, s) && IsSwitch(feeds, s, s', kind, c, now)
    ensures ActivationsBased(s'.db.catalogs, s'.db.log, s'.sessions)
  {
    SwitchLeaves(feeds, s, s', kind, c, now);
    SwitchIsBased(feeds, s, kind, c, now);
    SwitchParts(feeds, s, s', kind, c, now);
    hide Inv, SessionsFaithful, ActivationsBased, EntryBased, IsSwitch, EntryFor, CanSwitch, RunsAfter, SameContents, LogRefs;
    AppendBased(s.db.catalogs, s'.db.catalogs, s.db.log, EntryFor(s.db, kind, c, now), s.sessions);
  }

  lemma GatherFidelity(text: Text, s: System)
    requires forall q :: q in s.sessions ==>
               SessionRead(text, s.db.catalogs, s.db.log, s.sessions[q]) && SessionQuiet(s.db.runs, s.db.log, q, s.sessions[q])
    requires ActivationsBased(s.db.catalogs, s.db.log, s.sessions)
    ensures FidelityInv(text, s)
  {
    hide SessionRead, SessionQuiet, ActivationsBased;
  }

  lemma SwitchKeepsFidelity(feeds: Feeds, s: System, s': System, kind: ActivationKind, c: CatalogId, now: int)
    requires Inv(feeds, s) && FidelityInv(feeds.text, s) && IsSwitch(feeds, s, s', kind, c, now)
    ensures FidelityInv(feeds.text, s')
  {
    hide *;
    SwitchLeaves(feeds, s, s', kind, c, now);
    SwitchKeepsBased(feeds, s, s', kind, c, now);
    forall q | q in s.sessions
      ensures SessionRead(feeds.text, s'.db.catalogs, s'.db.log, s.sessions[q])
      ensures SessionQuiet(s'.db.runs, s'.db.log, q, s.sessions[q])
    {
      SessionUnderSwitch(feeds, s, s', kind, c, now, q);
    }
    GatherFidelity(feeds.text, s');
  }

  /* ---------- Every run ---------- */

  lemma SwitchActionStarts(feeds: Feeds, matcher: Matcher, s: System, action: Action)
    requires action.ActivateApproved? || action.RollBackTo?
    ensures
      var s' := Next(feeds, matcher, s, action);
      s'.sessions == s.sessions && NoneStarts(s.db.runs, s'.db.runs, s.sessions)
  {
    hide ActiveCatalog, SwitchActive, Import, ControlledRecently, CatalogForRun, DigestHolds;
  }

  lemma NextKeepsFidelity(feeds: Feeds, matcher: Matcher, s: System, action: Action)
    requires Inv(feeds, s) && FidelityInv(feeds.text, s)
    ensures FidelityInv(feeds.text, Next(feeds, matcher, s, action))
  {
    hide Inv, Next, FidelityInv, LogRefs, LogChain, FlagsAgree, SessionLinks, CatalogLinks, Still, IsSwitch, NoneStarts, IsWork,
      IsSessionAction;
    InvHasRefs(feeds, s);
    InvHasLinks(feeds, s);
    var s' := Next(feeds, matcher, s, action);
    if IsSessionAction(action) {
      SessionActionKeepsFidelity(feeds, matcher, s, action);
    } else {
      StepShape(feeds, matcher, s, action);
      if Still(s.db, s'.db) {
        if IsWork(action) {
          NoWorkStarts(feeds, matcher, s, action);
        } else if action.ActivateApproved? || action.RollBackTo? {
          SwitchActionStarts(feeds, matcher, s, action);
        } else {
          NoSessionStarts(feeds, matcher, s, action);
        }
        QuietKeepsFidelity(feeds.text, s, s');
      } else {
        var kind, c, now :| IsSwitch(feeds, s, s', kind, c, now);
        SwitchKeepsFidelity(feeds, s, s', kind, c, now);
      }
    }
  }

  lemma InvHasLinks(feeds: Feeds, s: System)
    requires Inv(feeds, s)
    ensures SessionLinks(feeds, s.db.runs, s.sessions) && CatalogLinks(s.db.runs, s.sessions, s.db.catalogs)
  {
  }

  lemma {:induction false} ReachableFidelity(feeds: Feeds, matcher: Matcher, actions: seq<Action>)
    ensures FidelityInv(feeds.text, Exec(feeds, matcher, actions))
  {
    hide Inv, Next;
    if |actions| > 0 {
      var before := actions[..|actions| - 1];
      ReachableFidelity(feeds, matcher, before);
      ReachableInv(feeds, matcher, before);
      hide FidelityInv;
      NextKeepsFidelity(feeds, matcher, Exec(feeds, matcher, before), actions[|actions| - 1]);
    }
  }

  /* ---------- The theorem ---------- */

  /** No rollback of the source commits between the service's read of the active catalog and the store's. */
  ghost predicate NoRollbackBetween(log: seq<Activation>, session: Session)
    requires session.phase.Saved?
  {
    forall j :: session.readAt <= j < session.phase.at && j < |log| && log[j].source == session.source ==> log[j].kind != Rollback
  }

  /** The catalog of the source's last entry from `m` up to `n`, if there is one. */
  function LastBetween(log: seq<Activation>, m: nat, n: nat, source: SourceId): Option<CatalogId>
    requires m <= n <= |log|
  {
    if m == n then None
    else if log[n - 1].source == source then Some(log[n - 1].catalog)
    else LastBetween(log, m, n - 1, source)
  }

  /** Whatever the source logged between the two reads ended on the catalog the service had read. */
  ghost predicate EndsOnBaseline(log: seq<Activation>, session: Session)
    requires session.phase.Saved? && session.readAt <= session.phase.at <= |log|
  {
    var last := LastBetween(log, session.readAt, session.phase.at, session.source);
    last.None? || last == session.baseline
  }

  lemma {:induction false} LastOfSplits(log: seq<Activation>, m: nat, n: nat, source: SourceId)
    requires m <= n <= |log|
    ensures LastOf(log, n, source)
         == if LastBetween(log, m, n, source).Some? then LastBetween(log, m, n, source) else LastOf(log, m, source)
  {
    if m < n {
      LastOfSplits(log, m, n - 1, source);
    }
  }

  lemma {:induction false} QuietBetween(log: seq<Activation>, m: nat, n: nat, source: SourceId)
    requires m <= n <= |log| && OnlyRollbacks(log, m, n, source)
    requires forall j :: m <= j < n && log[j].source == source ==> log[j].kind != Rollback
    ensures LastBetween(log, m, n, source).None?
  {
    if m < n {
      QuietBetween(log, m, n - 1, source);
    }
  }

  /** The stored preview of an activation is the preview of exactly the change the activation makes. */
  ghost predicate PreviewOfEntry(feeds: Feeds, db: Db, session: Session, entry: Activation) {
    entry.catalog < |db.catalogs|
    && db.catalogs[entry.catalog].preview == PreviewFor(feeds, db, db.catalogs[entry.catalog].bundle, entry.previous, session.previewedAt)
  }

  lemma SavedSession(feeds: Feeds, s: System, c: CatalogId)
    requires Inv(feeds, s) && c < |s.db.catalogs|
    ensures
      var row := s.db.catalogs[c];
      && row.run in s.sessions && s.sessions[row.run].phase.Saved?
      && s.sessions[row.run].source == row.source && s.sessions[row.run].bundle == row.bundle && s.sessions[row.run].preview == row.preview
  {
    InvHasLinks(feeds, s);
    hide Inv, SessionLinks;
    assert SavedBy(s.db.runs, s.sessions, s.db.catalogs[c]);
  }

  /** The stored preview lists, before truncation, exactly the ids the entry's reevaluation walks through:
      one changed key each, in the same order, under the source's folded name. */
  ghost predicate CoversWork(feeds: Feeds, db: Db, i: ActivationId) {
    && i < |db.log| && db.log[i].catalog < |db.catalogs|
    && var row := db.catalogs[db.log[i].catalog];
       var keys := PreviewKeys(feeds.text, row.bundle.content, ContentOf(db.catalogs, db.log[i].previous));
       && row.preview.changedIds == Take(keys, MAX_PREVIEW_IDENTIFIERS) && row.preview.changedCount == |keys|
       && WorkOf(feeds, db, i) == Ok(KeyedIds(feeds.text.casefold(row.bundle.content.sourceName), keys))
  }

  /** The work list of an entry, without the error case. */
  lemma WorkIsList(feeds: Feeds, db: Db, i: ActivationId)
    requires i < |db.log| && db.log[i].catalog < |db.catalogs|
    requires |db.catalogs[db.log[i].catalog].bundle.content.advisories| <= MAX_ADVISORIES
    requires
      var previous := ContentOf(db.catalogs, db.log[i].previous);
      previous.Some? ==> |previous.value.advisories| <= MAX_ADVISORIES
    ensures
      var content := db.catalogs[db.log[i].catalog].bundle.content;
      WorkOf(feeds, db, i)
      == Ok(KeyedIds(feeds.text.casefold(content.sourceName), PreviewKeys(feeds.text, content, ContentOf(db.catalogs, db.log[i].previous))))
  {
    var content, previous := db.catalogs[db.log[i].catalog].bundle.content, ContentOf(db.catalogs, db.log[i].previous);
    ChangedScopeFits(feeds.text, content, previous);
    WorkIsKeyed(feeds.text, content, previous);
    hide ChangedRecordIds, ServerIds, ContentOf, PreviewKeys, KeyedIds;
  }

  lemma FaithfulCoversWork(feeds: Feeds, s: System, session: Session, i: ActivationId)
    requires Inv(feeds, s) && i < |s.db.log| && PreviewOfEntry(feeds, s.db, session, s.db.log[i])
    ensures CoversWork(feeds, s.db, i)
  {
    hide Inv, WorkOf, ContentOf, PreviewKeys, KeyedIds, PreviewBundle;
    var entry := s.db.log[i];
    RetainedContents(feeds, s, entry);
    WorkIsList(feeds, s.db, i);
    var bundle := s.db.catalogs[entry.catalog].bundle;
    PreviewLists(feeds.text, bundle.content, bundle.sequence, bundle.expiresAt, ContentOf(s.db.catalogs, entry.previous), session.previewedAt);
  }

  /** What the saved session behind activation entry `i` says about it. The store's recorded baseline is the
      catalog the activation replaces; it is the catalog the service read exactly when what the source logged in
      between, rollbacks only, ended on that catalog; and then the stored preview is that of exactly this
      change and lists what its reevaluation walks through. */
  ghost predicate Faithful(feeds: Feeds, s: System, entry: Activation, i: ActivationId) {
    && entry.catalog < |s.db.catalogs| && RunOf(s.db.catalogs, entry) in s.sessions
    && var session := s.sessions[RunOf(s.db.catalogs, entry)];
       && session.phase.Saved? && session.readAt <= session.phase.at <= i < |s.db.log|
       && OnlyRollbacks(s.db.log, session.readAt, session.phase.at, entry.source)
       && entry.previous == session.phase.activeBefore
       && (session.phase.activeBefore == session.baseline <==> EndsOnBaseline(s.db.log, session))
       && (NoRollbackBetween(s.db.log, session) ==> session.phase.activeBefore == session.baseline)
       && (session.phase.activeBefore == session.baseline ==>
             PreviewOfEntry(feeds, s.db, session, entry) && CoversWork(feeds, s.db, i))
  }

  lemma BaselineMatches(text: Text, db: Db, r: RunId, session: Session)
    requires SessionRead(text, db.catalogs, db.log, session) && SessionQuiet(db.runs, db.log, r, session)
    requires session.phase.Saved?
    ensures session.phase.activeBefore == session.baseline <==> EndsOnBaseline(db.log, session)
    ensures NoRollbackBetween(db.log, session) ==> session.phase.activeBefore == session.baseline
  {
    hide PreviewBundle, LastOf, LastBetween;
    LastOfSplits(db.log, session.readAt, session.phase.at, session.source);
    if NoRollbackBetween(db.log, session) {
      QuietBetween(db.log, session.readAt, session.phase.at, session.source);
    }
  }

  lemma EntryIsFaithful(feeds: Feeds, s: System, i: ActivationId)
    requires Inv(feeds, s) && FidelityInv(feeds.text, s) && i < |s.db.log| && s.db.log[i].kind == Activate
    ensures Faithful(feeds, s, s.db.log[i], i)
  {
    hide Inv, PreviewBundle, LastOf, NoRollbackBetween, EndsOnBaseline, CoversWork, LogRefs;
    var entry := s.db.log[i];
    assert EntryBased(s.db.catalogs, s.sessions, entry, i);
    InvHasRefs(feeds, s);
    EntrySource(s.db.catalogs, s.db.log, i);
    SavedSession(feeds, s, entry.catalog);
    var r := s.db.catalogs[entry.catalog].run;
    SessionIsFaithful(feeds.text, s, r);
    BaselineMatches(feeds.text, s.db, r, s.sessions[r]);
    if entry.previous == s.sessions[r].baseline {
      FaithfulCoversWork(feeds, s, s.sessions[r], i);
    }
  }

  lemma EntrySource(catalogs: seq<CatalogRow>, log: seq<Activation>, i: ActivationId)
    requires LogRefs(catalogs, log) && i < |log|
    ensures log[i].catalog < |catalogs| && catalogs[log[i].catalog].source == log[i].source
  {
  }

  /** Over every run, every activation is faithful in the sense above. The guard `activeBefore == baseline` could
      be checked when the bundle is saved. */
  lemma {:induction false} ActivationsAreFaithful(feeds: Feeds, matcher: Matcher, actions: seq<Action>)
    ensures
      var s := Exec(feeds, matcher, actions);
      forall i :: 0 <= i < |s.db.log| && s.db.log[i].kind == Activate ==> Faithful(feeds, s, s.db.log[i], i)
  {
    hide *;
    ReachableFidelity(feeds, matcher, actions);
    ReachableInv(feeds, matcher, actions);
    var s := Exec(feeds, matcher, actions);
    forall i | 0 <= i < |s.db.log| && s.db.log[i].kind == Activate ensures Faithful(feeds, s, s.db.log[i], i) {
      EntryIsFaithful(feeds, s, i);
    }
  }
}
