/** What the steps of the lifecycle achieve in every reachable state: retained catalogs never share a key, a rollback is
    all or nothing, decisions and failures take effect, and a retried reevaluation completes. */
module StepLaws {
  import opened Prelude
  import opened Catalogs
  import opened CatalogDiffs
  import opened AdvisoryTables
  import opened SyncState
  import opened Matching
  import opened Lifecycle
  import opened RunInvariants
  import opened TableInvariants
  import opened RunTheorems
  import opened Debt
  import Targeted = Reevaluation
  import opened StoreLaws
  import opened PreviewLaws

  /* ---------- The keys of the retained catalogs ---------- */

  lemma SavedKeepsKeys(db: Db, db': Db, r: RunId, source: SourceId, bundle: Bundle, preview: CatalogPreview, activeBefore: Option<CatalogId>)
    requires CatalogKeys(db.catalogs) && !Clashes(db, r, source, bundle)
    requires SavedTogether(db, db', r, source, bundle, preview, activeBefore)
    ensures CatalogKeys(db'.catalogs)
  {
    var n := |db.catalogs|;
    assert forall c :: 0 <= c < n ==> db'.catalogs[c] == db'.catalogs[..n][c] == db.catalogs[c];
    forall c | 0 <= c < n
      ensures db.catalogs[c].run != r
      ensures db.catalogs[c].source == source ==>
                var kept := db.catalogs[c].bundle;
                && kept.sequence != bundle.sequence && kept.version != bundle.version
                && kept.manifestDigest != bundle.manifestDigest && kept.payloadDigest != bundle.payloadDigest
    {
    }
  }

  lemma SameRowsKeepKeys(catalogs: seq<CatalogRow>, catalogs': seq<CatalogRow>)
    requires CatalogKeys(catalogs) && |catalogs'| == |catalogs| && SameContents(catalogs, catalogs')
    ensures CatalogKeys(catalogs')
  {
  }

  lemma OnlySavesAddCatalogs(feeds: Feeds, matcher: Matcher, s: System, action: Action)
    requires !action.CommitSave?
    ensures |Next(feeds, matcher, s, action).db.catalogs| == |s.db.catalogs|
  {
    hide Move, CreateRun, FailRun, Approve, Reject, Import, ActiveCatalog, WorkOf, WriteMatches, ViewsOf, PreviewFor, VerifiedFor, SaveCheck,
      ControlledRecently, CatalogForRun;
    MovesKeepCatalogs(s);
    assert forall i, status :: MarkReevaluation(s.db, i, status).db.catalogs == s.db.catalogs;
  }

  lemma MovesKeepCatalogs(s: System)
    ensures forall r, from, to :: Move(s, r, from, to).db.catalogs == s.db.catalogs
    ensures forall r :: FailRun(s.db, r).db.catalogs == Approve(s.db, r).db.catalogs == Reject(s.db, r).db.catalogs == s.db.catalogs
    ensures forall source, mode, interval, now :: CreateRun(s.db, source, mode, interval, now).db.catalogs == s.db.catalogs
  {
  }

  lemma CommitKeepsKeys(feeds: Feeds, matcher: Matcher, s: System, r: RunId)
    requires CatalogKeys(s.db.catalogs)
    ensures CatalogKeys(Next(feeds, matcher, s, CommitSave(r)).db.catalogs)
  {
    hide CatalogKeys, Clashes, SavedTogether, SaveInsert;
    if r in s.sessions && s.sessions[r].phase.Based? && r < |s.db.runs| {
      var session := s.sessions[r];
      SaveInsertLaw(s.db, r, session.source, session.bundle, session.preview, session.phase.activeBefore);
      var outcome := SaveInsert(s.db, r, session.source, session.bundle, session.preview, session.phase.activeBefore);
      if outcome.error.None? {
        SavedKeepsKeys(s.db, outcome.db, r, session.source, session.bundle, session.preview, session.phase.activeBefore);
      }
    }
  }

  /** In every reachable state, retained catalogs come from different runs, and two of one source differ in sequence,
      version, manifest digest and payload digest. */
  lemma {:induction false} ReachableKeys(feeds: Feeds, matcher: Matcher, actions: seq<Action>)
    ensures CatalogKeys(Exec(feeds, matcher, actions).db.catalogs)
  {
    hide Inv, Next, CatalogKeys, SameContents;
    if |actions| == 0 {
      NoCatalogs();
    } else {
      var before, last := actions[..|actions| - 1], actions[|actions| - 1];
      ReachableKeys(feeds, matcher, before);
      var s := Exec(feeds, matcher, before);
      match last {
        case CommitSave(r) => CommitKeepsKeys(feeds, matcher, s, r);
        case _ =>
          ReachableInv(feeds, matcher, before);
          OnlySavesAddCatalogs(feeds, matcher, s, last);
          StepKeepsHistory(feeds, matcher, s, last);
          SameRowsKeepKeys(s.db.catalogs, Next(feeds, matcher, s, last).db.catalogs);
      }
    }
  }

  lemma NoCatalogs()
    ensures CatalogKeys(Initial.db.catalogs)
  {
  }

  /* ---------- The steps of a save ---------- */

  /** Opening a save locks the run exactly when the checks pass, stated on the rows; otherwise nothing changes. */
  lemma OpenSaveLaw(feeds: Feeds, matcher: Matcher, actions: seq<Action>, r: RunId)
    ensures
      var s := Exec(feeds, matcher, actions);
      var s' := Next(feeds, matcher, s, OpenSave(r));
      if r in s.sessions && s.sessions[r].phase.Previewed?
         && AwaitsBundle(s.db, r, s.sessions[r].source) && !SourceIsFull(s.db, s.sessions[r].source)
         && !NotNewer(s.db, s.sessions[r].source, s.sessions[r].bundle)
         && !NewestHasVersion(s.db, s.sessions[r].source, s.sessions[r].bundle.version)
         && !HasManifestOf(s.db, s.sessions[r].source, s.sessions[r].bundle) && !HasPayloadOf(s.db, s.sessions[r].source, s.sessions[r].bundle)
      then s' == s.(sessions := s.sessions[r := s.sessions[r].(phase := Checked)])
      else s' == s
  {
    hide Exec, SaveCheck, CatalogKeys, SourceIsFull, NotNewer, NewestHasVersion, HasManifestOf, HasPayloadOf, AwaitsBundle;
    ReachableKeys(feeds, matcher, actions);
    var s := Exec(feeds, matcher, actions);
    if r in s.sessions {
      SaveCheckLaw(s.db, r, s.sessions[r].source, s.sessions[r].bundle);
    }
  }

  /** Committing a save adds the row and updates the run together, exactly when the bundle clashes with nothing
      retained by then; otherwise it only gives up the lock, so that the save may be tried again. */
  lemma CommitSaveLaw(feeds: Feeds, matcher: Matcher, s: System, r: RunId)
    requires r in s.sessions && s.sessions[r].phase.Based? && r < |s.db.runs|
    ensures
      var session := s.sessions[r];
      var s' := Next(feeds, matcher, s, CommitSave(r));
      && s'.workers == s.workers && s'.matches == s.matches
      && if Clashes(s.db, r, session.source, session.bundle) then
           s'.db == s.db && s'.sessions == s.sessions[r := session.(phase := Previewed)]
         else
           && SavedTogether(s.db, s'.db, r, session.source, session.bundle, session.preview, session.phase.activeBefore)
           && s'.sessions == s.sessions[r := session.(phase := Saved(session.phase.activeBefore, session.phase.at))]
  {
    hide Clashes, SavedTogether, SaveInsert;
    var session := s.sessions[r];
    SaveInsertLaw(s.db, r, session.source, session.bundle, session.preview, session.phase.activeBefore);
  }

  /** Aborting a save gives up the lock. */
  lemma AbortSaveLaw(feeds: Feeds, matcher: Matcher, s: System, r: RunId)
    ensures
      var s' := Next(feeds, matcher, s, AbortSave(r));
      if r in s.sessions && (s.sessions[r].phase.Checked? || s.sessions[r].phase.Based?)
      then s' == s.(sessions := s.sessions[r := s.sessions[r].(phase := Previewed)])
      else s' == s
  {
  }

  /* ---------- Rollback is all or nothing ---------- */

  /** Entry `j` is the last of the source. */
  ghost predicate IsLastEntry(log: seq<Activation>, source: SourceId, j: ActivationId) {
    j < |log| && log[j].source == source && forall k :: j < k < |log| ==> log[k].source != source
  }

  lemma {:induction false} LastOfIsLast(log: seq<Activation>, n: nat, source: SourceId)
    requires n <= |log|
    ensures
      match LastOf(log, n, source)
      case None => forall k :: 0 <= k < n ==> log[k].source != source
      case Some(c) => exists j :: 0 <= j < n && log[j].source == source && log[j].catalog == c && forall k :: j < k < n ==> log[k].source != source
  {
    if n > 0 {
      LastOfIsLast(log, n - 1, source);
    }
  }

  /** Catalog `c` was activated before, it is not the one the source's last entry activated, and every entry of the
      source is at least as old as the cooldown. */
  ghost predicate Rollbackable(feeds: Feeds, db: Db, c: CatalogId, now: int) {
    && c < |db.catalogs| && Logged(db, c)
    && var source := db.catalogs[c].source;
       && (forall j: ActivationId :: IsLastEntry(db.log, source, j) ==> db.log[j].catalog != c)
       && forall i :: 0 <= i < |db.log| && db.log[i].source == source ==> now - db.log[i].createdAt >= feeds.cooldown(source)
  }

  /** The source's last entry activated catalog `c`. */
  ghost predicate LastActivated(db: Db, source: SourceId, c: CatalogId) {
    exists j: ActivationId :: IsLastEntry(db.log, source, j) && db.log[j].catalog == c
  }

  /** Exactly `c` becomes the active catalog of its source, and its activation is counted. */
  ghost predicate Switched(catalogs: seq<CatalogRow>, catalogs': seq<CatalogRow>, c: CatalogId) {
    && c < |catalogs| == |catalogs'|
    && forall d :: 0 <= d < |catalogs| ==>
         var row, row' := catalogs[d], catalogs'[d];
         && row'.run == row.run && row'.source == row.source && row'.bundle == row.bundle && row'.preview == row.preview
         && row'.activationCount == row.activationCount + (if d == c then 1 else 0)
         && row'.active == if row.source == catalogs[c].source then d == c else row.active
  }

  /** The flag switch, the log entry and the import. */
  ghost predicate RolledBack(text: Text, db: Db, db': Db, c: CatalogId, now: int) {
    && c < |db.catalogs| && Switched(db.catalogs, db'.catalogs, c) && db'.runs == db.runs
    && db'.tables == Import(text, db.tables, db.catalogs[c].bundle.content, Sha256(db.catalogs[c].bundle.content), true)
    && |db'.log| == |db.log| + 1 && db'.log[..|db.log|] == db.log
    && var entry, source := db'.log[|db.log|], db.catalogs[c].source;
       && entry.kind == Rollback && entry.source == source && entry.catalog == c && entry.createdAt == now
       && entry.status == Reevaluation.Pending && entry.previous.Some? && LastActivated(db, source, entry.previous.value)
  }

  /** All of that, and the admission of its reevaluation. */
  ghost predicate RolledBackTogether(feeds: Feeds, s: System, s': System, c: CatalogId, now: int) {
    && RolledBack(feeds.text, s.db, s'.db, c, now) && s'.sessions == s.sessions && s'.matches == s.matches
    && s'.workers == s.workers + [Admitted(|s.db.log|)]
  }

  lemma LastActivatedIs(db: Db, source: SourceId, c: CatalogId)
    ensures LastActivated(db, source, c) <==> LastOf(db.log, |db.log|, source) == Some(c)
  {
    LastOfIsLast(db.log, |db.log|, source);
    hide LastOf;
    var last := LastOf(db.log, |db.log|, source);
    if last.Some? {
      var j :| 0 <= j < |db.log| && db.log[j].source == source && db.log[j].catalog == last.value
               && forall k :: j < k < |db.log| ==> db.log[k].source != source;
      assert IsLastEntry(db.log, source, j);
    }
  }

  lemma SomeLast(db: Db, c: CatalogId)
    requires LogRefs(db.catalogs, db.log) && c < |db.catalogs| && Logged(db, c)
    ensures LastOf(db.log, |db.log|, db.catalogs[c].source).Some?
  {
    LastOfIsLast(db.log, |db.log|, db.catalogs[c].source);
    hide LastOf;
    var i :| 0 <= i < |db.log| && db.log[i].catalog == c;
  }

  lemma CountedIsLogged(db: Db, c: CatalogId)
    requires FlagsAgree(db.catalogs, db.log) && c < |db.catalogs|
    ensures db.catalogs[c].activationCount > 0 <==> Logged(db, c)
  {
    hide LastOf;
    CountIsZero(db.log, |db.log|, c);
  }

  lemma SwitchIsExact(db: Db, c: CatalogId)
    requires FlagsAgree(db.catalogs, db.log) && c < |db.catalogs|
    ensures Switched(db.catalogs, SwitchActive(db.catalogs, db.catalogs[c].source, c), c)
  {
    hide LastOf, CountOf;
  }

  lemma RollbackEffect(text: Text, db: Db, c: CatalogId, cooldown: int, now: int)
    requires LogRefs(db.catalogs, db.log) && FlagsAgree(db.catalogs, db.log) && c < |db.catalogs| && Logged(db, c)
    requires
      RollbackCatalog(text, db, c, db.catalogs[c].bundle.content, Sha256(db.catalogs[c].bundle.content), cooldown, now).error.None?
    ensures
      var outcome := RollbackCatalog(text, db, c, db.catalogs[c].bundle.content, Sha256(db.catalogs[c].bundle.content), cooldown, now);
      RolledBack(text, db, outcome.db, c, now)
  {
    hide Import, ActiveCatalog, ControlledRecently, FlagsAgree, LogRefs, Switched, SwitchActive, LastActivated, Logged, LastOf, DigestHolds;
    var source := db.catalogs[c].source;
    SwitchIsExact(db, c);
    SomeLast(db, c);
    ActiveIsLast(db.catalogs, db.log, source);
    LastActivatedIs(db, source, ActiveCatalog(db.catalogs, source).value);
  }

  /** In every reachable state a rollback has exactly two outcomes: all its effects together, or nothing at all. */
  lemma RollbackIsAllOrNothing(feeds: Feeds, matcher: Matcher, actions: seq<Action>, c: CatalogId, now: int)
    ensures
      var s := Exec(feeds, matcher, actions);
      var s' := Next(feeds, matcher, s, RollBackTo(c, now));
      if Rollbackable(feeds, s.db, c, now) then RolledBackTogether(feeds, s, s', c, now) else s' == s
  {
    hide Exec, Inv, Rollbackable, RolledBackTogether;
    ReachableInv(feeds, matcher, actions);
    RollbackOutcome(feeds, matcher, Exec(feeds, matcher, actions), c, now);
  }

  lemma RollbackOutcome(feeds: Feeds, matcher: Matcher, s: System, c: CatalogId, now: int)
    requires Inv(feeds, s)
    ensures
      var s' := Next(feeds, matcher, s, RollBackTo(c, now));
      if Rollbackable(feeds, s.db, c, now) then RolledBackTogether(feeds, s, s', c, now) else s' == s
  {
    hide Inv, LogRefs, LogChain, FlagsAgree, RollbackCatalog, RolledBack, ValidCatalog, Rollbackable, Logged;
    if c < |s.db.catalogs| {
      InvHasRefs(feeds, s);
      RetainedIsVerified(feeds, s, c);
      var row := s.db.catalogs[c];
      var outcome := RollbackCatalog(feeds.text, s.db, c, row.bundle.content, Sha256(row.bundle.content), feeds.cooldown(row.source), now);
      RollbackGranted(feeds, s.db, c, now);
      if outcome.error.None? {
        RollbackEffect(feeds.text, s.db, c, feeds.cooldown(row.source), now);
      }
    } else {
      assert !Rollbackable(feeds, s.db, c, now) by {
        NoSuchTarget(feeds, s.db, c, now);
      }
    }
  }

  lemma NoSuchTarget(feeds: Feeds, db: Db, c: CatalogId, now: int)
    requires c >= |db.catalogs|
    ensures !Rollbackable(feeds, db, c, now)
  {
  }

  lemma RollbackGranted(feeds: Feeds, db: Db, c: CatalogId, now: int)
    requires LogRefs(db.catalogs, db.log) && FlagsAgree(db.catalogs, db.log) && c < |db.catalogs|
    requires db.catalogs[c].bundle.checksum == Sha256(db.catalogs[c].bundle.content)
    ensures
      var row := db.catalogs[c];
      var outcome := RollbackCatalog(feeds.text, db, c, row.bundle.content, Sha256(row.bundle.content), feeds.cooldown(row.source), now);
      && (outcome.error.None? <==> Rollbackable(feeds, db, c, now)) && (outcome.error.None? ==> Logged(db, c))
      && (outcome.error.Some? ==> outcome.db == db)
  {
    hide Logged, IsLastEntry, Import, ActiveCatalog, LastOf, CountOf, SwitchActive;
    var row := db.catalogs[c];
    CountedIsLogged(db, c);
    LastActivatedIs(db, row.source, c);
    assert row.active <==> LastOf(db.log, |db.log|, row.source) == Some(c);
    RollbackRefusals(feeds.text, db, c, row.bundle.content, Sha256(row.bundle.content), feeds.cooldown(row.source), now);
  }

  /* ---------- Requests, decisions and failures ---------- */

  /** In every reachable state a request adds a run exactly when every run of the source is finished and at least the
      interval old, and changes nothing otherwise. */
  lemma RequestStep(feeds: Feeds, matcher: Matcher, actions: seq<Action>, source: SourceId, mode: RequestMode, now: int)
    ensures
      var s := Exec(feeds, matcher, actions);
      var s' := Next(feeds, matcher, s, RequestSync(source, mode, now));
      if forall r :: 0 <= r < |s.db.runs| && s.db.runs[r].source == source ==>
           !Unfinished(s.db.runs[r]) && now - s.db.runs[r].createdAt >= feeds.interval(source)
      then s' == s.(db := s.db.(runs := s.db.runs + [Run(source, mode, Created, now, None, None, None, None, NotStarted)]))
      else s' == s
  {
    hide Exec, CreateRun, Unfinished;
    var s := Exec(feeds, matcher, actions);
    var ours := set r | 0 <= r < |s.db.runs| && s.db.runs[r].source == source;
    RequestLaw(s.db, source, mode, feeds.interval(source), now);
    var outcome := CreateRun(s.db, source, mode, feeds.interval(source), now);
    if outcome.error.None? {
      assert outcome.db.runs == outcome.db.runs[..|s.db.runs|] + [outcome.db.runs[|s.db.runs|]];
    }
  }

  lemma PendingIsUnlocked(feeds: Feeds, s: System, r: RunId)
    requires Inv(feeds, s) && r < |s.db.runs| && s.db.runs[r].state != Verifying
    ensures !Locked(s.sessions, r)
  {
    InvHasLinks(feeds, s);
    hide Inv;
  }

  lemma InvHasLinks(feeds: Feeds, s: System)
    requires Inv(feeds, s)
    ensures SessionLinks(feeds, s.db.runs, s.sessions) && LogRefs(s.db.catalogs, s.db.log) && LoggedRuns(s.db.runs, s.db.catalogs, s.db.log)
  {
  }

  /** In every reachable state an approval of a run that is pending approval leaves it approved, a rejection rejected,
      and changes nothing else; every other run is left as it is. */
  lemma DecisionStep(feeds: Feeds, matcher: Matcher, actions: seq<Action>, r: RunId)
    ensures
      var s := Exec(feeds, matcher, actions);
      var approved, rejected := Next(feeds, matcher, s, ApproveRun(r)), Next(feeds, matcher, s, RejectRun(r));
      if r < |s.db.runs| && s.db.runs[r].state == PendingApproval then
        && approved == s.(db := approved.db) && OnlyState(s.db, approved.db, r, Approved)
        && rejected == s.(db := rejected.db) && OnlyState(s.db, rejected.db, r, Rejected)
      else approved == s && rejected == s
  {
    hide Exec, Inv, Approve, Reject, OnlyState, Locked;
    var s := Exec(feeds, matcher, actions);
    ReachableInv(feeds, matcher, actions);
    DecisionLaw(s.db, r);
    if r < |s.db.runs| && s.db.runs[r].state == PendingApproval {
      PendingIsUnlocked(feeds, s, r);
    }
  }

  /** A rejected, failed or expired run never has a log entry, whatever follows. */
  lemma EndedIsNeverLogged(feeds: Feeds, matcher: Matcher, actions: seq<Action>, more: seq<Action>, r: RunId)
    requires r < |Exec(feeds, matcher, actions).db.runs| && Exec(feeds, matcher, actions).db.runs[r].state in {Rejected, Failed, Expired}
    ensures
      var db, db' := Exec(feeds, matcher, actions).db, Exec(feeds, matcher, actions + more).db;
      && r < |db'.runs| && db'.runs[r].state == db.runs[r].state
      && forall i :: 0 <= i < |db'.log| && db'.log[i].catalog < |db'.catalogs| ==> db'.catalogs[db'.log[i].catalog].run != r
  {
    hide Exec, Inv, SessionLinks;
    EndStatesStay(feeds, matcher, actions, more, r);
    ReachableInv(feeds, matcher, actions + more);
    InvHasLinks(feeds, Exec(feeds, matcher, actions + more));
    var db' := Exec(feeds, matcher, actions + more).db;
    forall i | 0 <= i < |db'.log| && db'.log[i].catalog < |db'.catalogs| ensures db'.catalogs[db'.log[i].catalog].run != r {
      assert IsActivated(db'.runs[RunOf(db'.catalogs, db'.log[i])].state);
    }
  }

  /** A failure of an unfinished run takes effect unless a save has it locked, and frees its source: once the
      interval has passed the next request is granted. */
  lemma FailureStep(feeds: Feeds, matcher: Matcher, actions: seq<Action>, r: RunId, mode: RequestMode, now: int)
    requires
      var s := Exec(feeds, matcher, actions);
      r < |s.db.runs| && Unfinished(s.db.runs[r]) && !Locked(s.sessions, r)
    ensures
      var s := Exec(feeds, matcher, actions);
      var s' := Next(feeds, matcher, s, FailSync(r));
      var source := s.db.runs[r].source;
      && s' == s.(db := s'.db) && OnlyState(s.db, s'.db, r, Failed)
      && ((forall q :: 0 <= q < |s.db.runs| && s.db.runs[q].source == source ==> now - s.db.runs[q].createdAt >= feeds.interval(source)) ==>
            |Next(feeds, matcher, s', RequestSync(source, mode, now)).db.runs| == |s.db.runs| + 1)
  {
    hide Exec, Inv, Next, Locked, SessionLinks, LogRefs, LoggedRuns;
    var s := Exec(feeds, matcher, actions);
    ReachableInv(feeds, matcher, actions);
    FailsRun(feeds, matcher, s, r);
    OneUnfinished(feeds, s, r);
    assert (actions + [FailSync(r)])[..|actions|] == actions;
    assert Exec(feeds, matcher, actions + [FailSync(r)]) == Next(feeds, matcher, s, FailSync(r)) by {
      ExecPrefix(feeds, matcher, actions, [FailSync(r)]);
      assert actions + [FailSync(r)][..0] == actions;
    }
    RequestStep(feeds, matcher, actions + [FailSync(r)], s.db.runs[r].source, mode, now);
  }

  lemma FailsRun(feeds: Feeds, matcher: Matcher, s: System, r: RunId)
    requires r < |s.db.runs| && Unfinished(s.db.runs[r]) && !Locked(s.sessions, r)
    ensures
      var s' := Next(feeds, matcher, s, FailSync(r));
      s' == s.(db := s'.db) && OnlyState(s.db, s'.db, r, Failed)
  {
    hide FailRun, Locked, OnlyState;
    FailureLaw(s.db, r);
  }

  lemma OneUnfinished(feeds: Feeds, s: System, r: RunId)
    requires Inv(feeds, s) && r < |s.db.runs| && Unfinished(s.db.runs[r])
    ensures forall q :: 0 <= q < |s.db.runs| && s.db.runs[q].source == s.db.runs[r].source && q != r ==> !Unfinished(s.db.runs[q])
  {
    hide CommittedStates, SessionLinks, CatalogLinks, Retention, LogRefs, LoggedRuns, LogChain, FlagsAgree, OneActivation, StatusAgrees,
      ActivatedRunsLogged, Monotone, WaitingAbove, LocksAbove;
    assert forall q :: 0 <= q < |s.db.runs| ==> (Unfinished(s.db.runs[q]) <==> IsActive(s.db.runs[q].state));
  }

  /* ---------- Reevaluations that are retried ---------- */

  /** A retry of entry `i` with a worker of its own, which nothing disturbs. */
  ghost function Retried(feeds: Feeds, matcher: Matcher, s: System, i: ActivationId): System {
    Next(feeds, matcher, Next(feeds, matcher, s, RetryReevaluation(i)), BeginWork(|s.workers|))
  }

  lemma RetryBegins(feeds: Feeds, matcher: Matcher, s: System, i: ActivationId)
    requires LogRefs(s.db.catalogs, s.db.log) && i < |s.db.log| && s.db.log[i].status == Broken && WorkOf(feeds, s.db, i).Ok?
    ensures
      Retried(feeds, matcher, s, i)
      == s.(db := MarkReevaluation(s.db, i, Running).db, workers := s.workers + [Working(i, WorkOf(feeds, s.db, i).value, 0, None)])
  {
    hide WorkOf, MarkReevaluation;
    var admitted := s.(workers := s.workers + [Admitted(i)]);
    assert Next(feeds, matcher, s, RetryReevaluation(i)) == admitted;
    var worker := Working(i, WorkOf(feeds, s.db, i).value, 0, None);
    assert admitted.workers[|s.workers| := worker] == s.workers + [worker];
  }

  /** From every reachable state, retrying a failed reevaluation and letting its worker run completes the entry; every
      advisory the entry owes then has the match of its rows, unless a later row disagrees, and no other match and no
      advisory row changes. */
  lemma RetryCompletes(feeds: Feeds, matcher: Matcher, actions: seq<Action>, i: ActivationId, at: int)
    requires
      var s := Exec(feeds, matcher, actions);
      i < |s.db.log| && s.db.log[i].status == Broken
    ensures
      var s := Exec(feeds, matcher, actions);
      var w := |s.workers|;
      && Targeted.BetweenChunks(Retried(feeds, matcher, s, i), w) && LogRefs(s.db.catalogs, s.db.log)
      && var s' := Next(feeds, matcher, Targeted.RunWorker(feeds, matcher, Retried(feeds, matcher, s, i), w, at), FinishWork(w));
         && i < |s'.db.log| && s'.db.log[i].status == Completed && s'.db.tables == s.db.tables
         && s'.matches == Reconcile(matcher, s.db.tables, s.matches, Owed(feeds.text, s.db.catalogs, s.db.log, i), at)
  {
    hide Exec, Inv, LogRefs, LogChain, FlagsAgree, WorkOf, Owed, Reconcile, Next, Targeted.RunWorker, Retried;
    var s := Exec(feeds, matcher, actions);
    ReachableInv(feeds, matcher, actions);
    InvHasRefs(feeds, s);
    EntryInRange(s, i);
    Targeted.WorkFits(feeds, s, i);
    RetryBegins(feeds, matcher, s, i);
    WorkIsOwed(feeds, s, i);
    RetryRuns(feeds, matcher, s, i, at);
  }

  lemma EntryInRange(s: System, i: ActivationId)
    requires LogRefs(s.db.catalogs, s.db.log) && i < |s.db.log|
    ensures s.db.log[i].catalog < |s.db.catalogs|
  {
  }

  lemma RetryRuns(feeds: Feeds, matcher: Matcher, s: System, i: ActivationId, at: int)
    requires LogRefs(s.db.catalogs, s.db.log) && i < |s.db.log| && WorkOf(feeds, s.db, i).Ok?
    requires WorkerFits(feeds.text, s.db.catalogs, s.db.log, Working(i, WorkOf(feeds, s.db, i).value, 0, None))
    requires
      Retried(feeds, matcher, s, i)
      == s.(db := MarkReevaluation(s.db, i, Running).db, workers := s.workers + [Working(i, WorkOf(feeds, s.db, i).value, 0, None)])
    ensures
      var w := |s.workers|;
      && Targeted.BetweenChunks(Retried(feeds, matcher, s, i), w)
      && var s' := Next(feeds, matcher, Targeted.RunWorker(feeds, matcher, Retried(feeds, matcher, s, i), w, at), FinishWork(w));
         && i < |s'.db.log| && s'.db.log[i].status == Completed && s'.db.tables == s.db.tables
         && s'.matches == Reconcile(matcher, s.db.tables, s.matches, Owed(feeds.text, s.db.catalogs, s.db.log, i), at)
  {
    hide Reconcile, Owed, WorkOf, Retried, LogRefs, MarkReevaluation, Targeted.RunWorker;
    EntryInRange(s, i);
    var w, ids, t := |s.workers|, WorkOf(feeds, s.db, i).value, Retried(feeds, matcher, s, i);
    assert t.workers[w] == Working(i, ids, 0, None);
    Targeted.WorkerReconciles(feeds, matcher, t, w, at);
    assert ids[0..] == ids;
    assert ToSet(ids) == Owed(feeds.text, s.db.catalogs, s.db.log, i);
    MarkLaw(s.db, i, Running);
    MarkLaw(t.db, i, Completed);
  }

  /* ---------- The steps of a worker ---------- */

  /** Every worker that is not stopped works for an entry of the log. */
  ghost predicate WorkersRefer(s: System) {
    forall w :: 0 <= w < |s.workers| && !s.workers[w].Stopped? ==> s.workers[w].entry < |s.db.log|
  }

  lemma NobodyWorks()
    ensures WorkersRefer(Initial)
  {
  }

  lemma StepKeepsReferences(feeds: Feeds, matcher: Matcher, s: System, action: Action)
    requires WorkersRefer(s)
    ensures WorkersRefer(Next(feeds, matcher, s, action))
  {
    hide WriteMatches, ViewsOf, WorkOf, PreviewFor, Import, SwitchActive, ActiveCatalog, SaveCheck, ViolatesCatalogKeys, HasActiveRun,
      RequestedRecently, ControlledRecently, CatalogForRun, VerifiedFor;
  }

  lemma {:induction false} ReachableWorkers(feeds: Feeds, matcher: Matcher, actions: seq<Action>)
    ensures WorkersRefer(Exec(feeds, matcher, actions))
  {
    hide WorkersRefer, Next;
    if |actions| == 0 {
      NobodyWorks();
    } else {
      ReachableWorkers(feeds, matcher, actions[..|actions| - 1]);
      StepKeepsReferences(feeds, matcher, Exec(feeds, matcher, actions[..|actions| - 1]), actions[|actions| - 1]);
    }
  }

  /** The worker has become another, its entry has this status, and nothing else has changed. */
  ghost predicate Worked(s: System, s': System, w: nat, worker: Worker, status: Reevaluation) {
    && w < |s.workers| && !s.workers[w].Stopped? && Marked(s.db, s'.db, s.workers[w].entry, status)
    && s' == s.(db := s'.db, workers := s.workers[w := worker])
  }

  /** The worker has begun with a list of exactly the advisories its entry owes. */
  ghost predicate Begun(feeds: Feeds, s: System, s': System, w: nat)
    requires LogRefs(s.db.catalogs, s.db.log)
  {
    && w < |s.workers| && s.workers[w].Admitted? && s.workers[w].entry < |s.db.log|
    && exists ids ::
         && ToSet(ids) == Owed(feeds.text, s.db.catalogs, s.db.log, s.workers[w].entry)
         && Worked(s, s', w, Working(s.workers[w].entry, ids, 0, None), Running)
  }

  lemma BeginStep(feeds: Feeds, matcher: Matcher, s: System, w: nat)
    requires Inv(feeds, s) && LogRefs(s.db.catalogs, s.db.log) && WorkersRefer(s)
    ensures
      var s' := Next(feeds, matcher, s, BeginWork(w));
      if w < |s.workers| && s.workers[w].Admitted? then Begun(feeds, s, s', w) else s' == s
  {
    hide Inv, LogRefs, WorkOf, Owed, MarkReevaluation, Marked;
    if w < |s.workers| && s.workers[w].Admitted? {
      var i := s.workers[w].entry;
      EntryInRange(s, i);
      Targeted.WorkFits(feeds, s, i);
      WorkIsOwed(feeds, s, i);
      MarkLaw(s.db, i, Running);
      var ids := WorkOf(feeds, s.db, i).value;
      assert ToSet(ids) == Owed(feeds.text, s.db.catalogs, s.db.log, i);
      assert Worked(s, Next(feeds, matcher, s, BeginWork(w)), w, Working(i, ids, 0, None), Running);
    }
  }

  lemma FinishStep(feeds: Feeds, matcher: Matcher, s: System, w: nat)
    requires WorkersRefer(s)
    ensures
      var s' := Next(feeds, matcher, s, FinishWork(w));
      if w < |s.workers| && s.workers[w].Working? && s.workers[w].done == |s.workers[w].ids| then Worked(s, s', w, Stopped, Completed)
      else s' == s
  {
    hide MarkReevaluation, Marked;
    if w < |s.workers| && !s.workers[w].Stopped? {
      MarkLaw(s.db, s.workers[w].entry, Completed);
    }
  }

  lemma BreakStep(feeds: Feeds, matcher: Matcher, s: System, w: nat)
    requires WorkersRefer(s)
    ensures
      var s' := Next(feeds, matcher, s, BreakWork(w));
      if w < |s.workers| && !s.workers[w].Stopped? then Worked(s, s', w, Stopped, Broken) else s' == s
  {
    hide MarkReevaluation, Marked;
    if w < |s.workers| && !s.workers[w].Stopped? {
      MarkLaw(s.db, s.workers[w].entry, Broken);
    }
  }

  /** In every reachable state: an admitted worker begins with a list of exactly the advisories its entry owes and marks
      the entry running; a worker at the end of its list marks it completed; and any worker that breaks off marks it
      failed. Otherwise nothing happens. */
  lemma WorkerSteps(feeds: Feeds, matcher: Matcher, actions: seq<Action>, w: nat)
    ensures
      var s := Exec(feeds, matcher, actions);
      var begun, finished, broken :=
        Next(feeds, matcher, s, BeginWork(w)), Next(feeds, matcher, s, FinishWork(w)), Next(feeds, matcher, s, BreakWork(w));
      && LogRefs(s.db.catalogs, s.db.log)
      && (if w < |s.workers| && s.workers[w].Admitted? then Begun(feeds, s, begun, w) else begun == s)
      && (if w < |s.workers| && s.workers[w].Working? && s.workers[w].done == |s.workers[w].ids| then Worked(s, finished, w, Stopped, Completed)
          else finished == s)
      && (if w < |s.workers| && !s.workers[w].Stopped? then Worked(s, broken, w, Stopped, Broken) else broken == s)
  {
    hide Exec, Next, Inv, LogRefs, WorkersRefer, Begun, Worked;
    var s := Exec(feeds, matcher, actions);
    ReachableInv(feeds, matcher, actions);
    InvHasRefs(feeds, s);
    ReachableWorkers(feeds, matcher, actions);
    BeginStep(feeds, matcher, s, w);
    FinishStep(feeds, matcher, s, w);
    BreakStep(feeds, matcher, s, w);
  }

  /* ---------- The preview a session holds ---------- */

  /** The session read the active catalog of its source just now, and its preview says what its bundle changes of it. */
  ghost predicate PreviewsNow(feeds: Feeds, db: Db, session: Session, now: int) {
    var p, records := session.preview, session.bundle.content.advisories;
    && IsActiveOf(db, session.source, session.baseline) && session.readAt == |db.log| && session.previewedAt == now
    && (var before := RecordsOf(ContentOf(db.catalogs, session.baseline));
        CountsMean(feeds.text, p, records, before) && ListsMean(feeds.text, p, records, before))
    && p.catalogVersion == session.bundle.version && p.catalogSequence == session.bundle.sequence
    && (p.expiresSoon <==> session.bundle.expiresAt <= now + 604_800_000_000)
  }

  lemma BaselineIsDistinct(feeds: Feeds, s: System, source: SourceId)
    requires Inv(feeds, s)
    ensures DistinctIds(feeds.text, RecordsOf(ContentOf(s.db.catalogs, ActiveCatalog(s.db.catalogs, source))))
  {
    hide Inv, ActiveCatalog, ValidRecord;
    var active := ActiveCatalog(s.db.catalogs, source);
    if active.Some? {
      RetainedIsVerified(feeds, s, active.value);
    }
  }

  /** In every reachable state a verified bundle of a run that awaits one opens its session, with a preview against the
      catalog that is active now; otherwise nothing happens. */
  lemma BaselineStep(feeds: Feeds, matcher: Matcher, actions: seq<Action>, r: RunId, bundle: Bundle, now: int)
    ensures
      var s := Exec(feeds, matcher, actions);
      var s' := Next(feeds, matcher, s, ReadBaseline(r, bundle, now));
      if r < |s.db.runs| && s.db.runs[r].state == Verifying && r !in s.sessions && VerifiedFor(feeds, s.db.runs[r].source, bundle) then
        && r in s'.sessions && s' == s.(sessions := s.sessions[r := s'.sessions[r]])
        && s'.sessions[r].source == s.db.runs[r].source && s'.sessions[r].bundle == bundle && s'.sessions[r].phase == Previewed
        && PreviewsNow(feeds, s.db, s'.sessions[r], now)
      else s' == s
  {
    hide Exec, Inv, ActiveCatalog, PreviewBundle, DistinctIds, CountsMean, ListsMean, ValidRecord;
    var s := Exec(feeds, matcher, actions);
    ReachableInv(feeds, matcher, actions);
    if r < |s.db.runs| && VerifiedFor(feeds, s.db.runs[r].source, bundle) {
      var source := s.db.runs[r].source;
      BaselineIsDistinct(feeds, s, source);
      PreviewMeans(feeds.text, bundle.content, bundle.sequence, bundle.expiresAt,
                   ContentOf(s.db.catalogs, ActiveCatalog(s.db.catalogs, source)), now);
    }
  }
}
