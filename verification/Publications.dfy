/** One undisturbed publication, from the request of a run to its activation, as a sequence of actions with a known
    end state. Concrete runs of the system are put together from these. */
module Publications {
  import opened Prelude
  import opened Catalogs
  import opened CatalogDiffs
  import opened AdvisoryTables
  import opened SyncState
  import opened Matching
  import opened Lifecycle
  import opened RunInvariants
  import opened TableInvariants
  import opened PreviewFidelity

  /** What is published, for which source, and the clock throughout. */
  datatype Plan = Plan(source: SourceId, bundle: Bundle, now: int)

  /** A record with one affected package. */
  function RecordOf(package: string): Record {
    Record("ADV-1", [], Facts("title", "summary", High, None, false, 0, 0, None),
           [Affected("pypi", package, None, None, None, [], ["1.0"], [], [], [])], [], "")
  }

  lemma RecordIsValid(package: string)
    requires 1 <= |package| <= 240
    ensures ValidRecord(RecordOf(package))
  {
    var id := RecordOf(package).id;
    assert id[0] == 'A' && id[1] == 'D' && id[2] == 'V' && id[3] == '-' && id[4] == '1' && |id| == 5;
    assert forall i :: 0 <= i < 5 ==> IsAlphanumeric(id[i]) || id[i] == '-';
    assert "._:-"[3] == '-';
    assert "pypi"[0] == 'p' && "firmware"[0] == 'f' && "generic"[0] == 'g' && "operating-system"[0] == 'o';
  }

  /** Digest texts of a manifest and of a payload. */
  function ManifestDigest(mark: char): string {
    seq(64, i => mark)
  }

  function PayloadDigest(mark: char): string {
    seq(64, i => if i == 0 then '0' else mark)
  }

  lemma DigestsDiffer(mark: char, other: char)
    requires mark != other
    ensures ManifestDigest(mark) != ManifestDigest(other) && PayloadDigest(mark) != PayloadDigest(other)
  {
    assert ManifestDigest(mark)[1] == mark && ManifestDigest(other)[1] == other;
    assert PayloadDigest(mark)[1] == mark && PayloadDigest(other)[1] == other;
  }

  lemma {:induction false} ExecAppend(feeds: Feeds, matcher: Matcher, actions: seq<Action>, action: Action)
    ensures Exec(feeds, matcher, actions + [action]) == Next(feeds, matcher, Exec(feeds, matcher, actions), action)
  {
    assert (actions + [action])[..|actions + [action]| - 1] == actions;
  }

  lemma ExecTwo(feeds: Feeds, matcher: Matcher, actions: seq<Action>, a: Action, b: Action)
    ensures Exec(feeds, matcher, actions + [a, b]) == Next(feeds, matcher, Next(feeds, matcher, Exec(feeds, matcher, actions), a), b)
  {
    hide Exec, Next;
    ExecAppend(feeds, matcher, actions, a);
    ExecAppend(feeds, matcher, actions + [a], b);
    assert actions + [a, b] == actions + [a] + [b];
  }

  lemma ExecThree(feeds: Feeds, matcher: Matcher, actions: seq<Action>, a: Action, b: Action, c: Action)
    ensures Exec(feeds, matcher, actions + [a, b, c])
         == Next(feeds, matcher, Next(feeds, matcher, Next(feeds, matcher, Exec(feeds, matcher, actions), a), b), c)
  {
    hide Exec, Next;
    ExecAppend(feeds, matcher, actions, a);
    ExecAppend(feeds, matcher, actions + [a], b);
    ExecAppend(feeds, matcher, actions + [a] + [b], c);
    assert actions + [a, b, c] == actions + [a] + [b] + [c];
  }

  lemma ExecFive(feeds: Feeds, matcher: Matcher, actions: seq<Action>, a: Action, b: Action, c: Action, d: Action, e: Action)
    ensures Exec(feeds, matcher, actions + [a, b, c, d, e])
         == Next(feeds, matcher, Next(feeds, matcher, Next(feeds, matcher, Next(feeds, matcher, Next(feeds, matcher,
              Exec(feeds, matcher, actions), a), b), c), d), e)
  {
    hide Exec, Next;
    ExecThree(feeds, matcher, actions, a, b, c);
    ExecAppend(feeds, matcher, actions + [a, b, c], d);
    ExecAppend(feeds, matcher, actions + [a, b, c] + [d], e);
    assert actions + [a, b, c, d, e] == actions + [a, b, c] + [d] + [e];
  }

  /* ---------- The first half: from the request to the preview ---------- */

  function Opening(r: RunId, plan: Plan): seq<Action> {
    [RequestSync(plan.source, RemoteSync, plan.now), StartDownload(r), EndDownload(r), BeginVerification(r),
     ReadBaseline(r, plan.bundle, plan.now)]
  }

  function RunIn(plan: Plan, state: RunState): Run {
    Run(plan.source, RemoteSync, state, plan.now, None, None, None, None, NotStarted)
  }

  function WithRun(s: System, plan: Plan, state: RunState): System {
    WithDb(s, s.db.(runs := s.db.runs + [RunIn(plan, state)]))
  }

  /** The source has no active run and its interval has passed. */
  ghost predicate Openable(feeds: Feeds, s: System, plan: Plan) {
    && (forall r :: 0 <= r < |s.db.runs| && s.db.runs[r].source == plan.source ==>
          !IsActive(s.db.runs[r].state) && plan.now - s.db.runs[r].createdAt >= feeds.interval(plan.source))
    && (forall r :: r in s.sessions ==> r < |s.db.runs|)
  }

  lemma RequestIsGranted(feeds: Feeds, matcher: Matcher, s: System, plan: Plan)
    requires Openable(feeds, s, plan)
    ensures Next(feeds, matcher, s, RequestSync(plan.source, RemoteSync, plan.now)) == WithRun(s, plan, Created)
  {
  }

  lemma RunMoves(s: System, plan: Plan, from: RunState, to: RunState)
    requires |s.db.runs| !in s.sessions
    ensures Move(WithRun(s, plan, from), |s.db.runs|, from, to) == WithRun(s, plan, to)
  {
    var r := |s.db.runs|;
    assert WithState(s.db.runs + [RunIn(plan, from)], r, to) == s.db.runs + [RunIn(plan, to)];
  }

  ghost function Opened(feeds: Feeds, s: System, plan: Plan): System {
    var r, verifying := |s.db.runs|, WithRun(s, plan, Verifying);
    verifying.(sessions := s.sessions[r := SessionFor(feeds, verifying, r, plan.bundle, plan.now)])
  }

  lemma OpeningWorks(feeds: Feeds, matcher: Matcher, actions: seq<Action>, plan: Plan)
    requires Openable(feeds, Exec(feeds, matcher, actions), plan) && VerifiedFor(feeds, plan.source, plan.bundle)
    ensures
      var s := Exec(feeds, matcher, actions);
      Exec(feeds, matcher, actions + Opening(|s.db.runs|, plan)) == Opened(feeds, s, plan)
  {
    hide Exec, VerifiedFor, Move, CreateRun, PreviewFor, ActiveCatalog;
    var s := Exec(feeds, matcher, actions);
    var r := |s.db.runs|;
    assert r !in s.sessions;
    ExecFive(feeds, matcher, actions, RequestSync(plan.source, RemoteSync, plan.now), StartDownload(r), EndDownload(r), BeginVerification(r),
             ReadBaseline(r, plan.bundle, plan.now));
    RequestIsGranted(feeds, matcher, s, plan);
    RunMoves(s, plan, Created, Downloading);
    RunMoves(s, plan, Downloading, Downloaded);
    RunMoves(s, plan, Downloaded, Verifying);
  }

  lemma OpenedKeeps(feeds: Feeds, s: System, plan: Plan)
    ensures
      var t := Opened(feeds, s, plan);
      && t.db.catalogs == s.db.catalogs && t.db.log == s.db.log && t.db.tables == s.db.tables
      && t.workers == s.workers && t.matches == s.matches
  {
  }

  /* ---------- The second half: from the save to the activation ---------- */

  function Closing(r: RunId, plan: Plan): seq<Action> {
    [OpenSave(r), ReadActive(r), CommitSave(r), ApproveRun(r), ActivateApproved(r, plan.now)]
  }

  /** The bundle is newer than, and shares nothing with, what is retained of its source. */
  ghost predicate IsNewBundle(catalogs: seq<CatalogRow>, r: RunId, plan: Plan) {
    && |catalogs| < MAX_RETAINED_CATALOGS_PER_SOURCE
    && (forall c :: 0 <= c < |catalogs| ==> catalogs[c].run != r)
    && forall c :: 0 <= c < |catalogs| && catalogs[c].source == plan.source ==>
         var kept := catalogs[c].bundle;
         && kept.sequence < plan.bundle.sequence && kept.version != plan.bundle.version
         && kept.manifestDigest != plan.bundle.manifestDigest && kept.payloadDigest != plan.bundle.payloadDigest
  }

  ghost predicate ReadyToSave(s: System, r: RunId, plan: Plan) {
    && r < |s.db.runs| && s.db.runs[r] == RunIn(plan, Verifying) && r in s.sessions
    && s.sessions[r].source == plan.source && s.sessions[r].phase.Previewed? && s.sessions[r].bundle == plan.bundle
    && plan.bundle.checksum == Sha256(plan.bundle.content) && plan.bundle.expiresAt > plan.now
    && IsNewBundle(s.db.catalogs, r, plan)
  }

  lemma NewBundlePasses(db: Db, r: RunId, plan: Plan)
    requires r < |db.runs| && db.runs[r] == RunIn(plan, Verifying) && IsNewBundle(db.catalogs, r, plan)
    ensures SaveCheck(db, r, plan.source, plan.bundle).None? && !ViolatesCatalogKeys(db.catalogs, r, plan.source, plan.bundle)
  {
    IndexSetBound(RetainedOf(db.catalogs, plan.source), |db.catalogs|);
  }

  function SavedRunIn(plan: Plan, session: Session, activeBefore: Option<CatalogId>, state: RunState): Run {
    SavedRun(RunIn(plan, Verifying), plan.bundle, session.preview, activeBefore).(state := state)
  }

  ghost function AfterApproval(s: System, r: RunId, plan: Plan): System
    requires ReadyToSave(s, r, plan)
  {
    var session := s.sessions[r];
    var active := ActiveCatalog(s.db.catalogs, plan.source);
    System(
      s.db.(runs := s.db.runs[r := SavedRunIn(plan, session, active, Approved)], catalogs := s.db.catalogs + [RowSaved(session, r)]),
      s.sessions[r := session.(phase := Saved(active, |s.db.log|))], s.workers, s.matches)
  }

  ghost function AfterRead(s: System, r: RunId, plan: Plan): System
    requires r in s.sessions
  {
    WithPhase(s, r, Based(ActiveCatalog(s.db.catalogs, plan.source), |s.db.log|))
  }

  lemma SaveOpens(feeds: Feeds, matcher: Matcher, s: System, r: RunId, plan: Plan)
    requires ReadyToSave(s, r, plan)
    ensures Next(feeds, matcher, Next(feeds, matcher, s, OpenSave(r)), ReadActive(r)) == AfterRead(s, r, plan)
  {
    NewBundlePasses(s.db, r, plan);
    hide SaveCheck, ViolatesCatalogKeys, IsNewBundle, ActiveCatalog;
    var checked := WithPhase(s, r, Checked);
    assert Next(feeds, matcher, s, OpenSave(r)) == checked;
    assert checked.sessions[r := AfterRead(s, r, plan).sessions[r]] == AfterRead(s, r, plan).sessions;
  }

  lemma SaveCommits(feeds: Feeds, matcher: Matcher, s: System, r: RunId, plan: Plan)
    requires ReadyToSave(s, r, plan)
    ensures
      Next(feeds, matcher, Next(feeds, matcher, AfterRead(s, r, plan), CommitSave(r)), ApproveRun(r)) == AfterApproval(s, r, plan)
  {
    NewBundlePasses(s.db, r, plan);
    hide SaveCheck, ViolatesCatalogKeys, IsNewBundle, ActiveCatalog;
    var read, approved := AfterRead(s, r, plan), AfterApproval(s, r, plan);
    var active := ActiveCatalog(s.db.catalogs, plan.source);
    var committed := approved.(db := approved.db.(runs := s.db.runs[r := SavedRunIn(plan, s.sessions[r], active, PendingApproval)]));
    assert read.sessions[r := committed.sessions[r]] == committed.sessions;
    assert Next(feeds, matcher, read, CommitSave(r)) == committed;
    assert committed.db.runs[r := committed.db.runs[r].(state := Approved)] == approved.db.runs;
  }

  ghost function Closed(feeds: Feeds, s: System, r: RunId, plan: Plan): System
    requires ReadyToSave(s, r, plan)
  {
    var session := s.sessions[r];
    var active := ActiveCatalog(s.db.catalogs, plan.source);
    var content, c := plan.bundle.content, |s.db.catalogs|;
    var run := SavedRunIn(plan, session, active, Activated).(activatedAfter := Some(c), reevaluation := Pending);
    AfterApproval(s, r, plan).(
      db := Db(s.db.runs[r := run], SwitchActive(s.db.catalogs + [RowSaved(session, r)], plan.source, c),
               s.db.log + [Activation(Activate, plan.source, c, active, plan.now, Pending)],
               Import(feeds.text, s.db.tables, content, Sha256(content), true)),
      workers := s.workers + [Admitted(|s.db.log|)])
  }

  lemma ActivationGoesThrough(feeds: Feeds, matcher: Matcher, s: System, r: RunId, plan: Plan)
    requires ReadyToSave(s, r, plan)
    ensures Next(feeds, matcher, AfterApproval(s, r, plan), ActivateApproved(r, plan.now)) == Closed(feeds, s, r, plan)
  {
    hide SwitchActive, Import, IsNewBundle;
    var row := RowSaved(s.sessions[r], r);
    var catalogs := s.db.catalogs + [row];
    assert catalogs[..|catalogs| - 1] == s.db.catalogs;
    assert ActiveCatalog(catalogs, plan.source) == ActiveCatalog(s.db.catalogs, plan.source);
    assert CatalogForRun(catalogs, r) == Some(|s.db.catalogs|);
    var approved := AfterApproval(s, r, plan);
    assert approved.db.runs[r := Closed(feeds, s, r, plan).db.runs[r]] == Closed(feeds, s, r, plan).db.runs;
  }

  lemma ClosingWorks(feeds: Feeds, matcher: Matcher, actions: seq<Action>, r: RunId, plan: Plan)
    requires ReadyToSave(Exec(feeds, matcher, actions), r, plan)
    ensures Exec(feeds, matcher, actions + Closing(r, plan)) == Closed(feeds, Exec(feeds, matcher, actions), r, plan)
  {
    hide Exec, Next, ReadyToSave, Closed, AfterApproval;
    var s := Exec(feeds, matcher, actions);
    HasSession(s, r, plan);
    hide AfterRead;
    ExecFive(feeds, matcher, actions, OpenSave(r), ReadActive(r), CommitSave(r), ApproveRun(r), ActivateApproved(r, plan.now));
    SaveOpens(feeds, matcher, s, r, plan);
    SaveCommits(feeds, matcher, s, r, plan);
    ActivationGoesThrough(feeds, matcher, s, r, plan);
  }

  lemma HasSession(s: System, r: RunId, plan: Plan)
    requires ReadyToSave(s, r, plan)
    ensures r in s.sessions
  {
  }

  /* ---------- The whole ---------- */

  function Publication(r: RunId, plan: Plan): seq<Action> {
    Opening(r, plan) + Closing(r, plan)
  }

  lemma OpenedIsReady(feeds: Feeds, s: System, plan: Plan)
    requires Openable(feeds, s, plan) && VerifiedFor(feeds, plan.source, plan.bundle)
    requires plan.bundle.expiresAt > plan.now && IsNewBundle(s.db.catalogs, |s.db.runs|, plan)
    ensures ReadyToSave(Opened(feeds, s, plan), |s.db.runs|, plan)
  {
    hide PreviewFor, ActiveCatalog, ValidCatalog;
  }

  lemma PublicationWorks(feeds: Feeds, matcher: Matcher, actions: seq<Action>, plan: Plan)
    requires
      var s := Exec(feeds, matcher, actions);
      && Openable(feeds, s, plan) && VerifiedFor(feeds, plan.source, plan.bundle)
      && plan.bundle.expiresAt > plan.now && IsNewBundle(s.db.catalogs, |s.db.runs|, plan)
    ensures
      var s := Exec(feeds, matcher, actions);
      && ReadyToSave(Opened(feeds, s, plan), |s.db.runs|, plan)
      && Exec(feeds, matcher, actions + Publication(|s.db.runs|, plan)) == Closed(feeds, Opened(feeds, s, plan), |s.db.runs|, plan)
  {
    hide Exec, VerifiedFor, Openable, Opened, ReadyToSave, Closed, Opening, Closing, IsNewBundle;
    var s := Exec(feeds, matcher, actions);
    var r := |s.db.runs|;
    OpeningWorks(feeds, matcher, actions, plan);
    OpenedIsReady(feeds, s, plan);
    ClosingWorks(feeds, matcher, actions + Opening(r, plan), r, plan);
    assert actions + Publication(r, plan) == actions + Opening(r, plan) + Closing(r, plan);
  }
}
