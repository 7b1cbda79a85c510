/** The feed lifecycle as a transition system. Any number of runs, operators and reevaluation workers take
    steps in any order; a reachable state is whatever some sequence of actions produces. */
module Lifecycle {
  import opened Prelude
  import opened Catalogs
  import opened CatalogDiffs
  import opened AdvisoryTables
  import opened SyncState
  import opened Matching

  /** The reviewed configuration that stays fixed over a run of the system. */
  datatype Feeds = Feeds(text: Text, nameOf: SourceId -> string, interval: SourceId -> int, cooldown: SourceId -> int)

  /** Where the sync service stands with one run. Between `Checked` and `Saved` the save transaction is open
      and holds the run's row lock. `at` is the length of the log when the active catalog was read. */
  datatype Phase =
    | Previewed
    | Checked
    | Based(activeBefore: Option<CatalogId>, at: nat)
    | Saved(activeBefore: Option<CatalogId>, at: nat)

  /** What the service computed for a run: the bundle, the active catalog it read as the preview's baseline,
      and how long the activation log was at that moment. */
  datatype Session = Session(
    source: SourceId, bundle: Bundle, baseline: Option<CatalogId>, readAt: nat,
    preview: CatalogPreview, previewedAt: int, phase: Phase)

  /** A working worker has processed the first `done` of its ids. `read` holds the rows of its next chunk from their
      query until the evaluation that uses them commits. */
  datatype Worker =
    | Admitted(entry: ActivationId)
    | Working(entry: ActivationId, ids: seq<AdvisoryId>, done: nat, read: Option<Views>)
    | Stopped

  datatype System = System(
    db: Db, sessions: map<RunId, Session>, workers: seq<Worker>, matches: Matches)

  const Initial := System(EmptyDb, map[], [], map[])

  datatype Action =
    | RequestSync(source: SourceId, mode: RequestMode, now: int)
    | StartDownload(run: RunId)
    | EndDownload(run: RunId)
    | BeginVerification(run: RunId)
    | FailSync(run: RunId)
    | ReadBaseline(run: RunId, bundle: Bundle, now: int)
    | OpenSave(run: RunId)
    | ReadActive(run: RunId)
    | CommitSave(run: RunId)
    | AbortSave(run: RunId)
    | ApproveRun(run: RunId)
    | RejectRun(run: RunId)
    | ActivateApproved(run: RunId, now: int)
    | RollBackTo(catalog: CatalogId, now: int)
    | RetryReevaluation(entry: ActivationId)
    | BeginWork(worker: nat)
    | ReadChunk(worker: nat)
    | WriteChunk(worker: nat, at: int)
    | FinishWork(worker: nat)
    | BreakWork(worker: nat)

  /** What bundle verification guarantees about a bundle of the source. */
  ghost predicate VerifiedFor(feeds: Feeds, source: SourceId, bundle: Bundle) {
    && ValidCatalog(feeds.text, bundle.content)
    && bundle.content.sourceName == feeds.nameOf(source)
    && bundle.version == bundle.content.version
    && bundle.checksum == Sha256(bundle.content)
  }

  predicate Locked(sessions: map<RunId, Session>, r: RunId) {
    r in sessions && (sessions[r].phase.Checked? || sessions[r].phase.Based?)
  }

  function ContentOf(catalogs: seq<CatalogRow>, c: Option<CatalogId>): Option<Catalog> {
    if c.Some? && c.value < |catalogs| then Some(catalogs[c.value].bundle.content) else None
  }

  function WithDb(s: System, db: Db): System {
    s.(db := db)
  }

  function WithPhase(s: System, r: RunId, phase: Phase): System
    requires r in s.sessions
  {
    s.(sessions := s.sessions[r := s.sessions[r].(phase := phase)])
  }

  /** An unlocked run changes state. */
  function Move(s: System, r: RunId, from: RunState, to: RunState): System {
    if Locked(s.sessions, r) then s else WithDb(s, Transition(s.db, r, {from}, to).db)
  }

  /** A committed activation or rollback is followed by its own reevaluation. */
  function Committed(s: System, outcome: Outcome): System {
    if outcome.error.None?
    then s.(db := outcome.db, workers := s.workers + [Admitted(|s.db.log|)])
    else WithDb(s, outcome.db)
  }

  ghost function PreviewFor(feeds: Feeds, db: Db, bundle: Bundle, baseline: Option<CatalogId>, now: int): CatalogPreview {
    PreviewBundle(feeds.text, bundle.content, bundle.sequence, bundle.expiresAt, ContentOf(db.catalogs, baseline), now)
  }

  /** The changed ids an activation's reevaluation walks through, in order. */
  ghost function WorkOf(feeds: Feeds, db: Db, i: ActivationId): Result<seq<AdvisoryId>, DiffError>
    requires i < |db.log| && db.log[i].catalog < |db.catalogs|
  {
    var current := db.catalogs[db.log[i].catalog].bundle.content;
    match ChangedRecordIds(feeds.text, current, ContentOf(db.catalogs, db.log[i].previous))
    case Ok(ids) => Ok(ServerIds(feeds.text, current, ids))
    case Err(error) => Err(error)
  }

  function ChunkEnd(done: nat, total: nat): nat
    requires done <= total
  {
    if total - done <= MAX_TARGETED_ADVISORIES then total else done + MAX_TARGETED_ADVISORIES
  }

  /** The advisories of a worker's next chunk. */
  function ChunkOf(worker: Worker): set<AdvisoryId>
    requires worker.Working? && worker.done <= |worker.ids|
  {
    ToSet(worker.ids[worker.done..ChunkEnd(worker.done, |worker.ids|)])
  }

  ghost function Next(feeds: Feeds, matcher: Matcher, s: System, action: Action): System {
    match action
    case RequestSync(source, mode, now) =>
      WithDb(s, CreateRun(s.db, source, mode, feeds.interval(source), now).db)
    case StartDownload(r) => Move(s, r, Created, Downloading)
    case EndDownload(r) => Move(s, r, Downloading, Downloaded)
    case BeginVerification(r) => Move(s, r, Downloaded, Verifying)
    case FailSync(r) => if Locked(s.sessions, r) then s else WithDb(s, FailRun(s.db, r).db)
    case ReadBaseline(r, bundle, now) =>
      if r < |s.db.runs| && s.db.runs[r].state == Verifying && r !in s.sessions
         && VerifiedFor(feeds, s.db.runs[r].source, bundle)
      then
        var source := s.db.runs[r].source;
        var baseline := ActiveCatalog(s.db.catalogs, source);
        s.(sessions := s.sessions[r := Session(source, bundle, baseline, |s.db.log|,
                                               PreviewFor(feeds, s.db, bundle, baseline, now), now, Previewed)])
      else s
    case OpenSave(r) =>
      if r in s.sessions && s.sessions[r].phase.Previewed?
         && SaveCheck(s.db, r, s.sessions[r].source, s.sessions[r].bundle).None?
      then WithPhase(s, r, Checked) else s
    case ReadActive(r) =>
      if r in s.sessions && s.sessions[r].phase.Checked?
      then WithPhase(s, r, Based(ActiveCatalog(s.db.catalogs, s.sessions[r].source), |s.db.log|)) else s
    case CommitSave(r) =>
      if r in s.sessions && s.sessions[r].phase.Based? && r < |s.db.runs| then
        var session := s.sessions[r];
        var outcome := SaveInsert(s.db, r, session.source, session.bundle, session.preview, session.phase.activeBefore);
        if outcome.error.None?
        then WithPhase(WithDb(s, outcome.db), r, Saved(session.phase.activeBefore, session.phase.at))
        else WithPhase(s, r, Previewed)
      else s
    case AbortSave(r) => if Locked(s.sessions, r) then WithPhase(s, r, Previewed) else s
    case ApproveRun(r) => if Locked(s.sessions, r) then s else WithDb(s, Approve(s.db, r).db)
    case RejectRun(r) => if Locked(s.sessions, r) then s else WithDb(s, Reject(s.db, r).db)
    case ActivateApproved(r, now) =>
      var found := CatalogForRun(s.db.catalogs, r);
      if found.None? then s
      else
        var content := s.db.catalogs[found.value].bundle.content;
        Committed(s, SyncState.ActivateRun(feeds.text, s.db, r, content, Sha256(content), now))
    case RollBackTo(c, now) =>
      if c >= |s.db.catalogs| then s
      else
        var row := s.db.catalogs[c];
        Committed(s, RollbackCatalog(feeds.text, s.db, c, row.bundle.content, Sha256(row.bundle.content), feeds.cooldown(row.source), now))
    case RetryReevaluation(i) =>
      if i < |s.db.log| && s.db.log[i].status == Broken then s.(workers := s.workers + [Admitted(i)]) else s
    case BeginWork(w) =>
      if w < |s.workers| && s.workers[w].Admitted? && s.workers[w].entry < |s.db.log|
         && s.db.log[s.workers[w].entry].catalog < |s.db.catalogs|
      then
        var i := s.workers[w].entry;
        match WorkOf(feeds, s.db, i)
        case Ok(ids) => s.(db := MarkReevaluation(s.db, i, Running).db, workers := s.workers[w := Working(i, ids, 0, None)])
        case Err(_) => s.(db := MarkReevaluation(s.db, i, Broken).db, workers := s.workers[w := Stopped])
      else s
    case ReadChunk(w) =>
      if w < |s.workers| && s.workers[w].Working? && s.workers[w].read.None? && s.workers[w].done < |s.workers[w].ids| then
        s.(workers := s.workers[w := s.workers[w].(read := Some(ViewsOf(s.db.tables, ChunkOf(s.workers[w]))))])
      else s
    case WriteChunk(w, at) =>
      if w < |s.workers| && s.workers[w].Working? && s.workers[w].read.Some? && s.workers[w].done < |s.workers[w].ids| then
        var worker := s.workers[w];
        s.(matches := WriteMatches(matcher, worker.read.value, s.db.tables, s.matches, at),
           workers := s.workers[w := worker.(done := ChunkEnd(worker.done, |worker.ids|), read := None)])
      else s
    case FinishWork(w) =>
      if w < |s.workers| && s.workers[w].Working? && s.workers[w].done == |s.workers[w].ids|
      then s.(db := MarkReevaluation(s.db, s.workers[w].entry, Completed).db, workers := s.workers[w := Stopped])
      else s
    case BreakWork(w) =>
      if w < |s.workers| && !s.workers[w].Stopped?
      then s.(db := MarkReevaluation(s.db, s.workers[w].entry, Broken).db, workers := s.workers[w := Stopped])
      else s
  }

  /** An approval or a rejection moves a run that is pending approval. */
  lemma DecisionMoves(feeds: Feeds, matcher: Matcher, s: System, r: RunId)
    ensures Next(feeds, matcher, s, ApproveRun(r)) == Move(s, r, PendingApproval, Approved)
    ensures Next(feeds, matcher, s, RejectRun(r)) == Move(s, r, PendingApproval, Rejected)
  {
  }

  /** The state after a sequence of actions; an action that is not enabled changes nothing. */
  ghost function Exec(feeds: Feeds, matcher: Matcher, actions: seq<Action>): System {
    if |actions| == 0 then Initial
    else Next(feeds, matcher, Exec(feeds, matcher, actions[..|actions| - 1]), actions[|actions| - 1])
  }

  lemma {:induction false} ExecPrefix(feeds: Feeds, matcher: Matcher, actions: seq<Action>, more: seq<Action>)
    requires |more| > 0
    ensures Exec(feeds, matcher, actions + more)
         == Next(feeds, matcher, Exec(feeds, matcher, actions + more[..|more| - 1]), more[|more| - 1])
  {
    assert (actions + more)[..|actions + more| - 1] == actions + more[..|more| - 1];
  }

  /* ---------- The log as history ---------- */

  /** The catalog of the source's last entry among the first `n`. */
  function LastOf(log: seq<Activation>, n: nat, source: SourceId): Option<CatalogId>
    requires n <= |log|
  {
    if n == 0 then None
    else if log[n - 1].source == source then Some(log[n - 1].catalog)
    else LastOf(log, n - 1, source)
  }

  function CountOf(log: seq<Activation>, n: nat, c: CatalogId): nat
    requires n <= |log|
  {
    if n == 0 then 0 else CountOf(log, n - 1, c) + (if log[n - 1].catalog == c then 1 else 0)
  }

  ghost predicate SameHistory(log: seq<Activation>, log': seq<Activation>, n: nat) {
    && n <= |log| && n <= |log'|
    && forall i :: 0 <= i < n ==> log'[i] == log[i].(status := log'[i].status)
  }

  lemma {:induction false} HistoryFrame(log: seq<Activation>, log': seq<Activation>, n: nat, source: SourceId, c: CatalogId)
    requires SameHistory(log, log', n)
    ensures LastOf(log', n, source) == LastOf(log, n, source)
    ensures CountOf(log', n, c) == CountOf(log, n, c)
  {
    if n > 0 {
      HistoryFrame(log, log', n - 1, source, c);
    }
  }

  lemma {:induction false} LastOfIsLogged(log: seq<Activation>, n: nat, source: SourceId)
    requires n <= |log| && LastOf(log, n, source).Some?
    ensures exists i :: 0 <= i < n && log[i].source == source && log[i].catalog == LastOf(log, n, source).value
  {
    if log[n - 1].source != source {
      LastOfIsLogged(log, n - 1, source);
    }
  }

  lemma {:induction false} LastOfQuiet(log: seq<Activation>, m: nat, n: nat, source: SourceId)
    requires m <= n <= |log|
    requires forall i :: m <= i < n ==> log[i].source != source
    ensures LastOf(log, n, source) == LastOf(log, m, source)
  {
    if m < n {
      LastOfQuiet(log, m, n - 1, source);
    }
  }

  lemma {:induction false} CountIsZero(log: seq<Activation>, n: nat, c: CatalogId)
    requires n <= |log|
    ensures CountOf(log, n, c) == 0 <==> forall i :: 0 <= i < n ==> log[i].catalog != c
  {
    if n > 0 {
      CountIsZero(log, n - 1, c);
    }
  }
}
