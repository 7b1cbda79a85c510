/** Reevaluation debt: what every step keeps of the promise that an out-of-date match is owed by an activation
    whose reevaluation is not completed, and the one step that may break it. */
module Debt {
  import opened Prelude
  import opened Catalogs
  import opened CatalogDiffs
  import opened AdvisoryTables
  import opened SyncState
  import opened Matching
  import opened Lifecycle
  import opened RunInvariants
  import opened TableInvariants

  /** The advisories whose reevaluation entry `i` owes. */
  ghost function Owed(text: Text, catalogs: seq<CatalogRow>, log: seq<Activation>, i: ActivationId): set<AdvisoryId>
    requires i < |log| && log[i].catalog < |catalogs|
  {
    ChangedIds(text, catalogs[log[i].catalog].bundle.content, ContentOf(catalogs, log[i].previous))
  }

  /** The last of the first `n` entries that owes `a`, or -1. */
  ghost function LastOwing(text: Text, catalogs: seq<CatalogRow>, log: seq<Activation>, n: nat, a: AdvisoryId): (i: int)
    requires n <= |log| && LogRefs(catalogs, log)
    ensures -1 <= i < n
    ensures i >= 0 ==> a in Owed(text, catalogs, log, i)
    ensures forall j :: i < j < n ==> a !in Owed(text, catalogs, log, j)
  {
    if n == 0 then -1
    else if a in Owed(text, catalogs, log, n - 1) then n - 1
    else LastOwing(text, catalogs, log, n - 1, a)
  }

  /** The match state of an advisory. */
  ghost function MatchOf(s: System, a: AdvisoryId): map<string, string> {
    Live(Statuses(RowsOf(s.matches, a)))
  }

  /** What the engine says of the advisory's rows now. */
  ghost function Expected(matcher: Matcher, t: Tables, a: AdvisoryId): map<string, string> {
    Candidates(matcher, View(t, a))
  }

  ghost predicate OutOfDate(matcher: Matcher, s: System, a: AdvisoryId) {
    MatchOf(s, a) != Live(Expected(matcher, s.db.tables, a))
  }

  ghost predicate WorkerFits(text: Text, catalogs: seq<CatalogRow>, log: seq<Activation>, worker: Worker)
    requires LogRefs(catalogs, log)
  {
    match worker
    case Admitted(i) => i < |log|
    case Working(i, ids, done, read) =>
      && i < |log| && done <= |ids| && (forall a :: a in ids <==> a in Owed(text, catalogs, log, i))
      && (read.Some? ==> done < |ids| && read.value.Keys == ChunkOf(worker))
    case Stopped => true
  }

  ghost predicate WorkersFit(text: Text, s: System)
    requires LogRefs(s.db.catalogs, s.db.log)
  {
    forall w :: 0 <= w < |s.workers| ==> WorkerFits(text, s.db.catalogs, s.db.log, s.workers[w])
  }

  ghost predicate WorkInv(text: Text, s: System) {
    LogRefs(s.db.catalogs, s.db.log) && LogChain(s.db.log) && WorkersFit(text, s)
  }

  /** The worker has processed `a` for entry `i`. */
  predicate HasProcessed(worker: Worker, i: ActivationId, a: AdvisoryId) {
    worker.Working? && worker.entry == i && worker.done <= |worker.ids| && a in worker.ids[..worker.done]
  }

  ghost function LastOwingIn(text: Text, db: Db, a: AdvisoryId): int
    requires LogRefs(db.catalogs, db.log)
  {
    LastOwing(text, db.catalogs, db.log, |db.log|, a)
  }

  /** No worker has processed `a` for entry `i`. */
  ghost predicate Unprocessed(workers: seq<Worker>, i: ActivationId, a: AdvisoryId) {
    forall w :: 0 <= w < |workers| ==> !HasProcessed(workers[w], i, a)
  }

  /** The last entry that owes `a` is not completed, and none of its workers has processed `a`: it cannot be
      completed before one of them has. */
  ghost predicate Due(text: Text, s: System, a: AdvisoryId) {
    && LogRefs(s.db.catalogs, s.db.log)
    && var i := LastOwingIn(text, s.db, a);
       i >= 0 && s.db.log[i].status != Completed && Unprocessed(s.workers, i, a)
  }

  ghost predicate DebtFor(matcher: Matcher, text: Text, s: System, a: AdvisoryId) {
    OutOfDate(matcher, s, a) ==> Due(text, s, a)
  }

  /** The step keeps the workers in order and the debt for `a`. */
  ghost predicate Keeps(matcher: Matcher, text: Text, s: System, s': System, a: AdvisoryId) {
    WorkInv(text, s') && (DebtFor(matcher, text, s, a) ==> DebtFor(matcher, text, s', a))
  }

  /* ---------- Frames ---------- */

  lemma OwedFrame(text: Text, db: Db, db': Db, i: ActivationId)
    requires LogRefs(db.catalogs, db.log) && LogChain(db.log) && i < |db.log| && i < |db'.log|
    requires SameContents(db.catalogs, db'.catalogs) && db'.log[i] == db.log[i].(status := db'.log[i].status)
    ensures Owed(text, db'.catalogs, db'.log, i) == Owed(text, db.catalogs, db.log, i)
  {
    if db.log[i].previous.Some? {
      LastOfIsRef(db.catalogs, db.log, i, db.log[i].source);
    }
  }

  lemma {:induction false} LastOwingFrame(text: Text, db: Db, db': Db, n: nat, a: AdvisoryId)
    requires LogRefs(db.catalogs, db.log) && LogChain(db.log) && n <= |db.log| && n <= |db'.log|
    requires SameContents(db.catalogs, db'.catalogs) && SameHistory(db.log, db'.log, n)
    requires LogRefs(db'.catalogs, db'.log)
    ensures LastOwing(text, db'.catalogs, db'.log, n, a) == LastOwing(text, db.catalogs, db.log, n, a)
  {
    hide Owed, LogChain, SameContents;
    if n > 0 {
      OwedFrame(text, db, db', n - 1);
      LastOwingFrame(text, db, db', n - 1, a);
    }
  }

  lemma WorkerFrame(text: Text, db: Db, db': Db, worker: Worker)
    requires LogRefs(db.catalogs, db.log) && LogChain(db.log) && WorkerFits(text, db.catalogs, db.log, worker)
    requires SameContents(db.catalogs, db'.catalogs) && SameHistory(db.log, db'.log, |db.log|)
    requires LogRefs(db'.catalogs, db'.log)
    ensures WorkerFits(text, db'.catalogs, db'.log, worker)
  {
    if worker.Working? {
      OwedFrame(text, db, db', worker.entry);
    }
  }

  lemma StillRefs(db: Db, db': Db)
    requires LogRefs(db.catalogs, db.log) && LogChain(db.log) && Still(db, db')
    ensures LogRefs(db'.catalogs, db'.log) && LogChain(db'.log)
  {
    forall i | 0 <= i < |db'.log| ensures db'.log[i].previous == LastOf(db'.log, i, db'.log[i].source) {
      HistoryFrame(db.log, db'.log, i, db'.log[i].source, 0);
    }
  }

  /* ---------- The log and the retained catalogs stay ---------- */

  lemma WorkIsReferenced(text: Text, s: System)
    requires WorkInv(text, s)
    ensures LogRefs(s.db.catalogs, s.db.log) && LogChain(s.db.log)
  {
  }

  lemma StillKeepsWorkers(text: Text, s: System, s': System)
    requires WorkInv(text, s) && Still(s.db, s'.db) && s'.workers == s.workers
    ensures WorkInv(text, s')
  {
    StillRefs(s.db, s'.db);
    hide WorkerFits, LogRefs, LogChain, SameContents;
    forall w | 0 <= w < |s'.workers| ensures WorkerFits(text, s'.db.catalogs, s'.db.log, s'.workers[w]) {
      WorkerFrame(text, s.db, s'.db, s.workers[w]);
    }
  }

  /** An entry may be marked completed only when `a` is not outdated and last owed by it. */
  ghost predicate SettledBy(matcher: Matcher, text: Text, s: System, db': Db, a: AdvisoryId)
    requires LogRefs(s.db.catalogs, s.db.log) && |db'.log| == |s.db.log|
  {
    OutOfDate(matcher, s, a) ==>
      var i := LastOwingIn(text, s.db, a);
      i >= 0 && db'.log[i].status == Completed ==> s.db.log[i].status == Completed
  }

  lemma StillKeepsDebt(matcher: Matcher, text: Text, s: System, s': System, a: AdvisoryId)
    requires WorkInv(text, s) && Still(s.db, s'.db) && SettledBy(matcher, text, s, s'.db, a)
    requires s'.workers == s.workers && s'.matches == s.matches
    ensures Keeps(matcher, text, s, s', a)
  {
    hide Owed, View, LogRefs, LogChain, SameContents, WorkInv, LastOwing, MatchOf, Candidates, Live;
    StillKeepsWorkers(text, s, s');
    WorkIsReferenced(text, s);
    WorkIsReferenced(text, s');
    LastOwingFrame(text, s.db, s'.db, |s.db.log|, a);
    assert OutOfDate(matcher, s', a) == OutOfDate(matcher, s, a) by {
      assert MatchOf(s', a) == MatchOf(s, a) by {
        SameMatches(s, s', a);
      }
    }
  }

  lemma SameMatches(s: System, s': System, a: AdvisoryId)
    requires s'.matches == s.matches
    ensures MatchOf(s', a) == MatchOf(s, a)
  {
  }

  lemma SameLogKeepsDebt(matcher: Matcher, text: Text, s: System, s': System, a: AdvisoryId)
    requires WorkInv(text, s) && Still(s.db, s'.db) && s'.db.log == s.db.log
    requires s'.workers == s.workers && s'.matches == s.matches
    ensures Keeps(matcher, text, s, s', a)
  {
    hide WorkInv, Still, OutOfDate, Keeps;
    WorkIsReferenced(text, s);
    StillKeepsDebt(matcher, text, s, s', a);
  }

  /* ---------- Workers ---------- */

  /** The new worker has processed nothing that the old one has not. */
  ghost predicate ProcessesNoMore(worker: Worker, worker': Worker, a: AdvisoryId) {
    forall i :: HasProcessed(worker', i, a) ==> HasProcessed(worker, i, a)
  }

  lemma SetWorkerKeepsDebt(matcher: Matcher, text: Text, s: System, w: nat, worker: Worker, a: AdvisoryId)
    requires WorkInv(text, s) && w < |s.workers|
    requires WorkerFits(text, s.db.catalogs, s.db.log, worker) && ProcessesNoMore(s.workers[w], worker, a)
    ensures Keeps(matcher, text, s, s.(workers := s.workers[w := worker]), a)
  {
    hide Owed, View, LogRefs, LogChain, LastOwing, WorkerFits, HasProcessed, Candidates, Live;
    var s' := s.(workers := s.workers[w := worker]);
    assert OutOfDate(matcher, s', a) == OutOfDate(matcher, s, a);
  }

  lemma AddWorkerKeepsDebt(matcher: Matcher, text: Text, s: System, i: ActivationId, a: AdvisoryId)
    requires WorkInv(text, s) && i < |s.db.log|
    ensures Keeps(matcher, text, s, s.(workers := s.workers + [Admitted(i)]), a)
  {
    hide Owed, View, LogRefs, LogChain, LastOwing, Candidates, Live;
    var s' := s.(workers := s.workers + [Admitted(i)]);
    assert OutOfDate(matcher, s', a) == OutOfDate(matcher, s, a);
  }

  lemma MarkKeepsDebt(matcher: Matcher, text: Text, s: System, i: ActivationId, status: Reevaluation, a: AdvisoryId)
    requires WorkInv(text, s)
    ensures
      var s' := s.(db := MarkReevaluation(s.db, i, status).db);
      && WorkInv(text, s') && LogRefs(s.db.catalogs, s.db.log)
      && ((status == Completed && OutOfDate(matcher, s, a) ==> LastOwingIn(text, s.db, a) != i) ==> Keeps(matcher, text, s, s', a))
  {
    hide OutOfDate, Still, WorkInv, LastOwing, WorkersFit, Keeps;
    WorkIsReferenced(text, s);
    MarkIsStill(s.db, i, status);
    var s' := s.(db := MarkReevaluation(s.db, i, status).db);
    MarkedStatus(s.db, i, status);
    StillKeepsWorkers(text, s, s');
    if SettledBy(matcher, text, s, s'.db, a) {
      StillKeepsDebt(matcher, text, s, s', a);
    }
  }

  lemma MarkedStatus(db: Db, i: ActivationId, status: Reevaluation)
    ensures
      var log' := MarkReevaluation(db, i, status).db.log;
      |log'| == |db.log| && forall j :: 0 <= j < |db.log| ==> log'[j].status == db.log[j].status || (j == i && log'[j].status == status)
  {
  }

  lemma KeepsTwice(matcher: Matcher, text: Text, s: System, s': System, s'': System, a: AdvisoryId)
    requires Keeps(matcher, text, s, s', a) && Keeps(matcher, text, s', s'', a)
    ensures Keeps(matcher, text, s, s'', a)
  {
    hide WorkInv, DebtFor;
  }

  lemma KeepsItself(matcher: Matcher, text: Text, s: System, a: AdvisoryId)
    requires WorkInv(text, s)
    ensures Keeps(matcher, text, s, s, a)
  {
    hide WorkInv, DebtFor;
  }

  /** The work list of an entry is exactly what the entry owes. */
  lemma WorkIsOwed(feeds: Feeds, s: System, i: ActivationId)
    requires LogRefs(s.db.catalogs, s.db.log) && i < |s.db.log| && WorkOf(feeds, s.db, i).Ok?
    ensures WorkerFits(feeds.text, s.db.catalogs, s.db.log, Working(i, WorkOf(feeds, s.db, i).value, 0, None))
  {
    hide ChangedRecordIds, ServerIds, ChangedIds;
    ServerIdsAreChangedIds(feeds.text, s.db.catalogs[s.db.log[i].catalog].bundle.content, ContentOf(s.db.catalogs, s.db.log[i].previous));
    var ids := WorkOf(feeds, s.db, i).value;
    assert forall a :: a in ids <==> a in ToSet(ids);
  }

  lemma BeginKeepsDebt(feeds: Feeds, matcher: Matcher, s: System, w: nat, a: AdvisoryId)
    requires WorkInv(feeds.text, s)
    ensures Keeps(matcher, feeds.text, s, Next(feeds, matcher, s, BeginWork(w)), a)
  {
    hide WorkInv, WorkOf, MarkReevaluation, Keeps;
    WorkIsReferenced(feeds.text, s);
    KeepsItself(matcher, feeds.text, s, a);
    if w < |s.workers| && s.workers[w].Admitted? && s.workers[w].entry < |s.db.log| {
      var i := s.workers[w].entry;
      var work := WorkOf(feeds, s.db, i);
      var (worker, status) := if work.Ok? then (Working(i, work.value, 0, None), Running) else (Stopped, Broken);
      if work.Ok? {
        WorkIsOwed(feeds, s, i);
      }
      SetThenMark(matcher, feeds.text, s, w, worker, i, status, a);
    }
  }

  lemma SetThenMark(matcher: Matcher, text: Text, s: System, w: nat, worker: Worker, i: ActivationId, status: Reevaluation, a: AdvisoryId)
    requires WorkInv(text, s) && w < |s.workers| && status != Completed
    requires WorkerFits(text, s.db.catalogs, s.db.log, worker) && ProcessesNoMore(s.workers[w], worker, a)
    ensures Keeps(matcher, text, s, s.(workers := s.workers[w := worker], db := MarkReevaluation(s.db, i, status).db), a)
  {
    hide WorkInv, DebtFor, MarkReevaluation;
    var s' := s.(workers := s.workers[w := worker]);
    SetWorkerKeepsDebt(matcher, text, s, w, worker, a);
    MarkKeepsDebt(matcher, text, s', i, status, a);
    KeepsTwice(matcher, text, s, s', s'.(db := MarkReevaluation(s'.db, i, status).db), a);
  }

  lemma ReadKeepsDebt(feeds: Feeds, matcher: Matcher, s: System, w: nat, a: AdvisoryId)
    requires WorkInv(feeds.text, s)
    ensures Keeps(matcher, feeds.text, s, Next(feeds, matcher, s, ReadChunk(w)), a)
  {
    hide View, Owed, LogRefs, LogChain, Keeps;
    KeepsItself(matcher, feeds.text, s, a);
    if w < |s.workers| && s.workers[w].Working? && s.workers[w].read.None? && s.workers[w].done < |s.workers[w].ids| {
      var worker := s.workers[w].(read := Some(ViewsOf(s.db.tables, ChunkOf(s.workers[w]))));
      assert WorkerFits(feeds.text, s.db.catalogs, s.db.log, s.workers[w]);
      SetWorkerKeepsDebt(matcher, feeds.text, s, w, worker, a);
    }
  }

  lemma FinishKeepsDebt(feeds: Feeds, matcher: Matcher, s: System, w: nat, a: AdvisoryId)
    requires WorkInv(feeds.text, s)
    ensures Keeps(matcher, feeds.text, s, Next(feeds, matcher, s, FinishWork(w)), a)
  {
    hide WorkInv, MarkReevaluation, OutOfDate, LastOwingIn, Due;
    WorkIsReferenced(feeds.text, s);
    KeepsItself(matcher, feeds.text, s, a);
    if w < |s.workers| && s.workers[w].Working? && s.workers[w].done == |s.workers[w].ids| {
      var i := s.workers[w].entry;
      if OutOfDate(matcher, s, a) && DebtFor(matcher, feeds.text, s, a) {
        FinishedIsFresh(matcher, feeds.text, s, w, a);
      }
      var s' := s.(db := MarkReevaluation(s.db, i, Completed).db);
      MarkKeepsDebt(matcher, feeds.text, s, i, Completed, a);
      WorkIsReferenced(feeds.text, s');
      SetWorkerKeepsDebt(matcher, feeds.text, s', w, Stopped, a);
    }
  }

  /** A worker at the end of its list leaves nothing outdated last owed by its entry. */
  lemma FinishedIsFresh(matcher: Matcher, text: Text, s: System, w: nat, a: AdvisoryId)
    requires WorkInv(text, s) && DebtFor(matcher, text, s, a) && OutOfDate(matcher, s, a)
    requires w < |s.workers| && s.workers[w].Working? && s.workers[w].done == |s.workers[w].ids|
    ensures LastOwingIn(text, s.db, a) != s.workers[w].entry
  {
    hide Owed, View, LogRefs, LogChain, OutOfDate, LastOwing;
    var worker := s.workers[w];
    assert WorkerFits(text, s.db.catalogs, s.db.log, worker);
    assert worker.ids[..worker.done] == worker.ids;
    assert a in worker.ids ==> HasProcessed(worker, worker.entry, a);
  }

  lemma BreakKeepsDebt(feeds: Feeds, matcher: Matcher, s: System, w: nat, a: AdvisoryId)
    requires WorkInv(feeds.text, s)
    ensures Keeps(matcher, feeds.text, s, Next(feeds, matcher, s, BreakWork(w)), a)
  {
    hide WorkInv, MarkReevaluation, Keeps;
    WorkIsReferenced(feeds.text, s);
    KeepsItself(matcher, feeds.text, s, a);
    if w < |s.workers| && !s.workers[w].Stopped? {
      SetThenMark(matcher, feeds.text, s, w, Stopped, s.workers[w].entry, Broken, a);
    }
  }

  /* ---------- The write of a chunk ---------- */

  /** The step writes the match rows of `a`. */
  ghost predicate Writes(s: System, action: Action, a: AdvisoryId) {
    && action.WriteChunk? && action.worker < |s.workers| && s.workers[action.worker].Working?
    && s.workers[action.worker].read.Some? && s.workers[action.worker].done < |s.workers[action.worker].ids|
    && a in s.workers[action.worker].read.value
  }

  /** The rows of `a` that the worker read still give the match of its rows now, as do rows evaluated later; or
      the last entry that owes `a` is another one, which still has to process it. All of it is known before the
      write. */
  ghost predicate SafeWrite(matcher: Matcher, text: Text, s: System, action: Action, a: AdvisoryId)
    requires Writes(s, action, a)
  {
    var worker, rows, now := s.workers[action.worker], RowsOf(s.matches, a), Expected(matcher, s.db.tables, a);
    || (LaterRowsAgree(rows, now, action.at) && ReadAgrees(rows, Candidates(matcher, worker.read.value[a]), now, action.at))
    || (Due(text, s, a) && LastOwingIn(text, s.db, a) != worker.entry)
  }

  /** The guard a write could check: no row of `a` has changed since it was read or was evaluated later. */
  ghost predicate FreshWrite(s: System, action: Action, a: AdvisoryId)
    requires Writes(s, action, a)
  {
    && s.workers[action.worker].read.value[a] == View(s.db.tables, a)
    && forall c :: !IsLater(RowsOf(s.matches, a), c, action.at)
  }

  lemma FreshIsSafe(matcher: Matcher, text: Text, s: System, action: Action, a: AdvisoryId)
    requires Writes(s, action, a) && FreshWrite(s, action, a)
    ensures SafeWrite(matcher, text, s, action, a)
  {
    hide View, Due;
  }

  lemma WrittenMatch(feeds: Feeds, matcher: Matcher, s: System, action: Action, a: AdvisoryId)
    requires Writes(s, action, a)
    ensures
      var worker, rows, now := s.workers[action.worker], RowsOf(s.matches, a), Expected(matcher, s.db.tables, a);
      OutOfDate(matcher, Next(feeds, matcher, s, action), a) <==>
        !(LaterRowsAgree(rows, now, action.at) && ReadAgrees(rows, Candidates(matcher, worker.read.value[a]), now, action.at))
  {
    hide View, LaterRowsAgree, ReadAgrees, WriteRows, WriteMatches, Live, Candidates, Statuses, RowsOf;
    var worker := s.workers[action.worker];
    WrittenRows(matcher, worker.read.value, s.db.tables, s.matches, action.at, a);
    WrittenShows(RowsOf(s.matches, a), Candidates(matcher, worker.read.value[a]), Expected(matcher, s.db.tables, a),
                 IsCurrent(s.db.tables, a), action.at);
  }

  lemma ChunkIsProcessed(worker: Worker, a: AdvisoryId)
    requires worker.Working? && worker.done < |worker.ids|
    ensures
      var end := ChunkEnd(worker.done, |worker.ids|);
      end <= |worker.ids| && (a in worker.ids[..end] <==> a in worker.ids[..worker.done] || a in ChunkOf(worker))
  {
    var end := ChunkEnd(worker.done, |worker.ids|);
    assert worker.ids[..end] == worker.ids[..worker.done] + worker.ids[worker.done..end];
  }

  lemma ProcessedStep(workers: seq<Worker>, w: nat, worker: Worker, i: ActivationId, a: AdvisoryId, adds: bool)
    requires w < |workers| && (HasProcessed(worker, i, a) <==> HasProcessed(workers[w], i, a) || adds)
    ensures Unprocessed(workers[w := worker], i, a) <==> Unprocessed(workers, i, a) && !adds
  {
    hide HasProcessed;
    var after := workers[w := worker];
    if Unprocessed(after, i, a) {
      assert after[w] == worker;
      forall v | 0 <= v < |workers| ensures !HasProcessed(workers[v], i, a) {
        assert v != w ==> after[v] == workers[v];
      }
    }
  }

  lemma WriteDue(feeds: Feeds, matcher: Matcher, s: System, action: Action, a: AdvisoryId)
    requires WorkInv(feeds.text, s) && action.WriteChunk?
    ensures
      var s' := Next(feeds, matcher, s, action);
      && WorkInv(feeds.text, s')
      && (if Writes(s, action, a)
          then Due(feeds.text, s', a) <==> Due(feeds.text, s, a) && LastOwingIn(feeds.text, s.db, a) != s.workers[action.worker].entry
          else Due(feeds.text, s', a) <==> Due(feeds.text, s, a))
  {
    hide Owed, View, LogRefs, LogChain, LastOwing, WriteMatches, ChunkOf, HasProcessed, Unprocessed;
    var s', w := Next(feeds, matcher, s, action), action.worker;
    if w < |s.workers| && s.workers[w].Working? && s.workers[w].read.Some? && s.workers[w].done < |s.workers[w].ids| {
      var worker := s.workers[w];
      assert WorkerFits(feeds.text, s.db.catalogs, s.db.log, worker);
      var worker' := worker.(done := ChunkEnd(worker.done, |worker.ids|), read := None);
      var i := LastOwingIn(feeds.text, s.db, a);
      if i >= 0 {
        WriteProcesses(worker, i, a);
        ProcessedStep(s.workers, w, worker', i, a, a in ChunkOf(worker) && i == worker.entry);
      }
    }
  }

  lemma WriteProcesses(worker: Worker, i: ActivationId, a: AdvisoryId)
    requires worker.Working? && worker.done < |worker.ids|
    ensures HasProcessed(worker.(done := ChunkEnd(worker.done, |worker.ids|), read := None), i, a)
       <==> HasProcessed(worker, i, a) || (a in ChunkOf(worker) && i == worker.entry)
  {
    ChunkIsProcessed(worker, a);
  }

  lemma UnwrittenMatch(feeds: Feeds, matcher: Matcher, s: System, action: Action, a: AdvisoryId)
    requires action.WriteChunk? && !Writes(s, action, a)
    ensures OutOfDate(matcher, Next(feeds, matcher, s, action), a) <==> OutOfDate(matcher, s, a)
  {
    hide View, WriteMatches, Live, Candidates, Statuses, RowsOf;
    var w := action.worker;
    if w < |s.workers| && s.workers[w].Working? && s.workers[w].read.Some? {
      WrittenRows(matcher, s.workers[w].read.value, s.db.tables, s.matches, action.at, a);
    }
  }

  /** Exactly the safe writes keep the debt: after a write of `a` the debt for `a` holds if and only if the write
      was safe, whatever held before; and no other advisory is concerned. */
  lemma WriteKeepsDebt(feeds: Feeds, matcher: Matcher, s: System, action: Action, a: AdvisoryId)
    requires WorkInv(feeds.text, s) && action.WriteChunk?
    ensures
      var s' := Next(feeds, matcher, s, action);
      && WorkInv(feeds.text, s')
      && (if Writes(s, action, a) then DebtFor(matcher, feeds.text, s', a) <==> SafeWrite(matcher, feeds.text, s, action, a)
          else DebtFor(matcher, feeds.text, s', a) <==> DebtFor(matcher, feeds.text, s, a))
  {
    hide WorkInv, Due, OutOfDate, LaterRowsAgree, ReadAgrees, Next, LastOwingIn, Expected, Candidates, RowsOf;
    WriteDue(feeds, matcher, s, action, a);
    if Writes(s, action, a) {
      WrittenMatch(feeds, matcher, s, action, a);
    } else {
      UnwrittenMatch(feeds, matcher, s, action, a);
    }
  }

  lemma WorkKeepsDebt(feeds: Feeds, matcher: Matcher, s: System, action: Action, a: AdvisoryId)
    requires WorkInv(feeds.text, s) && IsWork(action)
    ensures
      var s' := Next(feeds, matcher, s, action);
      && WorkInv(feeds.text, s')
      && (DebtFor(matcher, feeds.text, s, a) ==>
            DebtFor(matcher, feeds.text, s', a) || (Writes(s, action, a) && !SafeWrite(matcher, feeds.text, s, action, a)))
      && (Writes(s, action, a) && SafeWrite(matcher, feeds.text, s, action, a) ==> DebtFor(matcher, feeds.text, s', a))
  {
    hide WorkInv, WriteMatches, ViewsOf, WorkOf, MarkReevaluation, DebtFor, SafeWrite;
    KeepsItself(matcher, feeds.text, s, a);
    match action {
      case RetryReevaluation(i) =>
        if i < |s.db.log| {
          AddWorkerKeepsDebt(matcher, feeds.text, s, i, a);
        }
      case BeginWork(w) => BeginKeepsDebt(feeds, matcher, s, w, a);
      case ReadChunk(w) => ReadKeepsDebt(feeds, matcher, s, w, a);
      case WriteChunk(_, _) => WriteKeepsDebt(feeds, matcher, s, action, a);
      case FinishWork(w) => FinishKeepsDebt(feeds, matcher, s, w, a);
      case BreakWork(w) => BreakKeepsDebt(feeds, matcher, s, w, a);
    }
  }

  /* ---------- A switch takes on debt ---------- */

  /** Appending an entry makes it the last owing entry of exactly what it owes. */
  lemma LastOwingAppend(text: Text, db: Db, catalogs': seq<CatalogRow>, entry: Activation, a: AdvisoryId)
    requires LogRefs(db.catalogs, db.log) && LogChain(db.log) && SameContents(db.catalogs, catalogs')
    requires LogRefs(catalogs', db.log + [entry])
    ensures
      var log' := db.log + [entry];
      LastOwing(text, catalogs', log', |log'|, a)
      == if a in Owed(text, catalogs', log', |db.log|) then |db.log| else LastOwing(text, db.catalogs, db.log, |db.log|, a)
  {
    hide Owed;
    LastOwingFrame(text, db, db.(catalogs := catalogs', log := db.log + [entry]), |db.log|, a);
  }

  ghost predicate SwitchOwes(text: Text, s: System, s': System, entry: Activation)
    requires LogRefs(s'.db.catalogs, s'.db.log)
  {
    && s'.db.log == s.db.log + [entry] && entry.status == Pending
    && s'.workers == s.workers + [Admitted(|s.db.log|)] && s'.matches == s.matches
    && forall a :: a !in Owed(text, s'.db.catalogs, s'.db.log, |s.db.log|) ==> View(s'.db.tables, a) == View(s.db.tables, a)
  }

  /** The new entry is pending for whatever it owes; for everything else the debt is as it was. */
  lemma OwingKeepsDebt(matcher: Matcher, text: Text, s: System, s': System, entry: Activation, a: AdvisoryId)
    requires WorkInv(text, s) && SameContents(s.db.catalogs, s'.db.catalogs) && entry.catalog < |s'.db.catalogs|
    requires LogRefs(s'.db.catalogs, s'.db.log) && LogChain(s'.db.log) && SwitchOwes(text, s, s', entry)
    ensures WorkInv(text, s')
    ensures a in Owed(text, s'.db.catalogs, s'.db.log, |s.db.log|) || DebtFor(matcher, text, s, a) ==> DebtFor(matcher, text, s', a)
  {
    hide Owed, View, LogRefs, LogChain, SameContents, LastOwing, Live, Candidates, Statuses, RowsOf;
    var n := |s.db.log|;
    LastOwingAppend(text, s.db, s'.db.catalogs, entry, a);
    forall w | 0 <= w < |s.workers| ensures WorkerFits(text, s'.db.catalogs, s'.db.log, s'.workers[w]) {
      WorkerFrame(text, s.db, s'.db, s.workers[w]);
    }
    forall w | 0 <= w < |s.workers| ensures !HasProcessed(s.workers[w], n, a) {
      assert WorkerFits(text, s.db.catalogs, s.db.log, s.workers[w]);
    }
  }

  lemma SwitchIsOwing(feeds: Feeds, s: System, s': System, kind: ActivationKind, c: CatalogId, now: int)
    requires DistinctNames(feeds) && Inv(feeds, s) && TableInv(feeds, s.db) && IsSwitch(feeds, s, s', kind, c, now)
    requires LogRefs(s'.db.catalogs, s'.db.log)
    ensures SwitchOwes(feeds.text, s, s', EntryFor(s.db, kind, c, now)) && SameContents(s.db.catalogs, s'.db.catalogs)
  {
    RetainedIsVerified(feeds, s, c);
    SwitchParts(feeds, s, s', kind, c, now);
    hide Inv, Agrees, WellFormed, RowsOwned, ValidCatalog, Import, EntryFor, SwitchActive, RunsAfter, DistinctNames, CanSwitch,
      ChangedIds, View, OwnedId, LogRefs;
    var row := s.db.catalogs[c];
    var content := row.bundle.content;
    var entry := EntryFor(s.db, kind, c, now);
    var previous := ActiveContent(s.db.catalogs, s.db.log, row.source);
    PreviousContent(s.db, s'.db.catalogs, entry);
    forall a | a !in Owed(feeds.text, s'.db.catalogs, s'.db.log, |s.db.log|) ensures View(s'.db.tables, a) == View(s.db.tables, a) {
      ImportChangesOnlyChanged(feeds, s.db.tables, row.source, content, previous, Sha256(content), a);
    }
  }

  lemma PreviousContent(db: Db, catalogs': seq<CatalogRow>, entry: Activation)
    requires LogRefs(db.catalogs, db.log) && SameContents(db.catalogs, catalogs')
    requires entry.previous == LastOf(db.log, |db.log|, entry.source)
    ensures ContentOf(catalogs', entry.previous) == ActiveContent(db.catalogs, db.log, entry.source)
  {
    if entry.previous.Some? {
      LastOfIsRef(db.catalogs, db.log, |db.log|, entry.source);
    }
  }

  /* ---------- Every run ---------- */

  /** The step logs an entry that owes `a`. */
  ghost predicate NewlyOwes(text: Text, s: System, s': System, a: AdvisoryId) {
    && |s'.db.log| > |s.db.log| && LogRefs(s'.db.catalogs, s'.db.log)
    && a in Owed(text, s'.db.catalogs, s'.db.log, |s.db.log|)
  }

  ghost predicate UnsafeWrite(matcher: Matcher, text: Text, s: System, action: Action, a: AdvisoryId) {
    Writes(s, action, a) && !SafeWrite(matcher, text, s, action, a)
  }

  /** What a step does to the debt for `a`: only an unsafe write breaks it; a safe write, or an entry that owes
      `a`, establishes it. */
  ghost predicate DebtStep(feeds: Feeds, matcher: Matcher, s: System, action: Action, a: AdvisoryId) {
    var s' := Next(feeds, matcher, s, action);
    && WorkInv(feeds.text, s')
    && (DebtFor(matcher, feeds.text, s, a) ==> DebtFor(matcher, feeds.text, s', a) || UnsafeWrite(matcher, feeds.text, s, action, a))
    && ((Writes(s, action, a) && !UnsafeWrite(matcher, feeds.text, s, action, a)) || NewlyOwes(feeds.text, s, s', a)
        ==> DebtFor(matcher, feeds.text, s', a))
  }

  lemma SomeSwitchKeepsDebt(feeds: Feeds, matcher: Matcher, s: System, s': System, a: AdvisoryId)
    requires DistinctNames(feeds) && Inv(feeds, s) && TableInv(feeds, s.db) && WorkInv(feeds.text, s)
    requires Inv(feeds, s') && IsSomeSwitch(feeds, s, s')
    ensures WorkInv(feeds.text, s')
    ensures DebtFor(matcher, feeds.text, s, a) || NewlyOwes(feeds.text, s, s', a) ==> DebtFor(matcher, feeds.text, s', a)
  {
    hide Inv, TableInv, WorkInv, DebtFor, IsSwitch, LogRefs, LogChain, FlagsAgree, DistinctNames, SwitchOwes, SameContents, EntryFor;
    InvHasRefs(feeds, s');
    var kind, c: CatalogId, now :| IsSwitch(feeds, s, s', kind, c, now);
    SwitchInRange(feeds, s, s', kind, c, now);
    SwitchIsOwing(feeds, s, s', kind, c, now);
    OwingKeepsDebt(matcher, feeds.text, s, s', EntryFor(s.db, kind, c, now), a);
  }

  lemma NextKeepsDebt(feeds: Feeds, matcher: Matcher, s: System, action: Action, a: AdvisoryId)
    requires DistinctNames(feeds) && Inv(feeds, s) && TableInv(feeds, s.db) && WorkInv(feeds.text, s)
    ensures DebtStep(feeds, matcher, s, action, a)
  {
    hide Inv, TableInv, WorkInv, DebtFor, Next, IsWork, IsSomeSwitch, Still, DistinctNames, SafeWrite, LogRefs, LogChain, Owed;
    var s' := Next(feeds, matcher, s, action);
    if IsWork(action) {
      WorkKeepsDebt(feeds, matcher, s, action, a);
      WorkShape(feeds, matcher, s, action);
      StillLog(s.db, s'.db);
    } else {
      WriteIsWork(s, action, a);
      StepShape(feeds, matcher, s, action);
      if IsSomeSwitch(feeds, s, s') {
        NextKeepsInv(feeds, matcher, s, action);
        SomeSwitchKeepsDebt(feeds, matcher, s, s', a);
      } else {
        SameLogKeepsDebt(matcher, feeds.text, s, s', a);
      }
    }
  }

  lemma WriteIsWork(s: System, action: Action, a: AdvisoryId)
    ensures Writes(s, action, a) ==> IsWork(action)
  {
  }

  lemma StillLog(db: Db, db': Db)
    requires Still(db, db')
    ensures |db'.log| == |db.log|
  {
  }

  lemma SwitchInRange(feeds: Feeds, s: System, s': System, kind: ActivationKind, c: CatalogId, now: int)
    requires IsSwitch(feeds, s, s', kind, c, now)
    ensures c < |s.db.catalogs| && EntryFor(s.db, kind, c, now).catalog < |s'.db.catalogs|
  {
  }

  /** Step `k` is the last of the run that writes `a`, the write is unsafe, and no later step logs an entry that
      owes `a`. */
  ghost predicate LastUnsafe(feeds: Feeds, matcher: Matcher, actions: seq<Action>, k: nat, a: AdvisoryId) {
    && k < |actions| && UnsafeWrite(matcher, feeds.text, Exec(feeds, matcher, actions[..k]), actions[k], a)
    && forall j :: k < j < |actions| ==> Spares(feeds, matcher, Exec(feeds, matcher, actions[..j]), actions[j], a)
  }

  ghost predicate Spares(feeds: Feeds, matcher: Matcher, s: System, action: Action, a: AdvisoryId) {
    !Writes(s, action, a) && !NewlyOwes(feeds.text, s, Next(feeds, matcher, s, action), a)
  }

  lemma UnsafeStays(feeds: Feeds, matcher: Matcher, actions: seq<Action>, k: nat, a: AdvisoryId)
    requires |actions| > 0 && LastUnsafe(feeds, matcher, actions[..|actions| - 1], k, a)
    requires Spares(feeds, matcher, Exec(feeds, matcher, actions[..|actions| - 1]), actions[|actions| - 1], a)
    ensures LastUnsafe(feeds, matcher, actions, k, a)
  {
    hide Exec, UnsafeWrite, Spares;
    var before := actions[..|actions| - 1];
    assert forall j :: 0 <= j < |actions| ==> before[..j] == actions[..j];
    forall j | k < j < |actions| ensures Spares(feeds, matcher, Exec(feeds, matcher, actions[..j]), actions[j], a) {
      if j < |before| {
        assert Spares(feeds, matcher, Exec(feeds, matcher, before[..j]), before[j], a);
      }
    }
  }

  lemma InitialDebt(matcher: Matcher, text: Text, a: AdvisoryId)
    ensures WorkInv(text, Initial) && DebtFor(matcher, text, Initial, a)
  {
    assert View(EmptyTables, a).None?;
  }

  /** In every reachable state the debt for an advisory holds, unless the last write of its match was unsafe and
      nothing logged since owes it. */
  lemma {:induction false} ReachableDebt(feeds: Feeds, matcher: Matcher, actions: seq<Action>, a: AdvisoryId)
    requires DistinctNames(feeds)
    ensures
      var s := Exec(feeds, matcher, actions);
      WorkInv(feeds.text, s) && (DebtFor(matcher, feeds.text, s, a) || exists k :: LastUnsafe(feeds, matcher, actions, k, a))
  {
    hide Inv, TableInv, Next, DistinctNames, WorkInv, DebtFor, UnsafeWrite, Writes, NewlyOwes;
    if |actions| == 0 {
      InitialDebt(matcher, feeds.text, a);
    } else {
      var before, last := actions[..|actions| - 1], actions[|actions| - 1];
      ReachableDebt(feeds, matcher, before, a);
      ReachableTables(feeds, matcher, before);
      ReachableInv(feeds, matcher, before);
      var s := Exec(feeds, matcher, before);
      NextKeepsDebt(feeds, matcher, s, last, a);
      if UnsafeWrite(matcher, feeds.text, s, last, a) {
        assert LastUnsafe(feeds, matcher, actions, |actions| - 1, a);
      } else if !DebtFor(matcher, feeds.text, s, a) && Spares(feeds, matcher, s, last, a) {
        var k :| LastUnsafe(feeds, matcher, before, k, a);
        UnsafeStays(feeds, matcher, actions, k, a);
      }
    }
  }

  /** Entry `i` is the last that owes `a`, and it is not completed. */
  ghost predicate OwedBy(feeds: Feeds, s: System, i: ActivationId, a: AdvisoryId) {
    && LogRefs(s.db.catalogs, s.db.log) && i < |s.db.log|
    && a in Owed(feeds.text, s.db.catalogs, s.db.log, i) && s.db.log[i].status != Completed
    && forall j :: i < j < |s.db.log| ==> a !in Owed(feeds.text, s.db.catalogs, s.db.log, j)
  }

  lemma DueIsOwed(feeds: Feeds, s: System, a: AdvisoryId)
    requires Due(feeds.text, s, a)
    ensures exists i :: OwedBy(feeds, s, i, a)
  {
    hide Owed;
    assert OwedBy(feeds, s, LastOwingIn(feeds.text, s.db, a), a);
  }

  /** In every reachable state an advisory whose match is out of date lies in the changed set of an activation whose
      reevaluation is not completed, namely the last one that owes it; or its last write was unsafe, and nothing
      logged since owes it. */
  lemma {:induction false} OutdatedIsOwed(feeds: Feeds, matcher: Matcher, actions: seq<Action>, a: AdvisoryId)
    requires DistinctNames(feeds) && OutOfDate(matcher, Exec(feeds, matcher, actions), a)
    ensures (exists i :: OwedBy(feeds, Exec(feeds, matcher, actions), i, a)) || exists k :: LastUnsafe(feeds, matcher, actions, k, a)
  {
    hide Exec, WorkInv, OutOfDate, Due, OwedBy, LastUnsafe, DistinctNames;
    ReachableDebt(feeds, matcher, actions, a);
    if DebtFor(matcher, feeds.text, Exec(feeds, matcher, actions), a) {
      DueIsOwed(feeds, Exec(feeds, matcher, actions), a);
    }
  }

  /** Once every reevaluation is completed, every match is what the engine says of the rows, but for those whose last
      write was unsafe. */
  lemma {:induction false} AllSettledIsCurrent(feeds: Feeds, matcher: Matcher, actions: seq<Action>, a: AdvisoryId)
    requires DistinctNames(feeds)
    requires forall i :: 0 <= i < |Exec(feeds, matcher, actions).db.log| ==> Exec(feeds, matcher, actions).db.log[i].status == Completed
    ensures
      var s := Exec(feeds, matcher, actions);
      MatchOf(s, a) == Live(Expected(matcher, s.db.tables, a)) || exists k :: LastUnsafe(feeds, matcher, actions, k, a)
  {
    hide Exec, LastUnsafe, Owed, LogRefs, MatchOf, Live, Expected, DistinctNames;
    if OutOfDate(matcher, Exec(feeds, matcher, actions), a) {
      OutdatedIsOwed(feeds, matcher, actions, a);
    }
  }

  /* ---------- Runs without unsafe writes ---------- */

  ghost predicate SafeRun(feeds: Feeds, matcher: Matcher, actions: seq<Action>) {
    forall k, a :: 0 <= k < |actions| ==> !UnsafeWrite(matcher, feeds.text, Exec(feeds, matcher, actions[..k]), actions[k], a)
  }

  ghost predicate FreshStep(s: System, action: Action) {
    forall a :: Writes(s, action, a) ==> FreshWrite(s, action, a)
  }

  /** Every write of the run finds the rows it read unchanged and no match row evaluated later. */
  ghost predicate FreshRun(feeds: Feeds, matcher: Matcher, actions: seq<Action>) {
    forall k :: 0 <= k < |actions| ==> FreshStep(Exec(feeds, matcher, actions[..k]), actions[k])
  }

  lemma FreshRunIsSafe(feeds: Feeds, matcher: Matcher, actions: seq<Action>)
    requires FreshRun(feeds, matcher, actions)
    ensures SafeRun(feeds, matcher, actions)
  {
    hide Exec, Writes, SafeWrite, FreshWrite;
    forall k, a | 0 <= k < |actions| ensures !UnsafeWrite(matcher, feeds.text, Exec(feeds, matcher, actions[..k]), actions[k], a) {
      var s := Exec(feeds, matcher, actions[..k]);
      assert FreshStep(s, actions[k]);
      if Writes(s, actions[k], a) {
        FreshIsSafe(matcher, feeds.text, s, actions[k], a);
      }
    }
  }

  /** Every out-of-date match is owed by an entry that is not completed. */
  ghost predicate DebtIsKept(feeds: Feeds, matcher: Matcher, actions: seq<Action>) {
    var s := Exec(feeds, matcher, actions);
    forall a :: OutOfDate(matcher, s, a) ==> exists i :: OwedBy(feeds, s, i, a)
  }

  lemma {:induction false} SafeRunKeepsDebt(feeds: Feeds, matcher: Matcher, actions: seq<Action>)
    requires DistinctNames(feeds) && SafeRun(feeds, matcher, actions)
    ensures DebtIsKept(feeds, matcher, actions)
  {
    hide Exec, UnsafeWrite, OwedBy, OutOfDate, DistinctNames;
    forall a | OutOfDate(matcher, Exec(feeds, matcher, actions), a) ensures exists i :: OwedBy(feeds, Exec(feeds, matcher, actions), i, a) {
      OutdatedIsOwed(feeds, matcher, actions, a);
    }
  }
}
