/** Targeted reevaluation: the chunk loop of the sync service, and why it is as good as reevaluating everything. */
module Reevaluation {
  import opened Prelude
  import opened Catalogs
  import opened CatalogDiffs
  import opened AdvisoryTables
  import opened SyncState
  import opened Matching
  import opened Lifecycle
  import opened RunInvariants
  import opened TableInvariants
  import opened Debt

  /** `server_ids[index : index + size]` for every `size`-th index. */
  function Chunks(ids: seq<AdvisoryId>, size: nat): (chunks: seq<seq<AdvisoryId>>)
    requires size > 0
    ensures chunks == [] <==> ids == []
    ensures forall c :: c in chunks ==> 0 < |c| <= size
    ensures Joined(chunks) == ids
  {
    if |ids| == 0 then []
    else if |ids| <= size then
      assert Joined([ids]) == ids + Joined([]);
      [ids]
    else
      var chunks := [ids[..size]] + Chunks(ids[size..], size);
      assert chunks[1..] == Chunks(ids[size..], size);
      chunks
  }

  function Joined(chunks: seq<seq<AdvisoryId>>): seq<AdvisoryId> {
    if |chunks| == 0 then [] else chunks[0] + Joined(chunks[1..])
  }

  lemma {:induction false} JoinedAppend(chunks: seq<seq<AdvisoryId>>, chunk: seq<AdvisoryId>)
    ensures Joined(chunks + [chunk]) == Joined(chunks) + chunk
  {
    if |chunks| == 0 {
      assert [chunk][1..] == [];
      assert chunks + [chunk] == [chunk];
    } else {
      JoinedAppend(chunks[1..], chunk);
      assert (chunks + [chunk])[1..] == chunks[1..] + [chunk];
    }
  }

  lemma SliceOfRest(ids: seq<AdvisoryId>, skip: nat, from: nat, to: nat)
    requires from <= to && skip + to <= |ids|
    ensures ids[skip..][from..to] == ids[skip + from..skip + to]
  {
  }

  lemma {:induction false} ChunkAt(ids: seq<AdvisoryId>, k: nat)
    requires k < |Chunks(ids, MAX_TARGETED_ADVISORIES)|
    ensures
      var chunks, start := Chunks(ids, MAX_TARGETED_ADVISORIES), k * MAX_TARGETED_ADVISORIES;
      && start < |ids| && chunks[k] == ids[start..ChunkEnd(start, |ids|)]
      && (k == |chunks| - 1 <==> ChunkEnd(start, |ids|) == |ids|)
  {
    hide Joined;
    if k > 0 {
      var rest := ids[MAX_TARGETED_ADVISORIES..];
      ChunkAt(rest, k - 1);
      assert Chunks(ids, MAX_TARGETED_ADVISORIES) == [ids[..MAX_TARGETED_ADVISORIES]] + Chunks(rest, MAX_TARGETED_ADVISORIES);
      SliceOfRest(ids, MAX_TARGETED_ADVISORIES, (k - 1) * MAX_TARGETED_ADVISORIES, ChunkEnd((k - 1) * MAX_TARGETED_ADVISORIES, |rest|));
    } else {
      assert |ids| <= MAX_TARGETED_ADVISORIES ==> ids[..|ids|] == ids;
    }
  }

  lemma {:induction false} ChunkCount(ids: seq<AdvisoryId>)
    ensures |ids| <= |Chunks(ids, MAX_TARGETED_ADVISORIES)| * MAX_TARGETED_ADVISORIES
  {
    if |ids| > MAX_TARGETED_ADVISORIES {
      ChunkCount(ids[MAX_TARGETED_ADVISORIES..]);
    }
  }

  /** One pass of the chunk loop: what chunk `k` reads, what its write finds, and when its evaluation starts. */
  datatype Pass = Pass(read: Tables, write: Tables, at: int)

  /** The rows of the `j`-th id after its own chunk has written them. */
  ghost function WrittenBy(matcher: Matcher, ids: seq<AdvisoryId>, passes: seq<Pass>, before: Matches, j: nat): MatchRows
    requires j < |ids| && j / MAX_TARGETED_ADVISORIES < |passes|
  {
    var pass := passes[j / MAX_TARGETED_ADVISORIES];
    WriteRows(RowsOf(before, ids[j]), Candidates(matcher, View(pass.read, ids[j])), IsCurrent(pass.write, ids[j]), pass.at)
  }

  /** The first `n` ids are written, each by its own chunk, and no other advisory's rows. */
  ghost predicate WrittenUpTo(matcher: Matcher, ids: seq<AdvisoryId>, passes: seq<Pass>, before: Matches, after: Matches, n: nat) {
    && n <= |ids| <= |passes| * MAX_TARGETED_ADVISORIES
    && (forall j :: 0 <= j < n ==> RowsOf(after, ids[j]) == WrittenBy(matcher, ids, passes, before, j))
    && (forall a :: a !in ids[..n] ==> RowsOf(after, a) == RowsOf(before, a))
  }

  lemma ChunkIsWritten(matcher: Matcher, ids: seq<AdvisoryId>, passes: seq<Pass>, before: Matches, middle: Matches, k: nat)
    requires NoDuplicates(ids) && k < |passes| && k * MAX_TARGETED_ADVISORIES < |ids|
    requires WrittenUpTo(matcher, ids, passes, before, middle, k * MAX_TARGETED_ADVISORIES)
    ensures
      var start := k * MAX_TARGETED_ADVISORIES;
      var chunk := ToSet(ids[start..ChunkEnd(start, |ids|)]);
      WrittenUpTo(matcher, ids, passes, before, WriteMatches(matcher, ViewsOf(passes[k].read, chunk), passes[k].write, middle, passes[k].at),
                  ChunkEnd(start, |ids|))
  {
    hide View, WriteRows, Candidates, IsCurrent, WriteMatches, RowsOf;
    var start := k * MAX_TARGETED_ADVISORIES;
    var end := ChunkEnd(start, |ids|);
    var chunk := ToSet(ids[start..end]);
    var after := WriteMatches(matcher, ViewsOf(passes[k].read, chunk), passes[k].write, middle, passes[k].at);
    forall a ensures RowsOf(after, a) == if a in chunk
      then WriteRows(RowsOf(middle, a), Candidates(matcher, View(passes[k].read, a)), IsCurrent(passes[k].write, a), passes[k].at)
      else RowsOf(middle, a)
    {
      WrittenRows(matcher, ViewsOf(passes[k].read, chunk), passes[k].write, middle, passes[k].at, a);
    }
    forall j | 0 <= j < end ensures RowsOf(after, ids[j]) == WrittenBy(matcher, ids, passes, before, j) {
      if j < start {
        assert ids[j] !in ids[start..end];
      } else {
        assert ids[start..end][j - start] == ids[j];
        assert ids[j] !in ids[..start];
      }
    }
    assert ids[..end] == ids[..start] + ids[start..end];
  }

  /** The evaluation engine's state: the match rows of every advisory, and the findings derived from them. */
  class Evaluator<Findings(0)> {
    ghost var matches: Matches
    ghost var findings: Findings
    var findingsUpdates: nat

    constructor ()
      ensures findingsUpdates == 0
    {
      findingsUpdates := 0;
    }

    /** One evaluation: write what the engine says of the rows that were read, and update the findings if asked. */
    method Evaluate(ghost matcher: Matcher, ghost derive: Matches -> Findings, ghost read: Views, ghost t: Tables, ghost at: int, updateFindings: bool)
      modifies this
      ensures matches == WriteMatches(matcher, read, t, old(matches), at)
      ensures findings == if updateFindings then derive(matches) else old(findings)
      ensures findingsUpdates == old(findingsUpdates) + (if updateFindings then 1 else 0)
    {
      matches := WriteMatches(matcher, read, t, matches, at);
      if updateFindings {
        findings := derive(matches);
        findingsUpdates := findingsUpdates + 1;
      }
    }

    /** The chunk loop. However the ids are cut, each advisory's rows are written exactly once, from the tables that
        its own chunk read, no other rows change, and the findings are updated exactly once, from the final
        matches. */
    method ReevaluateInChunks(ghost matcher: Matcher, ghost derive: Matches -> Findings, ids: seq<AdvisoryId>, ghost passes: seq<Pass>)
      requires NoDuplicates(ids) && |passes| == |Chunks(ids, MAX_TARGETED_ADVISORIES)|
      modifies this
      ensures WrittenUpTo(matcher, ids, passes, old(matches), matches, |ids|)
      ensures ids != [] ==> findings == derive(matches) && findingsUpdates == old(findingsUpdates) + 1
      ensures ids == [] ==> matches == old(matches) && findings == old(findings) && findingsUpdates == old(findingsUpdates)
    {
      ChunkCount(ids);
      if |ids| == 0 {
        return;
      }
      var chunks := Chunks(ids, MAX_TARGETED_ADVISORIES);
      ghost var done := 0;
      for k := 0 to |chunks|
        invariant done == if k == |chunks| then |ids| else k * MAX_TARGETED_ADVISORIES
        invariant WrittenUpTo(matcher, ids, passes, old(matches), matches, done)
        invariant findingsUpdates == old(findingsUpdates) + (if k == |chunks| then 1 else 0)
        invariant k == |chunks| ==> findings == derive(matches)
      {
        var finalChunk := k == |chunks| - 1;
        ChunkAt(ids, k);
        ChunkIsWritten(matcher, ids, passes, old(matches), matches, k);
        Evaluate(matcher, derive, ViewsOf(passes[k].read, ToSet(chunks[k])), passes[k].write, passes[k].at, finalChunk);
        done := ChunkEnd(done, |ids|);
      }
    }
  }

  /* ---------- A worker that nothing disturbs ---------- */

  /** One chunk: the read, and the write that nothing separates from it. */
  ghost function RunChunk(feeds: Feeds, matcher: Matcher, s: System, w: nat, at: int): System {
    Next(feeds, matcher, Next(feeds, matcher, s, ReadChunk(w)), WriteChunk(w, at))
  }

  ghost predicate BetweenChunks(s: System, w: nat) {
    w < |s.workers| && s.workers[w].Working? && s.workers[w].done <= |s.workers[w].ids| && s.workers[w].read.None?
  }

  /** Repeat the chunk steps until the worker's list is done. */
  ghost function RunWorker(feeds: Feeds, matcher: Matcher, s: System, w: nat, at: int): System
    requires BetweenChunks(s, w)
    decreases |s.workers[w].ids| - s.workers[w].done
  {
    if s.workers[w].done == |s.workers[w].ids| then s else RunWorker(feeds, matcher, RunChunk(feeds, matcher, s, w, at), w, at)
  }

  lemma ChunkReconciles(feeds: Feeds, matcher: Matcher, s: System, w: nat, at: int)
    requires BetweenChunks(s, w) && s.workers[w].done < |s.workers[w].ids|
    ensures
      var worker := s.workers[w];
      RunChunk(feeds, matcher, s, w, at)
      == s.(matches := Reconcile(matcher, s.db.tables, s.matches, ChunkOf(worker), at),
            workers := s.workers[w := worker.(done := ChunkEnd(worker.done, |worker.ids|))])
  {
    hide View, WriteMatches, ChunkOf, ViewsOf;
    var worker := s.workers[w];
    var read := worker.(read := Some(ViewsOf(s.db.tables, ChunkOf(worker))));
    assert Next(feeds, matcher, s, ReadChunk(w)) == s.(workers := s.workers[w := read]);
    var worker' := worker.(done := ChunkEnd(worker.done, |worker.ids|));
    assert s.workers[w := read][w := worker'] == s.workers[w := worker'];
  }

  /** The lifecycle's chunk steps, taken in a row, come to one reconciliation of the rest of the list. */
  lemma {:induction false} WorkerReconciles(feeds: Feeds, matcher: Matcher, s: System, w: nat, at: int)
    requires BetweenChunks(s, w)
    ensures
      var worker := s.workers[w];
      RunWorker(feeds, matcher, s, w, at)
      == s.(matches := Reconcile(matcher, s.db.tables, s.matches, ToSet(worker.ids[worker.done..]), at),
            workers := s.workers[w := worker.(done := |worker.ids|)])
    decreases |s.workers[w].ids| - s.workers[w].done
  {
    hide View, Reconcile, RunChunk;
    var worker := s.workers[w];
    if worker.done == |worker.ids| {
      ReconcileNothing(matcher, s.db.tables, s.matches, at);
      assert worker.ids[worker.done..] == [];
      assert ToSet(worker.ids[worker.done..]) == {};
      assert s.workers[w := worker] == s.workers;
    } else {
      var end := ChunkEnd(worker.done, |worker.ids|);
      ChunkReconciles(feeds, matcher, s, w, at);
      WorkerReconciles(feeds, matcher, RunChunk(feeds, matcher, s, w, at), w, at);
      var chunk, rest := worker.ids[worker.done..end], worker.ids[end..];
      assert worker.ids[worker.done..] == chunk + rest;
      assert ToSet(worker.ids[worker.done..]) == ToSet(chunk) + ToSet(rest);
      ReconcileTwice(matcher, s.db.tables, s.matches, ToSet(chunk), ToSet(rest), at);
    }
  }

  /* ---------- Targeted and full reevaluation ---------- */

  ghost predicate AllCurrent(matcher: Matcher, s: System) {
    forall a :: !OutOfDate(matcher, s, a)
  }

  ghost function Reconciled(matcher: Matcher, s: System, ids: set<AdvisoryId>, at: int): System {
    s.(matches := Reconcile(matcher, s.db.tables, s.matches, ids, at))
  }

  /** No match row of these advisories that was evaluated later disagrees with the engine now. */
  ghost predicate NothingLaterDisagrees(matcher: Matcher, s: System, ids: set<AdvisoryId>, at: int) {
    forall a :: a in ids ==> LaterRowsAgree(RowsOf(s.matches, a), Expected(matcher, s.db.tables, a), at)
  }

  lemma ReconciledMatch(matcher: Matcher, s: System, ids: set<AdvisoryId>, at: int, a: AdvisoryId)
    ensures
      if a in ids
      then OutOfDate(matcher, Reconciled(matcher, s, ids, at), a) <==>
             !LaterRowsAgree(RowsOf(s.matches, a), Expected(matcher, s.db.tables, a), at)
      else MatchOf(Reconciled(matcher, s, ids, at), a) == MatchOf(s, a)
  {
    hide View, WriteRows, Candidates, WriteMatches, Live, Statuses, RowsOf, LaterRowsAgree;
    WrittenRows(matcher, ViewsOf(s.db.tables, ids), s.db.tables, s.matches, at, a);
    WrittenShows(RowsOf(s.matches, a), Expected(matcher, s.db.tables, a), Expected(matcher, s.db.tables, a), IsCurrent(s.db.tables, a), at);
  }

  lemma CurrentAgrees(matcher: Matcher, s: System, a: AdvisoryId, at: int)
    requires !OutOfDate(matcher, s, a)
    ensures LaterRowsAgree(RowsOf(s.matches, a), Expected(matcher, s.db.tables, a), at)
  {
    hide View, Candidates, RowsOf;
    LiveIsPointwise(Statuses(RowsOf(s.matches, a)), Expected(matcher, s.db.tables, a));
  }

  /** Reconciling some ids makes everything current exactly when nothing outside them is out of date and no later row
      of theirs disagrees, and then reconciling more ids would give every advisory the same match. */
  lemma TargetedIsFull(matcher: Matcher, s: System, ids: set<AdvisoryId>, all: set<AdvisoryId>, at: int)
    requires ids <= all
    ensures AllCurrent(matcher, Reconciled(matcher, s, ids, at)) <==>
              (forall a :: OutOfDate(matcher, s, a) ==> a in ids) && NothingLaterDisagrees(matcher, s, ids, at)
    ensures AllCurrent(matcher, Reconciled(matcher, s, ids, at)) ==>
              forall a :: MatchOf(Reconciled(matcher, s, ids, at), a) == MatchOf(Reconciled(matcher, s, all, at), a)
  {
    hide View, MatchOf, Reconcile, Live, Candidates, LaterRowsAgree;
    var few, many := Reconciled(matcher, s, ids, at), Reconciled(matcher, s, all, at);
    forall a
      ensures OutOfDate(matcher, few, a) <==>
                if a in ids then !LaterRowsAgree(RowsOf(s.matches, a), Expected(matcher, s.db.tables, a), at) else OutOfDate(matcher, s, a)
    {
      ReconciledMatch(matcher, s, ids, at, a);
    }
    if AllCurrent(matcher, few) {
      forall a ensures MatchOf(few, a) == MatchOf(many, a) {
        assert !OutOfDate(matcher, few, a);
        ReconciledMatch(matcher, s, ids, at, a);
        ReconciledMatch(matcher, s, all, at, a);
        if a !in ids {
          CurrentAgrees(matcher, s, a, at);
        }
      }
    }
  }

  /** Reconciling the ids that entry `i` lists leaves every match current, unless a later row disagrees. */
  ghost predicate WorkSuffices(feeds: Feeds, matcher: Matcher, s: System, i: ActivationId, at: int) {
    && i < |s.db.log| && s.db.log[i].catalog < |s.db.catalogs|
    && WorkOf(feeds, s.db, i).Ok?
    && var ids := ToSet(WorkOf(feeds, s.db, i).value);
       (AllCurrent(matcher, Reconciled(matcher, s, ids, at)) <==> NothingLaterDisagrees(matcher, s, ids, at))
  }

  /** If every match was current before an activation or rollback, reconciling just the ids its reevaluation
      lists makes every match current again, exactly when no later row of theirs disagrees. */
  lemma IncrementalIsEnough(feeds: Feeds, matcher: Matcher, s: System, s': System, kind: ActivationKind, c: CatalogId, now: int, at: int)
    requires DistinctNames(feeds) && Inv(feeds, s) && TableInv(feeds, s.db) && IsSwitch(feeds, s, s', kind, c, now)
    requires Inv(feeds, s') && AllCurrent(matcher, s)
    ensures WorkSuffices(feeds, matcher, s', |s.db.log|, at)
  {
    hide Inv, TableInv, IsSwitch, EntryFor, WorkOf, View, Owed, DistinctNames, LogChain, FlagsAgree, NothingLaterDisagrees, Reconciled, Live,
      Candidates;
    var i := |s.db.log|;
    InvHasRefs(feeds, s');
    SwitchInRange(feeds, s, s', kind, c, now);
    SwitchIsOwing(feeds, s, s', kind, c, now);
    WorkFits(feeds, s', i);
    WorkIsOwed(feeds, s', i);
    var ids := ToSet(WorkOf(feeds, s'.db, i).value);
    forall a | OutOfDate(matcher, s', a) ensures a in ids {
      assert !OutOfDate(matcher, s, a);
    }
    TargetedIsFull(matcher, s', ids, ids, at);
  }

  lemma WorkFits(feeds: Feeds, s: System, i: ActivationId)
    requires Inv(feeds, s) && i < |s.db.log| && s.db.log[i].catalog < |s.db.catalogs|
    ensures WorkOf(feeds, s.db, i).Ok?
  {
    hide Inv, ContentOf, ChangedRecordIds, ServerIds, ValidRecord, DistinctIds, AliasesHaveOneOwner;
    var entry := s.db.log[i];
    var previous := ContentOf(s.db.catalogs, entry.previous);
    RetainedContents(feeds, s, entry);
    ChangedScopeFits(feeds.text, s.db.catalogs[entry.catalog].bundle.content, previous);
  }
}
