/** A reevaluation reads a chunk's rows in one transaction and writes its matches in a later one. A run shows, for
    every configuration, that an activation and its whole reevaluation can come in between: the late write brings back
    a match of replaced rows, and every entry that owes the advisory is completed. The times at which the two
    evaluations started do not matter. */
module LateWrites {
  import opened Prelude
  import opened Catalogs
  import opened CatalogDiffs
  import opened AdvisoryTables
  import opened SyncState
  import opened Matching
  import opened Lifecycle
  import opened RunInvariants
  import opened TableInvariants
  import opened Debt
  import opened Publications
  import opened Witnesses

  function PlanNext(feeds: Feeds, a: SourceId): Plan {
    PlanOf(feeds, a, 'b', [SECOND], 2, Max(feeds.interval(a), 0))
  }

  /** The source publishes a record, and its reevaluation reads it. */
  function Held(feeds: Feeds, a: SourceId): seq<Action> {
    Publication(0, PlanA(feeds, a)) + PickUp(0)
  }

  /** The record is replaced, and the second reevaluation completes. */
  function Replaced(feeds: Feeds, a: SourceId, second: int): seq<Action> {
    Held(feeds, a) + Publication(1, PlanNext(feeds, a)) + Work(1, second)
  }

  /** The first reevaluation writes what it read, and completes. */
  function LateRun(feeds: Feeds, a: SourceId, first: int, second: int): seq<Action> {
    Replaced(feeds, a, second) + WriteUp(0, first)
  }

  /** The first worker still holds the first record, which the second publication has replaced. */
  ghost predicate Holding(feeds: Feeds, s: System, a: SourceId, views: Views, k: nat) {
    && Shape(s, k) && k > 0 && s.db.catalogs[0].source == a && s.db.catalogs[0].bundle == PlanA(feeds, a).bundle
    && s.db.runs[0].createdAt == 0
    && s.workers[0] == Working(0, [TheId(feeds.text, feeds.nameOf(a))], 0, Some(views))
    && views == map[TheId(feeds.text, feeds.nameOf(a)) := Some(RecordView(feeds.text, TheId(feeds.text, feeds.nameOf(a)), FIRST))]
  }

  ghost predicate HeldEnd(feeds: Feeds, s: System, a: SourceId, views: Views) {
    && Holding(feeds, s, a, views, 1) && s.matches == map[] && WellFormed(feeds.text, s.db.tables)
  }

  lemma HeldWorks(feeds: Feeds, matcher: Matcher, a: SourceId) returns (views: Views)
    ensures HeldEnd(feeds, Exec(feeds, matcher, Held(feeds, a)), a, views)
  {
    hide Exec, Inv, VerifiedFor, Publication, PickUp, Import, Owed, View, LogRefs, LogChain, FlagsAgree, RecordView, WellFormed;
    var x, published := TheId(feeds.text, feeds.nameOf(a)), [] + Publication(0, PlanA(feeds, a));
    assert published == Publication(0, PlanA(feeds, a));
    ExecNothing(feeds, matcher);
    PlanIsVerified(feeds, a, 'a', [FIRST], 1, 0);
    Publish(feeds, matcher, [], PlanA(feeds, a), 0);
    var s := Exec(feeds, matcher, published);
    ReachableInv(feeds, matcher, published);
    InvHasRefs(feeds, s);
    FirstIsOwed(feeds, s, a);
    TakeWorks(feeds, matcher, published, 0, x, 1);
    NoKeys(feeds.text);
    ImportedView(feeds.text, EmptyTables, feeds.nameOf(a), 'a', "urllib3");
    views := ViewsOf(s.db.tables, {x});
    assert views == map[x := Some(RecordView(feeds.text, x, FIRST))];
  }

  lemma NextIsPublishable(feeds: Feeds, s: System, a: SourceId, views: Views)
    requires Holding(feeds, s, a, views, 1)
    ensures Publishable(feeds, s, PlanNext(feeds, a), 1)
  {
    PlanIsVerified(feeds, a, 'b', [SECOND], 2, Max(feeds.interval(a), 0));
    MarksDiffer('b', 'a');
    hide VerifiedFor, ManifestDigest, PayloadDigest, RecordView;
  }

  lemma NextIsOwed(feeds: Feeds, s: System, s': System, a: SourceId, views: Views)
    requires Holding(feeds, s, a, views, 1) && Extends(feeds, s, s', PlanNext(feeds, a), 1) && LogChain(s'.db.log)
    ensures Owes(feeds, s', 1, {TheId(feeds.text, feeds.nameOf(a))}) && Holding(feeds, s', a, views, 2)
  {
    hide Owes, LogChain, ChangedIds, Import, RecordView;
    assert LastOf(s'.db.log, 1, a) == Some(0);
    OwesChange(feeds, s', 1, CatalogOf(feeds.nameOf(a), 'b', [SECOND]), Some(CatalogOf(feeds.nameOf(a), 'a', [FIRST])), 2);
    OtherChange(feeds.text, feeds.nameOf(a), 'b', 'a');
  }

  /** The second reevaluation is completed and has found no match; the first still holds its rows. */
  ghost predicate ReplacedEnd(feeds: Feeds, s: System, a: SourceId, views: Views) {
    var x := TheId(feeds.text, feeds.nameOf(a));
    && Holding(feeds, s, a, views, 2) && IsActivated(s.db.runs[0].state) && s.db.log[1].status == Completed
    && RowsOf(s.matches, x) == map[] && View(s.db.tables, x) == Some(RecordView(feeds.text, x, SECOND))
  }

  lemma ReplacedMatches(feeds: Feeds, s0: System, s1: System, s2: System, a: SourceId, views: Views, second: int)
    requires HeldEnd(feeds, s0, a, views) && Extends(feeds, s0, s1, PlanNext(feeds, a), 1)
    requires Completes(Installed(), s1, s2, 1, TheId(feeds.text, feeds.nameOf(a)), second, 2)
    ensures
      var x := TheId(feeds.text, feeds.nameOf(a));
      RowsOf(s2.matches, x) == map[] && View(s2.db.tables, x) == Some(RecordView(feeds.text, x, SECOND))
  {
    hide Import, View, WellFormed, RecordView, Installed, WriteMatches, Holding, Shape;
    var x := TheId(feeds.text, feeds.nameOf(a));
    ImportedView(feeds.text, s0.db.tables, feeds.nameOf(a), 'b', "requests");
    ToldApart(feeds.text, x);
    WrittenRows(Installed(), ViewsOf(s1.db.tables, {x}), s1.db.tables, s1.matches, second, x);
  }

  lemma ReplacedHolds(feeds: Feeds, s1: System, s2: System, a: SourceId, views: Views, second: int)
    requires Holding(feeds, s1, a, views, 2) && Completes(Installed(), s1, s2, 1, TheId(feeds.text, feeds.nameOf(a)), second, 2)
    ensures Holding(feeds, s2, a, views, 2) && s2.db.log[1].status == Completed && s2.db.catalogs[0].run == 0 && s2.db.log[0].catalog == 0
  {
    hide View, RecordView, Installed, WriteMatches, ViewsOf;
  }

  lemma ReplacedWorks(feeds: Feeds, a: SourceId, second: int) returns (views: Views)
    ensures ReplacedEnd(feeds, Exec(feeds, Installed(), Replaced(feeds, a, second)), a, views)
  {
    hide Exec, Inv, Held, Publication, Work, Owed, LogRefs, LogChain, FlagsAgree, Holding, Extends, Completes, Publishable, Installed, View,
      RecordView, WellFormed;
    var x, middle := TheId(feeds.text, feeds.nameOf(a)), Held(feeds, a) + Publication(1, PlanNext(feeds, a));
    views := HeldWorks(feeds, Installed(), a);
    var s0, s1, s2 := Exec(feeds, Installed(), Held(feeds, a)), Exec(feeds, Installed(), middle), Exec(feeds, Installed(), Replaced(feeds, a, second));
    NextIsPublishable(feeds, s0, a, views);
    Publish(feeds, Installed(), Held(feeds, a), PlanNext(feeds, a), 1);
    ReachableInv(feeds, Installed(), middle);
    InvHasRefs(feeds, s1);
    NextIsOwed(feeds, s0, s1, a, views);
    AdmittedLast(feeds, s0, s1, PlanNext(feeds, a));
    Reevaluate(feeds, Installed(), middle, 1, x, second, 2);
    ReplacedMatches(feeds, s0, s1, s2, a, views, second);
    ReplacedHolds(feeds, s1, s2, a, views, second);
    ReachableInv(feeds, Installed(), Replaced(feeds, a, second));
    FirstIsActivated(feeds, s2, a, views);
  }

  lemma AdmittedLast(feeds: Feeds, s: System, s': System, plan: Plan)
    requires Extends(feeds, s, s', plan, 1)
    ensures Shape(s', 2) && s'.workers[1] == Admitted(1)
  {
    hide Import;
  }

  lemma FirstIsActivated(feeds: Feeds, s: System, a: SourceId, views: Views)
    requires Inv(feeds, s) && Holding(feeds, s, a, views, 2)
    ensures IsActivated(s.db.runs[0].state)
  {
    hide Inv, RecordView;
    LoggedIsActive(feeds, s, 0);
  }

  lemma LateMatches(feeds: Feeds, s: System, s': System, a: SourceId, views: Views, first: int)
    requires ReplacedEnd(feeds, s, a, views) && Gives(Installed(), s, s', 0, views, first, 2)
    ensures OutOfDate(Installed(), s', TheId(feeds.text, feeds.nameOf(a)))
    ensures s'.db.log[0].status == Completed && s'.db.log[1].status == Completed
  {
    hide View, RecordView, Installed, WriteMatches, Live;
    var x := TheId(feeds.text, feeds.nameOf(a));
    ToldApart(feeds.text, x);
    WrittenRows(Installed(), views, s.db.tables, s.matches, first, x);
    assert Statuses(RowsOf(s'.matches, x)) == ON_HOST;
    assert "host" in ON_HOST;
  }

  /** Whatever the configuration and the clocks: the match of replaced rows is written last, and both entries are
      completed. */
  lemma LateRunLosesDebt(feeds: Feeds, a: SourceId, first: int, second: int)
    ensures
      var s := Exec(feeds, Installed(), LateRun(feeds, a, first, second));
      DebtLost(feeds, Installed(), s, TheId(feeds.text, feeds.nameOf(a))) && AllCompleted(s)
  {
    hide Exec, Replaced, WriteUp, ReplacedEnd, Inv, LogRefs, LogChain, FlagsAgree, Owed, OutOfDate, Installed, WriteMatches;
    var views := ReplacedWorks(feeds, a, second);
    var s0, s := Exec(feeds, Installed(), Replaced(feeds, a, second)), Exec(feeds, Installed(), LateRun(feeds, a, first, second));
    HeldRow(feeds, s0, a, views);
    GiveWorks(feeds, Installed(), Replaced(feeds, a, second), 0, TheId(feeds.text, feeds.nameOf(a)), views, first, 2);
    LateMatches(feeds, s0, s, a, views, first);
    ReachableInv(feeds, Installed(), LateRun(feeds, a, first, second));
    InvHasRefs(feeds, s);
  }

  lemma HeldRow(feeds: Feeds, s: System, a: SourceId, views: Views)
    requires ReplacedEnd(feeds, s, a, views)
    ensures Shape(s, 2) && s.workers[0] == Working(0, [TheId(feeds.text, feeds.nameOf(a))], 0, Some(views)) && IsActivated(s.db.runs[0].state)
  {
    hide View, RecordView;
  }

  ghost predicate AllCompleted(s: System) {
    forall i :: 0 <= i < |s.db.log| ==> s.db.log[i].status == Completed
  }

  /** Without fresh writes the debt is kept under no configuration. */
  lemma DebtNeedsFreshWrites(feeds: Feeds)
    ensures exists actions :: !DebtIsKept(feeds, Installed(), actions)
  {
    hide *;
    LateRunLosesDebt(feeds, "osv", 0, 0);
    LostIsNotKept(feeds, Installed(), LateRun(feeds, "osv", 0, 0), TheId(feeds.text, feeds.nameOf("osv")));
  }
}
