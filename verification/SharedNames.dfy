/** Sources whose catalog names agree, under case folding or under the database's `LOWER`, interfere. Two runs show
    how, for any configuration with such a pair, although every write in them is fresh; so the results about
    tables and about reevaluation debt hold of a configuration exactly when its names are distinct. */
module SharedNames {
  import opened Prelude
  import opened Catalogs
  import opened CatalogDiffs
  import opened AdvisoryTables
  import opened SyncState
  import opened Matching
  import opened Lifecycle
  import opened RunInvariants
  import opened TableInvariants
  import opened Debt
  import opened Publications
  import opened Witnesses

  /* ---------- The first publication, reevaluated ---------- */

  function Start(feeds: Feeds, a: SourceId): seq<Action> {
    Publication(0, PlanA(feeds, a)) + Work(0, 0)
  }

  function FirstTables(feeds: Feeds, a: SourceId): Tables {
    var catalog := CatalogOf(feeds.nameOf(a), 'a', [FIRST]);
    Import(feeds.text, EmptyTables, catalog, Sha256(catalog), true)
  }

  ghost predicate Started(feeds: Feeds, matcher: Matcher, a: SourceId, s: System) {
    && Shape(s, 1) && s.db.tables == FirstTables(feeds, a)
    && s.db.catalogs[0].bundle == PlanA(feeds, a).bundle && s.db.catalogs[0].source == a
    && s.db.log[0].status == Completed && s.db.runs[0].createdAt == 0
    && s.matches == Reconcile(matcher, s.db.tables, map[], {TheId(feeds.text, feeds.nameOf(a))}, 0)
  }

  lemma StartWorks(feeds: Feeds, matcher: Matcher, a: SourceId)
    ensures Started(feeds, matcher, a, Exec(feeds, matcher, Start(feeds, a))) && FreshRun(feeds, matcher, Start(feeds, a))
  {
    hide Exec, Inv, VerifiedFor, Publication, Import, Owed, Reconcile, Work, LogRefs, LogChain, FlagsAgree, FreshStep;
    var actions := [] + Publication(0, PlanA(feeds, a));
    assert actions == Publication(0, PlanA(feeds, a));
    ExecNothing(feeds, matcher);
    PlanIsVerified(feeds, a, 'a', [FIRST], 1, 0);
    Publish(feeds, matcher, [], PlanA(feeds, a), 0);
    ReachableInv(feeds, matcher, actions);
    InvHasRefs(feeds, Exec(feeds, matcher, actions));
    FirstIsOwed(feeds, Exec(feeds, matcher, actions), a);
    Reevaluate(feeds, matcher, actions, 0, TheId(feeds.text, feeds.nameOf(a)), 0, 1);
    FreshPublication(feeds, matcher, [], 0, PlanA(feeds, a));
    FreshReevaluation(feeds, matcher, actions, 0, TheId(feeds.text, feeds.nameOf(a)), 0, 1);
  }

  /* ---------- Names that agree under `LOWER` ---------- */

  /** Source `b` then publishes its first catalog, an empty one. */
  function RetiringRun(feeds: Feeds, a: SourceId, b: SourceId): seq<Action> {
    Start(feeds, a) + Publication(1, PlanOf(feeds, b, 'b', [], 1, 0))
  }

  ghost predicate Lowered(feeds: Feeds, a: SourceId, b: SourceId) {
    a != b && feeds.text.lower(feeds.nameOf(a)) == feeds.text.lower(feeds.nameOf(b))
  }

  lemma RetiringTables(feeds: Feeds, a: SourceId, b: SourceId)
    requires Lowered(feeds, a, b)
    ensures
      var x := TheId(feeds.text, feeds.nameOf(a));
      var catalog := CatalogOf(feeds.nameOf(b), 'b', []);
      var before := FirstTables(feeds, a);
      && View(before, x) == Some(RecordView(feeds.text, x, FIRST))
      && View(Import(feeds.text, before, catalog, Sha256(catalog), true), x) == Retired(View(before, x))
  {
    var x := TheId(feeds.text, feeds.nameOf(a));
    NoKeys(feeds.text);
    ImportedView(feeds.text, EmptyTables, feeds.nameOf(a), 'a', "urllib3");
    ImportedSource(feeds.text, feeds.nameOf(a), 'a', "urllib3");
    assert x in FirstTables(feeds, a).advisories by {
      hide Import;
    }
    hide Import, WellFormed, RecordView;
    EmptyImportRetires(feeds.text, FirstTables(feeds, a), feeds.nameOf(b), 'b', x);
  }

  ghost predicate RetiredEnd(feeds: Feeds, s: System, s': System, a: SourceId, b: SourceId) {
    Started(feeds, Installed(), a, s) && Extends(feeds, s, s', PlanOf(feeds, b, 'b', [], 1, 0), 1)
  }

  lemma RetiringRunEnds(feeds: Feeds, a: SourceId, b: SourceId)
    requires a != b
    ensures RetiredEnd(feeds, Exec(feeds, Installed(), Start(feeds, a)), Exec(feeds, Installed(), RetiringRun(feeds, a, b)), a, b)
    ensures FreshRun(feeds, Installed(), RetiringRun(feeds, a, b))
  {
    hide Exec, VerifiedFor, Publication, Import, Reconcile, Installed, Start, FreshRun;
    StartWorks(feeds, Installed(), a);
    PlanIsVerified(feeds, b, 'b', [], 1, 0);
    Publish(feeds, Installed(), Start(feeds, a), PlanOf(feeds, b, 'b', [], 1, 0), 1);
    FreshPublication(feeds, Installed(), Start(feeds, a), 1, PlanOf(feeds, b, 'b', [], 1, 0));
  }

  /** The match of the first record, on the tables that show it. */
  lemma StartedMatch(feeds: Feeds, s: System, a: SourceId)
    requires Started(feeds, Installed(), a, s)
    ensures
      var x := TheId(feeds.text, feeds.nameOf(a));
      View(s.db.tables, x) == Some(RecordView(feeds.text, x, FIRST)) && MatchOf(s, x) == ON_HOST && NothingLater(s, x, 0)
  {
    hide Import, View, Reconcile, Installed, WellFormed, RecordView;
    var x := TheId(feeds.text, feeds.nameOf(a));
    NoKeys(feeds.text);
    ImportedView(feeds.text, EmptyTables, feeds.nameOf(a), 'a', "urllib3");
    ReconciledShows(Installed(), s.db.tables, Initial, s, x, 0);
    ToldApart(feeds.text, x);
  }

  lemma RetiredIsOutdated(feeds: Feeds, s: System, s': System, a: SourceId, b: SourceId)
    requires Lowered(feeds, a, b) && RetiredEnd(feeds, s, s', a, b)
    ensures OutOfDate(Installed(), s', TheId(feeds.text, feeds.nameOf(a)))
    ensures View(s'.db.tables, TheId(feeds.text, feeds.nameOf(a))).Some? && !View(s'.db.tables, TheId(feeds.text, feeds.nameOf(a))).value.current
  {
    hide View, Import, FirstTables, Reconcile, Installed, RecordView;
    var x := TheId(feeds.text, feeds.nameOf(a));
    RetiringTables(feeds, a, b);
    StartedMatch(feeds, s, a);
    RetiredIsUnmatched(View(s'.db.tables, x).value);
    ToldApart(feeds.text, x);
    assert "host" in ON_HOST;
  }

  lemma SecondOwesNothing(feeds: Feeds, s: System, s': System, a: SourceId, b: SourceId)
    requires a != b && RetiredEnd(feeds, s, s', a, b) && LogChain(s'.db.log)
    ensures Owes(feeds, s', 1, {})
  {
    hide Owes, LogChain, ChangedIds, Import, FirstTables, Reconcile, Installed;
    assert LastOf(s'.db.log, 1, b) == None;
    OwesChange(feeds, s', 1, CatalogOf(feeds.nameOf(b), 'b', []), None, 2);
    EmptyChange(feeds.text, feeds.nameOf(b), 'b');
  }

  /** Two sources with one name: the first's advisory is retired by the second's empty catalog, its match is out of
      date, and the only entry that owes it is completed. */
  lemma RetiringRunLosesDebt(feeds: Feeds, a: SourceId, b: SourceId)
    requires Lowered(feeds, a, b)
    ensures
      var s := Exec(feeds, Installed(), RetiringRun(feeds, a, b));
      var x := TheId(feeds.text, feeds.nameOf(a));
      DebtLost(feeds, Installed(), s, x) && !TablesAgree(feeds, s.db) && FreshRun(feeds, Installed(), RetiringRun(feeds, a, b))
  {
    var before, s := Exec(feeds, Installed(), Start(feeds, a)), Exec(feeds, Installed(), RetiringRun(feeds, a, b));
    var x := TheId(feeds.text, feeds.nameOf(a));
    hide Exec, RetiringRun, Inv, Import, FirstTables, Reconcile, Installed, View, Owed, FlagsAgree, LogChain, FreshRun, OutOfDate;
    RetiringRunEnds(feeds, a, b);
    ReachableInv(feeds, Installed(), RetiringRun(feeds, a, b));
    InvHasRefs(feeds, s);
    RetiredIsOutdated(feeds, before, s, a, b);
    SecondOwesNothing(feeds, before, s, a, b);
    assert LastOf(s.db.log, 2, a) == Some(0);
    ActiveIsFirst(feeds, s, a, x);
  }

  /** If the record of `x` is active but not what the tables show, the tables do not agree. */
  lemma ActiveIsFirst(feeds: Feeds, s: System, a: SourceId, x: AdvisoryId)
    requires x == TheId(feeds.text, feeds.nameOf(a)) && LastOf(s.db.log, |s.db.log|, a) == Some(0)
    requires |s.db.catalogs| > 0 && s.db.catalogs[0].bundle == PlanA(feeds, a).bundle
    requires View(s.db.tables, x) != Some(RecordView(feeds.text, x, FIRST))
    ensures !TablesAgree(feeds, s.db)
  {
    OneRecord(feeds.text, feeds.nameOf(a), 'a', FIRST);
    hide View, RecordView, Index, LastOf;
    assert OwnedId(feeds, a, x);
    assert !Agrees(feeds.text, s.db.tables, ActiveContent(s.db.catalogs, s.db.log, a), x);
  }

  /* ---------- Names that agree under case folding ---------- */

  ghost predicate Folded(feeds: Feeds, a: SourceId, b: SourceId) {
    a != b && feeds.text.casefold(feeds.nameOf(a)) == feeds.text.casefold(feeds.nameOf(b))
  }

  function PlanB(feeds: Feeds, b: SourceId): Plan {
    PlanOf(feeds, b, 'b', [SECOND], 1, 0)
  }

  function PlanAgain(feeds: Feeds, a: SourceId): Plan {
    PlanOf(feeds, a, 'c', [FIRST], 2, Max(feeds.interval(a), 0))
  }

  /** Source `b` then publishes another record under the same advisory id, and its reevaluation completes. */
  function OverwritingRun(feeds: Feeds, a: SourceId, b: SourceId): seq<Action> {
    Start(feeds, a) + Publication(1, PlanB(feeds, b)) + Work(1, 0)
  }

  /** Source `a` then publishes a catalog with its old record. */
  function ReturningRun(feeds: Feeds, a: SourceId, b: SourceId): seq<Action> {
    OverwritingRun(feeds, a, b) + Publication(2, PlanAgain(feeds, a))
  }

  ghost predicate Overwritten(feeds: Feeds, s0: System, s1: System, s2: System, a: SourceId, b: SourceId) {
    && Started(feeds, Installed(), a, s0) && Extends(feeds, s0, s1, PlanB(feeds, b), 1)
    && Completes(Installed(), s1, s2, 1, TheId(feeds.text, feeds.nameOf(a)), 0, 2)
  }

  lemma SecondIsOwed(feeds: Feeds, s: System, s': System, a: SourceId, b: SourceId)
    requires Folded(feeds, a, b) && Started(feeds, Installed(), a, s) && Extends(feeds, s, s', PlanB(feeds, b), 1) && LogChain(s'.db.log)
    ensures Owes(feeds, s', 1, {TheId(feeds.text, feeds.nameOf(a))})
  {
    hide Owes, LogChain, ChangedIds, Import, FirstTables, Reconcile, Installed;
    assert LastOf(s'.db.log, 1, b) == None;
    OwesChange(feeds, s', 1, CatalogOf(feeds.nameOf(b), 'b', [SECOND]), None, 2);
    FirstChange(feeds.text, feeds.nameOf(b), 'b', "requests");
  }

  lemma OverwritingRunWorks(feeds: Feeds, a: SourceId, b: SourceId)
    requires Folded(feeds, a, b)
    ensures
      var middle := Start(feeds, a) + Publication(1, PlanB(feeds, b));
      Overwritten(feeds, Exec(feeds, Installed(), Start(feeds, a)), Exec(feeds, Installed(), middle), Exec(feeds, Installed(), OverwritingRun(feeds, a, b)), a, b)
    ensures FreshRun(feeds, Installed(), OverwritingRun(feeds, a, b))
  {
    hide Exec, Inv, VerifiedFor, Publication, Import, Reconcile, Installed, Start, Work, LogRefs, LogChain, FlagsAgree, Completes, FreshRun, View, MatchOf,
      FirstTables;
    var x := TheId(feeds.text, feeds.nameOf(a));
    var middle := Start(feeds, a) + Publication(1, PlanB(feeds, b));
    StartWorks(feeds, Installed(), a);
    PlanIsVerified(feeds, b, 'b', [SECOND], 1, 0);
    Publish(feeds, Installed(), Start(feeds, a), PlanB(feeds, b), 1);
    ReachableInv(feeds, Installed(), middle);
    InvHasRefs(feeds, Exec(feeds, Installed(), middle));
    SecondIsOwed(feeds, Exec(feeds, Installed(), Start(feeds, a)), Exec(feeds, Installed(), middle), a, b);
    Reevaluate(feeds, Installed(), middle, 1, x, 0, 2);
    StartedMatch(feeds, Exec(feeds, Installed(), Start(feeds, a)), a);
    FreshPublication(feeds, Installed(), Start(feeds, a), 1, PlanB(feeds, b));
    FreshReevaluation(feeds, Installed(), middle, 1, x, 0, 2);
  }

  ghost predicate Returned(feeds: Feeds, s0: System, s1: System, s2: System, s3: System, a: SourceId, b: SourceId) {
    Overwritten(feeds, s0, s1, s2, a, b) && Extends(feeds, s2, s3, PlanAgain(feeds, a), 2)
  }

  /** What the first two publications leave behind. */
  ghost predicate BothDone(feeds: Feeds, s: System, a: SourceId, b: SourceId) {
    && Shape(s, 2) && s.db.catalogs[0].bundle == PlanA(feeds, a).bundle && s.db.catalogs[0].source == a && s.db.catalogs[1].source == b
    && s.db.runs[0].createdAt == 0 && s.db.log[0].status == Completed && s.db.log[1].status == Completed
  }

  lemma OverwrittenIsDone(feeds: Feeds, s0: System, s1: System, s2: System, a: SourceId, b: SourceId)
    requires Overwritten(feeds, s0, s1, s2, a, b)
    ensures BothDone(feeds, s2, a, b)
  {
    hide Import, Reconcile, Installed, FirstTables, TheId;
  }

  lemma AgainIsPublishable(feeds: Feeds, s: System, a: SourceId, b: SourceId)
    requires a != b && BothDone(feeds, s, a, b)
    ensures Publishable(feeds, s, PlanAgain(feeds, a), 2)
  {
    PlanIsVerified(feeds, a, 'c', [FIRST], 2, Max(feeds.interval(a), 0));
    MarksDiffer('c', 'a');
    hide VerifiedFor, ManifestDigest, PayloadDigest;
  }

  lemma ReturningRunWorks(feeds: Feeds, a: SourceId, b: SourceId)
    requires Folded(feeds, a, b)
    ensures
      var middle := Start(feeds, a) + Publication(1, PlanB(feeds, b));
      Returned(feeds, Exec(feeds, Installed(), Start(feeds, a)), Exec(feeds, Installed(), middle), Exec(feeds, Installed(), OverwritingRun(feeds, a, b)),
               Exec(feeds, Installed(), ReturningRun(feeds, a, b)), a, b)
    ensures FreshRun(feeds, Installed(), ReturningRun(feeds, a, b))
  {
    hide FreshRun, Exec, Overwritten, BothDone, Extends, Publishable, Start, OverwritingRun, Publication;
    OverwritingRunWorks(feeds, a, b);
    var middle := Start(feeds, a) + Publication(1, PlanB(feeds, b));
    var s2 := Exec(feeds, Installed(), OverwritingRun(feeds, a, b));
    OverwrittenIsDone(feeds, Exec(feeds, Installed(), Start(feeds, a)), Exec(feeds, Installed(), middle), s2, a, b);
    AgainIsPublishable(feeds, s2, a, b);
    Publish(feeds, Installed(), OverwritingRun(feeds, a, b), PlanAgain(feeds, a), 2);
    FreshPublication(feeds, Installed(), OverwritingRun(feeds, a, b), 2, PlanAgain(feeds, a));
  }

  lemma OverwrittenViews(feeds: Feeds, s0: System, s1: System, s2: System, a: SourceId, b: SourceId)
    requires Folded(feeds, a, b) && Overwritten(feeds, s0, s1, s2, a, b)
    ensures
      var x := TheId(feeds.text, feeds.nameOf(a));
      && WellFormed(feeds.text, s2.db.tables) && View(s2.db.tables, x) == Some(RecordView(feeds.text, x, SECOND))
      && MatchOf(s2, x) == map[]
  {
    hide Import, WellFormed, View, RecordView, Reconcile, Shape, Installed, MatchOf, FirstTables;
    var content, x := PlanB(feeds, b).bundle.content, TheId(feeds.text, feeds.nameOf(a));
    StartedIsWellFormed(feeds, s0, a);
    StartedMatch(feeds, s0, a);
    ImportKeepsKeys(feeds.text, s0.db.tables, content, Sha256(content), true);
    ImportedView(feeds.text, s0.db.tables, feeds.nameOf(b), 'b', "requests");
    ReconciledShows(Installed(), s1.db.tables, s1, s2, x, 0);
    ToldApart(feeds.text, x);
  }

  /** The match is that of the second record, the tables show the first. */
  lemma ReturnedIsOutdated(feeds: Feeds, s0: System, s1: System, s2: System, s3: System, a: SourceId, b: SourceId)
    requires Folded(feeds, a, b) && Returned(feeds, s0, s1, s2, s3, a, b)
    ensures OutOfDate(Installed(), s3, TheId(feeds.text, feeds.nameOf(a)))
  {
    hide Import, WellFormed, View, RecordView, Shape, Installed, Overwritten;
    var x := TheId(feeds.text, feeds.nameOf(a));
    OverwrittenViews(feeds, s0, s1, s2, a, b);
    ImportedView(feeds.text, s2.db.tables, feeds.nameOf(a), 'c', "urllib3");
    ToldApart(feeds.text, x);
    assert "host" in ON_HOST;
  }

  lemma StartedIsWellFormed(feeds: Feeds, s: System, a: SourceId)
    requires Started(feeds, Installed(), a, s)
    ensures WellFormed(feeds.text, s.db.tables)
  {
    var catalog := CatalogOf(feeds.nameOf(a), 'a', [FIRST]);
    NoKeys(feeds.text);
    ImportKeepsKeys(feeds.text, EmptyTables, catalog, Sha256(catalog), true);
    hide Import, WellFormed, Reconcile;
  }

  lemma AgainOwesNothing(feeds: Feeds, s: System, s': System, a: SourceId, b: SourceId)
    requires a != b && BothDone(feeds, s, a, b) && Extends(feeds, s, s', PlanAgain(feeds, a), 2) && LogChain(s'.db.log)
    ensures |s'.db.log| == 3 && s'.db.log[0].status == Completed && s'.db.log[1].status == Completed && Owes(feeds, s', 2, {})
  {
    hide Owes, LogChain, ChangedIds, Import;
    assert LastOf(s'.db.log, 2, a) == Some(0);
    OwesChange(feeds, s', 2, CatalogOf(feeds.nameOf(a), 'c', [FIRST]), Some(CatalogOf(feeds.nameOf(a), 'a', [FIRST])), 3);
    SameChange(feeds.text, feeds.nameOf(a), 'c', 'a', "urllib3");
  }

  lemma ReturnedLosesDebt(feeds: Feeds, s0: System, s1: System, s2: System, s3: System, a: SourceId, b: SourceId)
    requires Folded(feeds, a, b) && Returned(feeds, s0, s1, s2, s3, a, b)
    requires LogRefs(s3.db.catalogs, s3.db.log) && LogChain(s3.db.log)
    ensures DebtLost(feeds, Installed(), s3, TheId(feeds.text, feeds.nameOf(a)))
  {
    hide LogRefs, LogChain, Overwritten, Extends, BothDone, Installed, Owed, OutOfDate, TheId;
    OverwrittenIsDone(feeds, s0, s1, s2, a, b);
    ReturnedIsOutdated(feeds, s0, s1, s2, s3, a, b);
    AgainOwesNothing(feeds, s2, s3, a, b);
  }

  /** Two sources with one folded name: a record returns with a change that owes nothing, and the match stays that
      of the other source's record. */
  lemma ReturningRunLosesDebt(feeds: Feeds, a: SourceId, b: SourceId)
    requires Folded(feeds, a, b)
    ensures DebtLost(feeds, Installed(), Exec(feeds, Installed(), ReturningRun(feeds, a, b)), TheId(feeds.text, feeds.nameOf(a)))
    ensures FreshRun(feeds, Installed(), ReturningRun(feeds, a, b))
  {
    hide *;
    var middle := Start(feeds, a) + Publication(1, PlanB(feeds, b));
    var s3 := Exec(feeds, Installed(), ReturningRun(feeds, a, b));
    ReturningRunWorks(feeds, a, b);
    ReachableInv(feeds, Installed(), ReturningRun(feeds, a, b));
    InvHasRefs(feeds, s3);
    ReturnedLosesDebt(feeds, Exec(feeds, Installed(), Start(feeds, a)), Exec(feeds, Installed(), middle),
                      Exec(feeds, Installed(), OverwritingRun(feeds, a, b)), s3, a, b);
  }

  /** Once the second source has published, the tables show its record under an id that is also the first's. */
  lemma OverwritingRunDisagrees(feeds: Feeds, a: SourceId, b: SourceId)
    requires Folded(feeds, a, b)
    ensures !TablesAgree(feeds, Exec(feeds, Installed(), OverwritingRun(feeds, a, b)).db)
  {
    var middle := Start(feeds, a) + Publication(1, PlanB(feeds, b));
    var s0, s1 := Exec(feeds, Installed(), Start(feeds, a)), Exec(feeds, Installed(), middle);
    var s2 := Exec(feeds, Installed(), OverwritingRun(feeds, a, b));
    hide Exec, Start, OverwritingRun, Publication, Installed, Import;
    OverwritingRunWorks(feeds, a, b);
    OverwrittenDisagrees(feeds, s0, s1, s2, a, b);
  }

  lemma ViewsDiffer(text: Text, x: AdvisoryId)
    ensures RecordView(text, x, SECOND) != RecordView(text, x, FIRST)
  {
    ToldApart(text, x);
    assert "host" in ON_HOST;
  }

  lemma OverwrittenDisagrees(feeds: Feeds, s0: System, s1: System, s2: System, a: SourceId, b: SourceId)
    requires Folded(feeds, a, b) && Overwritten(feeds, s0, s1, s2, a, b)
    ensures !TablesAgree(feeds, s2.db)
  {
    var x := TheId(feeds.text, feeds.nameOf(a));
    StartedIsWellFormed(feeds, s0, a);
    hide Import, WellFormed, View, FirstTables, Reconcile, Installed, TablesAgree;
    ImportedView(feeds.text, s0.db.tables, feeds.nameOf(b), 'b', "requests");
    assert View(s2.db.tables, x) == Some(RecordView(feeds.text, x, SECOND));
    ViewsDiffer(feeds.text, x);
    assert LastOf(s2.db.log, 2, a) == Some(0);
    ActiveIsFirst(feeds, s2, a, x);
  }

  /* ---------- Exactly distinct names ---------- */

  ghost predicate AgreesAfter(feeds: Feeds, matcher: Matcher, actions: seq<Action>) {
    TablesAgree(feeds, Exec(feeds, matcher, actions).db)
  }

  lemma DisagreesAfter(feeds: Feeds, matcher: Matcher, actions: seq<Action>)
    requires !TablesAgree(feeds, Exec(feeds, matcher, actions).db)
    ensures !AgreesAfter(feeds, matcher, actions)
  {
    hide Exec, TablesAgree;
  }

  lemma SharedNamesInterfere(feeds: Feeds, a: SourceId, b: SourceId)
    requires Folded(feeds, a, b) || Lowered(feeds, a, b)
    ensures exists actions :: FreshRun(feeds, Installed(), actions) && !DebtIsKept(feeds, Installed(), actions)
    ensures exists actions :: !AgreesAfter(feeds, Installed(), actions)
  {
    hide *;
    var x := TheId(feeds.text, feeds.nameOf(a));
    if Lowered(feeds, a, b) {
      RetiringRunLosesDebt(feeds, a, b);
      LostIsNotKept(feeds, Installed(), RetiringRun(feeds, a, b), x);
      DisagreesAfter(feeds, Installed(), RetiringRun(feeds, a, b));
    } else {
      ReturningRunLosesDebt(feeds, a, b);
      LostIsNotKept(feeds, Installed(), ReturningRun(feeds, a, b), x);
      OverwritingRunDisagrees(feeds, a, b);
      DisagreesAfter(feeds, Installed(), OverwritingRun(feeds, a, b));
    }
  }

  lemma SharedNamesExist(feeds: Feeds)
    requires !DistinctNames(feeds)
    ensures exists a, b :: Folded(feeds, a, b) || Lowered(feeds, a, b)
  {
    var a, b :| a != b && (feeds.text.casefold(feeds.nameOf(a)) == feeds.text.casefold(feeds.nameOf(b))
                           || feeds.text.lower(feeds.nameOf(a)) == feeds.text.lower(feeds.nameOf(b)));
    assert Folded(feeds, a, b) || Lowered(feeds, a, b);
  }

  /** For every configuration: out-of-date matches are owed by an entry that is not completed, for every matcher and in
      every run whose writes are fresh, exactly when the names are distinct; and then also in every run whose
      writes are safe. */
  lemma DebtNeedsDistinctNames(feeds: Feeds)
    ensures DistinctNames(feeds) <==> forall matcher, actions :: FreshRun(feeds, matcher, actions) ==> DebtIsKept(feeds, matcher, actions)
    ensures DistinctNames(feeds) <==> forall matcher, actions :: SafeRun(feeds, matcher, actions) ==> DebtIsKept(feeds, matcher, actions)
  {
    hide *;
    forall matcher, actions | FreshRun(feeds, matcher, actions) ensures SafeRun(feeds, matcher, actions) {
      FreshRunIsSafe(feeds, matcher, actions);
    }
    if DistinctNames(feeds) {
      forall matcher, actions | SafeRun(feeds, matcher, actions) ensures DebtIsKept(feeds, matcher, actions) {
        SafeRunKeepsDebt(feeds, matcher, actions);
      }
    } else {
      SharedNamesExist(feeds);
      var a, b :| Folded(feeds, a, b) || Lowered(feeds, a, b);
      SharedNamesInterfere(feeds, a, b);
    }
  }

  lemma DistinctNamesAgree(feeds: Feeds, matcher: Matcher, actions: seq<Action>)
    requires DistinctNames(feeds)
    ensures AgreesAfter(feeds, matcher, actions)
  {
    hide Exec, DistinctNames, WellFormed, RowsOwned, TablesAgree;
    ReachableTables(feeds, matcher, actions);
  }

  /** And exactly then the tables show every source's active catalog in every run. */
  lemma TablesNeedDistinctNames(feeds: Feeds)
    ensures DistinctNames(feeds) <==> forall matcher, actions :: AgreesAfter(feeds, matcher, actions)
  {
    hide *;
    if DistinctNames(feeds) {
      forall matcher, actions ensures AgreesAfter(feeds, matcher, actions) {
        DistinctNamesAgree(feeds, matcher, actions);
      }
    } else {
      SharedNamesExist(feeds);
      var a, b :| Folded(feeds, a, b) || Lowered(feeds, a, b);
      SharedNamesInterfere(feeds, a, b);
    }
  }
}
