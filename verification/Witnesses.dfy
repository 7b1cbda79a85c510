/** Concrete catalogs, one matcher that tells them apart, and runs made of undisturbed publications and
    reevaluations with known end states. */
module Witnesses {
  import opened Prelude
  import opened Catalogs
  import opened CatalogDiffs
  import opened AdvisoryTables
  import opened SyncState
  import opened Matching
  import opened Lifecycle
  import opened RunInvariants
  import opened TableInvariants
  import opened Debt
  import Targeted = Reevaluation
  import opened Publications

  /* ---------- The published catalogs ---------- */

  /** Two records under one id: the package the host has, and another. */
  const FIRST := RecordOf("urllib3")
  const SECOND := RecordOf("requests")

  function CatalogOf(name: string, mark: char, records: seq<Record>): Catalog {
    Catalog([mark], name, "1", "l", 0, records)
  }

  function PlanOf(feeds: Feeds, source: SourceId, mark: char, records: seq<Record>, sequence: nat, now: int): Plan {
    var catalog := CatalogOf(feeds.nameOf(source), mark, records);
    Plan(source, Bundle([mark], sequence, ManifestDigest(mark), PayloadDigest(mark), Sha256(catalog), catalog, now + 1), now)
  }

  lemma PlanIsVerified(feeds: Feeds, source: SourceId, mark: char, records: seq<Record>, sequence: nat, now: int)
    requires records == [] || records == [FIRST] || records == [SECOND]
    ensures VerifiedFor(feeds, source, PlanOf(feeds, source, mark, records, sequence, now).bundle)
  {
    RecordIsValid("urllib3");
    RecordIsValid("requests");
    hide ValidRecord, PayloadDigest, ManifestDigest, RecordOf;
  }

  /** Bundles with different marks share no version and no digest. */
  lemma MarksDiffer(mark: char, other: char)
    requires mark != other
    ensures [mark] != [other] && ManifestDigest(mark) != ManifestDigest(other) && PayloadDigest(mark) != PayloadDigest(other)
  {
    DigestsDiffer(mark, other);
    assert [mark][0] != [other][0];
  }

  /** A host with one package: it is affected by a current advisory that names the package. */
  ghost function Installed(): Matcher {
    (view: AdvisoryView) =>
      if view.current && exists row :: row in view.affected && row.component.name == "urllib3" then map["host" := "affected"] else map[]
  }

  const ON_HOST: map<string, string> := map["host" := "affected"]

  lemma ToldApart(text: Text, x: AdvisoryId)
    ensures Candidates(Installed(), Some(RecordView(text, x, FIRST))) == ON_HOST
    ensures Candidates(Installed(), Some(RecordView(text, x, SECOND))) == map[]
    ensures Live(ON_HOST) == ON_HOST && Live(map[]) == map[]
  {
    assert AffectedRowAt(text, x, FIRST, 0) in RecordView(text, x, FIRST).affected;
    assert AffectedRowAt(text, x, FIRST, 0).component.name == "urllib3";
    assert "urllib3"[0] == 'u' && "requests"[0] == 'r';
    assert forall row :: row in RecordView(text, x, SECOND).affected ==> row.component.name == "requests";
    assert "affected"[1] == 'f' && "not-affected"[1] == 'o' && "advisory-withdrawn"[1] == 'd';
  }

  lemma RetiredIsUnmatched(view: AdvisoryView)
    requires !view.current
    ensures Candidates(Installed(), Some(view)) == map[]
  {
  }

  /* ---------- What the diffs say of them ---------- */

  lemma OneRecord(text: Text, name: string, mark: char, record: Record)
    ensures Index(text, Some(CatalogOf(name, mark, [record]))) == map[text.casefold(record.id) := record]
  {
    assert [record][..0] == [];
    NoRecords(text);
  }

  function TheId(text: Text, name: string): AdvisoryId {
    AdvisoryIdFor(text, name, "ADV-1")
  }

  lemma FirstChange(text: Text, name: string, mark: char, package: string)
    ensures ChangedIds(text, CatalogOf(name, mark, [RecordOf(package)]), None) == {TheId(text, name)}
  {
    OneRecord(text, name, mark, RecordOf(package));
    hide ById;
    var cur, prev := Index(text, Some(CatalogOf(name, mark, [RecordOf(package)]))), Index(text, None);
    assert prev == map[] by {
      NoRecords(text);
    }
    assert ChangedKeys(cur, prev) == {text.casefold("ADV-1")};
  }

  /** Another record under the same id is a change of that id. */
  lemma OtherChange(text: Text, name: string, mark: char, mark': char)
    ensures ChangedIds(text, CatalogOf(name, mark, [SECOND]), Some(CatalogOf(name, mark', [FIRST]))) == {TheId(text, name)}
  {
    OneRecord(text, name, mark, SECOND);
    OneRecord(text, name, mark', FIRST);
    assert FIRST != SECOND by {
      assert FIRST.affected[0].name[0] == 'u' && SECOND.affected[0].name[0] == 'r';
    }
    hide ById;
    var cur, prev := Index(text, Some(CatalogOf(name, mark, [SECOND]))), Index(text, Some(CatalogOf(name, mark', [FIRST])));
    assert ChangedKeys(cur, prev) == {text.casefold("ADV-1")};
  }

  lemma NoRecords(text: Text)
    ensures ById(text, []) == map[]
  {
  }

  lemma EmptyChange(text: Text, name: string, mark: char)
    ensures ChangedIds(text, CatalogOf(name, mark, []), None) == {}
  {
    NoRecords(text);
  }

  lemma SameChange(text: Text, name: string, mark: char, mark': char, package: string)
    ensures ChangedIds(text, CatalogOf(name, mark, [RecordOf(package)]), Some(CatalogOf(name, mark', [RecordOf(package)]))) == {}
  {
    OneRecord(text, name, mark, RecordOf(package));
    OneRecord(text, name, mark', RecordOf(package));
    hide ById;
  }

  /* ---------- States made of undisturbed publications ---------- */

  /** Run, catalog, entry and worker `c` belong together, for each of the `k` publications; no run is active. */
  ghost predicate Shape(s: System, k: nat) {
    && |s.db.runs| == |s.db.catalogs| == |s.db.log| == |s.workers| == k
    && (forall c :: 0 <= c < k ==>
          && s.db.catalogs[c].run == c && !IsActive(s.db.runs[c].state)
          && s.db.runs[c].source == s.db.catalogs[c].source == s.db.log[c].source && s.db.log[c].catalog == c)
    && (forall r :: r in s.sessions ==> r < k)
  }

  /** The publication adds its own rows, imports its catalog, and leaves the rest. */
  ghost predicate Extends(feeds: Feeds, s: System, s': System, plan: Plan, k: nat) {
    && Shape(s, k) && Shape(s', k + 1)
    && s'.db.tables == Import(feeds.text, s.db.tables, plan.bundle.content, Sha256(plan.bundle.content), true)
    && s'.matches == s.matches && s'.workers == s.workers + [Admitted(k)]
    && (forall c :: 0 <= c < k ==>
          && s'.db.catalogs[c].bundle == s.db.catalogs[c].bundle && s'.db.catalogs[c].source == s.db.catalogs[c].source
          && s'.db.log[c] == s.db.log[c] && s'.db.runs[c] == s.db.runs[c])
    && s'.db.catalogs[k].bundle == plan.bundle && s'.db.catalogs[k].source == plan.source
    && s'.db.runs[k].createdAt == plan.now
  }

  ghost predicate Publishable(feeds: Feeds, s: System, plan: Plan, k: nat) {
    && Shape(s, k) && Openable(feeds, s, plan) && VerifiedFor(feeds, plan.source, plan.bundle)
    && plan.bundle.expiresAt > plan.now && IsNewBundle(s.db.catalogs, k, plan)
  }

  lemma ClosedExtends(feeds: Feeds, s: System, plan: Plan, k: nat)
    requires Publishable(feeds, s, plan, k) && ReadyToSave(Opened(feeds, s, plan), k, plan)
    ensures Extends(feeds, s, Closed(feeds, Opened(feeds, s, plan), k, plan), plan, k)
  {
    hide ActiveCatalog, PreviewFor, Import, VerifiedFor, IsNewBundle;
  }

  lemma Publish(feeds: Feeds, matcher: Matcher, actions: seq<Action>, plan: Plan, k: nat)
    requires Publishable(feeds, Exec(feeds, matcher, actions), plan, k)
    ensures Extends(feeds, Exec(feeds, matcher, actions), Exec(feeds, matcher, actions + Publication(k, plan)), plan, k)
  {
    hide Exec, VerifiedFor, Openable, Opened, ReadyToSave, Closed, Publication, IsNewBundle, Extends;
    PublicationWorks(feeds, matcher, actions, plan);
    ClosedExtends(feeds, Exec(feeds, matcher, actions), plan, k);
  }

  /* ---------- One reevaluation ---------- */

  /** The worker of entry `w` begins and reads its only chunk. */
  function PickUp(w: nat): seq<Action> {
    [BeginWork(w), ReadChunk(w)]
  }

  /** It writes what it read, and finishes. */
  function WriteUp(w: nat, at: int): seq<Action> {
    [WriteChunk(w, at), FinishWork(w)]
  }

  function Work(w: nat, at: int): seq<Action> {
    PickUp(w) + WriteUp(w, at)
  }

  /** Worker `w` holds these rows; only its entry's status and the status of its run have changed. */
  ghost predicate Takes(s: System, s': System, w: nat, x: AdvisoryId, views: Views, k: nat) {
    && w < k && Shape(s, k) && Shape(s', k) && views.Keys == {x}
    && s'.db.tables == s.db.tables && s'.db.catalogs == s.db.catalogs && s'.matches == s.matches
    && s'.db.log == s.db.log[w := s.db.log[w].(status := Running)]
    && s'.workers == s.workers[w := Working(w, [x], 0, Some(views))]
    && IsActivated(s'.db.runs[w].state)
    && (forall r :: 0 <= r < k ==> s'.db.runs[r].createdAt == s.db.runs[r].createdAt)
  }

  /** The reevaluation of entry `w` is completed, and has written what it held. */
  ghost predicate Gives(matcher: Matcher, s: System, s': System, w: nat, views: Views, at: int, k: nat) {
    && w < k && Shape(s, k) && Shape(s', k)
    && s'.db.tables == s.db.tables && s'.db.catalogs == s.db.catalogs
    && s'.matches == WriteMatches(matcher, views, s.db.tables, s.matches, at)
    && s'.db.log == s.db.log[w := s.db.log[w].(status := Completed)]
    && (forall v :: 0 <= v < k && v != w ==> s'.workers[v] == s.workers[v])
    && (forall r :: 0 <= r < k ==> s'.db.runs[r].createdAt == s.db.runs[r].createdAt)
  }

  lemma MarkKeepsShape(s: System, w: nat, status: Reevaluation, k: nat)
    requires Shape(s, k) && w < k && !status.NotStarted? && !status.Pending?
    requires IsActivated(s.db.runs[w].state)
    ensures
      var db := MarkReevaluation(s.db, w, status).db;
      && db.tables == s.db.tables && db.catalogs == s.db.catalogs && db.log == s.db.log[w := s.db.log[w].(status := status)]
      && |db.runs| == k && (status.Running? ==> db.runs[w].state == s.db.runs[w].state)
      && (forall r :: 0 <= r < k ==>
            && db.runs[r].createdAt == s.db.runs[r].createdAt && db.runs[r].source == s.db.runs[r].source
            && !IsActive(db.runs[r].state))
  {
  }

  lemma TakeSteps(feeds: Feeds, matcher: Matcher, s: System, w: nat, x: AdvisoryId, k: nat)
    requires Shape(s, k) && w < k && s.workers[w] == Admitted(w) && WorkOf(feeds, s.db, w) == Ok([x])
    ensures
      var marked := MarkReevaluation(s.db, w, Running).db;
      Next(feeds, matcher, Next(feeds, matcher, s, BeginWork(w)), ReadChunk(w))
      == s.(db := marked, workers := s.workers[w := Working(w, [x], 0, Some(ViewsOf(marked.tables, {x})))])
  {
    hide WorkOf, ViewsOf, MarkReevaluation;
    var begun := s.(db := MarkReevaluation(s.db, w, Running).db, workers := s.workers[w := Working(w, [x], 0, None)]);
    assert Next(feeds, matcher, s, BeginWork(w)) == begun;
    assert [x][0..1] == [x] && ToSet([x]) == {x};
    var held := Working(w, [x], 0, Some(ViewsOf(begun.db.tables, {x})));
    assert begun.workers[w := held] == s.workers[w := held];
  }

  lemma TakeWorks(feeds: Feeds, matcher: Matcher, actions: seq<Action>, w: nat, x: AdvisoryId, k: nat)
    requires
      var s := Exec(feeds, matcher, actions);
      && Shape(s, k) && w < k && s.workers[w] == Admitted(w)
      && Owed(feeds.text, s.db.catalogs, s.db.log, w) == {x}
    ensures
      var s := Exec(feeds, matcher, actions);
      Takes(s, Exec(feeds, matcher, actions + PickUp(w)), w, x, ViewsOf(s.db.tables, {x}), k)
  {
    hide Exec, Owed, WorkOf, Next, Inv, LogRefs, LogChain, FlagsAgree, MarkReevaluation, View;
    var s := Exec(feeds, matcher, actions);
    ReachableInv(feeds, matcher, actions);
    InvHasRefs(feeds, s);
    LoggedIsActive(feeds, s, w);
    Targeted.WorkFits(feeds, s, w);
    WorkIsOne(feeds, s, w, x);
    TakeSteps(feeds, matcher, s, w, x, k);
    MarkKeepsShape(s, w, Running, k);
    ExecTwo(feeds, matcher, actions, BeginWork(w), ReadChunk(w));
  }

  lemma GiveSteps(feeds: Feeds, matcher: Matcher, s: System, w: nat, x: AdvisoryId, views: Views, at: int)
    requires w < |s.workers| && s.workers[w] == Working(w, [x], 0, Some(views))
    ensures
      var s' := Next(feeds, matcher, Next(feeds, matcher, s, WriteChunk(w, at)), FinishWork(w));
      s' == s.(db := MarkReevaluation(s.db, w, Completed).db, matches := WriteMatches(matcher, views, s.db.tables, s.matches, at),
               workers := s.workers[w := Stopped])
  {
    hide WriteMatches, MarkReevaluation;
    var written := s.(matches := WriteMatches(matcher, views, s.db.tables, s.matches, at), workers := s.workers[w := Working(w, [x], 1, None)]);
    assert Next(feeds, matcher, s, WriteChunk(w, at)) == written;
    assert written.workers[w := Stopped] == s.workers[w := Stopped];
  }

  lemma GiveWorks(feeds: Feeds, matcher: Matcher, actions: seq<Action>, w: nat, x: AdvisoryId, views: Views, at: int, k: nat)
    requires
      var s := Exec(feeds, matcher, actions);
      && Shape(s, k) && w < k && s.workers[w] == Working(w, [x], 0, Some(views)) && IsActivated(s.db.runs[w].state)
    ensures Gives(matcher, Exec(feeds, matcher, actions), Exec(feeds, matcher, actions + WriteUp(w, at)), w, views, at, k)
  {
    hide Exec, Next, MarkReevaluation, WriteMatches;
    var s := Exec(feeds, matcher, actions);
    GiveSteps(feeds, matcher, s, w, x, views, at);
    MarkKeepsShape(s, w, Completed, k);
    ExecTwo(feeds, matcher, actions, WriteChunk(w, at), FinishWork(w));
  }

  /** The reevaluation of entry `w` is completed and has reconciled just `x`. */
  ghost predicate Completes(matcher: Matcher, s: System, s': System, w: nat, x: AdvisoryId, at: int, k: nat) {
    && w < k && Shape(s, k) && Shape(s', k)
    && s'.db.tables == s.db.tables && s'.db.catalogs == s.db.catalogs
    && s'.db.log == s.db.log[w := s.db.log[w].(status := Completed)]
    && s'.matches == Reconcile(matcher, s.db.tables, s.matches, {x}, at)
    && (forall v :: 0 <= v < k && v != w ==> s'.workers[v] == s.workers[v])
    && (forall r :: 0 <= r < k ==> s'.db.runs[r].createdAt == s.db.runs[r].createdAt)
  }

  lemma TakenCompletes(matcher: Matcher, s: System, t: System, s': System, w: nat, x: AdvisoryId, at: int, k: nat)
    requires Takes(s, t, w, x, ViewsOf(s.db.tables, {x}), k) && Gives(matcher, t, s', w, ViewsOf(s.db.tables, {x}), at, k)
    ensures Completes(matcher, s, s', w, x, at, k)
  {
    hide WriteMatches, View, ViewsOf;
  }

  lemma Reevaluate(feeds: Feeds, matcher: Matcher, actions: seq<Action>, w: nat, x: AdvisoryId, at: int, k: nat)
    requires
      var s := Exec(feeds, matcher, actions);
      && Shape(s, k) && w < k && s.workers[w] == Admitted(w)
      && Owed(feeds.text, s.db.catalogs, s.db.log, w) == {x}
    ensures Completes(matcher, Exec(feeds, matcher, actions), Exec(feeds, matcher, actions + Work(w, at)), w, x, at, k)
  {
    hide Exec, Owed, PickUp, WriteUp, Gives, Completes, ViewsOf;
    var s := Exec(feeds, matcher, actions);
    TakeWorks(feeds, matcher, actions, w, x, k);
    GiveWorks(feeds, matcher, actions + PickUp(w), w, x, ViewsOf(s.db.tables, {x}), at, k);
    assert actions + Work(w, at) == actions + PickUp(w) + WriteUp(w, at);
    TakenCompletes(matcher, s, Exec(feeds, matcher, actions + PickUp(w)), Exec(feeds, matcher, actions + Work(w, at)), w, x, at, k);
  }

  /* ---------- Fresh writes ---------- */

  lemma FreshAppend(feeds: Feeds, matcher: Matcher, actions: seq<Action>, action: Action)
    requires FreshRun(feeds, matcher, actions) && FreshStep(Exec(feeds, matcher, actions), action)
    ensures FreshRun(feeds, matcher, actions + [action])
  {
    hide Exec, FreshStep;
    var more := actions + [action];
    forall k | 0 <= k < |more| ensures FreshStep(Exec(feeds, matcher, more[..k]), more[k]) {
      assert more[..k] == actions[..k];
      if k == |actions| {
        assert actions[..k] == actions;
      }
    }
  }

  lemma {:induction false} FreshWithoutWrites(feeds: Feeds, matcher: Matcher, actions: seq<Action>, more: seq<Action>)
    requires FreshRun(feeds, matcher, actions) && forall i :: 0 <= i < |more| ==> !more[i].WriteChunk?
    ensures FreshRun(feeds, matcher, actions + more)
  {
    hide Exec, FreshRun;
    if |more| == 0 {
      assert actions + more == actions;
    } else {
      var front, last := more[..|more| - 1], more[|more| - 1];
      FreshWithoutWrites(feeds, matcher, actions, front);
      FreshAppend(feeds, matcher, actions + front, last);
      assert actions + more == actions + front + [last];
    }
  }

  /** Nothing of `x` has been evaluated after `at`. */
  ghost predicate NothingLater(s: System, x: AdvisoryId, at: int) {
    forall c :: !IsLater(RowsOf(s.matches, x), c, at)
  }

  /** A reconciliation that finds nothing later shows what the engine says, and leaves nothing later. */
  lemma ReconciledShows(matcher: Matcher, t: Tables, before: System, s: System, x: AdvisoryId, at: int)
    requires NothingLater(before, x, at) && s.matches == Reconcile(matcher, t, before.matches, {x}, at)
    ensures MatchOf(s, x) == Live(Candidates(matcher, View(t, x))) && NothingLater(s, x, at)
  {
    hide View, Candidates, Live, Statuses, WriteMatches;
    var said := Candidates(matcher, View(t, x));
    WrittenRows(matcher, ViewsOf(t, {x}), t, before.matches, at, x);
    WrittenShows(RowsOf(before.matches, x), said, said, IsCurrent(t, x), at);
    forall c ensures !IsLater(RowsOf(s.matches, x), c, at) {
      assert !IsLater(RowsOf(before.matches, x), c, at);
    }
  }

  lemma FreshReevaluation(feeds: Feeds, matcher: Matcher, actions: seq<Action>, w: nat, x: AdvisoryId, at: int, k: nat)
    requires FreshRun(feeds, matcher, actions) && NothingLater(Exec(feeds, matcher, actions), x, at)
    requires
      var s := Exec(feeds, matcher, actions);
      && Shape(s, k) && w < k && s.workers[w] == Admitted(w)
      && Owed(feeds.text, s.db.catalogs, s.db.log, w) == {x}
    ensures FreshRun(feeds, matcher, actions + Work(w, at))
  {
    hide Exec, Owed, FreshRun, View;
    var s, taken := Exec(feeds, matcher, actions), actions + PickUp(w);
    TakeWorks(feeds, matcher, actions, w, x, k);
    FreshWithoutWrites(feeds, matcher, actions, PickUp(w));
    FreshAppend(feeds, matcher, taken, WriteChunk(w, at));
    FreshAppend(feeds, matcher, taken + [WriteChunk(w, at)], FinishWork(w));
    assert actions + Work(w, at) == taken + [WriteChunk(w, at)] + [FinishWork(w)];
  }

  lemma FreshPublication(feeds: Feeds, matcher: Matcher, actions: seq<Action>, r: RunId, plan: Plan)
    requires FreshRun(feeds, matcher, actions)
    ensures FreshRun(feeds, matcher, actions + Publication(r, plan))
  {
    hide FreshRun;
    FreshWithoutWrites(feeds, matcher, actions, Publication(r, plan));
  }

  lemma LoggedIsActive(feeds: Feeds, s: System, w: nat)
    requires Inv(feeds, s) && w < |s.db.log| && s.db.log[w].catalog == w < |s.db.catalogs| && s.db.catalogs[w].run == w < |s.db.runs|
    ensures IsActivated(s.db.runs[w].state)
  {
    hide OneSlot, CommittedStates, SessionLinks, CatalogLinks, Retention, LogChain, FlagsAgree, OneActivation, StatusAgrees,
      ActivatedRunsLogged, WaitingAbove, LocksAbove, Monotone;
    assert RunOf(s.db.catalogs, s.db.log[w]) == w;
  }

  lemma WorkIsOne(feeds: Feeds, s: System, w: nat, x: AdvisoryId)
    requires LogRefs(s.db.catalogs, s.db.log) && w < |s.db.log| && WorkOf(feeds, s.db, w).Ok?
    requires Owed(feeds.text, s.db.catalogs, s.db.log, w) == {x}
    ensures WorkOf(feeds, s.db, w) == Ok([x])
  {
    hide ChangedRecordIds, ServerIds, ChangedIds;
    ServerIdsAreChangedIds(feeds.text, s.db.catalogs[s.db.log[w].catalog].bundle.content, ContentOf(s.db.catalogs, s.db.log[w].previous));
    var ids := WorkOf(feeds, s.db, w).value;
    assert ToSet(ids) == {x};
    DistinctSize(ids);
    assert ids[0] in ToSet(ids);
    assert ids == [x];
  }

  /* ---------- What an entry owes ---------- */

  /** Entry `i` owes exactly these advisories. */
  ghost predicate Owes(feeds: Feeds, s: System, i: ActivationId, ids: set<AdvisoryId>) {
    i < |s.db.log| && s.db.log[i].catalog < |s.db.catalogs| && Owed(feeds.text, s.db.catalogs, s.db.log, i) == ids
  }

  /** What an entry owes, once its catalog and that of its predecessor are known. */
  lemma OwesChange(feeds: Feeds, s: System, i: ActivationId, content: Catalog, previous: Option<Catalog>, k: nat)
    requires LogChain(s.db.log) && Shape(s, k) && i < k && s.db.catalogs[i].bundle.content == content
    requires ContentOf(s.db.catalogs, LastOf(s.db.log, i, s.db.log[i].source)) == previous
    ensures Owes(feeds, s, i, ChangedIds(feeds.text, content, previous))
  {
    hide ChangedIds, ContentOf, LastOf;
  }

  /* ---------- What the imports show ---------- */

  lemma ImportedView(text: Text, t: Tables, name: string, mark: char, package: string)
    requires WellFormed(text, t) && 1 <= |package| <= 240
    ensures
      var catalog := CatalogOf(name, mark, [RecordOf(package)]);
      var t' := Import(text, t, catalog, Sha256(catalog), true);
      WellFormed(text, t') && View(t', TheId(text, name)) == Some(RecordView(text, TheId(text, name), RecordOf(package)))
  {
    var catalog := CatalogOf(name, mark, [RecordOf(package)]);
    RecordIsValid(package);
    hide Import, WellFormed, View, RecordView, ValidRecord, RecordOf;
    ImportKeepsKeys(text, t, catalog, Sha256(catalog), true);
    ImportView(text, t, catalog, Sha256(catalog), TheId(text, name));
    assert catalog.advisories[0] == RecordOf(package);
    RecordHasId(package);
  }

  lemma RecordHasId(package: string)
    ensures RecordOf(package).id == "ADV-1"
  {
  }

  lemma ImportedSource(text: Text, name: string, mark: char, package: string)
    ensures
      var catalog := CatalogOf(name, mark, [RecordOf(package)]);
      var t' := Import(text, EmptyTables, catalog, Sha256(catalog), true);
      TheId(text, name) in t'.advisories ==> t'.advisories[TheId(text, name)].source == name
  {
    hide UpsertAll, FindImport;
    var catalog := CatalogOf(name, mark, [RecordOf(package)]);
    var (prepared, importId) := Prepare(text, EmptyTables, catalog, Sha256(catalog));
    UpsertAllSources(text, prepared, catalog, importId, 1, TheId(text, name));
  }

  lemma EmptyImportRetires(text: Text, t: Tables, name: string, mark: char, x: AdvisoryId)
    requires WellFormed(text, t) && x in t.advisories && text.lower(t.advisories[x].source) == text.lower(name)
    ensures
      var catalog := CatalogOf(name, mark, []);
      View(Import(text, t, catalog, Sha256(catalog), true), x) == Retired(View(t, x))
  {
    var catalog := CatalogOf(name, mark, []);
    ImportView(text, t, catalog, Sha256(catalog), x);
    assert CatalogIds(text, catalog) == {};
    hide Import, WellFormed, View;
  }

  lemma NoKeys(text: Text)
    ensures WellFormed(text, EmptyTables)
  {
  }

  /* ---------- The first publication ---------- */

  function PlanA(feeds: Feeds, a: SourceId): Plan {
    PlanOf(feeds, a, 'a', [FIRST], 1, 0)
  }

  lemma FirstIsOwed(feeds: Feeds, s: System, a: SourceId)
    requires LogChain(s.db.log) && Extends(feeds, Initial, s, PlanA(feeds, a), 0)
    ensures Owes(feeds, s, 0, {TheId(feeds.text, feeds.nameOf(a))})
  {
    hide Owes, LogChain, ChangedIds, Import;
    OwesChange(feeds, s, 0, CatalogOf(feeds.nameOf(a), 'a', [FIRST]), None, 1);
    FirstChange(feeds.text, feeds.nameOf(a), 'a', "urllib3");
  }

  lemma ExecNothing(feeds: Feeds, matcher: Matcher)
    ensures Exec(feeds, matcher, []) == Initial
  {
    hide Next;
  }

  /* ---------- Lost debt ---------- */

  /** The match of `x` is out of date, and every entry that owes it is completed. */
  ghost predicate DebtLost(feeds: Feeds, matcher: Matcher, s: System, x: AdvisoryId) {
    && LogRefs(s.db.catalogs, s.db.log) && OutOfDate(matcher, s, x)
    && forall i :: 0 <= i < |s.db.log| && x in Owed(feeds.text, s.db.catalogs, s.db.log, i) ==> s.db.log[i].status == Completed
  }

  lemma LostIsNotKept(feeds: Feeds, matcher: Matcher, actions: seq<Action>, x: AdvisoryId)
    requires DebtLost(feeds, matcher, Exec(feeds, matcher, actions), x)
    ensures !DebtIsKept(feeds, matcher, actions)
  {
    hide Exec, Owed, OutOfDate;
    var s := Exec(feeds, matcher, actions);
    assert forall i :: !OwedBy(feeds, s, i, x);
  }
}
