/** A run of the system in which the approver's preview is not of the change that is activated: a rollback
    commits between the service's read of the active catalog and the store's. The stale-preview check passes,
    because the store compares with what it read itself. */
module StalePreview {
  import opened Prelude
  import opened Catalogs
  import opened CatalogDiffs
  import opened AdvisoryTables
  import opened SyncState
  import opened Matching
  import opened Lifecycle
  import opened RunInvariants
  import opened TableInvariants
  import opened PreviewFidelity
  import opened Publications

  const SOURCE := "osv"

  /** One source without waiting times; text functions that change nothing. */
  ghost function QuickFeeds(): Feeds {
    Feeds(Text(s => s, s => s, s => None, s => s), s => s, s => 0, s => 0)
  }

  const THE_RECORD := RecordOf("urllib3")

  function CatalogAt(n: nat): Catalog {
    if n == 0 then Catalog("v0", SOURCE, "1", "l", 0, [])
    else if n == 1 then Catalog("v1", SOURCE, "1", "l", 0, [THE_RECORD])
    else Catalog("v2", SOURCE, "1", "l", 0, [THE_RECORD])
  }

  /** Three bundles in rising sequence: an empty catalog, one with a record, and the same record again. */
  function BundleAt(n: nat): Bundle {
    var mark := if n == 0 then 'a' else if n == 1 then 'b' else 'c';
    Bundle(CatalogAt(n).version, n + 1, ManifestDigest(mark), PayloadDigest(mark), Sha256(CatalogAt(n)), CatalogAt(n), 1)
  }

  lemma BundlesAreVerified(n: nat)
    ensures VerifiedFor(QuickFeeds(), SOURCE, BundleAt(n))
  {
    RecordIsValid("urllib3");
    hide ValidRecord, RecordOf, ManifestDigest, PayloadDigest;
  }

  function PlanAt(n: nat): Plan {
    Plan(SOURCE, BundleAt(n), 0)
  }

  ghost predicate Idle(s: System) {
    && (forall r :: 0 <= r < |s.db.runs| ==> !IsActive(s.db.runs[r].state) && s.db.runs[r].createdAt == 0)
    && (forall r :: r in s.sessions ==> r < |s.db.runs|)
  }

  /* ---------- Two publications, and a third with a rollback in the middle ---------- */

  datatype Entry = Entry(kind: ActivationKind, catalog: CatalogId)

  ghost predicate LogIs(log: seq<Activation>, entries: seq<Entry>) {
    && |log| == |entries|
    && forall i :: 0 <= i < |log| ==>
         log[i].kind == entries[i].kind && log[i].catalog == entries[i].catalog && log[i].source == SOURCE && log[i].createdAt == 0
  }

  ghost predicate KeptAre(catalogs: seq<CatalogRow>, k: nat) {
    |catalogs| == k && forall c :: 0 <= c < k ==> catalogs[c].run == c && catalogs[c].source == SOURCE && catalogs[c].bundle == BundleAt(c)
  }

  /** After `k` publications nothing is under way, and the log holds these entries. */
  ghost predicate Published(s: System, k: nat, entries: seq<Entry>) {
    Idle(s) && |s.db.runs| == k && KeptAre(s.db.catalogs, k) && LogIs(s.db.log, entries)
  }

  lemma KeptAreOlder(s: System, t: System, k: nat)
    requires k < 3 && Idle(s) && |s.db.runs| == k && KeptAre(s.db.catalogs, k)
    requires t.db.runs == Opened(QuickFeeds(), s, PlanAt(k)).db.runs && t.sessions == Opened(QuickFeeds(), s, PlanAt(k)).sessions
    requires KeptAre(t.db.catalogs, k)
    ensures Openable(QuickFeeds(), s, PlanAt(k)) && IsNewBundle(s.db.catalogs, k, PlanAt(k)) && ReadyToSave(t, k, PlanAt(k))
    ensures PlanAt(k).bundle.expiresAt > 0
  {
    hide ActiveCatalog, PreviewFor;
    forall c | 0 <= c < k
      ensures BundleAt(c).version != BundleAt(k).version && BundleAt(c).manifestDigest != BundleAt(k).manifestDigest
      ensures BundleAt(c).sequence < BundleAt(k).sequence && BundleAt(c).payloadDigest != BundleAt(k).payloadDigest
    {
      BundlesDiffer(c, k);
    }
    ExpiresLater(k);
    hide BundleAt;
    assert IsNewBundle(t.db.catalogs, k, PlanAt(k));
    BundlesAreVerified(k);
  }

  lemma BundlesDiffer(c: nat, k: nat)
    requires c < k < 3
    ensures BundleAt(c).version != BundleAt(k).version && BundleAt(c).manifestDigest != BundleAt(k).manifestDigest
    ensures BundleAt(c).sequence < BundleAt(k).sequence && BundleAt(c).payloadDigest != BundleAt(k).payloadDigest
  {
    assert "v0"[1] != "v1"[1] && "v0"[1] != "v2"[1] && "v1"[1] != "v2"[1];
    DigestsDiffer('a', 'b');
    DigestsDiffer('a', 'c');
    DigestsDiffer('b', 'c');
    hide ManifestDigest, PayloadDigest, RecordOf;
  }

  lemma ExpiresLater(k: nat)
    ensures BundleAt(k).expiresAt > 0
  {
  }

  lemma ClosedIsPublished(s: System, t: System, k: nat, entries: seq<Entry>)
    requires k < 3 && Idle(s) && |s.db.runs| == k && KeptAre(s.db.catalogs, k)
    requires t.db.runs == Opened(QuickFeeds(), s, PlanAt(k)).db.runs && t.sessions == Opened(QuickFeeds(), s, PlanAt(k)).sessions
    requires KeptAre(t.db.catalogs, k) && LogIs(t.db.log, entries) && ReadyToSave(t, k, PlanAt(k))
    ensures Published(Closed(QuickFeeds(), t, k, PlanAt(k)), k + 1, entries + [Entry(Activate, k)])
  {
    hide ActiveCatalog, PreviewFor, BundleAt, Import;
  }

  lemma Publish(matcher: Matcher, actions: seq<Action>, k: nat, entries: seq<Entry>)
    requires k < 3 && Published(Exec(QuickFeeds(), matcher, actions), k, entries)
    ensures Published(Exec(QuickFeeds(), matcher, actions + Publication(k, PlanAt(k))), k + 1, entries + [Entry(Activate, k)])
  {
    BundlesAreVerified(k);
    hide Exec, QuickFeeds, VerifiedFor, Opened, Openable, ReadyToSave, Closed, Publication, BundleAt, IsNewBundle, Idle, KeptAre, LogIs;
    var s := Exec(QuickFeeds(), matcher, actions);
    OpenedKeeps(QuickFeeds(), s, PlanAt(k));
    KeptAreOlder(s, Opened(QuickFeeds(), s, PlanAt(k)), k);
    PublicationWorks(QuickFeeds(), matcher, actions, PlanAt(k));
    ClosedIsPublished(s, Opened(QuickFeeds(), s, PlanAt(k)), k, entries);
  }

  const EARLIER: seq<Entry> := [Entry(Activate, 0), Entry(Activate, 1)]
  const FINAL: seq<Entry> := [Entry(Activate, 0), Entry(Activate, 1), Entry(Rollback, 0), Entry(Activate, 2)]

  lemma TwoPublications(matcher: Matcher)
    ensures Published(Exec(QuickFeeds(), matcher, Publication(0, PlanAt(0)) + Publication(1, PlanAt(1))), 2, EARLIER)
  {
    hide Publication, QuickFeeds;
    assert Published(Initial, 0, []);
    Publish(matcher, [], 0, []);
    assert [] + Publication(0, PlanAt(0)) == Publication(0, PlanAt(0));
    Publish(matcher, Publication(0, PlanAt(0)), 1, [] + [Entry(Activate, 0)]);
    assert [] + [Entry(Activate, 0)] + [Entry(Activate, 1)] == EARLIER;
  }

  lemma LastOfTwo(log: seq<Activation>, catalogs: seq<CatalogRow>)
    requires LogIs(log, EARLIER) && KeptAre(catalogs, 2) && FlagsAgree(catalogs, log) && LogRefs(catalogs, log)
    ensures ActiveCatalog(catalogs, SOURCE) == Some(1) && !catalogs[0].active && catalogs[0].activationCount >= 1
  {
    ActiveIsLast(catalogs, log, SOURCE);
    assert LastOf(log, 2, SOURCE) == Some(1);
    CountIsZero(log, 2, 0);
    assert log[0].catalog == 0;
  }

  lemma RollbackGoesThrough(matcher: Matcher, t: System)
    requires LogIs(t.db.log, EARLIER) && KeptAre(t.db.catalogs, 2)
    requires ActiveCatalog(t.db.catalogs, SOURCE) == Some(1) && !t.db.catalogs[0].active && t.db.catalogs[0].activationCount >= 1
    ensures
      var u := Next(QuickFeeds(), matcher, t, RollBackTo(0, 0));
      && u.db.runs == t.db.runs && u.sessions == t.sessions
      && KeptAre(u.db.catalogs, 2) && LogIs(u.db.log, EARLIER + [Entry(Rollback, 0)])
  {
    hide Import, ActiveCatalog;
    assert BundleAt(0).checksum == Sha256(BundleAt(0).content);
    hide BundleAt;
    assert !ControlledRecently(t.db.log, SOURCE, 0, 0);
  }

  /** The actions: publish twice, open a third run, roll back to the first catalog, and close the third run. */
  function Interleaved(): seq<Action> {
    Publication(0, PlanAt(0)) + Publication(1, PlanAt(1)) + Opening(2, PlanAt(2)) + [RollBackTo(0, 0)] + Closing(2, PlanAt(2))
  }

  ghost predicate StaleEnd(s: System) {
    && LogIs(s.db.log, FINAL) && KeptAre(s.db.catalogs, 3)
    && s.db.catalogs[2].preview == PreviewFor(QuickFeeds(), s.db, BundleAt(2), Some(1), 0)
  }

  /** The third run is open on `s`, and `u` differs from that only in its flags, log and tables. */
  ghost predicate ThirdOpened(s: System, u: System) {
    && Idle(s) && |s.db.runs| == 2 && KeptAre(s.db.catalogs, 2) && ActiveCatalog(s.db.catalogs, SOURCE) == Some(1)
    && u.db.runs == Opened(QuickFeeds(), s, PlanAt(2)).db.runs && u.sessions == Opened(QuickFeeds(), s, PlanAt(2)).sessions
    && KeptAre(u.db.catalogs, 2) && LogIs(u.db.log, EARLIER + [Entry(Rollback, 0)])
  }

  lemma TwoActive(matcher: Matcher, s: System)
    requires Inv(QuickFeeds(), s) && Published(s, 2, EARLIER)
    ensures ActiveCatalog(s.db.catalogs, SOURCE) == Some(1) && !s.db.catalogs[0].active && s.db.catalogs[0].activationCount >= 1
  {
    InvHasRefs(QuickFeeds(), s);
    hide Inv, QuickFeeds, LogChain, LogRefs, FlagsAgree, ActiveCatalog, KeptAre, LogIs, Idle;
    LastOfTwo(s.db.log, s.db.catalogs);
    assert |s.db.catalogs| == 2 by {
      KeptCount(s.db.catalogs, 2);
    }
  }

  lemma KeptCount(catalogs: seq<CatalogRow>, k: nat)
    requires KeptAre(catalogs, k)
    ensures |catalogs| == k
  {
  }

  lemma OpenedRollsBack(matcher: Matcher, s: System)
    requires Published(s, 2, EARLIER)
    requires ActiveCatalog(s.db.catalogs, SOURCE) == Some(1) && !s.db.catalogs[0].active && s.db.catalogs[0].activationCount >= 1
    ensures ThirdOpened(s, Next(QuickFeeds(), matcher, Opened(QuickFeeds(), s, PlanAt(2)), RollBackTo(0, 0)))
  {
    hide QuickFeeds, Next, Opened, BundleAt, ActiveCatalog, KeptAre, LogIs, Idle;
    OpenedKeeps(QuickFeeds(), s, PlanAt(2));
    RollbackGoesThrough(matcher, Opened(QuickFeeds(), s, PlanAt(2)));
  }

  lemma MiddleWorks(matcher: Matcher)
    ensures
      var two := Publication(0, PlanAt(0)) + Publication(1, PlanAt(1));
      ThirdOpened(Exec(QuickFeeds(), matcher, two), Exec(QuickFeeds(), matcher, two + Opening(2, PlanAt(2)) + [RollBackTo(0, 0)]))
  {
    var two := Publication(0, PlanAt(0)) + Publication(1, PlanAt(1));
    BundlesAreVerified(2);
    TwoPublications(matcher);
    ReachableInv(QuickFeeds(), matcher, two);
    hide Exec, Next, QuickFeeds, Publication, Opening, BundleAt, Inv, VerifiedFor, ActiveCatalog, Opened, ThirdOpened, KeptAre, LogIs, Idle;
    var s := Exec(QuickFeeds(), matcher, two);
    TwoActive(matcher, s);
    KeptAreOlder(s, Opened(QuickFeeds(), s, PlanAt(2)), 2);
    OpeningWorks(QuickFeeds(), matcher, two, PlanAt(2));
    OpenedRollsBack(matcher, s);
    ExecAppend(QuickFeeds(), matcher, two + Opening(2, PlanAt(2)), RollBackTo(0, 0));
  }

  lemma ThirdCloses(s: System, u: System)
    requires ThirdOpened(s, u)
    ensures ReadyToSave(u, 2, PlanAt(2)) && StaleEnd(Closed(QuickFeeds(), u, 2, PlanAt(2)))
  {
    hide ReadyToSave, Closed, Opened, BundleAt, ActiveCatalog, KeptAre, LogIs, Idle, PreviewFor, QuickFeeds;
    KeptAreOlder(s, u, 2);
    ClosedIsPublished(s, u, 2, EARLIER + [Entry(Rollback, 0)]);
    assert EARLIER + [Entry(Rollback, 0)] + [Entry(Activate, 2)] == FINAL;
    ClosedPreview(s, u);
  }

  lemma InterleavedEnds(matcher: Matcher)
    ensures StaleEnd(Exec(QuickFeeds(), matcher, Interleaved()))
  {
    hide Exec, QuickFeeds, Publication, Opening, Closing, BundleAt, ThirdOpened, StaleEnd, ReadyToSave, Closed;
    var two := Publication(0, PlanAt(0)) + Publication(1, PlanAt(1));
    MiddleWorks(matcher);
    ThirdCloses(Exec(QuickFeeds(), matcher, two), Exec(QuickFeeds(), matcher, two + Opening(2, PlanAt(2)) + [RollBackTo(0, 0)]));
    ClosingWorks(QuickFeeds(), matcher, two + Opening(2, PlanAt(2)) + [RollBackTo(0, 0)], 2, PlanAt(2));
  }

  lemma ClosedPreview(s: System, u: System)
    requires |s.db.runs| == 2 && KeptAre(s.db.catalogs, 2) && KeptAre(u.db.catalogs, 2)
    requires u.sessions == Opened(QuickFeeds(), s, PlanAt(2)).sessions && ReadyToSave(u, 2, PlanAt(2)) && ActiveCatalog(s.db.catalogs, SOURCE) == Some(1)
    ensures |Closed(QuickFeeds(), u, 2, PlanAt(2)).db.catalogs| == 3
    ensures Closed(QuickFeeds(), u, 2, PlanAt(2)).db.catalogs[2].preview == PreviewFor(QuickFeeds(), Closed(QuickFeeds(), u, 2, PlanAt(2)).db, BundleAt(2), Some(1), 0)
  {
    hide ActiveCatalog, BundleAt, QuickFeeds, PreviewBundle, Import, IsNewBundle;
  }

  ghost predicate PromisedNothing(s: System) {
    && |s.db.log| == 4 && s.db.log[3].kind == Activate && s.db.log[3].catalog < |s.db.catalogs|
    && s.db.catalogs[s.db.log[3].catalog].preview.changedCount == 0
  }

  ghost predicate ChangedOne(s: System) {
    && |s.db.log| == 4 && s.db.log[3].catalog < |s.db.catalogs|
    && WorkOf(QuickFeeds(), s.db, 3).Ok? && |WorkOf(QuickFeeds(), s.db, 3).value| == 1
  }

  /** The stored preview promised no change at all; the activation changed a record. */
  lemma PreviewCanBeStale(matcher: Matcher)
    ensures
      var s := Exec(QuickFeeds(), matcher, Interleaved());
      PromisedNothing(s) && ChangedOne(s)
  {
    hide Exec, Inv, Interleaved, LogRefs, LogChain, FlagsAgree, StaleEnd, PromisedNothing, ChangedOne, QuickFeeds;
    InterleavedEnds(matcher);
    ReachableInv(QuickFeeds(), matcher, Interleaved());
    var s := Exec(QuickFeeds(), matcher, Interleaved());
    InvHasRefs(QuickFeeds(), s);
    StalePromise(s);
    StaleChange(s);
  }

  lemma StalePromise(s: System)
    requires StaleEnd(s)
    ensures PromisedNothing(s)
  {
    Differences();
    hide PreviewBundle, PreviewKeys, QuickFeeds;
    PreviewLists(QuickFeeds().text, BundleAt(2).content, BundleAt(2).sequence, BundleAt(2).expiresAt, Some(CatalogAt(1)), 0);
  }

  lemma StaleChange(s: System)
    requires StaleEnd(s) && LogChain(s.db.log)
    ensures ChangedOne(s)
  {
    Differences();
    ReplacedFirst(s.db.log);
    hide PreviewFor, PreviewKeys, QuickFeeds, LogChain, WorkOf;
    WorkIsList(QuickFeeds(), s.db, 3);
  }

  lemma ReplacedFirst(log: seq<Activation>)
    requires LogIs(log, FINAL) && LogChain(log)
    ensures log[3].previous == Some(0)
  {
    assert LastOf(log, 3, SOURCE) == Some(log[2].catalog);
  }

  lemma Differences()
    ensures |PreviewKeys(QuickFeeds().text, CatalogAt(2), Some(CatalogAt(1)))| == 0
    ensures |PreviewKeys(QuickFeeds().text, CatalogAt(2), Some(CatalogAt(0)))| == 1
  {
    var text := QuickFeeds().text;
    var none, one := Index(text, Some(CatalogAt(0))), Index(text, Some(CatalogAt(1)));
    assert Index(text, Some(CatalogAt(2))) == one && none == map[];
    assert one == map["ADV-1" := THE_RECORD] by {
      assert [THE_RECORD][..0] == [];
    }
    assert PreviewChanged(one, one) == {};
    assert PreviewChanged(one, none) == {"ADV-1"};
  }
}
