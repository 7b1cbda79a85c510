/** The two catalog diffs: the preview shown to an approver and the changed ids that drive reevaluation. */
module CatalogDiffs {
  import opened Prelude
  import opened Ordering
  import opened Catalogs

  const MAX_PREVIEW_IDENTIFIERS := 100
  const MAX_TARGETED_ADVISORIES := 20_000
  const MAX_CHANGED_ADVISORIES := MAX_TARGETED_ADVISORIES * 2

  /** Times are microseconds. */
  const SEVEN_DAYS := 7 * 86_400 * 1_000_000

  type Records = map<string, Record>

  /** The dictionary `{record.id.casefold(): record}`; a later record replaces an earlier one. */
  function ById(text: Text, records: seq<Record>): Records {
    if |records| == 0 then map[]
    else
      var last := records[|records| - 1];
      ById(text, records[..|records| - 1])[text.casefold(last.id) := last]
  }

  function RecordsOf(catalog: Option<Catalog>): seq<Record> {
    if catalog.Some? then catalog.value.advisories else []
  }

  function Index(text: Text, catalog: Option<Catalog>): Records {
    ById(text, RecordsOf(catalog))
  }

  function RecordDigest(record: Record): Digest<Record> {
    Sha256(record)
  }

  /* ---------- preview_bundle ---------- */

  function Added(cur: Records, prev: Records): set<string> {
    cur.Keys - prev.Keys
  }

  function Updated(cur: Records, prev: Records): set<string> {
    set k | k in cur.Keys * prev.Keys && RecordDigest(cur[k]) != RecordDigest(prev[k])
  }

  function Removed(cur: Records, prev: Records): set<string> {
    prev.Keys - cur.Keys
  }

  function ExplicitWithdrawals(cur: Records, prev: Records): set<string> {
    set k | k in cur.Keys && cur[k].facts.withdrawnAt.Some? && (k !in prev || prev[k].facts.withdrawnAt.None?)
  }

  function PreviewChanged(cur: Records, prev: Records): set<string> {
    Added(cur, prev) + Updated(cur, prev) + Removed(cur, prev) + ExplicitWithdrawals(cur, prev)
  }

  function PreviewWithdrawn(cur: Records, prev: Records): set<string> {
    Removed(cur, prev) + ExplicitWithdrawals(cur, prev)
  }

  function AllAliases(records: Records): set<string> {
    set k, i | k in records.Keys && 0 <= i < |records[k].aliases| :: records[k].aliases[i]
  }

  datatype CatalogPreview = CatalogPreview(
    catalogVersion: string, catalogSequence: nat,
    total: nat, added: nat, updated: nat, withdrawn: nat,
    aliasesAdded: nat, aliasesRemoved: nat, knownExploited: nat, expiresSoon: bool,
    changedIds: seq<string>, withdrawnIds: seq<string>, changedCount: nat, truncated: bool)

  lemma SortedKeysExist(keys: set<string>)
    ensures exists s :: ToSet(s) == keys && StrictlySorted(TextLess, s)
  {
    TextLessIsTotal();
    var s := Sorted(TextLess, keys);
    assert ToSet(s) == keys;
  }

  /** `sorted(keys)`: the one strictly increasing sequence of exactly these keys. */
  ghost function SortedKeys(keys: set<string>): (s: seq<string>)
    ensures ToSet(s) == keys && |s| == |keys| && NoDuplicates(s)
  {
    SortedKeysExist(keys);
    var s :| ToSet(s) == keys && StrictlySorted(TextLess, s);
    TextLessIsTotal();
    SortedHasNoDuplicates(TextLess, s);
    DistinctSize(s);
    s
  }

  ghost function PreviewBundle(
      text: Text, catalog: Catalog, sequence: nat, expiresAt: int, previous: Option<Catalog>, now: int): CatalogPreview
  {
    var cur, prev := Index(text, Some(catalog)), Index(text, previous);
    var changed := PreviewChanged(cur, prev);
    CatalogPreview(
      catalog.version, sequence,
      |cur|, |Added(cur, prev)|, |Updated(cur, prev)|, |PreviewWithdrawn(cur, prev)|,
      |AllAliases(cur) - AllAliases(prev)|, |AllAliases(prev) - AllAliases(cur)|,
      |set k | k in cur.Keys && cur[k].facts.knownExploited|,
      expiresAt - now <= SEVEN_DAYS,
      Take(SortedKeys(changed), MAX_PREVIEW_IDENTIFIERS),
      Take(SortedKeys(PreviewWithdrawn(cur, prev)), MAX_PREVIEW_IDENTIFIERS),
      |changed|, |changed| > MAX_PREVIEW_IDENTIFIERS)
  }

  /* ---------- changed_record_ids ---------- */

  function ChangedKeys(cur: Records, prev: Records): set<string> {
    (cur.Keys - prev.Keys) + (prev.Keys - cur.Keys)
    + (set k | k in cur.Keys * prev.Keys && RecordDigest(cur[k]) != RecordDigest(prev[k]))
  }

  datatype DiffError = ReevaluationScopeTooLarge

  /** The new record's id where there is one, else the old record's. */
  function RecordIdOf(cur: Records, prev: Records, key: string): string {
    if key in cur then cur[key].id else if key in prev then prev[key].id else ""
  }

  ghost function ChangedRecordIds(text: Text, current: Catalog, previous: Option<Catalog>): Result<seq<string>, DiffError> {
    var cur, prev := Index(text, Some(current)), Index(text, previous);
    var keys := SortedKeys(ChangedKeys(cur, prev));
    if |keys| > MAX_CHANGED_ADVISORIES
    then Err(ReevaluationScopeTooLarge)
    else Ok(seq(|keys|, i requires 0 <= i < |keys| => RecordIdOf(cur, prev, keys[i])))
  }

  /** The ids reevaluation hands to the matcher, in order. */
  ghost function ServerIds(text: Text, current: Catalog, recordIds: seq<string>): seq<AdvisoryId> {
    seq(|recordIds|, i requires 0 <= i < |recordIds| => AdvisoryIdFor(text, current.sourceName, recordIds[i]))
  }

  /** The advisory ids of the changed keys under the source's folded name. */
  function ChangedIds(text: Text, current: Catalog, previous: Option<Catalog>): set<AdvisoryId> {
    set k | k in ChangedKeys(Index(text, Some(current)), Index(text, previous)) :: AdvisoryId(text.casefold(current.sourceName), k)
  }

  /* ---------- Facts about the index ---------- */

  ghost predicate IndexedAs(text: Text, index: Records, record: Record) {
    text.casefold(record.id) in index && index[text.casefold(record.id)] == record
  }

  /** With distinct folded ids, the dictionary holds exactly the records, each under its own key. */
  lemma {:induction false} IndexHoldsRecords(text: Text, records: seq<Record>)
    requires DistinctIds(text, records)
    ensures forall i :: 0 <= i < |records| ==> IndexedAs(text, ById(text, records), records[i])
    ensures forall k :: k in ById(text, records) ==> exists i :: 0 <= i < |records| && k == text.casefold(records[i].id)
    ensures |ById(text, records)| == |records|
  {
    if |records| > 0 {
      var front, last := records[..|records| - 1], records[|records| - 1];
      IndexHoldsRecords(text, front);
      var key := text.casefold(last.id);
      forall i | 0 <= i < |front| ensures text.casefold(front[i].id) != key {
        assert text.casefold(records[i].id) != text.casefold(records[|records| - 1].id);
      }
      assert key !in ById(text, front);
      forall i | 0 <= i < |records| ensures IndexedAs(text, ById(text, records), records[i]) {
        if i < |front| {
          assert IndexedAs(text, ById(text, front), front[i]);
        }
      }
      forall k | k in ById(text, records) ensures exists i :: 0 <= i < |records| && k == text.casefold(records[i].id) {
        if k != key {
          var i :| 0 <= i < |front| && k == text.casefold(front[i].id);
          assert records[i] == front[i];
        } else {
          assert records[|records| - 1] == last;
        }
      }
    }
  }

  lemma {:induction false} IndexKeysFold(text: Text, records: seq<Record>)
    ensures forall k :: k in ById(text, records) ==> text.casefold(ById(text, records)[k].id) == k
    ensures |ById(text, records)| <= |records|
  {
    if |records| > 0 {
      IndexKeysFold(text, records[..|records| - 1]);
    }
  }

  /* ---------- The diffs agree ---------- */

  /** A record that becomes explicitly withdrawn was added or updated. */
  lemma WithdrawalsAreChanges(cur: Records, prev: Records)
    ensures ExplicitWithdrawals(cur, prev) <= Added(cur, prev) + Updated(cur, prev)
  {
    forall k | k in ExplicitWithdrawals(cur, prev) ensures k in Added(cur, prev) + Updated(cur, prev) {
      if k in prev {
        assert cur[k] != prev[k];
      }
    }
  }

  /** The preview and the reevaluation, written separately, compute one changed set for every pair of catalogs. */
  lemma DiffsAgree(cur: Records, prev: Records)
    ensures PreviewChanged(cur, prev) == ChangedKeys(cur, prev)
  {
    WithdrawalsAreChanges(cur, prev);
  }

  lemma DisjointSize<T>(a: set<T>, b: set<T>)
    requires a !! b
    ensures |a + b| == |a| + |b|
  {
  }

  lemma SplitSize<T>(a: set<T>, b: set<T>)
    ensures |a| == |a - b| + |a * b|
  {
    DisjointSize(a - b, a * b);
    assert a == (a - b) + a * b;
  }

  lemma PartitionSizes<T>(cur: set<T>, prev: set<T>, updated: set<T>)
    requires updated <= cur * prev
    ensures |(cur - prev) + updated + (prev - cur)| == |cur - prev| + |updated| + |prev - cur|
    ensures |cur| == |prev| + |cur - prev| - |prev - cur|
    ensures |cur - prev| + |updated| <= |cur|
    ensures |prev - cur| <= |prev|
  {
    DisjointSize(cur - prev, updated);
    DisjointSize((cur - prev) + updated, prev - cur);
    SplitSize(cur, prev);
    SplitSize(prev, cur);
    SplitSize(cur * prev, updated);
    assert prev * cur == cur * prev && cur * prev * updated == updated;
  }

  lemma ChangeSizes<T>(cur: set<T>, prev: set<T>, updated: set<T>, withdrawals: set<T>)
    requires updated <= cur * prev && withdrawals <= (cur - prev) + updated
    ensures |(cur - prev) + updated + (prev - cur) + withdrawals| == |cur - prev| + |updated| + |prev - cur|
    ensures |(prev - cur) + withdrawals| == |prev - cur| + |withdrawals|
    ensures |cur| == |prev| + |cur - prev| - |prev - cur|
    ensures |cur - prev| + |updated| + |prev - cur| <= |cur| + |prev|
  {
    PartitionSizes(cur, prev, updated);
    DisjointSize(prev - cur, withdrawals);
    assert (cur - prev) + updated + (prev - cur) + withdrawals == (cur - prev) + updated + (prev - cur);
  }

  lemma DiffCounts(cur: Records, prev: Records)
    ensures |PreviewChanged(cur, prev)| == |Added(cur, prev)| + |Updated(cur, prev)| + |Removed(cur, prev)|
    ensures |PreviewWithdrawn(cur, prev)| == |Removed(cur, prev)| + |ExplicitWithdrawals(cur, prev)|
    ensures |cur.Keys| == |prev.Keys| + |Added(cur, prev)| - |Removed(cur, prev)|
    ensures |PreviewChanged(cur, prev)| <= |cur.Keys| + |prev.Keys|
  {
    WithdrawalsAreChanges(cur, prev);
    UpdatedAreShared(cur, prev);
    hide ExplicitWithdrawals, Updated;
    ChangeSizes(cur.Keys, prev.Keys, Updated(cur, prev), ExplicitWithdrawals(cur, prev));
  }

  lemma UpdatedAreShared(cur: Records, prev: Records)
    ensures Updated(cur, prev) <= cur.Keys * prev.Keys
  {
  }

  /** The counts of a preview add up, for all pairs of catalogs. */
  lemma DiffAlgebra(text: Text, catalog: Catalog, sequence: nat, expiresAt: int, previous: Option<Catalog>, now: int)
    ensures
      var cur, prev := Index(text, Some(catalog)), Index(text, previous);
      var p := PreviewBundle(text, catalog, sequence, expiresAt, previous, now);
      var removed := |Removed(cur, prev)|;
      && p.changedCount == p.added + p.updated + removed
      && p.withdrawn == removed + |ExplicitWithdrawals(cur, prev)|
      && p.total == |prev.Keys| + p.added - removed
      && p.changedCount == |ChangedKeys(cur, prev)|
      && (!p.truncated ==> ToSet(p.changedIds) == ChangedKeys(cur, prev))
  {
    hide Index, ChangedKeys, PreviewChanged, Added, Updated, Removed, ExplicitWithdrawals, AllAliases, PreviewWithdrawn;
    var cur, prev := Index(text, Some(catalog)), Index(text, previous);
    DiffsAgree(cur, prev);
    DiffCounts(cur, prev);
    assert |cur| == |cur.Keys|;
  }

  /** The targeted reevaluation limit is never reached by catalogs the validators accept. */
  lemma ChangedScopeFits(text: Text, current: Catalog, previous: Option<Catalog>)
    requires |current.advisories| <= MAX_ADVISORIES && (previous.Some? ==> |previous.value.advisories| <= MAX_ADVISORIES)
    ensures ChangedRecordIds(text, current, previous).Ok?
  {
    IndexSize(text, Some(current));
    IndexSize(text, previous);
    hide *;
    var cur, prev := Index(text, Some(current)), Index(text, previous);
    DiffsAgree(cur, prev);
    DiffCounts(cur, prev);
  }

  lemma IndexSize(text: Text, catalog: Option<Catalog>)
    requires catalog.Some? ==> |catalog.value.advisories| <= MAX_ADVISORIES
    ensures |Index(text, catalog).Keys| <= MAX_ADVISORIES
  {
    IndexKeysFold(text, RecordsOf(catalog));
    hide ById;
    assert |Index(text, catalog)| == |Index(text, catalog).Keys|;
  }

  /** The changed keys as the preview orders them, before truncation. */
  ghost function PreviewKeys(text: Text, current: Catalog, previous: Option<Catalog>): seq<string> {
    SortedKeys(PreviewChanged(Index(text, Some(current)), Index(text, previous)))
  }

  function KeyedIds(source: string, keys: seq<string>): seq<AdvisoryId> {
    seq(|keys|, k requires 0 <= k < |keys| => AdvisoryId(source, keys[k]))
  }

  lemma PreviewLists(text: Text, catalog: Catalog, sequence: nat, expiresAt: int, previous: Option<Catalog>, now: int)
    ensures
      var p, keys := PreviewBundle(text, catalog, sequence, expiresAt, previous, now), PreviewKeys(text, catalog, previous);
      p.changedIds == Take(keys, MAX_PREVIEW_IDENTIFIERS) && p.changedCount == |keys|
  {
    hide Index, PreviewChanged;
  }

  lemma RecordIdFolds(text: Text, current: Catalog, previous: Option<Catalog>, key: string)
    ensures
      var cur, prev := Index(text, Some(current)), Index(text, previous);
      key in ChangedKeys(cur, prev) ==> text.casefold(RecordIdOf(cur, prev, key)) == key
  {
    IndexKeysFold(text, current.advisories);
    IndexKeysFold(text, RecordsOf(previous));
    hide ById;
  }

  /** The matcher is handed the folded source name with each key of the preview's full list, in the same order. */
  lemma WorkIsKeyed(text: Text, current: Catalog, previous: Option<Catalog>)
    requires ChangedRecordIds(text, current, previous).Ok?
    ensures ServerIds(text, current, ChangedRecordIds(text, current, previous).value)
         == KeyedIds(text.casefold(current.sourceName), PreviewKeys(text, current, previous))
  {
    hide Index, ChangedKeys, PreviewChanged, SortedKeys, RecordIdOf;
    DiffsAgree(Index(text, Some(current)), Index(text, previous));
    var keys := PreviewKeys(text, current, previous);
    forall k | 0 <= k < |keys|
      ensures text.casefold(RecordIdOf(Index(text, Some(current)), Index(text, previous), keys[k])) == keys[k]
    {
      assert keys[k] in ToSet(keys);
      RecordIdFolds(text, current, previous, keys[k]);
    }
  }

  /** The ids handed to the matcher are the changed keys under the folded source name, each exactly once. */
  lemma ServerIdsAreChangedIds(text: Text, current: Catalog, previous: Option<Catalog>)
    requires ChangedRecordIds(text, current, previous).Ok?
    ensures
      var ids := ServerIds(text, current, ChangedRecordIds(text, current, previous).value);
      NoDuplicates(ids) && ToSet(ids) == ChangedIds(text, current, previous)
  {
    hide Index, ChangedKeys, PreviewChanged, ChangedRecordIds, ServerIds, SortedKeys;
    DiffsAgree(Index(text, Some(current)), Index(text, previous));
    WorkIsKeyed(text, current, previous);
    var keys := PreviewKeys(text, current, previous);
    TaggedKeys(text.casefold(current.sourceName), keys, KeyedIds(text.casefold(current.sourceName), keys));
    assert forall k :: k in keys <==> k in ToSet(keys);
  }

  lemma TaggedKeys(source: string, keys: seq<string>, ids: seq<AdvisoryId>)
    requires NoDuplicates(keys) && |ids| == |keys|
    requires forall i :: 0 <= i < |keys| ==> ids[i] == AdvisoryId(source, keys[i])
    ensures NoDuplicates(ids)
    ensures ToSet(ids) == set k | k in keys :: AdvisoryId(source, k)
  {
    forall x | x in keys ensures AdvisoryId(source, x) in ids {
      var i :| 0 <= i < |keys| && keys[i] == x;
      assert ids[i] == AdvisoryId(source, x);
    }
  }

  /** An advisory of the source that is not in the changed set has one and the same record in both catalogs,
      or a record in neither. */
  lemma UnchangedRecord(text: Text, current: Catalog, previous: Option<Catalog>, x: AdvisoryId)
    requires x.source == text.casefold(current.sourceName) && x !in ChangedIds(text, current, previous)
    ensures
      var cur, prev := Index(text, Some(current)), Index(text, previous);
      (x.record in cur <==> x.record in prev) && (x.record in cur ==> cur[x.record] == prev[x.record])
  {
    var cur, prev := Index(text, Some(current)), Index(text, previous);
    assert x.record !in ChangedKeys(cur, prev) by {
      assert forall k :: k in ChangedKeys(cur, prev) ==> AdvisoryId(x.source, k) in ChangedIds(text, current, previous);
      assert x == AdvisoryId(x.source, x.record);
    }
  }
}
