/** What each field of a preview says of the two catalogs' records, without the dictionaries it is computed from. */
module PreviewLaws {
  import opened Prelude
  import opened Ordering
  import opened Catalogs
  import opened CatalogDiffs

  /** The record has no counterpart: no record here carries its folded id. */
  ghost predicate Unknown(text: Text, record: Record, records: seq<Record>) {
    forall i :: 0 <= i < |records| ==> text.casefold(records[i].id) != text.casefold(record.id)
  }

  /** There is a counterpart, and it differs. */
  ghost predicate Rewritten(text: Text, record: Record, records: seq<Record>) {
    exists i :: 0 <= i < |records| && text.casefold(records[i].id) == text.casefold(record.id) && records[i] != record
  }

  /** The record is withdrawn and no counterpart was. */
  ghost predicate NewlyWithdrawn(text: Text, record: Record, records: seq<Record>) {
    && record.facts.withdrawnAt.Some?
    && forall i :: 0 <= i < |records| ==>
         text.casefold(records[i].id) == text.casefold(record.id) ==> records[i].facts.withdrawnAt.None?
  }

  ghost function NewRecords(text: Text, of: seq<Record>, against: seq<Record>): set<Record> {
    set r | r in of && Unknown(text, r, against)
  }

  ghost function RewrittenRecords(text: Text, of: seq<Record>, against: seq<Record>): set<Record> {
    set r | r in of && Rewritten(text, r, against)
  }

  ghost function WithdrawnRecords(text: Text, of: seq<Record>, against: seq<Record>): set<Record> {
    set r | r in of && NewlyWithdrawn(text, r, against)
  }

  ghost function ExploitedRecords(of: seq<Record>): set<Record> {
    set r | r in of && r.facts.knownExploited
  }

  ghost function AliasesIn(records: seq<Record>): set<string> {
    set i, alias | 0 <= i < |records| && alias in records[i].aliases :: alias
  }

  function FoldedIds(text: Text, records: set<Record>): set<string> {
    set r | r in records :: text.casefold(r.id)
  }

  /** The first `limit` of the keys in their order: increasing, at most that many, and nothing smaller is missing. */
  ghost predicate AreFirst(ids: seq<string>, keys: set<string>, limit: nat) {
    && StrictlySorted(TextLess, ids) && ToSet(ids) <= keys
    && |ids| == (if |keys| <= limit then |keys| else limit)
    && forall k, i :: k in keys && k !in ids && 0 <= i < |ids| ==> TextLess(ids[i], k)
  }

  /* ---------- Keys and records ---------- */

  /** The records of a list whose key is one of these. */
  function Under(text: Text, records: seq<Record>, keys: set<string>): set<Record> {
    set r | r in records && text.casefold(r.id) in keys
  }

  lemma {:induction false} FoldedSize(text: Text, records: set<Record>)
    requires forall r, s :: r in records && s in records && text.casefold(r.id) == text.casefold(s.id) ==> r == s
    ensures |FoldedIds(text, records)| == |records|
  {
    if records == {} {
      assert FoldedIds(text, records) == {};
    } else {
      var r :| r in records;
      FoldedSize(text, records - {r});
      assert FoldedIds(text, records) == FoldedIds(text, records - {r}) + {text.casefold(r.id)};
    }
  }

  lemma IndexedRecord(text: Text, records: seq<Record>, r: Record)
    requires DistinctIds(text, records) && r in records
    ensures IndexedAs(text, ById(text, records), r)
  {
    IndexHoldsRecords(text, records);
    hide ById;
    var i :| 0 <= i < |records| && records[i] == r;
    assert IndexedAs(text, ById(text, records), records[i]);
  }

  lemma RecordAt(text: Text, records: seq<Record>, k: string)
    requires DistinctIds(text, records) && k in ById(text, records)
    ensures
      var r := ById(text, records)[k];
      r in records && text.casefold(r.id) == k
  {
    IndexHoldsRecords(text, records);
    hide ById;
    var i :| 0 <= i < |records| && k == text.casefold(records[i].id);
    assert IndexedAs(text, ById(text, records), records[i]);
  }

  lemma KeysAndRecords(text: Text, records: seq<Record>, keys: set<string>)
    requires DistinctIds(text, records) && keys <= ById(text, records).Keys
    ensures FoldedIds(text, Under(text, records, keys)) == keys
    ensures |keys| == |Under(text, records, keys)|
  {
    hide ById;
    forall k | k in keys ensures k in FoldedIds(text, Under(text, records, keys)) {
      RecordAt(text, records, k);
      assert ById(text, records)[k] in Under(text, records, keys);
    }
    forall r, s | r in records && s in records && text.casefold(r.id) == text.casefold(s.id) ensures r == s {
      IndexedRecord(text, records, r);
      IndexedRecord(text, records, s);
    }
    FoldedSize(text, Under(text, records, keys));
  }

  lemma UnknownKey(text: Text, records: seq<Record>, r: Record)
    requires DistinctIds(text, records)
    ensures Unknown(text, r, records) <==> text.casefold(r.id) !in ById(text, records)
  {
    forall s | s in records ensures text.casefold(s.id) in ById(text, records) {
      IndexedRecord(text, records, s);
    }
    if text.casefold(r.id) in ById(text, records) {
      RecordAt(text, records, text.casefold(r.id));
    }
  }

  lemma KnownKey(text: Text, records: seq<Record>, r: Record)
    requires DistinctIds(text, records) && text.casefold(r.id) in ById(text, records)
    ensures
      var s := ById(text, records)[text.casefold(r.id)];
      && (Rewritten(text, r, records) <==> s != r)
      && (NewlyWithdrawn(text, r, records) <==> r.facts.withdrawnAt.Some? && s.facts.withdrawnAt.None?)
  {
    RecordAt(text, records, text.casefold(r.id));
    forall i | 0 <= i < |records| && text.casefold(records[i].id) == text.casefold(r.id)
      ensures records[i] == ById(text, records)[text.casefold(r.id)]
    {
      IndexedRecord(text, records, records[i]);
    }
  }

  lemma UnknownRecord(text: Text, records: seq<Record>, r: Record)
    requires Unknown(text, r, records)
    ensures !Rewritten(text, r, records)
    ensures NewlyWithdrawn(text, r, records) <==> r.facts.withdrawnAt.Some?
  {
  }

  /* ---------- The sets ---------- */

  lemma SetsOfRecords(text: Text, of: seq<Record>, against: seq<Record>)
    requires DistinctIds(text, of) && DistinctIds(text, against)
    ensures
      var cur, prev := ById(text, of), ById(text, against);
      && NewRecords(text, of, against) == Under(text, of, cur.Keys - prev.Keys)
      && RewrittenRecords(text, of, against) == Under(text, of, Updated(cur, prev))
      && WithdrawnRecords(text, of, against) == Under(text, of, ExplicitWithdrawals(cur, prev))
      && ExploitedRecords(of) == Under(text, of, set k | k in cur.Keys && cur[k].facts.knownExploited)
  {
    hide ById, Unknown, Rewritten, NewlyWithdrawn, DistinctIds;
    var cur, prev := ById(text, of), ById(text, against);
    forall r | r in of
      ensures text.casefold(r.id) in cur && cur[text.casefold(r.id)] == r
      ensures Unknown(text, r, against) <==> text.casefold(r.id) !in prev
      ensures Rewritten(text, r, against) <==> text.casefold(r.id) in Updated(cur, prev)
      ensures NewlyWithdrawn(text, r, against) <==> text.casefold(r.id) in ExplicitWithdrawals(cur, prev)
    {
      IndexedRecord(text, of, r);
      UnknownKey(text, against, r);
      if text.casefold(r.id) in prev {
        KnownKey(text, against, r);
      } else {
        UnknownRecord(text, against, r);
      }
    }
  }

  lemma AliasesOfRecords(text: Text, records: seq<Record>)
    requires DistinctIds(text, records)
    ensures AllAliases(ById(text, records)) == AliasesIn(records)
  {
    var index := ById(text, records);
    hide ById;
    forall alias | alias in AllAliases(index) ensures alias in AliasesIn(records) {
      var k, i :| k in index.Keys && 0 <= i < |index[k].aliases| && index[k].aliases[i] == alias;
      RecordAt(text, records, k);
      var j :| 0 <= j < |records| && records[j] == index[k];
      assert alias in records[j].aliases;
    }
    forall alias | alias in AliasesIn(records) ensures alias in AllAliases(index) {
      var j :| 0 <= j < |records| && alias in records[j].aliases;
      IndexedRecord(text, records, records[j]);
      var k := text.casefold(records[j].id);
      var i :| 0 <= i < |index[k].aliases| && index[k].aliases[i] == alias;
    }
  }

  lemma FirstKeys(keys: set<string>, limit: nat)
    ensures AreFirst(Take(SortedKeys(keys), limit), keys, limit)
  {
    var s := SortedKeys(keys);
    SortedKeysAreSorted(keys);
    var ids := Take(s, limit);
    assert forall i :: 0 <= i < |ids| ==> ids[i] == s[i] && s[i] in ToSet(s);
    forall k, i | k in keys && k !in ids && 0 <= i < |ids| ensures TextLess(ids[i], k) {
      assert k in ToSet(s);
      var j :| 0 <= j < |s| && s[j] == k;
      assert j >= |ids|;
    }
  }

  lemma SortedKeysAreSorted(keys: set<string>)
    ensures StrictlySorted(TextLess, SortedKeys(keys))
  {
  }

  /* ---------- The theorem ---------- */

  /** The counts of a preview, over the records of the new and the old catalog. */
  ghost predicate CountsMean(text: Text, p: CatalogPreview, new_: seq<Record>, old_: seq<Record>) {
    && p.total == |new_|
    && p.added == |NewRecords(text, new_, old_)|
    && p.updated == |RewrittenRecords(text, new_, old_)|
    && p.withdrawn == |NewRecords(text, old_, new_)| + |WithdrawnRecords(text, new_, old_)|
    && p.changedCount == |NewRecords(text, new_, old_)| + |RewrittenRecords(text, new_, old_)| + |NewRecords(text, old_, new_)|
    && p.aliasesAdded == |AliasesIn(new_) - AliasesIn(old_)|
    && p.aliasesRemoved == |AliasesIn(old_) - AliasesIn(new_)|
    && p.knownExploited == |ExploitedRecords(new_)|
  }

  /** The listed ids: the first hundred of the changed and of the withdrawn folded ids. */
  ghost predicate ListsMean(text: Text, p: CatalogPreview, new_: seq<Record>, old_: seq<Record>) {
    var removed := FoldedIds(text, NewRecords(text, old_, new_));
    && AreFirst(p.changedIds,
         FoldedIds(text, NewRecords(text, new_, old_)) + FoldedIds(text, RewrittenRecords(text, new_, old_)) + removed, 100)
    && AreFirst(p.withdrawnIds, removed + FoldedIds(text, WithdrawnRecords(text, new_, old_)), 100)
    && (p.truncated <==> p.changedCount > 100)
  }

  /** What an approver is shown says of the two catalogs' records exactly what its field names promise. */
  lemma PreviewMeans(text: Text, catalog: Catalog, sequence: nat, expiresAt: int, previous: Option<Catalog>, now: int)
    requires DistinctIds(text, catalog.advisories) && DistinctIds(text, RecordsOf(previous))
    ensures
      var p := PreviewBundle(text, catalog, sequence, expiresAt, previous, now);
      && CountsMean(text, p, catalog.advisories, RecordsOf(previous))
      && ListsMean(text, p, catalog.advisories, RecordsOf(previous))
      && p.catalogVersion == catalog.version && p.catalogSequence == sequence
      && (p.expiresSoon <==> expiresAt <= now + 604_800_000_000)
  {
    PreviewCounts(text, catalog, sequence, expiresAt, previous, now);
    PreviewIds(text, catalog, sequence, expiresAt, previous, now);
    hide CountsMean, ListsMean, DistinctIds, Index, PreviewChanged, PreviewWithdrawn, Added, Updated, AllAliases;
  }

  /** The three groups of changes, as records and as keys. */
  lemma GroupsOfRecords(text: Text, of: seq<Record>, against: seq<Record>)
    requires DistinctIds(text, of) && DistinctIds(text, against)
    ensures
      var cur, prev := ById(text, of), ById(text, against);
      && |of| == |cur|
      && |NewRecords(text, of, against)| == |Added(cur, prev)|
      && |RewrittenRecords(text, of, against)| == |Updated(cur, prev)|
      && |WithdrawnRecords(text, of, against)| == |ExplicitWithdrawals(cur, prev)|
      && |ExploitedRecords(of)| == |set k | k in cur.Keys && cur[k].facts.knownExploited|
      && FoldedIds(text, NewRecords(text, of, against)) == Added(cur, prev)
      && FoldedIds(text, RewrittenRecords(text, of, against)) == Updated(cur, prev)
      && FoldedIds(text, WithdrawnRecords(text, of, against)) == ExplicitWithdrawals(cur, prev)
  {
    var cur, prev := ById(text, of), ById(text, against);
    KeySets(cur, prev);
    SetsOfRecords(text, of, against);
    IndexHoldsRecords(text, of);
    ghost var exploited := set k | k in cur.Keys && cur[k].facts.knownExploited;
    hide ById, DistinctIds, NewRecords, RewrittenRecords, WithdrawnRecords, ExploitedRecords, Under, Updated, ExplicitWithdrawals, FoldedIds;
    KeysAndRecords(text, of, cur.Keys - prev.Keys);
    KeysAndRecords(text, of, Updated(cur, prev));
    KeysAndRecords(text, of, ExplicitWithdrawals(cur, prev));
    KeysAndRecords(text, of, exploited);
  }

  lemma KeySets(cur: Records, prev: Records)
    ensures Updated(cur, prev) <= cur.Keys && ExplicitWithdrawals(cur, prev) <= cur.Keys
  {
  }

  /** The fields over the dictionaries. */
  lemma PreviewFields(text: Text, catalog: Catalog, sequence: nat, expiresAt: int, previous: Option<Catalog>, now: int)
    ensures
      var cur, prev := ById(text, catalog.advisories), ById(text, RecordsOf(previous));
      var p := PreviewBundle(text, catalog, sequence, expiresAt, previous, now);
      && p.total == |cur| && p.added == |Added(cur, prev)| && p.updated == |Updated(cur, prev)| && p.withdrawn == |PreviewWithdrawn(cur, prev)|
      && p.aliasesAdded == |AllAliases(cur) - AllAliases(prev)| && p.aliasesRemoved == |AllAliases(prev) - AllAliases(cur)|
      && p.knownExploited == |set k | k in cur.Keys && cur[k].facts.knownExploited|
      && p.changedIds == Take(SortedKeys(PreviewChanged(cur, prev)), 100) && p.changedCount == |PreviewChanged(cur, prev)|
      && p.withdrawnIds == Take(SortedKeys(PreviewWithdrawn(cur, prev)), 100) && (p.truncated <==> p.changedCount > 100)
  {
    hide ById, Added, Updated, AllAliases, PreviewWithdrawn, PreviewChanged, SortedKeys, Take;
  }

  lemma PreviewCounts(text: Text, catalog: Catalog, sequence: nat, expiresAt: int, previous: Option<Catalog>, now: int)
    requires DistinctIds(text, catalog.advisories) && DistinctIds(text, RecordsOf(previous))
    ensures CountsMean(text, PreviewBundle(text, catalog, sequence, expiresAt, previous, now), catalog.advisories, RecordsOf(previous))
  {
    hide PreviewBundle, ById, DistinctIds, NewRecords, RewrittenRecords, WithdrawnRecords, ExploitedRecords, AliasesIn, AllAliases, Added,
      Updated, Removed, PreviewChanged, PreviewWithdrawn, ExplicitWithdrawals, SortedKeys, Take, RecordsOf, FoldedIds;
    var new_, old_ := catalog.advisories, RecordsOf(previous);
    PreviewFields(text, catalog, sequence, expiresAt, previous, now);
    GroupsOfRecords(text, new_, old_);
    GroupsOfRecords(text, old_, new_);
    AliasesOfRecords(text, new_);
    AliasesOfRecords(text, old_);
    RemovedAreAdded(ById(text, new_), ById(text, old_));
    DiffCounts(ById(text, new_), ById(text, old_));
  }

  lemma RemovedAreAdded(cur: Records, prev: Records)
    ensures Removed(cur, prev) == Added(prev, cur)
    ensures PreviewChanged(cur, prev) == Added(cur, prev) + Updated(cur, prev) + Removed(cur, prev)
    ensures PreviewWithdrawn(cur, prev) == Removed(cur, prev) + ExplicitWithdrawals(cur, prev)
  {
    WithdrawalsAreChanges(cur, prev);
  }

  lemma PreviewIds(text: Text, catalog: Catalog, sequence: nat, expiresAt: int, previous: Option<Catalog>, now: int)
    requires DistinctIds(text, catalog.advisories) && DistinctIds(text, RecordsOf(previous))
    ensures ListsMean(text, PreviewBundle(text, catalog, sequence, expiresAt, previous, now), catalog.advisories, RecordsOf(previous))
  {
    hide PreviewBundle, ById, DistinctIds, NewRecords, RewrittenRecords, WithdrawnRecords, ExploitedRecords, AllAliases, Added, Updated, Removed,
      PreviewChanged, PreviewWithdrawn, ExplicitWithdrawals, SortedKeys, AreFirst, FoldedIds, Take, RecordsOf;
    PreviewFields(text, catalog, sequence, expiresAt, previous, now);
    var new_, old_ := catalog.advisories, RecordsOf(previous);
    GroupsOfRecords(text, new_, old_);
    GroupsOfRecords(text, old_, new_);
    RemovedAreAdded(ById(text, new_), ById(text, old_));
    FirstKeys(PreviewChanged(ById(text, new_), ById(text, old_)), 100);
    FirstKeys(PreviewWithdrawn(ById(text, new_), ById(text, old_)), 100);
  }

  /* ---------- The changed ids ---------- */

  /** The records that changed: the new and rewritten ones of the new catalog, and the dropped ones of the old. */
  ghost function ChangedRecords(text: Text, new_: seq<Record>, old_: seq<Record>): set<Record> {
    NewRecords(text, new_, old_) + RewrittenRecords(text, new_, old_) + NewRecords(text, old_, new_)
  }

  /** These are the ids of the changed records, each once, in the order of their folded forms. */
  ghost predicate IdsMean(text: Text, ids: seq<string>, new_: seq<Record>, old_: seq<Record>) {
    && |ids| == |NewRecords(text, new_, old_)| + |RewrittenRecords(text, new_, old_)| + |NewRecords(text, old_, new_)|
    && (forall id :: id in ids <==> exists r :: r in ChangedRecords(text, new_, old_) && r.id == id)
    && forall i, j :: 0 <= i < j < |ids| ==> TextLess(text.casefold(ids[i]), text.casefold(ids[j]))
  }

  lemma ChangedKeysAre(text: Text, new_: seq<Record>, old_: seq<Record>)
    requires DistinctIds(text, new_) && DistinctIds(text, old_)
    ensures
      var cur, prev := ById(text, new_), ById(text, old_);
      var here := FoldedIds(text, NewRecords(text, new_, old_) + RewrittenRecords(text, new_, old_));
      var gone := FoldedIds(text, NewRecords(text, old_, new_));
      ChangedKeys(cur, prev) == here + gone && here <= cur.Keys && gone <= prev.Keys && gone !! cur.Keys
  {
    GroupsOfRecords(text, new_, old_);
    GroupsOfRecords(text, old_, new_);
    hide ById, DistinctIds, NewRecords, RewrittenRecords, FoldedIds, Updated, ChangedKeys, ExplicitWithdrawals, Added, ExploitedRecords,
      WithdrawnRecords;
    FoldedUnion(text, NewRecords(text, new_, old_), RewrittenRecords(text, new_, old_));
    ChangedKeysSplit(ById(text, new_), ById(text, old_));
  }

  lemma FoldedUnion(text: Text, some: set<Record>, others: set<Record>)
    ensures FoldedIds(text, some + others) == FoldedIds(text, some) + FoldedIds(text, others)
  {
  }

  lemma ChangedKeysSplit(cur: Records, prev: Records)
    ensures ChangedKeys(cur, prev) == Added(cur, prev) + Updated(cur, prev) + Added(prev, cur)
    ensures Added(cur, prev) + Updated(cur, prev) <= cur.Keys && Added(prev, cur) <= prev.Keys && Added(prev, cur) !! cur.Keys
  {
  }

  lemma RecordBehindKey(text: Text, new_: seq<Record>, old_: seq<Record>, key: string)
    requires DistinctIds(text, new_) && DistinctIds(text, old_)
    ensures
      var cur, prev := ById(text, new_), ById(text, old_);
      key in ChangedKeys(cur, prev) ==>
        exists r :: r in ChangedRecords(text, new_, old_) && text.casefold(r.id) == key && r.id == RecordIdOf(cur, prev, key)
  {
    var cur, prev := ById(text, new_), ById(text, old_);
    ChangedKeysAre(text, new_, old_);
    AreRecords(text, new_, old_);
    AreRecords(text, old_, new_);
    hide ById, DistinctIds, NewRecords, RewrittenRecords, ChangedKeys;
    if key in ChangedKeys(cur, prev) {
      var from := if key in cur then new_ else old_;
      var records := if key in cur then NewRecords(text, new_, old_) + RewrittenRecords(text, new_, old_) else NewRecords(text, old_, new_);
      assert key in FoldedIds(text, records);
      var r :| r in records && text.casefold(r.id) == key;
      IndexedRecord(text, from, r);
      assert r in ChangedRecords(text, new_, old_);
    }
  }

  lemma AreRecords(text: Text, of: seq<Record>, against: seq<Record>)
    ensures forall r :: r in NewRecords(text, of, against) + RewrittenRecords(text, of, against) ==> r in of
  {
  }

  lemma KeyBeforeRecord(text: Text, new_: seq<Record>, old_: seq<Record>, r: Record)
    requires DistinctIds(text, new_) && DistinctIds(text, old_) && r in ChangedRecords(text, new_, old_)
    ensures
      var cur, prev := ById(text, new_), ById(text, old_);
      text.casefold(r.id) in ChangedKeys(cur, prev) && RecordIdOf(cur, prev, text.casefold(r.id)) == r.id
  {
    ChangedKeysAre(text, new_, old_);
    AreRecords(text, new_, old_);
    AreRecords(text, old_, new_);
    hide ById, DistinctIds, NewRecords, RewrittenRecords, ChangedKeys;
    var here, gone := NewRecords(text, new_, old_) + RewrittenRecords(text, new_, old_), NewRecords(text, old_, new_);
    if r in here {
      assert text.casefold(r.id) in FoldedIds(text, here);
      IndexedRecord(text, new_, r);
    } else {
      assert text.casefold(r.id) in FoldedIds(text, gone);
      IndexedRecord(text, old_, r);
    }
  }

  lemma ChangedCount(text: Text, new_: seq<Record>, old_: seq<Record>)
    requires DistinctIds(text, new_) && DistinctIds(text, old_)
    ensures
      |ChangedKeys(ById(text, new_), ById(text, old_))|
      == |NewRecords(text, new_, old_)| + |RewrittenRecords(text, new_, old_)| + |NewRecords(text, old_, new_)|
  {
    GroupsOfRecords(text, new_, old_);
    GroupsOfRecords(text, old_, new_);
    hide ById, DistinctIds, NewRecords, RewrittenRecords, ChangedKeys, PreviewChanged, Added, Updated, Removed, ExplicitWithdrawals, FoldedIds;
    DiffsAgree(ById(text, new_), ById(text, old_));
    DiffCounts(ById(text, new_), ById(text, old_));
    RemovedAreAdded(ById(text, new_), ById(text, old_));
  }

  /** What a reevaluation is given is the ids of the changed records, and it is refused exactly when these are more than
      forty thousand. */
  lemma ChangedIdsMean(text: Text, current: Catalog, previous: Option<Catalog>)
    requires DistinctIds(text, current.advisories) && DistinctIds(text, RecordsOf(previous))
    ensures
      var new_, old_ := current.advisories, RecordsOf(previous);
      var changed := |NewRecords(text, new_, old_)| + |RewrittenRecords(text, new_, old_)| + |NewRecords(text, old_, new_)|;
      match ChangedRecordIds(text, current, previous)
      case Err(_) => changed > 40_000
      case Ok(ids) => changed <= 40_000 && IdsMean(text, ids, new_, old_)
  {
    hide ById, DistinctIds, NewRecords, RewrittenRecords, ChangedRecords, ChangedKeys, RecordIdOf;
    var new_, old_ := current.advisories, RecordsOf(previous);
    var cur, prev := ById(text, new_), ById(text, old_);
    ChangedCount(text, new_, old_);
    SortedKeysAreSorted(ChangedKeys(cur, prev));
    var keys := SortedKeys(ChangedKeys(cur, prev));
    hide SortedKeys;
    if |keys| <= 40_000 {
      var ids := ChangedRecordIds(text, current, previous).value;
      forall i | 0 <= i < |keys|
        ensures text.casefold(ids[i]) == keys[i] && exists r :: r in ChangedRecords(text, new_, old_) && r.id == ids[i]
      {
        assert keys[i] in ToSet(keys);
        RecordBehindKey(text, new_, old_, keys[i]);
      }
      forall r | r in ChangedRecords(text, new_, old_) ensures r.id in ids {
        KeyBeforeRecord(text, new_, old_, r);
        assert text.casefold(r.id) in ToSet(keys);
        var i :| 0 <= i < |keys| && keys[i] == text.casefold(r.id);
        assert ids[i] == r.id;
      }
    }
  }
}
