/** Whole builds and chains of builds: the written tree always passes its own re-verification, and a chain with one
    retention setting keeps exactly the newest sequences of everything it was ever given. */
module MirrorRetention {
  import opened Prelude
  import opened Ordering
  import opened BundlePolicy
  import opened MirrorPaths
  import opened MirrorIndex
  import opened MirrorBuild
  import opened MirrorTheorems

  /* ---------- One build ---------- */

  lemma PickedItem(items: seq<LocalBundle>, k: nat)
    requires MergeAll(items).Ok? && k in MergeAll(items).value.bySequence
    ensures
      var picked := MergeAll(items).value.bySequence[k];
      picked in items && SequenceOf(picked) == k
  {
    MergeAllIs(items);
    var m := MergeAll(items).value;
    hide MergeAll;
    assert k in ToSet(SequencesOf(items));
    var i :| 0 <= i < |items| && SequencesOf(items)[i] == k;
    assert m.bySequence[k] == items[i];
  }

  /** The retained bundles carry the kept sequences, in order, and are among the merged ones. */
  lemma {:induction false} RetainedIs(items: seq<LocalBundle>, retainPrior: nat)
    requires |items| > 0 && MergeAll(items).Ok?
    requires forall k :: k in KeptSequences(items, retainPrior) ==> k in MergeAll(items).value.bySequence
    ensures
      var retained := Retained(MergeAll(items).value, items, retainPrior);
      && SequencesOf(retained) == KeptSequences(items, retainPrior)
      && forall x :: x in retained ==> x in items
  {
    hide MergeAll, KeptSequences;
    var retained := Retained(MergeAll(items).value, items, retainPrior);
    var kept := KeptSequences(items, retainPrior);
    forall i | 0 <= i < |kept| ensures SequenceOf(retained[i]) == kept[i] && retained[i] in items {
      assert kept[i] in kept;
      PickedItem(items, kept[i]);
    }
  }

  lemma VersionsDiffer(items: seq<LocalBundle>, a: LocalBundle, b: LocalBundle)
    requires Distinct(items) && a in items && b in items && SequenceOf(a) != SequenceOf(b)
    ensures VersionOf(a) != VersionOf(b)
  {
    var i :| 0 <= i < |items| && items[i] == a;
    var j :| 0 <= j < |items| && items[j] == b;
    assert VersionsOf(items)[i] == VersionOf(a) && VersionsOf(items)[j] == VersionOf(b);
    assert i < j || j < i;
  }

  /** Distinct bundles in rising sequence, drawn from merged ones, have distinct versions. */
  lemma RisingAreDistinct(items: seq<LocalBundle>, retained: seq<LocalBundle>)
    requires Distinct(items) && (forall x :: x in retained ==> x in items) && StrictlySorted(NatLess, SequencesOf(retained))
    ensures RisingItems(retained) && DistinctItemVersions(retained)
  {
    hide Distinct;
    forall i, j | 0 <= i < j < |retained|
      ensures SequenceOf(retained[i]) < SequenceOf(retained[j]) && VersionOf(retained[i]) != VersionOf(retained[j])
    {
      assert NatLess(SequencesOf(retained)[i], SequencesOf(retained)[j]);
      assert retained[i] in items && retained[j] in items;
      VersionsDiffer(items, retained[i], retained[j]);
    }
  }

  lemma DrawnAreGood(env: Env, items: seq<LocalBundle>, retained: seq<LocalBundle>)
    requires AllGood(env, items) && forall x :: x in retained ==> x in items
    ensures AllGood(env, retained)
  {
    hide Accepted;
    forall i | 0 <= i < |retained| ensures Accepted(env.lib, env.registry, env.source, retained[i]) {
      assert retained[i] in items;
    }
  }

  lemma RetainedIsRetainable(env: Env, items: seq<LocalBundle>, retainPrior: nat)
    requires |items| > 0 && MergeAll(items).Ok? && AllGood(env, items)
    requires retainPrior <= MAX_RETAIN_PRIOR && retainPrior + 1 <= env.source.limits.maximumMirrorCatalogs
    requires forall k :: k in KeptSequences(items, retainPrior) ==> k in MergeAll(items).value.bySequence
    ensures
      var retained := Retained(MergeAll(items).value, items, retainPrior);
      Retainable(env, retained) && StrictlySorted(NatLess, SequencesOf(retained))
      && IsTop(ToSet(SequencesOf(retained)), ToSet(SequencesOf(items)), retainPrior + 1)
  {
    hide MergeAll, KeptSequences, Accepted, Retained, Holds, IsTop, NoDuplicates, StrictlySorted, RisingItems, DistinctItemVersions, AllGood;
    MergeAllIs(items);
    RetainedIs(items, retainPrior);
    KeptIsTop(items, retainPrior);
    var retained := Retained(MergeAll(items).value, items, retainPrior);
    assert |retained| == |SequencesOf(retained)|;
    DrawnAreGood(env, items, retained);
    RisingAreDistinct(items, retained);
  }

  /** What a successful build loaded and merged. */
  ghost predicate BuiltFrom(
      env: Env, built: Built, prior: seq<LocalBundle>, added: seq<LocalBundle>, keyId: string, publishedAt: int, retainPrior: nat)
  {
    && |added| > 0 && retainPrior <= MAX_RETAIN_PRIOR && retainPrior + 1 <= env.source.limits.maximumMirrorCatalogs
    && BuildFrom(env, prior, added, keyId, publishedAt, retainPrior) == Ok(built)
  }

  lemma BuildParts(env: Env, directories: seq<Files>, keyId: string, publishedAt: int, retainPrior: int, existing: Option<Tree>)
    requires Build(env, directories, keyId, publishedAt, retainPrior, existing).Ok?
    ensures 0 <= retainPrior && (existing.Some? ==> LoadedMirror(env, existing.value, publishedAt).Ok?)
    ensures LoadLocals(env, directories, publishedAt, |directories|).Ok?
    ensures
      var prior := if existing.Some? then LoadedMirror(env, existing.value, publishedAt).value else [];
      var added := LoadLocals(env, directories, publishedAt, |directories|).value;
      BuiltFrom(env, Build(env, directories, keyId, publishedAt, retainPrior, existing).value, prior, added, keyId, publishedAt, retainPrior)
  {
    hide BuildFrom, LoadedMirror;
  }

  ghost predicate Succeeds(env: Env, built: Built, prior: seq<LocalBundle>, added: seq<LocalBundle>, publishedAt: int, retainPrior: nat) {
    && (|prior| > 0 ==> Highest(added) > Highest(prior))
    && Retainable(env, built.retained)
    && StrictlySorted(NatLess, SequencesOf(built.retained))
    && IsTop(ToSet(SequencesOf(built.retained)), ToSet(SequencesOf(prior + added)), retainPrior + 1)
    && LoadedMirror(env, built.tree, publishedAt) == Ok(built.retained)
  }

  lemma BuiltSucceeds(env: Env, built: Built, prior: seq<LocalBundle>, added: seq<LocalBundle>, keyId: string, publishedAt: int, retainPrior: nat)
    requires Sound(env) && AllGood(env, prior) && AllGood(env, added)
    requires BuiltFrom(env, built, prior, added, keyId, publishedAt, retainPrior)
    ensures Succeeds(env, built, prior, added, publishedAt, retainPrior)
  {
    hide MergeAll, KeptSequences, Accepted, Retained, Sound, Publish, LoadedMirror, IsTop, Retainable;
    var items := prior + added;
    MergedKept(items, retainPrior);
    assert AllGood(env, items);
    RetainedIsRetainable(env, items, retainPrior);
    var retained := Retained(MergeAll(items).value, items, retainPrior);
    RetainableIsNonempty(env, retained);
    PublishedParts(env, retained, keyId, publishedAt);
    WrittenTreeLoadsBack(env, retained, keyId, publishedAt);
  }

  lemma {:induction false} PriorIsGood(env: Env, tree: Tree, now: int)
    requires LoadedMirror(env, tree, now).Ok?
    ensures AllGood(env, LoadedMirror(env, tree, now).value)
  {
    hide ReadIndex, LoadEntries, AllAccepted;
    var catalogs := ReadIndex(env, tree, now).value.catalogs;
    LoadedAreAccepted(env, tree, catalogs, |catalogs|);
  }

  /** If the build succeeds, so did its loads, and it retains the newest of what it merged. */
  ghost predicate BuildKeeps(env: Env, directories: seq<Files>, keyId: string, publishedAt: int, retainPrior: int, existing: Option<Tree>) {
    var result := Build(env, directories, keyId, publishedAt, retainPrior, existing);
    var loaded := if existing.Some? then LoadedMirror(env, existing.value, publishedAt) else Ok([]);
    var inputs := LoadLocals(env, directories, publishedAt, |directories|);
    result.Ok? ==>
      && 0 <= retainPrior && loaded.Ok? && inputs.Ok?
      && Succeeds(env, result.value, loaded.value, inputs.value, publishedAt, retainPrior)
  }

  /** Every build that succeeds retains the newest of what it merged, and its tree loads back as exactly that. */
  lemma {:induction false} BuildSucceeds(env: Env, directories: seq<Files>, keyId: string, publishedAt: int, retainPrior: int, existing: Option<Tree>)
    requires Sound(env)
    ensures BuildKeeps(env, directories, keyId, publishedAt, retainPrior, existing)
  {
    hide Build, BuiltFrom, Sound, AllGood, Succeeds, LoadedMirror, LoadLocals;
    if Build(env, directories, keyId, publishedAt, retainPrior, existing).Ok? {
      BuildParts(env, directories, keyId, publishedAt, retainPrior, existing);
      if existing.Some? {
        PriorIsGood(env, existing.value, publishedAt);
      }
      NothingIsGood(env);
      LocalsAreAccepted(env, directories, publishedAt, |directories|);
      var prior := if existing.Some? then LoadedMirror(env, existing.value, publishedAt).value else [];
      var added := LoadLocals(env, directories, publishedAt, |directories|).value;
      BuiltSucceeds(env, Build(env, directories, keyId, publishedAt, retainPrior, existing).value, prior, added, keyId, publishedAt, retainPrior);
    }
  }

  lemma NothingIsGood(env: Env)
    ensures AllGood(env, [])
  {
  }

  /* ---------- The newest of the newest ---------- */

  lemma SameSize(r: set<nat>, s: set<nat>)
    requires r <= s && |s| <= |r|
    ensures r == s
  {
    assert |s - r| == |s| - |r|;
  }

  /** Either the retained set is still the top, or one of its members fell out and bounds everything that did. */
  lemma TopKeptOrLost(r: set<nat>, all: set<nat>, added: set<nat>, r': set<nat>, n: nat)
    requires IsTop(r, all, n) && IsTop(r', r + added, n)
    ensures |r| < n || r' == r || exists z :: z in r && z !in r'
  {
    if |r| == n && r <= r' {
      SameSize(r, r');
    }
  }

  /** The `n` highest of what was retained and what is added are the `n` highest of everything. */
  lemma TopOfTop(r: set<nat>, all: set<nat>, added: set<nat>, r': set<nat>, n: nat)
    requires IsTop(r, all, n) && IsTop(r', r + added, n)
    ensures IsTop(r', all + added, n)
  {
    TopKeptOrLost(r, all, added, r', n);
    forall x, y | x in r' && y in all + added - r' ensures y < x {
      if y in r + added {
        assert y in r + added - r';
      } else {
        assert y in all - r;
        if x !in r {
          var z :| z in r && z !in r';
          assert z in r + added - r';
        }
      }
    }
    if |r'| < n {
      assert r <= r';
    }
  }

  /** What was given and dropped stays dropped, even if it is given again. */
  lemma DroppedStays(r: set<nat>, all: set<nat>, added: set<nat>, r': set<nat>, n: nat, x: nat)
    requires IsTop(r, all, n) && IsTop(r', r + added, n) && x in all - r
    ensures x !in r'
  {
    TopKeptOrLost(r, all, added, r', n);
    if r' != r {
      var z :| z in r && z !in r';
      assert z in r + added - r' && x < z;
    }
  }

  /* ---------- Chains of builds ---------- */

  datatype Step = Step(directories: seq<Files>, publishedAt: int)

  /** Each build is fed the tree of the one before. */
  function Chain(env: Env, keyId: string, retainPrior: int, steps: seq<Step>): Result<Built, MirrorError>
    requires |steps| > 0
  {
    var last := steps[|steps| - 1];
    if |steps| == 1 then Build(env, last.directories, keyId, last.publishedAt, retainPrior, None)
    else
      match Chain(env, keyId, retainPrior, steps[..|steps| - 1])
      case Err(error) => Err(error)
      case Ok(built) => Build(env, last.directories, keyId, last.publishedAt, retainPrior, Some(built.tree))
  }

  function AddedBy(env: Env, step: Step): seq<LocalBundle> {
    match LoadLocals(env, step.directories, step.publishedAt, |step.directories|)
    case Ok(items) => items
    case Err(_) => []
  }

  /** All sequences ever given to the chain. */
  function Given(env: Env, steps: seq<Step>): set<nat> {
    if |steps| == 0 then {}
    else Given(env, steps[..|steps| - 1]) + ToSet(SequencesOf(AddedBy(env, steps[|steps| - 1])))
  }

  /** A tree that loads at some clock loads at another exactly when that lies in its index's interval, and then as the
      same bundles. */
  lemma {:induction false} LoadIsTimeless(env: Env, tree: Tree, now: int, later: int)
    requires LoadedMirror(env, tree, now).Ok?
    ensures
      var index := ReadIndex(env, tree, now).value;
      && index.signingKeyId in env.registry
      && (LoadedMirror(env, tree, later).Ok? <==> InIndexWindow(index, env.source, env.registry[index.signingKeyId], later))
      && (LoadedMirror(env, tree, later).Ok? ==> LoadedMirror(env, tree, later) == LoadedMirror(env, tree, now))
  {
    hide LoadEntries, VerifyIndex, InIndexWindow;
    IndexWindow(env.lib, env.codec, env.registry, env.source, tree[INDEX_NAME], tree[INDEX_SIGNATURE_NAME], now, later);
  }

  /** When a written tree loads: from five minutes before its publication until it is too old, as long as its latest
      bundle has not expired and its signing key is in force. It then loads as exactly the retained bundles. */
  lemma WrittenTreeLoadsUntil(env: Env, items: seq<LocalBundle>, keyId: string, publishedAt: int, later: int)
    requires Sound(env) && Retainable(env, items) && Publish(env, items, keyId, publishedAt).Ok?
    ensures |items| > 0 && keyId in env.registry
    ensures
      var loaded, key := LoadedMirror(env, Publish(env, items, keyId, publishedAt).value.tree, later), env.registry[keyId];
      && (loaded.Ok? <==>
            && publishedAt - MAX_FUTURE_SKEW <= later <= publishedAt + env.source.limits.maximumIndexAge * MICROS
            && later < items[|items| - 1].bundle.manifest.expiresAt
            && !Before(later, key.notBefore) && !AtOrAfter(later, key.notAfter))
      && (loaded.Ok? ==> loaded == Ok(items))
  {
    hide LoadedMirror, Publish, IndexFor, Sound, Retainable, ReadIndex;
    RetainableIsNonempty(env, items);
    PublishedLoadsBack(env, items, keyId, publishedAt);
    IndexReadsBack(env, items, keyId, publishedAt);
    IndexIsDated(env.lib, env.source, items, keyId, publishedAt);
    LoadIsTimeless(env, Publish(env, items, keyId, publishedAt).value.tree, publishedAt, later);
  }

  lemma JoinedSequences(a: seq<LocalBundle>, b: seq<LocalBundle>)
    ensures ToSet(SequencesOf(a + b)) == ToSet(SequencesOf(a)) + ToSet(SequencesOf(b))
  {
    assert SequencesOf(a + b) == SequencesOf(a) + SequencesOf(b);
  }

  /** One more build, after a chain that succeeded. */
  lemma ChainStep(env: Env, keyId: string, retainPrior: int, steps: seq<Step>)
    requires Sound(env) && |steps| > 1 && Chain(env, keyId, retainPrior, steps).Ok?
    requires
      var front := steps[..|steps| - 1];
      Chain(env, keyId, retainPrior, front).Ok?
      && LoadedMirror(env, Chain(env, keyId, retainPrior, front).value.tree, front[|front| - 1].publishedAt)
         == Ok(Chain(env, keyId, retainPrior, front).value.retained)
    ensures
      var before, last := Chain(env, keyId, retainPrior, steps[..|steps| - 1]).value, steps[|steps| - 1];
      0 <= retainPrior
      && Succeeds(env, Chain(env, keyId, retainPrior, steps).value, before.retained, AddedBy(env, last), last.publishedAt, retainPrior)
  {
    var before, last := Chain(env, keyId, retainPrior, steps[..|steps| - 1]).value, steps[|steps| - 1];
    hide Build, LoadedMirror, LoadLocals, Sound, Succeeds;
    BuildSucceeds(env, last.directories, keyId, last.publishedAt, retainPrior, Some(before.tree));
    LoadIsTimeless(env, before.tree, steps[|steps| - 2].publishedAt, last.publishedAt);
  }

  /** The first build. */
  lemma ChainStart(env: Env, keyId: string, retainPrior: int, steps: seq<Step>)
    requires Sound(env) && |steps| == 1 && Chain(env, keyId, retainPrior, steps).Ok?
    ensures 0 <= retainPrior
    ensures Succeeds(env, Chain(env, keyId, retainPrior, steps).value, [], AddedBy(env, steps[0]), steps[0].publishedAt, retainPrior)
  {
    hide Build, LoadedMirror, LoadLocals, Sound, Succeeds;
    BuildSucceeds(env, steps[0].directories, keyId, steps[0].publishedAt, retainPrior, None);
  }

  ghost predicate ChainKeeps(env: Env, keyId: string, retainPrior: int, steps: seq<Step>)
    requires |steps| > 0
  {
    var result := Chain(env, keyId, retainPrior, steps);
    result.Ok? ==> KeepsNewest(env, result.value, retainPrior, steps)
  }

  ghost predicate KeepsNewest(env: Env, built: Built, retainPrior: int, steps: seq<Step>)
    requires |steps| > 0
  {
    && 0 <= retainPrior && Retainable(env, built.retained)
    && StrictlySorted(NatLess, SequencesOf(built.retained))
    && IsTop(ToSet(SequencesOf(built.retained)), Given(env, steps), retainPrior + 1)
    && LoadedMirror(env, built.tree, steps[|steps| - 1].publishedAt) == Ok(built.retained)
  }

  /** Streaming retention: a chain of builds with one retention setting, each fed the output of the one before,
      retains exactly the `retainPrior + 1` highest of all the sequences ever given. */
  lemma {:induction false} ChainRetainsNewest(env: Env, keyId: string, retainPrior: int, steps: seq<Step>)
    requires Sound(env) && |steps| > 0
    ensures ChainKeeps(env, keyId, retainPrior, steps)
  {
    hide Build, LoadedMirror, LoadLocals, Sound, IsTop, Retainable, AddedBy;
    var last := steps[|steps| - 1];
    if Chain(env, keyId, retainPrior, steps).Err? {
    } else if |steps| == 1 {
      ChainStart(env, keyId, retainPrior, steps);
      assert Given(env, steps) == ToSet(SequencesOf(AddedBy(env, last))) by {
        assert steps[..0] == [];
      }
      assert [] + AddedBy(env, last) == AddedBy(env, last);
    } else {
      var front := steps[..|steps| - 1];
      ChainRetainsNewest(env, keyId, retainPrior, front);
      ChainStep(env, keyId, retainPrior, steps);
      var before := Chain(env, keyId, retainPrior, front).value;
      var built := Chain(env, keyId, retainPrior, steps).value;
      JoinedSequences(before.retained, AddedBy(env, last));
      TopOfTop(ToSet(SequencesOf(before.retained)), Given(env, front), ToSet(SequencesOf(AddedBy(env, last))),
               ToSet(SequencesOf(built.retained)), retainPrior + 1);
    }
  }

  lemma {:induction false} HighestIs(items: seq<LocalBundle>)
    requires |items| > 0
    ensures Highest(items) in ToSet(SequencesOf(items))
    ensures forall k :: k in ToSet(SequencesOf(items)) ==> k <= Highest(items)
  {
    var front, last := items[..|items| - 1], items[|items| - 1];
    assert items == front + [last];
    assert SequencesOf(items) == SequencesOf(front) + [SequenceOf(last)];
    assert forall k :: k in ToSet(SequencesOf(items)) <==> k in ToSet(SequencesOf(front)) || k == SequenceOf(last);
    if |front| > 0 {
      HighestIs(front);
    }
  }

  function Latest(built: Built): nat
    requires |built.retained| > 0
  {
    SequenceOf(built.retained[|built.retained| - 1])
  }

  lemma LatestIsHighest(env: Env, built: Built)
    requires Retainable(env, built.retained)
    ensures Latest(built) == Highest(built.retained)
  {
    hide AllAccepted;
    HighestIs(built.retained);
    var k := |built.retained| - 1;
    assert SequencesOf(built.retained)[k] == Latest(built);
    assert Latest(built) in ToSet(SequencesOf(built.retained));
    forall x | x in ToSet(SequencesOf(built.retained)) ensures x <= Latest(built) {
      var i :| 0 <= i < |built.retained| && SequencesOf(built.retained)[i] == x;
      assert i < k ==> SequenceOf(built.retained[i]) < SequenceOf(built.retained[k]);
    }
  }

  /** A top that is not empty contains the maximum. */
  lemma TopHasMaximum(r: set<nat>, all: set<nat>, n: nat, most: nat)
    requires IsTop(r, all, n) && r != {} && most in all && forall k :: k in all ==> k <= most
    ensures most in r
  {
    var x :| x in r;
    assert x <= most;
    assert most in all - r ==> most < x;
  }

  lemma SucceedsRises(env: Env, built: Built, prior: seq<LocalBundle>, added: seq<LocalBundle>, publishedAt: int, retainPrior: nat)
    requires Succeeds(env, built, prior, added, publishedAt, retainPrior) && |prior| > 0 && |added| > 0
    ensures |built.retained| > 0 && Latest(built) > Highest(prior)
  {
    hide LoadedMirror, AllAccepted, StrictlySorted, RisingItems, DistinctItemVersions;
    HighestIs(prior);
    HighestIs(added);
    JoinedSequences(prior, added);
    LatestIsHighest(env, built);
    HighestIs(built.retained);
    assert ToSet(SequencesOf(built.retained)) != {};
    TopHasMaximum(ToSet(SequencesOf(built.retained)), ToSet(SequencesOf(prior + added)), retainPrior + 1, Highest(added));
  }

  lemma AddedIsNonempty(env: Env, keyId: string, retainPrior: int, steps: seq<Step>)
    requires |steps| > 0 && Chain(env, keyId, retainPrior, steps).Ok?
    ensures |AddedBy(env, steps[|steps| - 1])| > 0
  {
    hide LoadedMirror, BuildFrom;
  }

  ghost predicate Rises(before: Result<Built, MirrorError>, after: Result<Built, MirrorError>) {
    after.Ok? ==>
      && before.Ok? && |before.value.retained| > 0 && |after.value.retained| > 0
      && Latest(before.value) < Latest(after.value)
  }

  /** Each build of a chain publishes a strictly higher latest sequence than the one before. */
  lemma {:induction false} LatestRises(env: Env, keyId: string, retainPrior: int, steps: seq<Step>)
    requires Sound(env) && |steps| > 1
    ensures Rises(Chain(env, keyId, retainPrior, steps[..|steps| - 1]), Chain(env, keyId, retainPrior, steps))
  {
    hide Build, Chain, LoadedMirror, LoadLocals, Sound, IsTop, Succeeds, AddedBy, AllGood;
    if Chain(env, keyId, retainPrior, steps).Ok? {
      var front, last := steps[..|steps| - 1], steps[|steps| - 1];
      ChainPrefix(env, keyId, retainPrior, steps);
      ChainRetainsNewest(env, keyId, retainPrior, front);
      ChainStep(env, keyId, retainPrior, steps);
      AddedIsNonempty(env, keyId, retainPrior, steps);
      var before := Chain(env, keyId, retainPrior, front).value;
      LatestIsHighest(env, before);
      SucceedsRises(env, Chain(env, keyId, retainPrior, steps).value, before.retained, AddedBy(env, last), last.publishedAt, retainPrior);
    }
  }

  ghost predicate Dropped(env: Env, keyId: string, retainPrior: int, steps: seq<Step>, x: nat)
    requires |steps| > 0
  {
    var result := Chain(env, keyId, retainPrior, steps);
    result.Ok? && x in Given(env, steps) && x !in ToSet(SequencesOf(result.value.retained))
  }

  lemma DroppedStep(env: Env, keyId: string, retainPrior: int, steps: seq<Step>, x: nat)
    requires Sound(env) && |steps| > 1 && Chain(env, keyId, retainPrior, steps).Ok?
    requires Dropped(env, keyId, retainPrior, steps[..|steps| - 1], x)
    ensures Dropped(env, keyId, retainPrior, steps, x)
  {
    hide Build, Chain, LoadedMirror, LoadLocals, Sound, IsTop, AddedBy, Retainable;
    var front, last := steps[..|steps| - 1], steps[|steps| - 1];
    ChainRetainsNewest(env, keyId, retainPrior, front);
    ChainStep(env, keyId, retainPrior, steps);
    var before, built := Chain(env, keyId, retainPrior, front).value, Chain(env, keyId, retainPrior, steps).value;
    JoinedSequences(before.retained, AddedBy(env, last));
    DroppedStays(ToSet(SequencesOf(before.retained)), Given(env, front), ToSet(SequencesOf(AddedBy(env, last))),
                 ToSet(SequencesOf(built.retained)), retainPrior + 1, x);
  }

  lemma ChainPrefix(env: Env, keyId: string, retainPrior: int, steps: seq<Step>)
    requires |steps| > 1 && Chain(env, keyId, retainPrior, steps).Ok?
    ensures Chain(env, keyId, retainPrior, steps[..|steps| - 1]).Ok?
  {
    hide Build;
  }

  /** A sequence that was given and removed never reappears, however the chain goes on. */
  lemma {:induction false} RemovedNeverReappears(env: Env, keyId: string, retainPrior: int, steps: seq<Step>, more: seq<Step>, x: nat)
    requires Sound(env) && |steps| > 0
    ensures Dropped(env, keyId, retainPrior, steps, x) && Chain(env, keyId, retainPrior, steps + more).Ok? ==>
              Dropped(env, keyId, retainPrior, steps + more, x)
  {
    hide Chain, Dropped, Sound;
    if |more| == 0 {
      assert steps + more == steps;
    } else if Dropped(env, keyId, retainPrior, steps, x) && Chain(env, keyId, retainPrior, steps + more).Ok? {
      var all, before := steps + more, more[..|more| - 1];
      assert all[..|all| - 1] == steps + before;
      ChainPrefix(env, keyId, retainPrior, all);
      RemovedNeverReappears(env, keyId, retainPrior, steps, before, x);
      DroppedStep(env, keyId, retainPrior, all, x);
    }
  }

  /* ---------- The builder ---------- */

  /** Exclusive creation: no directory and no file of the tree is ever created twice. */
  method WriteTree(env: Env, items: seq<LocalBundle>, indexBytes: Bytes, signatureBytes: Bytes) returns (tree: Tree)
    requires forall i :: 0 <= i < |items| ==> ValidPaths(EntryFor(env.lib, env.source, items[i]))
    requires DistinctPaths(EntriesFor(env.lib, env.source, items))
    ensures tree == TreeOf(env, items, indexBytes, signatureBytes)
  {
    hide *;
    tree := map[];
    WritesNothing(env, items);
    for i := 0 to |items|
      invariant tree == WriteBundles(env, items, i)
    {
      var e := EntryFor(env.lib, env.source, items[i]);
      FreshPaths(env, items, i, i);
      WritesNext(env, items, i);
      tree := WriteCatalog(tree, e, items[i].files);
    }
    IndexIsFree(env, items, |items|);
    tree := CreateFile(tree, INDEX_NAME, indexBytes);
    tree := CreateFile(tree, INDEX_SIGNATURE_NAME, signatureBytes);
    TreeIs(env, items, indexBytes, signatureBytes);
  }

  lemma WritesNothing(env: Env, items: seq<LocalBundle>)
    ensures WriteBundles(env, items, 0) == map[]
  {
  }

  lemma WritesNext(env: Env, items: seq<LocalBundle>, n: nat)
    requires n < |items|
    ensures WriteBundles(env, items, n + 1)
         == WriteBundle(WriteBundles(env, items, n), EntryFor(env.lib, env.source, items[n]), items[n].files)
  {
    hide EntryFor, WriteBundle;
  }

  lemma TreeIs(env: Env, items: seq<LocalBundle>, indexBytes: Bytes, signatureBytes: Bytes)
    ensures TreeOf(env, items, indexBytes, signatureBytes)
         == WriteBundles(env, items, |items|)[INDEX_NAME := indexBytes][INDEX_SIGNATURE_NAME := signatureBytes]
  {
  }

  method WriteCatalog(tree: Tree, e: Entry, files: Files) returns (after: Tree)
    requires e.manifestPath !in tree && e.signaturePath !in tree && e.payloadPath !in tree
    requires e.manifestPath != e.signaturePath && e.manifestPath != e.payloadPath && e.signaturePath != e.payloadPath
    ensures after == WriteBundle(tree, e, files)
  {
    after := CreateFile(tree, e.manifestPath, files.manifest);
    after := CreateFile(after, e.signaturePath, files.signature);
    after := CreateFile(after, e.payloadPath, files.payload);
  }

  method CreateFile(tree: Tree, path: string, data: Bytes) returns (after: Tree)
    requires path !in tree
    ensures after == tree[path := data] && |after| == |tree| + 1
  {
    after := tree[path := data];
    assert after.Keys == tree.Keys + {path};
    assert |after| == |after.Keys| && |tree| == |tree.Keys|;
  }

  lemma {:induction false} WrittenPaths(env: Env, items: seq<LocalBundle>, n: nat, path: string)
    requires n <= |items| && path in WriteBundles(env, items, n)
    ensures exists j :: 0 <= j < n && path in PathsOf(EntryFor(env.lib, env.source, items[j]))
  {
    hide EntryFor;
    if path !in PathsOf(EntryFor(env.lib, env.source, items[n - 1])) {
      WrittenPaths(env, items, n - 1, path);
    }
  }

  /** The paths of a later entry are free, and distinct from each other. */
  lemma FreshPaths(env: Env, items: seq<LocalBundle>, n: nat, i: nat)
    requires n <= i < |items| && ValidPaths(EntryFor(env.lib, env.source, items[i])) && DistinctPaths(EntriesFor(env.lib, env.source, items))
    ensures
      var e, tree := EntryFor(env.lib, env.source, items[i]), WriteBundles(env, items, n);
      && e.manifestPath !in tree && e.signaturePath !in tree && e.payloadPath !in tree
      && e.manifestPath != e.signaturePath && e.manifestPath != e.payloadPath && e.signaturePath != e.payloadPath
  {
    hide EntryFor, ValidRelativePath, WriteBundles;
    var e := EntryFor(env.lib, env.source, items[i]);
    forall path | path in PathsOf(e) ensures path !in WriteBundles(env, items, n) {
      if path in WriteBundles(env, items, n) {
        WrittenPaths(env, items, n, path);
        var j :| 0 <= j < n && path in PathsOf(EntryFor(env.lib, env.source, items[j]));
        OtherPaths(env, items, j, i);
      }
    }
  }

  lemma OtherPaths(env: Env, items: seq<LocalBundle>, j: nat, i: nat)
    requires j < i < |items| && DistinctPaths(EntriesFor(env.lib, env.source, items))
    ensures PathsOf(EntryFor(env.lib, env.source, items[j])) !! PathsOf(EntryFor(env.lib, env.source, items[i]))
  {
    hide EntryFor, PathsOf;
    var entries := EntriesFor(env.lib, env.source, items);
    assert PathsOf(entries[j]) !! PathsOf(entries[i]);
  }

  lemma IndexIsFree(env: Env, items: seq<LocalBundle>, n: nat)
    requires n <= |items|
    ensures INDEX_NAME !in WriteBundles(env, items, n) && INDEX_SIGNATURE_NAME !in WriteBundles(env, items, n)
    ensures INDEX_NAME != INDEX_SIGNATURE_NAME
  {
    hide EntryFor, WriteBundles, PathsOf;
    assert |INDEX_NAME| != |INDEX_SIGNATURE_NAME|;
    forall path | path in {INDEX_NAME, INDEX_SIGNATURE_NAME} ensures path !in WriteBundles(env, items, n) {
      if path in WriteBundles(env, items, n) {
        WrittenPaths(env, items, n, path);
        var j :| 0 <= j < n && path in PathsOf(EntryFor(env.lib, env.source, items[j]));
        IndexIsElsewhere(env.lib, env.source, items[j]);
      }
    }
  }

  method LoadDirectories(env: Env, directories: seq<Files>, now: int) returns (result: Result<seq<LocalBundle>, MirrorError>)
    ensures result == LoadLocals(env, directories, now, |directories|)
  {
    hide LoadLocal;
    var items: seq<LocalBundle> := [];
    for i := 0 to |directories|
      invariant LoadLocals(env, directories, now, i) == Ok(items)
    {
      var loaded := LoadLocal(env, directories[i], now);
      if loaded.Err? {
        assert LoadLocals(env, directories, now, i + 1) == Err(loaded.error);
        LocalErrorStays(env, directories, now, i + 1, |directories|);
        return Err(loaded.error);
      }
      items := items + [loaded.value];
    }
    return Ok(items);
  }

  lemma {:induction false} LocalErrorStays(env: Env, directories: seq<Files>, now: int, m: nat, n: nat)
    requires m <= n <= |directories| && LoadLocals(env, directories, now, m).Err?
    ensures LoadLocals(env, directories, now, n) == LoadLocals(env, directories, now, m)
  {
    hide LoadLocal;
    if m < n {
      LocalErrorStays(env, directories, now, m, n - 1);
    }
  }

  function DigestsOf(items: seq<LocalBundle>): seq<string> {
    seq(|items|, i requires 0 <= i < |items| => items[i].bundle.manifestDigest)
  }

  /** From the retained bundles on: sign, verify, write, load back and compare. The last two never fail. */
  method PublishMirror(env: Env, retained: seq<LocalBundle>, keyId: string, publishedAt: int) returns (result: Result<Built, MirrorError>)
    requires Sound(env) && Retainable(env, retained)
    ensures result == Publish(env, retained, keyId, publishedAt)
  {
    RetainableIsNonempty(env, retained);
    hide Retainable, Sound, IndexFor, ValidIndex, VerifyIndex, TreeOf, LoadedMirror;
    if retained[|retained| - 1].bundle.manifest.expiresAt <= publishedAt {
      return Err(LatestExpired);
    }
    var index := IndexFor(env.lib, env.source, retained, keyId, publishedAt);
    if !ValidIndex(index) {
      return Err(IndexSchemaInvalid);
    }
    var data := env.codec.encode(index);
    if |data| > env.source.limits.maximumIndexBytes {
      return Err(IndexSizeInvalid);
    }
    var signature := env.codec.sign(data);
    var verified := VerifyIndex(env.lib, env.codec, env.registry, env.source, data, signature, publishedAt);
    if verified.Err? {
      return Err(verified.error);
    }
    ValidIndexPaths(env.lib, env.source, retained, keyId, publishedAt);
    var tree := WriteTree(env, retained, data, signature);
    WrittenTreeLoadsBack(env, retained, keyId, publishedAt);
    var loaded := LoadExistingMirror(env, tree, publishedAt);
    match loaded {
      case Err(error) => return Err(error);
      case Ok(reverified) =>
        if DigestsOf(reverified) != DigestsOf(retained) {
          return Err(OutputVerificationFailed);
        }
    }
    return Ok(Built(index, tree, retained));
  }

  /** `build_advisory_mirror`: its result is that of `Build`, in which no step can fail after the tree is written. */
  method BuildMirror(env: Env, directories: seq<Files>, keyId: string, publishedAt: int, retainPrior: int, existing: Option<Tree>)
    returns (result: Result<Built, MirrorError>)
    requires Sound(env)
    ensures result == Build(env, directories, keyId, publishedAt, retainPrior, existing)
  {
    hide Sound, LoadedMirror, LoadLocals, MergeAll, KeptSequences, Publish, AllGood, Retainable;
    if |directories| == 0 {
      return Err(InputEmpty);
    }
    if !(0 <= retainPrior <= MAX_RETAIN_PRIOR) {
      return Err(RetentionInvalid);
    }
    if retainPrior + 1 > env.source.limits.maximumMirrorCatalogs {
      return Err(RetentionTooLarge);
    }
    if env.source.mirrorKeys.None? {
      return Err(SourceModeInvalid);
    }
    if keyId !in env.source.mirrorKeys.value {
      return Err(IndexKeySubstitution);
    }
    NothingIsGood(env);
    var prior: seq<LocalBundle> := [];
    if existing.Some? {
      var loaded := LoadExistingMirror(env, existing.value, publishedAt);
      if loaded.Err? {
        return Err(loaded.error);
      }
      prior := loaded.value;
      PriorIsGood(env, existing.value, publishedAt);
    }
    var inputs := LoadDirectories(env, directories, publishedAt);
    if inputs.Err? {
      return Err(inputs.error);
    }
    var added := inputs.value;
    LocalsAreAccepted(env, directories, publishedAt, |directories|);
    if |prior| > 0 && Highest(added) <= Highest(prior) {
      return Err(CatalogNotAdvanced);
    }
    var items := prior + added;
    var merged := MergeBundles(items);
    if merged.Err? {
      return Err(merged.error);
    }
    MergedKept(items, retainPrior);
    var retained := Pick(merged.value, KeptSequences(items, retainPrior));
    JoinedIsGood(env, prior, added);
    RetainedIsRetainable(env, items, retainPrior);
    result := PublishMirror(env, retained, keyId, publishedAt);
  }

  lemma JoinedIsGood(env: Env, a: seq<LocalBundle>, b: seq<LocalBundle>)
    requires AllGood(env, a) && AllGood(env, b)
    ensures AllGood(env, a + b)
  {
    hide Accepted;
  }

  /* ---------- The byte budget of a snapshot ---------- */

  function Claimed(e: Entry): nat {
    e.manifestBytes + e.signatureBytes + e.payloadBytes
  }

  function ClaimedBy(catalogs: seq<Entry>, n: nat): nat
    requires n <= |catalogs|
  {
    if n == 0 then 0 else ClaimedBy(catalogs, n - 1) + Claimed(catalogs[n - 1])
  }

  lemma {:induction false} ClaimsGrow(catalogs: seq<Entry>, m: nat, n: nat)
    requires m <= n <= |catalogs|
    ensures ClaimedBy(catalogs, m) <= ClaimedBy(catalogs, n)
  {
    if m < n {
      ClaimsGrow(catalogs, m, n - 1);
    }
  }

  lemma LoadedAsClaimed(env: Env, tree: Tree, e: Entry)
    requires LoadEntry(env, tree, e).Ok?
    ensures
      var files := LoadEntry(env, tree, e).value.files;
      |files.manifest| + |files.signature| + |files.payload| == Claimed(e)
  {
    hide VerifyBundle, MatchesEntry;
  }

  /** All catalogs before `i` load within the limit; with the next one the claims exceed it, or it does not load. */
  ghost predicate StopsAt(env: Env, remote: Tree, catalogs: seq<Entry>, base: nat, i: int, error: MirrorError) {
    && 0 <= i < |catalogs| && LoadEntries(env, remote, catalogs, i).Ok?
    && (i > 0 ==> base + ClaimedBy(catalogs, i) <= env.source.limits.maximumSnapshotBytes)
    && if base + ClaimedBy(catalogs, i + 1) > env.source.limits.maximumSnapshotBytes then error.SnapshotTooLarge?
       else LoadEntry(env, remote, catalogs[i]) == Err(error)
  }

  /** The download loop of a snapshot. Each catalog's claimed size is charged before it is fetched, so the bytes
      kept never exceed the limit; it succeeds exactly when every catalog verifies and all the claims fit. */
  method SnapshotCatalogs(env: Env, remote: Tree, catalogs: seq<Entry>, base: nat)
    returns (result: Result<seq<LocalBundle>, MirrorError>, total: nat)
    ensures |catalogs| > 0 && result.Ok? ==> total <= env.source.limits.maximumSnapshotBytes
    ensures result.Ok? ==> result == LoadEntries(env, remote, catalogs, |catalogs|) && total == base + ClaimedBy(catalogs, |catalogs|)
    ensures |catalogs| > 0 ==>
              (result.Ok? <==> LoadEntries(env, remote, catalogs, |catalogs|).Ok?
                               && base + ClaimedBy(catalogs, |catalogs|) <= env.source.limits.maximumSnapshotBytes)
    ensures base <= env.source.limits.maximumSnapshotBytes ==> total <= env.source.limits.maximumSnapshotBytes
    ensures result.Err? ==> exists i :: StopsAt(env, remote, catalogs, base, i, result.error)
  {
    hide LoadEntry, Claimed;
    total := base;
    var bundles: seq<LocalBundle> := [];
    for i := 0 to |catalogs|
      invariant LoadEntries(env, remote, catalogs, i) == Ok(bundles)
      invariant total == base + ClaimedBy(catalogs, i)
      invariant i > 0 ==> total <= env.source.limits.maximumSnapshotBytes
    {
      ClaimsGrow(catalogs, i + 1, |catalogs|);
      if total + Claimed(catalogs[i]) > env.source.limits.maximumSnapshotBytes {
        assert StopsAt(env, remote, catalogs, base, i, SnapshotTooLarge);
        return Err(SnapshotTooLarge), total;
      }
      var loaded := LoadEntry(env, remote, catalogs[i]);
      if loaded.Err? {
        assert LoadEntries(env, remote, catalogs, i + 1) == Err(loaded.error);
        LoadErrorStays(env, remote, catalogs, i + 1, |catalogs|);
        assert StopsAt(env, remote, catalogs, base, i, loaded.error);
        return Err(loaded.error), total;
      }
      LoadedAsClaimed(env, remote, catalogs[i]);
      var files := loaded.value.files;
      bundles := bundles + [loaded.value];
      total := total + |files.manifest| + |files.signature| + |files.payload|;
    }
    return Ok(bundles), total;
  }
}
