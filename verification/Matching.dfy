/** The matches of the evaluation engine: what one reconciliation writes to them, and what a reader then sees. */
module Matching {
  import opened Prelude
  import opened Catalogs
  import opened AdvisoryTables

  /** What the engine says of each component it identifies with an advisory, given the advisory's rows. */
  type Matcher = AdvisoryView -> map<string, string>

  datatype MatchRow = MatchRow(status: string, evaluatedAt: int)

  /** The match rows of one advisory, by component, and those of all advisories. */
  type MatchRows = map<string, MatchRow>
  type Matches = map<AdvisoryId, MatchRows>

  /** The rows of a chunk as one query read them. */
  type Views = map<AdvisoryId, Option<AdvisoryView>>

  const NOT_AFFECTED := "not-affected"
  const WITHDRAWN := "advisory-withdrawn"

  predicate Resolved(status: string) {
    status == NOT_AFFECTED || status == WITHDRAWN
  }

  /** The status of a component, unless it is resolved: that is as good as no row. */
  function LiveAt(statuses: map<string, string>, c: string): Option<string> {
    if c in statuses && !Resolved(statuses[c]) then Some(statuses[c]) else None
  }

  function Live(statuses: map<string, string>): map<string, string> {
    map c | c in statuses && !Resolved(statuses[c]) :: statuses[c]
  }

  lemma LiveIsPointwise(one: map<string, string>, other: map<string, string>)
    ensures Live(one) == Live(other) <==> forall c :: LiveAt(one, c) == LiveAt(other, c)
  {
    if Live(one) == Live(other) {
      forall c ensures LiveAt(one, c) == LiveAt(other, c) {
        assert c in Live(one) <==> c in Live(other);
        assert c in Live(one) ==> Live(one)[c] == Live(other)[c];
      }
    }
    if forall c :: LiveAt(one, c) == LiveAt(other, c) {
      forall c ensures c in Live(one) <==> c in Live(other)
               ensures c in Live(one) ==> c in Live(other) && Live(one)[c] == Live(other)[c]
      {
        assert LiveAt(one, c) == LiveAt(other, c);
      }
      assert Live(one) == Live(other);
    }
  }

  function Statuses(rows: MatchRows): map<string, string> {
    map c | c in rows :: rows[c].status
  }

  function RowsOf(matches: Matches, a: AdvisoryId): MatchRows {
    if a in matches then matches[a] else map[]
  }

  /** The candidates of an advisory: none if the query returned no rows. */
  function Candidates(matcher: Matcher, view: Option<AdvisoryView>): map<string, string> {
    match view
    case None => map[]
    case Some(rows) => matcher(rows)
  }

  /** One advisory's part of `reconcile`. A row that was evaluated later stays. Otherwise a candidate is inserted
      or replaces its row, and a row without a candidate is resolved, unless it already is in that way. */
  function WriteRows(rows: MatchRows, candidates: map<string, string>, current: bool, at: int): MatchRows {
    var resolution := if current then NOT_AFFECTED else WITHDRAWN;
    map c | c in rows.Keys + candidates.Keys ::
      if c in rows && at < rows[c].evaluatedAt then rows[c]
      else if c in candidates then MatchRow(candidates[c], at)
      else if rows[c].status == resolution then rows[c]
      else MatchRow(resolution, at)
  }

  predicate IsCurrent(t: Tables, a: AdvisoryId) {
    a in t.advisories ==> t.advisories[a].current
  }

  /** The write transaction of one evaluation: the candidates come from rows read before, only the current flag is
      read now. */
  function WriteMatches(matcher: Matcher, views: Views, t: Tables, matches: Matches, at: int): Matches {
    map a | a in matches.Keys + views.Keys ::
      if a in views then WriteRows(RowsOf(matches, a), Candidates(matcher, views[a]), IsCurrent(t, a), at) else matches[a]
  }

  /** The query for a chunk's rows. */
  ghost function ViewsOf(t: Tables, ids: set<AdvisoryId>): Views {
    map a | a in ids :: View(t, a)
  }

  /** A read and a write that nothing separates. */
  ghost function Reconcile(matcher: Matcher, t: Tables, matches: Matches, ids: set<AdvisoryId>, at: int): Matches {
    WriteMatches(matcher, ViewsOf(t, ids), t, matches, at)
  }

  predicate IsLater(rows: MatchRows, c: string, at: int) {
    c in rows && at < rows[c].evaluatedAt
  }

  /** Every row evaluated later, which a write leaves alone, says what the engine says of the rows now. */
  ghost predicate LaterRowsAgree(rows: MatchRows, now: map<string, string>, at: int) {
    forall c :: IsLater(rows, c, at) ==> LiveAt(Statuses(rows), c) == LiveAt(now, c)
  }

  /** For every other component, the rows that were read give what the rows now give. */
  ghost predicate ReadAgrees(rows: MatchRows, read: map<string, string>, now: map<string, string>, at: int) {
    forall c :: !IsLater(rows, c, at) ==> LiveAt(read, c) == LiveAt(now, c)
  }

  lemma WrittenAt(rows: MatchRows, read: map<string, string>, current: bool, at: int, c: string)
    ensures LiveAt(Statuses(WriteRows(rows, read, current, at)), c)
         == if IsLater(rows, c, at) then LiveAt(Statuses(rows), c) else LiveAt(read, c)
  {
  }

  /** A write leaves the advisory's match what the engine says of its rows now if and only if later rows agree with
      that, and so do the rows read wherever there is no later row. */
  lemma WrittenShows(rows: MatchRows, read: map<string, string>, now: map<string, string>, current: bool, at: int)
    ensures Live(Statuses(WriteRows(rows, read, current, at))) == Live(now) <==>
              LaterRowsAgree(rows, now, at) && ReadAgrees(rows, read, now, at)
  {
    hide WriteRows, Live, LiveAt, Statuses;
    LiveIsPointwise(Statuses(WriteRows(rows, read, current, at)), now);
    forall c ensures LiveAt(Statuses(WriteRows(rows, read, current, at)), c)
                  == if IsLater(rows, c, at) then LiveAt(Statuses(rows), c) else LiveAt(read, c) {
      WrittenAt(rows, read, current, at, c);
    }
    if Live(Statuses(WriteRows(rows, read, current, at))) == Live(now) {
      forall c ensures (if IsLater(rows, c, at) then LiveAt(Statuses(rows), c) else LiveAt(read, c)) == LiveAt(now, c) {
      }
    }
  }

  /** A write of other advisories leaves these rows alone. */
  lemma WrittenRows(matcher: Matcher, views: Views, t: Tables, matches: Matches, at: int, a: AdvisoryId)
    ensures RowsOf(WriteMatches(matcher, views, t, matches, at), a)
         == if a in views then WriteRows(RowsOf(matches, a), Candidates(matcher, views[a]), IsCurrent(t, a), at) else RowsOf(matches, a)
  {
  }

  lemma WriteRowsTwice(rows: MatchRows, candidates: map<string, string>, current: bool, at: int)
    ensures WriteRows(WriteRows(rows, candidates, current, at), candidates, current, at) == WriteRows(rows, candidates, current, at)
  {
  }

  lemma ReconciledRows(matcher: Matcher, t: Tables, matches: Matches, ids: set<AdvisoryId>, at: int)
    ensures
      var after := Reconcile(matcher, t, matches, ids, at);
      && after.Keys == matches.Keys + ids
      && forall a :: a in after ==>
           after[a] == if a in ids then WriteRows(RowsOf(matches, a), Candidates(matcher, View(t, a)), IsCurrent(t, a), at) else matches[a]
  {
    hide View, WriteRows, Candidates, IsCurrent, RowsOf;
  }

  /** Reconciling one set and then another, over the same tables and at one time, is reconciling both at once. */
  lemma ReconcileTwice(matcher: Matcher, t: Tables, matches: Matches, first: set<AdvisoryId>, second: set<AdvisoryId>, at: int)
    ensures Reconcile(matcher, t, Reconcile(matcher, t, matches, first, at), second, at) == Reconcile(matcher, t, matches, first + second, at)
  {
    hide Reconcile, View, WriteRows, Candidates, IsCurrent;
    var once := Reconcile(matcher, t, matches, first, at);
    var twice, both := Reconcile(matcher, t, once, second, at), Reconcile(matcher, t, matches, first + second, at);
    ReconciledRows(matcher, t, matches, first, at);
    ReconciledRows(matcher, t, once, second, at);
    ReconciledRows(matcher, t, matches, first + second, at);
    forall a | a in both ensures twice[a] == both[a] {
      WriteRowsTwice(RowsOf(matches, a), Candidates(matcher, View(t, a)), IsCurrent(t, a), at);
    }
  }

  lemma ReconcileNothing(matcher: Matcher, t: Tables, matches: Matches, at: int)
    ensures Reconcile(matcher, t, matches, {}, at) == matches
  {
    hide View;
  }
}
