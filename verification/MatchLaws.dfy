/** What the match rows of an advisory say after any sequence of evaluations, without naming the write's body. */
module MatchLaws {
  import opened Prelude
  import opened Catalogs
  import opened AdvisoryTables
  import opened Matching

  /** One write transaction: the rows read before, the tables it runs against and the evaluation time. */
  datatype Write = Write(views: Views, t: Tables, at: int)

  ghost function WriteAll(matcher: Matcher, writes: seq<Write>): Matches {
    if |writes| == 0 then map[]
    else
      var front, last := writes[..|writes| - 1], writes[|writes| - 1];
      WriteMatches(matcher, last.views, last.t, WriteAll(matcher, front), last.at)
  }

  /** The engine identifies the component with the advisory's rows as this write read them. */
  ghost predicate Names(matcher: Matcher, w: Write, a: AdvisoryId, c: string) {
    a in w.views && w.views[a].Some? && c in matcher(w.views[a].value)
  }

  predicate Retired(t: Tables, a: AdvisoryId) {
    a in t.advisories && !t.advisories[a].current
  }

  /** What a write says of a component: the engine's status if it names it; otherwise that the advisory does not
      affect it, or, if the advisory is retired when the write runs, that it was withdrawn. */
  ghost predicate Says(matcher: Matcher, w: Write, a: AdvisoryId, c: string, status: string) {
    && a in w.views
    && (Names(matcher, w, a, c) ==> status == matcher(w.views[a].value)[c])
    && (!Names(matcher, w, a, c) && !Retired(w.t, a) ==> status == "not-affected")
    && (!Names(matcher, w, a, c) && Retired(w.t, a) ==> status == "advisory-withdrawn")
  }

  /** A later write leaves the row of an earlier one: it is older, or agrees without naming the component, or is about
      other advisories. */
  ghost predicate Yields(matcher: Matcher, w: Write, a: AdvisoryId, c: string, row: MatchRow) {
    a !in w.views || w.at < row.evaluatedAt || (!Names(matcher, w, a, c) && Says(matcher, w, a, c, row.status))
  }

  /** The row is what write `k` said of it, and all later writes yield. */
  ghost predicate WrittenBy(matcher: Matcher, writes: seq<Write>, k: nat, a: AdvisoryId, c: string, row: MatchRow) {
    && k < |writes| && Says(matcher, writes[k], a, c, row.status) && row.evaluatedAt == writes[k].at
    && forall j :: k < j < |writes| ==> Yields(matcher, writes[j], a, c, row)
  }

  /** One write: the row of a component afterwards is what the write said at its time, unless the write yields. */
  lemma RowAfterWrite(matcher: Matcher, before: Matches, w: Write, a: AdvisoryId, c: string)
    ensures
      var rows, after := RowsOf(before, a), RowsOf(WriteMatches(matcher, w.views, w.t, before, w.at), a);
      && (c in after <==> c in rows || Names(matcher, w, a, c))
      && (c in rows && Yields(matcher, w, a, c, rows[c]) ==> c in after && after[c] == rows[c])
      && (c in after && !(c in rows && Yields(matcher, w, a, c, rows[c])) ==>
            Says(matcher, w, a, c, after[c].status) && after[c].evaluatedAt == w.at)
      && (c in rows ==> rows[c].evaluatedAt <= after[c].evaluatedAt)
  {
    WrittenRows(matcher, w.views, w.t, before, w.at, a);
  }

  lemma WriterStays(matcher: Matcher, front: seq<Write>, w: Write, k: nat, a: AdvisoryId, c: string, row: MatchRow)
    requires WrittenBy(matcher, front, k, a, c, row) && Yields(matcher, w, a, c, row)
    ensures WrittenBy(matcher, front + [w], k, a, c, row)
  {
    hide Says, Names, Yields;
    assert forall j :: 0 <= j < |front| ==> (front + [w])[j] == front[j];
  }

  lemma LastWriter(matcher: Matcher, front: seq<Write>, w: Write, a: AdvisoryId, c: string, row: MatchRow)
    requires Says(matcher, w, a, c, row.status) && row.evaluatedAt == w.at
    ensures WrittenBy(matcher, front + [w], |front|, a, c, row)
  {
    hide Says, Names, Yields;
  }

  /** After any sequence of writes, each row is what one of them said, at that one's time, with every later write
      yielding; and a component has a row exactly when some write named it. */
  lemma {:induction false} RowsHaveWriters(matcher: Matcher, writes: seq<Write>, a: AdvisoryId, c: string)
    ensures
      var rows := RowsOf(WriteAll(matcher, writes), a);
      && (c in rows <==> exists k :: 0 <= k < |writes| && Names(matcher, writes[k], a, c))
      && (c in rows ==> exists k :: WrittenBy(matcher, writes, k, a, c, rows[c]))
  {
    if |writes| > 0 {
      var front, last := writes[..|writes| - 1], writes[|writes| - 1];
      assert writes == front + [last];
      RowsHaveWriters(matcher, front, a, c);
      RowAfterWrite(matcher, WriteAll(matcher, front), last, a, c);
      hide Says, Names, WriteMatches, WrittenBy, Yields, RowsOf;
      var before, rows := RowsOf(WriteAll(matcher, front), a), RowsOf(WriteAll(matcher, writes), a);
      assert forall k :: 0 <= k < |front| ==> writes[k] == front[k];
      if c in before && Yields(matcher, last, a, c, before[c]) {
        var k :| WrittenBy(matcher, front, k, a, c, before[c]);
        WriterStays(matcher, front, last, k, a, c, before[c]);
      } else if c in rows {
        LastWriter(matcher, front, last, a, c, rows[c]);
      }
    }
  }

  /* ---------- Whether a newer evaluation can be undone by an older one ---------- */

  function StatusOf(rows: MatchRows, c: string): Option<string> {
    if c in rows then Some(rows[c].status) else None
  }

  /** The newer evaluation agreed with what was there and left no trace of its time: it named no component, and there
      was no row, or one that already was resolved in its way at a time the older evaluation may replace. */
  predicate Untraced(rows: MatchRows, newer: map<string, string>, current: bool, olderAt: int, c: string) {
    && c !in newer
    && (c in rows ==> rows[c].status == (if current then "not-affected" else "advisory-withdrawn") && rows[c].evaluatedAt <= olderAt)
  }

  /** The older evaluation says something else of the component than what is there. */
  predicate Differs(rows: MatchRows, older: map<string, string>, current: bool, c: string) {
    if c in older then StatusOf(rows, c) != Some(older[c])
    else c in rows && rows[c].status != (if current then "not-affected" else "advisory-withdrawn")
  }

  /** An older evaluation that is written after a newer one leaves a component's status alone if and only if the newer
      one left a trace or the two agree. */
  lemma OlderWriteYields(
      rows: MatchRows, newer: map<string, string>, current: bool, at: int,
      older: map<string, string>, olderCurrent: bool, olderAt: int, c: string)
    requires olderAt < at
    ensures
      var once := WriteRows(rows, newer, current, at);
      var twice := WriteRows(once, older, olderCurrent, olderAt);
      StatusOf(twice, c) == StatusOf(once, c) <==>
        !(Untraced(rows, newer, current, olderAt, c) && Differs(rows, older, olderCurrent, c))
  {
    var once := WriteRows(rows, newer, current, at);
    var twice := WriteRows(once, older, olderCurrent, olderAt);
    assert Untraced(rows, newer, current, olderAt, c) ==> StatusOf(once, c) == StatusOf(rows, c);
    assert c in once && olderAt < once[c].evaluatedAt ==> twice[c] == once[c];
  }

  /** An input: a row resolved at time 1, confirmed by an evaluation at time 5, is reopened by one at time 3. */
  lemma OlderWriteCanWin(c: string, status: string)
    requires !Resolved(status)
    ensures
      var rows := map[c := MatchRow(NOT_AFFECTED, 1)];
      var once := WriteRows(rows, map[], true, 5);
      once == rows && WriteRows(once, map[c := status], true, 3) == map[c := MatchRow(status, 3)]
  {
    var rows := map[c := MatchRow(NOT_AFFECTED, 1)];
    var once := WriteRows(rows, map[], true, 5);
    assert once == rows;
    var twice := WriteRows(once, map[c := status], true, 3);
    assert twice.Keys == {c};
    assert twice[c] == MatchRow(status, 3);
  }
}
