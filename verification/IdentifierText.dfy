/** The text that is hashed into identifiers determines every component of the identifier, so the
    identifiers of `Catalogs` may be modelled as tuples of their components. */
module IdentifierText {
  import opened Prelude
  import opened Catalogs

  const NUL: char := 0 as char

  ghost predicate NulFree(s: string) {
    NUL !in s
  }

  /** Splitting at the last separator is unambiguous when only the left part may contain one. */
  lemma JoinLastIsInjective(a: string, b: string, c: string, d: string)
    requires NulFree(b) && NulFree(d)
    requires a + [NUL] + b == c + [NUL] + d
    ensures a == c && b == d
  {
    var left, right := a + [NUL] + b, c + [NUL] + d;
    assert left[|a|] == NUL && right[|c|] == NUL;
    assert forall i :: |a| < i < |left| ==> left[i] == b[i - |a| - 1];
    assert forall i :: |c| < i < |right| ==> right[i] == d[i - |c| - 1];
    assert |a| == |c|;
    assert a == left[..|a|] && c == right[..|c|];
    assert b == left[|a| + 1..] && d == right[|c| + 1..];
  }

  /** Splitting at the first separator is unambiguous when only the right part may contain one. */
  lemma JoinFirstIsInjective(a: string, b: string, c: string, d: string)
    requires NulFree(a) && NulFree(c)
    requires a + [NUL] + b == c + [NUL] + d
    ensures a == c && b == d
  {
    var left, right := a + [NUL] + b, c + [NUL] + d;
    assert left[|a|] == NUL && right[|c|] == NUL;
    assert forall i :: 0 <= i < |a| ==> left[i] == a[i];
    assert forall i :: 0 <= i < |c| ==> right[i] == c[i];
    assert |a| == |c|;
    assert a == left[..|a|] && c == right[..|c|];
    assert b == left[|a| + 1..] && d == right[|c| + 1..];
  }

  function Digit(d: nat): (c: char)
    requires d < 10
    ensures c != NUL
  {
    (48 + d) as char
  }

  function Decimal(n: nat): (s: string)
    ensures |s| > 0
    ensures forall i :: 0 <= i < |s| ==> '0' <= s[i] <= '9'
  {
    if n < 10 then [Digit(n)] else Decimal(n / 10) + [Digit(n % 10)]
  }

  lemma {:induction false} DecimalIsInjective(m: nat, n: nat)
    requires Decimal(m) == Decimal(n)
    ensures m == n
  {
    var s := Decimal(m);
    assert s[|s| - 1] == Digit(m % 10) == Digit(n % 10);
    if m >= 10 && n >= 10 {
      assert Decimal(m / 10) == s[..|s| - 1] == Decimal(n / 10);
      DecimalIsInjective(m / 10, n / 10);
    }
  }

  function AdvisoryText(source: string, recordId: string): string {
    source + [NUL] + recordId
  }

  function AffectedText(advisoryId: string, ecosystem: string, identity: string, ordinal: nat): string {
    advisoryId + [NUL] + (ecosystem + [NUL] + (identity + [NUL] + Decimal(ordinal)))
  }

  function RangeText(affectedId: string, ordinal: nat): string {
    affectedId + [NUL] + Decimal(ordinal)
  }

  /** Record ids match an ASCII pattern without NUL; source names may contain anything. */
  lemma AdvisoryTextIsInjective(source: string, recordId: string, source': string, recordId': string)
    requires NulFree(recordId) && NulFree(recordId')
    requires AdvisoryText(source, recordId) == AdvisoryText(source', recordId')
    ensures source == source' && recordId == recordId'
  {
    JoinLastIsInjective(source, recordId, source', recordId');
  }

  /** The identity in the middle may contain anything, even separators. */
  lemma AffectedTextIsInjective(
      advisoryId: string, ecosystem: string, identity: string, ordinal: nat,
      advisoryId': string, ecosystem': string, identity': string, ordinal': nat)
    requires NulFree(advisoryId) && NulFree(advisoryId') && NulFree(ecosystem) && NulFree(ecosystem')
    requires AffectedText(advisoryId, ecosystem, identity, ordinal) == AffectedText(advisoryId', ecosystem', identity', ordinal')
    ensures advisoryId == advisoryId' && ecosystem == ecosystem' && identity == identity' && ordinal == ordinal'
  {
    var tail, tail' := identity + [NUL] + Decimal(ordinal), identity' + [NUL] + Decimal(ordinal');
    JoinFirstIsInjective(advisoryId, ecosystem + [NUL] + tail, advisoryId', ecosystem' + [NUL] + tail');
    JoinFirstIsInjective(ecosystem, tail, ecosystem', tail');
    JoinLastIsInjective(identity, Decimal(ordinal), identity', Decimal(ordinal'));
    DecimalIsInjective(ordinal, ordinal');
  }

  lemma RangeTextIsInjective(affectedId: string, ordinal: nat, affectedId': string, ordinal': nat)
    requires RangeText(affectedId, ordinal) == RangeText(affectedId', ordinal')
    ensures affectedId == affectedId' && ordinal == ordinal'
  {
    JoinLastIsInjective(affectedId, Decimal(ordinal), affectedId', Decimal(ordinal'));
    DecimalIsInjective(ordinal, ordinal');
  }

  /* ---------- The identity of a component ---------- */

  function OrEmpty(value: Option<string>): string {
    if value == None then "" else value.value
  }

  /** Components without a package URL identity are told apart by vendor, namespace and normalized name, an absent one
      counting as empty. */
  lemma IdentityTellsApart(text: Text, a: Affected, b: Affected)
    requires CanonicalIdentifier(text, a).None? && CanonicalIdentifier(text, b).None?
    requires forall value :: value in {OrEmpty(a.vendor), OrEmpty(a.namespace), OrEmpty(b.vendor), OrEmpty(b.namespace)} ==> UNIT_SEPARATOR[0] !in value
    ensures Identity(text, a) == Identity(text, b) <==>
              OrEmpty(a.vendor) == OrEmpty(b.vendor) && OrEmpty(a.namespace) == OrEmpty(b.namespace) && text.token(a.name) == text.token(b.name)
  {
    hide CanonicalIdentifier;
    var one := OrEmpty(a.namespace) + UNIT_SEPARATOR + text.token(a.name);
    var two := OrEmpty(b.namespace) + UNIT_SEPARATOR + text.token(b.name);
    assert Identity(text, a) == OrEmpty(a.vendor) + UNIT_SEPARATOR + one;
    assert Identity(text, b) == OrEmpty(b.vendor) + UNIT_SEPARATOR + two;
    if Identity(text, a) == Identity(text, b) {
      SplitsAtSeparator(OrEmpty(a.vendor), one, OrEmpty(b.vendor), two);
      SplitsAtSeparator(OrEmpty(a.namespace), text.token(a.name), OrEmpty(b.namespace), text.token(b.name));
    }
  }

  lemma SplitsAtSeparator(a: string, b: string, c: string, d: string)
    requires UNIT_SEPARATOR[0] !in a && UNIT_SEPARATOR[0] !in c && a + UNIT_SEPARATOR + b == c + UNIT_SEPARATOR + d
    ensures a == c && b == d
  {
    var left, right := a + UNIT_SEPARATOR + b, c + UNIT_SEPARATOR + d;
    assert left[|a|] == UNIT_SEPARATOR[0] && right[|c|] == UNIT_SEPARATOR[0];
    assert forall i :: 0 <= i < |a| ==> left[i] == a[i];
    assert forall i :: 0 <= i < |c| ==> right[i] == c[i];
    assert |a| == |c|;
    assert a == left[..|a|] && c == right[..|c|];
    assert b == left[|a| + 1..] && d == right[|c| + 1..];
  }

  /** The pattern of record ids: an alphanumeric character and 2 to 119 characters of a small alphabet. Such an id
      contains no separator of the hashed texts. */
  lemma RecordIdExactly(id: string)
    ensures ValidRecordId(id) <==>
              exists first: char, rest: string ::
                && id == [first] + rest && IsAlphanumeric(first) && 2 <= |rest| <= 119
                && forall c :: c in rest ==> IsAlphanumeric(c) || c == '.' || c == '_' || c == ':' || c == '-'
    ensures ValidRecordId(id) ==> NulFree(id)
  {
    if ValidRecordId(id) {
      assert id == [id[0]] + id[1..];
      assert forall i :: 1 <= i < |id| ==> id[1..][i - 1] == id[i];
    }
  }
}
