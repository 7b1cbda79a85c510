/** Ordered enumeration of finite sets: what `sorted(...)` returns. */
module Ordering {
  import opened Prelude

  ghost predicate StrictTotalOrder<T(!new)>(less: (T, T) -> bool) {
    && (forall x :: !less(x, x))
    && (forall x, y :: x == y || less(x, y) || less(y, x))
    && (forall x, y, z :: less(x, y) && less(y, z) ==> less(x, z))
  }

  ghost predicate StrictlySorted<T>(less: (T, T) -> bool, s: seq<T>) {
    forall i, j :: 0 <= i < j < |s| ==> less(s[i], s[j])
  }

  ghost function Least<T(!new)>(less: (T, T) -> bool, items: set<T>): (least: T)
    requires StrictTotalOrder(less) && items != {}
    ensures least in items
    ensures forall x :: x in items && x != least ==> less(least, x)
  {
    var x :| x in items;
    var others := items - {x};
    assert forall z :: z in items ==> z == x || z in others;
    if others == {} then
      x
    else
      var y := Least(less, others);
      if less(x, y) then x else y
  }

  ghost function Sorted<T(!new)>(less: (T, T) -> bool, items: set<T>): (s: seq<T>)
    requires StrictTotalOrder(less)
    ensures forall x :: x in s <==> x in items
    ensures |s| == |items|
    ensures StrictlySorted(less, s)
  {
    if items == {} then
      []
    else
      var least := Least(less, items);
      [least] + Sorted(less, items - {least})
  }

  /** A strictly sorted sequence is determined by its set of elements. */
  lemma {:induction false} SortedIsUnique<T(!new)>(less: (T, T) -> bool, s: seq<T>, t: seq<T>)
    requires StrictTotalOrder(less)
    requires StrictlySorted(less, s) && StrictlySorted(less, t)
    requires ToSet(s) == ToSet(t)
    ensures s == t
  {
    if |t| > 0 {
      assert t[0] in ToSet(t);
    }
    if |s| > 0 {
      assert s[0] in ToSet(t) && |t| > 0;
      assert t[0] in ToSet(s);
      assert s[0] == t[0];
      forall x ensures x in ToSet(s[1..]) <==> x in ToSet(t[1..]) {
        assert x in ToSet(s[1..]) <==> x in ToSet(s) && x != s[0];
        assert x in ToSet(t[1..]) <==> x in ToSet(t) && x != t[0];
      }
      SortedIsUnique(less, s[1..], t[1..]);
    }
  }

  lemma SortedHasNoDuplicates<T(!new)>(less: (T, T) -> bool, s: seq<T>)
    requires StrictTotalOrder(less) && StrictlySorted(less, s)
    ensures NoDuplicates(s)
  {
    forall i, j | 0 <= i < j < |s| ensures s[i] != s[j] {
      assert less(s[i], s[j]);
    }
  }

  /** Code-point order on text, the order of Python's `sorted` on strings. */
  predicate TextLess(a: string, b: string) {
    if |b| == 0 then false
    else if |a| == 0 then true
    else a[0] < b[0] || (a[0] == b[0] && TextLess(a[1..], b[1..]))
  }

  lemma {:induction false} TextLessTrichotomy(a: string, b: string)
    ensures a == b || TextLess(a, b) || TextLess(b, a)
    ensures !(TextLess(a, b) && TextLess(b, a))
    ensures a == b ==> !TextLess(a, b)
  {
    if |a| > 0 && |b| > 0 {
      TextLessTrichotomy(a[1..], b[1..]);
      if a[0] == b[0] && a[1..] == b[1..] {
        assert a == [a[0]] + a[1..] == [b[0]] + b[1..] == b;
      }
    }
  }

  lemma {:induction false} TextLessTransitive(a: string, b: string, c: string)
    requires TextLess(a, b) && TextLess(b, c)
    ensures TextLess(a, c)
  {
    if |a| > 0 && a[0] == b[0] == c[0] {
      TextLessTransitive(a[1..], b[1..], c[1..]);
    }
  }

  lemma TextLessIsTotal()
    ensures StrictTotalOrder(TextLess)
  {
    forall x ensures !TextLess(x, x) {
      TextLessTrichotomy(x, x);
    }
    forall x, y ensures x == y || TextLess(x, y) || TextLess(y, x) {
      TextLessTrichotomy(x, y);
    }
    forall x, y, z | TextLess(x, y) && TextLess(y, z) ensures TextLess(x, z) {
      TextLessTransitive(x, y, z);
    }
  }

  predicate NatLess(a: nat, b: nat) {
    a < b
  }

  function InsertNat(x: nat, s: seq<nat>): seq<nat> {
    if |s| == 0 then [x] else if x <= s[0] then [x] + s else [s[0]] + InsertNat(x, s[1..])
  }

  function SortNats(s: seq<nat>): seq<nat> {
    if |s| == 0 then [] else InsertNat(s[0], SortNats(s[1..]))
  }

  lemma {:induction false} InsertKeepsSorted(x: nat, s: seq<nat>)
    requires StrictlySorted(NatLess, s) && x !in s
    ensures StrictlySorted(NatLess, InsertNat(x, s)) && |InsertNat(x, s)| == |s| + 1
    ensures forall y :: y in InsertNat(x, s) <==> y == x || y in s
  {
    if |s| > 0 {
      assert s == [s[0]] + s[1..];
      forall y | y in s[1..] ensures s[0] < y {
        var i :| 0 <= i < |s| - 1 && s[1..][i] == y;
        assert NatLess(s[0], s[i + 1]);
      }
      if x > s[0] {
        InsertKeepsSorted(x, s[1..]);
        PrependSorted(s[0], InsertNat(x, s[1..]));
      } else {
        PrependSorted(x, s);
      }
    }
  }

  lemma PrependSorted(x: nat, s: seq<nat>)
    requires StrictlySorted(NatLess, s) && forall y :: y in s ==> x < y
    ensures StrictlySorted(NatLess, [x] + s)
  {
    var t := [x] + s;
    forall i, j | 0 <= i < j < |t| ensures NatLess(t[i], t[j]) {
      assert t[j] == s[j - 1] && s[j - 1] in s && (i > 0 ==> t[i] == s[i - 1]);
      if i > 0 {
        assert NatLess(s[i - 1], s[j - 1]);
      }
    }
  }

  lemma {:induction false} SortNatsSorts(s: seq<nat>)
    requires NoDuplicates(s)
    ensures StrictlySorted(NatLess, SortNats(s)) && |SortNats(s)| == |s|
    ensures forall y :: y in SortNats(s) <==> y in s
  {
    if |s| > 0 {
      assert s == [s[0]] + s[1..];
      SortNatsSorts(s[1..]);
      assert s[0] !in s[1..];
      InsertKeepsSorted(s[0], SortNats(s[1..]));
    }
  }
}
