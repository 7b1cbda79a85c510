/** Small shared vocabulary: optional values, results, and duplicate-free sequences. */
module Prelude {

  datatype Option<+T> = None | Some(value: T)

  datatype Result<+T, +E> = Ok(value: T) | Err(error: E)

  newtype byte = x: int | 0 <= x < 256

  type Bytes = seq<byte>

  function Max(a: int, b: int): int {
    if a < b then b else a
  }

  ghost predicate NoDuplicates<T>(s: seq<T>) {
    forall i, j :: 0 <= i < j < |s| ==> s[i] != s[j]
  }

  function ToSet<T>(s: seq<T>): set<T> {
    set x | x in s
  }

  /** The database idiom "first `limit` rows of an ordered list". */
  function Take<T>(s: seq<T>, limit: nat): seq<T> {
    if |s| <= limit then s else s[..limit]
  }

  lemma {:induction false} DistinctSize<T>(s: seq<T>)
    requires NoDuplicates(s)
    ensures |ToSet(s)| == |s|
  {
    if |s| == 0 {
      assert ToSet(s) == {};
    } else {
      var front, last := s[..|s| - 1], s[|s| - 1];
      DistinctSize(front);
      assert s == front + [last];
      assert last !in front by {
        forall i | 0 <= i < |front| ensures front[i] != last {
          assert s[i] != s[|s| - 1];
        }
      }
      assert ToSet(s) == ToSet(front) + {last};
    }
  }

  /** A set of at most `n` distinct indices below `n`. */
  lemma {:induction false} IndexSetBound(indices: set<nat>, n: nat)
    requires forall i :: i in indices ==> i < n
    ensures |indices| <= n
  {
    if n == 0 {
      assert indices == {};
    } else {
      IndexSetBound(indices - {n - 1}, n - 1);
    }
  }
}
