/** Failure-carrying results shared by every module. */
module Wrappers {

  /** An optional value: the `undefined` and `null` of the TypeScript sources, a Go `(value, false)`. */
  datatype Option<+T> = None | Some(value: T)

  /** A returned value, or the reason for the thrown exception or returned error. */
  datatype Result<+T, +E> = Ok(value: T) | Err(error: E)

  /** No position repeats an earlier value. */
  ghost predicate Distinct<T>(s: seq<T>) {
    forall i, j :: 0 <= i < j < |s| ==> s[i] != s[j]
  }

  /** Distinct positions of a finite set: pigeonhole. */
  lemma {:induction false} DistinctIsShort<T>(s: seq<T>, universe: set<T>)
    requires Distinct(s)
    requires forall x :: x in s ==> x in universe
    ensures |s| <= |universe|
  {
    if s != [] {
      var last := s[|s| - 1];
      assert last in universe;
      DistinctIsShort(s[..|s| - 1], universe - {last});
    }
  }

  lemma {:induction false} DistinctBySize<T>(s: seq<T>)
    ensures |set x | x in s| <= |s|
    ensures |set x | x in s| == |s| <==> Distinct(s)
  {
    if s != [] {
      var n := |s| - 1;
      var before := set x | x in s[..n];
      DistinctBySize(s[..n]);
      assert s == s[..n] + [s[n]];
      assert (set x | x in s) == before + {s[n]};
      if s[n] in before {
        assert before + {s[n]} == before;
        var k :| 0 <= k < n && s[k] == s[n];
      } else {
        assert forall k :: 0 <= k < n ==> s[k] in s[..n];
      }
    }
  }

  /** Lists are checked by comparing the size of the set of their keys with their length. */
  method AreUnique<T(==)>(keys: seq<T>) returns (unique: bool)
    ensures unique <==> Distinct(keys)
  {
    var seen := set k | k in keys;
    DistinctBySize(keys);
    unique := |seen| == |keys|;
  }

  /** A subset of the same size is the whole set. */
  lemma SubsetOfSameSize<T>(a: set<T>, b: set<T>)
    requires a <= b
    ensures |a| == |b| <==> a == b
  {
    assert b == a + (b - a);
    assert |b| == |a| + |b - a|;
  }
}
