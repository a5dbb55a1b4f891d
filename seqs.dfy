/** Selecting rows of a table, as the ORM's `find(entity, where)` does, and counting their keys. */
module Seqs {

  /** The elements of s that satisfy p, in their original order. */
  function Filter<T(!new)>(s: seq<T>, p: T -> bool): (r: seq<T>)
    ensures |r| <= |s|
    ensures forall x :: x in r <==> x in s && p(x)
  {
    if |s| == 0 then []
    else (if p(s[0]) then [s[0]] else []) + Filter(s[1..], p)
  }

  /** No two rows share a key. */
  ghost predicate DistinctKeys<T>(rows: seq<T>, key: T -> nat)
  {
    forall i, j :: 0 <= i < |rows| && 0 <= j < |rows| && key(rows[i]) == key(rows[j]) ==> i == j
  }

  /** The key of a number is the number itself. */
  function Identity(n: nat): nat { n }

  /** The keys the rows hold. */
  function KeySet<T(==)>(rows: seq<T>, key: T -> nat): (r: set<nat>)
    ensures forall k :: k in r <==> exists x :: x in rows && key(x) == k
  {
    set x | x in rows :: key(x)
  }

  /** Rows after the first keep distinct keys. */
  lemma DistinctKeysTail<T>(rows: seq<T>, key: T -> nat)
    requires |rows| > 0 && DistinctKeys(rows, key)
    ensures DistinctKeys(rows[1..], key)
    ensures forall x :: x in rows[1..] ==> key(x) != key(rows[0])
  {
    forall i, j | 0 <= i < |rows| - 1 && 0 <= j < |rows| - 1 && key(rows[1..][i]) == key(rows[1..][j])
      ensures i == j
    {
      assert rows[1..][i] == rows[i + 1] && rows[1..][j] == rows[j + 1];
    }
    forall x | x in rows[1..] ensures key(x) != key(rows[0]) {
      var m :| 0 <= m < |rows| - 1 && rows[1..][m] == x;
      assert rows[m + 1] == x;
    }
  }

  /** There are no more keys than rows, and exactly as many when they are distinct. */
  lemma {:induction false} KeySetSize<T>(rows: seq<T>, key: T -> nat)
    ensures |KeySet(rows, key)| <= |rows|
    ensures DistinctKeys(rows, key) ==> |KeySet(rows, key)| == |rows|
    decreases |rows|
  {
    if |rows| > 0 {
      KeySetSize(rows[1..], key);
      assert KeySet(rows, key) == {key(rows[0])} + KeySet(rows[1..], key) by {
        assert rows == [rows[0]] + rows[1..];
      }
      if DistinctKeys(rows, key) {
        DistinctKeysTail(rows, key);
        assert key(rows[0]) !in KeySet(rows[1..], key);
      }
    }
  }

  /** Selecting rows keeps their keys distinct. */
  lemma {:induction false} FilterKeepsDistinctKeys<T(!new)>(rows: seq<T>, p: T -> bool, key: T -> nat)
    requires DistinctKeys(rows, key)
    ensures DistinctKeys(Filter(rows, p), key)
    decreases |rows|
  {
    if |rows| > 0 {
      DistinctKeysTail(rows, key);
      FilterKeepsDistinctKeys(rows[1..], p, key);
      var rest := Filter(rows[1..], p);
      if p(rows[0]) {
        var r := [rows[0]] + rest;
        assert forall i :: 1 <= i < |r| ==> r[i] == rest[i - 1];
        assert forall i :: 1 <= i < |r| ==> key(r[i]) != key(r[0]) by {
          forall i | 1 <= i < |r| ensures key(r[i]) != key(r[0]) {
            assert rest[i - 1] in rest;
          }
        }
      } else {
        assert Filter(rows, p) == rest;
      }
    }
  }

  /** A set inside another is no larger, and equally large only when it is the same set. */
  lemma SubsetSize(a: set<nat>, b: set<nat>)
    requires a <= b
    ensures |a| <= |b|
    ensures |a| == |b| ==> a == b
  {
    assert b == a + (b - a);
    assert a * (b - a) == {};
    if |a| == |b| {
      assert |b - a| == 0;
    }
  }
}
