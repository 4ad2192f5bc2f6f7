/** Ordering by a natural-number key, largest first, with ties in one fixed
    order: the shape of `sort_values(..., ascending=False)` and of
    `value_counts()`'s order. */
module Ranking {

  predicate NonIncreasing<T>(s: seq<T>, key: T -> nat)
  {
    forall i, j :: 0 <= i < j < |s| ==> key(s[i]) >= key(s[j])
  }

  /** Inserts `e` after every element whose key is at least `key(e)`. */
  function Insert<T>(e: T, s: seq<T>, key: T -> nat): (r: seq<T>)
    requires NonIncreasing(s, key)
    ensures NonIncreasing(r, key)
    ensures multiset(r) == multiset(s) + multiset{e}
    ensures |r| == |s| + 1
  {
    if s == [] || key(s[0]) < key(e) then [e] + s
    else
      var rest := Insert(e, s[1..], key);
      assert s == [s[0]] + s[1..];
      HeadBound(s[0], e, s[1..], rest, key);
      [s[0]] + rest
  }

  /** A head whose key bounds `e` and the sorted tail stays first after inserting `e`. */
  lemma HeadBound<T>(h: T, e: T, tail: seq<T>, rest: seq<T>, key: T -> nat)
    requires NonIncreasing([h] + tail, key) && key(h) >= key(e)
    requires NonIncreasing(rest, key)
    requires multiset(rest) == multiset(tail) + multiset{e}
    ensures NonIncreasing([h] + rest, key)
  {
    forall j | 0 <= j < |rest| ensures key(h) >= key(rest[j]) {
      assert rest[j] in multiset(rest);
      if rest[j] != e {
        assert rest[j] in multiset(tail);
        var k :| 0 <= k < |tail| && tail[k] == rest[j];
        assert ([h] + tail)[0] == h && ([h] + tail)[k + 1] == tail[k];
      }
    }
  }

  /** Insertion sort, largest key first. */
  function SortDesc<T>(s: seq<T>, key: T -> nat): (r: seq<T>)
    ensures NonIncreasing(r, key)
    ensures multiset(r) == multiset(s)
    ensures |r| == |s|
  {
    if s == [] then []
    else
      assert s == [s[0]] + s[1..];
      Insert(s[0], SortDesc(s[1..], key), key)
  }

  /** Sum of the keys of a sequence. */
  function KeySum<T>(s: seq<T>, key: T -> nat): nat
  {
    if s == [] then 0 else key(s[0]) + KeySum(s[1..], key)
  }

  lemma {:induction false} InsertKeySum<T>(e: T, s: seq<T>, key: T -> nat)
    requires NonIncreasing(s, key)
    ensures KeySum(Insert(e, s, key), key) == key(e) + KeySum(s, key)
  {
    if s != [] && key(s[0]) >= key(e) {
      InsertKeySum(e, s[1..], key);
      var r := Insert(e, s, key);
      assert r[1..] == Insert(e, s[1..], key);
    }
  }

  /** Sorting keeps the sum of the keys. */
  lemma {:induction false} SortDescKeySum<T>(s: seq<T>, key: T -> nat)
    ensures KeySum(SortDesc(s, key), key) == KeySum(s, key)
  {
    if s != [] {
      SortDescKeySum(s[1..], key);
      InsertKeySum(s[0], SortDesc(s[1..], key), key);
    }
  }
}
