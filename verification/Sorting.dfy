/**
 Python's sorted() with a key: a stable sort, here by inserting one entry after another behind
 every entry that is not greater.
 */
module Sorting {

  function InsertBy<T>(key: T -> int, e: T, es: seq<T>): seq<T> {
    if es == [] then [e]
    else
      var init, last := es[..|es| - 1], es[|es| - 1];
      if key(last) <= key(e) then es + [e] else InsertBy(key, e, init) + [last]
  }

  function SortBy<T>(key: T -> int, es: seq<T>): seq<T> {
    if es == [] then [] else InsertBy(key, es[|es| - 1], SortBy(key, es[..|es| - 1]))
  }

  predicate SortedBy<T>(key: T -> int, es: seq<T>) {
    forall i, j :: 0 <= i < j < |es| ==> key(es[i]) <= key(es[j])
  }

  /** The entries with one key, in order. */
  function WithKey<T>(key: T -> int, k: int, es: seq<T>): seq<T> {
    if es == [] then []
    else
      var init, last := es[..|es| - 1], es[|es| - 1];
      if key(last) == k then WithKey(key, k, init) + [last] else WithKey(key, k, init)
  }

  lemma {:induction false} InsertBound<T>(key: T -> int, e: T, es: seq<T>, bound: int)
    requires key(e) <= bound && forall i :: 0 <= i < |es| ==> key(es[i]) <= bound
    ensures forall i :: 0 <= i < |InsertBy(key, e, es)| ==> key(InsertBy(key, e, es)[i]) <= bound
  {
    if es == [] || key(es[|es| - 1]) <= key(e) {
    } else {
      InsertBound(key, e, es[..|es| - 1], bound);
    }
  }

  lemma {:induction false} InsertKeepsSorted<T>(key: T -> int, e: T, es: seq<T>)
    requires SortedBy(key, es)
    ensures SortedBy(key, InsertBy(key, e, es))
  {
    if es == [] || key(es[|es| - 1]) <= key(e) {
    } else {
      var init, last := es[..|es| - 1], es[|es| - 1];
      InsertKeepsSorted(key, e, init);
      InsertBound(key, e, init, key(last));
    }
  }

  lemma {:induction false} InsertKeepsEntries<T>(key: T -> int, e: T, es: seq<T>)
    ensures multiset(InsertBy(key, e, es)) == multiset(es) + multiset{e}
  {
    if es == [] || key(es[|es| - 1]) <= key(e) {
    } else {
      var init, last := es[..|es| - 1], es[|es| - 1];
      InsertKeepsEntries(key, e, init);
      assert es == init + [last];
    }
  }

  lemma WithKeyAppend<T>(key: T -> int, k: int, es: seq<T>, e: T)
    ensures WithKey(key, k, es + [e]) == if key(e) == k then WithKey(key, k, es) + [e] else WithKey(key, k, es)
  {
    assert (es + [e])[..|es|] == es;
  }

  lemma {:induction false} InsertIsStable<T>(key: T -> int, k: int, e: T, es: seq<T>)
    ensures WithKey(key, k, InsertBy(key, e, es)) == WithKey(key, k, es + [e])
  {
    WithKeyAppend(key, k, es, e);
    if es == [] {
      assert [] + [e] == [e];
    } else if key(es[|es| - 1]) <= key(e) {
    } else {
      var init, last := es[..|es| - 1], es[|es| - 1];
      assert es == init + [last];
      InsertIsStable(key, k, e, init);
      WithKeyAppend(key, k, init, e);
      WithKeyAppend(key, k, InsertBy(key, e, init), last);
    }
  }

  lemma {:induction false} SortIsSorted<T>(key: T -> int, es: seq<T>)
    ensures SortedBy(key, SortBy(key, es))
  {
    if es == [] {
    } else {
      SortIsSorted(key, es[..|es| - 1]);
      InsertKeepsSorted(key, es[|es| - 1], SortBy(key, es[..|es| - 1]));
    }
  }

  lemma {:induction false} SortKeepsEntries<T>(key: T -> int, es: seq<T>)
    ensures multiset(SortBy(key, es)) == multiset(es)
    ensures |SortBy(key, es)| == |es|
  {
    if es == [] {
    } else {
      var init, e := es[..|es| - 1], es[|es| - 1];
      SortKeepsEntries(key, init);
      InsertKeepsEntries(key, e, SortBy(key, init));
      assert es == init + [e];
      assert |multiset(SortBy(key, es))| == |multiset(es)|;
    }
  }

  /** Entries with the same key stay in their order. */
  lemma {:induction false} SortIsStable<T>(key: T -> int, k: int, es: seq<T>)
    ensures WithKey(key, k, SortBy(key, es)) == WithKey(key, k, es)
  {
    if es == [] {
    } else {
      var init, e := es[..|es| - 1], es[|es| - 1];
      hide InsertBy, WithKey;
      assert es == init + [e];
      SortIsStable(key, k, init);
      InsertIsStable(key, k, e, SortBy(key, init));
      WithKeyAppend(key, k, SortBy(key, init), e);
      WithKeyAppend(key, k, init, e);
    }
  }
}
