/**
 * `sorted(self.files_info.items(), key=lambda x: x[1][1], reverse=descending)`: the
 * trackers' ordering of their items by the time of the last size change.
 */
module Ordering {
  import opened Reconcile

  /** `a` may come before `b` in the requested direction. */
  predicate Before(a: FileInfo, b: FileInfo, descending: bool)
  {
    if descending then a.lastChange >= b.lastChange else a.lastChange <= b.lastChange
  }

  predicate SortedBy(s: Table, descending: bool)
  {
    forall i, j :: 0 <= i < j < |s| ==> Before(s[i], s[j], descending)
  }

  /** Puts `x` in front of the first item it may precede, so that among equal keys `x` stays first. */
  function InsertInOrder(x: FileInfo, s: Table, descending: bool): (r: Table)
    requires SortedBy(s, descending)
    ensures SortedBy(r, descending)
    ensures multiset(r) == multiset(s) + multiset{x}
  {
    if s == [] || Before(x, s[0], descending) then [x] + s
    else
      var rest := InsertInOrder(x, s[1..], descending);
      assert s == [s[0]] + s[1..];
      HeadPrecedesInsert(s[0], x, s[1..], rest, descending);
      PrependSorted(s[0], rest, descending);
      [s[0]] + rest
  }

  lemma HeadPrecedesInsert(h: FileInfo, x: FileInfo, tail: Table, rest: Table, descending: bool)
    requires SortedBy([h] + tail, descending) && !Before(x, h, descending)
    requires multiset(rest) == multiset(tail) + multiset{x}
    ensures forall e :: e in rest ==> Before(h, e, descending)
  {
    forall e | e in rest ensures Before(h, e, descending) {
      assert e in multiset(rest);
      if e != x {
        assert e in multiset(tail);
        var j :| 0 <= j < |tail| && tail[j] == e;
        assert ([h] + tail)[0] == h && ([h] + tail)[j + 1] == e;
        assert Before(([h] + tail)[0], ([h] + tail)[j + 1], descending);
      } else {
        assert Before(h, x, descending);
      }
    }
  }

  lemma PrependSorted(h: FileInfo, rest: Table, descending: bool)
    requires SortedBy(rest, descending)
    requires forall e :: e in rest ==> Before(h, e, descending)
    ensures SortedBy([h] + rest, descending)
  {
    forall i, j | 0 <= i < j < |[h] + rest| ensures Before(([h] + rest)[i], ([h] + rest)[j], descending) {
      if i > 0 {
        assert ([h] + rest)[i] == rest[i - 1];
      }
      assert ([h] + rest)[j] == rest[j - 1];
    }
  }

  lemma AppendSorted(s: Table, x: FileInfo, descending: bool)
    requires SortedBy(s, descending)
    requires forall e :: e in s ==> Before(e, x, descending)
    ensures SortedBy(s + [x], descending)
  {
    forall i, j | 0 <= i < j < |s + [x]| ensures Before((s + [x])[i], (s + [x])[j], descending) {
      assert (s + [x])[i] == s[i];
      if j < |s| {
        assert (s + [x])[j] == s[j];
      }
    }
  }

  /** A stable insertion sort: the result is ordered by the last change time and is a permutation of the input. */
  function SortByLastChange(s: Table, descending: bool): (r: Table)
    ensures SortedBy(r, descending)
    ensures multiset(r) == multiset(s)
  {
    if s == [] then []
    else
      assert s == [s[0]] + s[1..];
      InsertInOrder(s[0], SortByLastChange(s[1..], descending), descending)
  }

  /** Sorting keeps the number of items and never duplicates or loses a path. */
  lemma SortKeepsItems(s: Table, descending: bool)
    ensures |SortByLastChange(s, descending)| == |s|
    ensures forall f :: f in SortByLastChange(s, descending) <==> f in s
  {
    var r := SortByLastChange(s, descending);
    assert |multiset(r)| == |multiset(s)|;
    forall f ensures f in r <==> f in s {
      assert f in r <==> f in multiset(r);
      assert f in s <==> f in multiset(s);
    }
  }

  /** The items whose last change time is `t`, in their order in `s`. */
  function WithTime(s: Table, t: int): Table
  {
    if s == [] then [] else (if s[0].lastChange == t then [s[0]] else []) + WithTime(s[1..], t)
  }

  lemma WithTimeCons(h: FileInfo, s: Table, t: int)
    ensures WithTime([h] + s, t) == (if h.lastChange == t then [h] else []) + WithTime(s, t)
  {
    assert ([h] + s)[1..] == s;
  }

  /** Inserting `x` puts it first among the items of its time and keeps their order. */
  lemma {:induction false} InsertKeepsTies(x: FileInfo, s: Table, descending: bool, t: int)
    requires SortedBy(s, descending)
    ensures WithTime(InsertInOrder(x, s, descending), t)
         == (if x.lastChange == t then [x] else []) + WithTime(s, t)
  {
    if s == [] || Before(x, s[0], descending) {
      WithTimeCons(x, s, t);
    } else {
      var rest := InsertInOrder(x, s[1..], descending);
      var tx: Table := if x.lastChange == t then [x] else [];
      var th: Table := if s[0].lastChange == t then [s[0]] else [];
      var tail := WithTime(s[1..], t);
      assert InsertInOrder(x, s, descending) == [s[0]] + rest;
      WithTimeCons(s[0], rest, t);
      InsertKeepsTies(x, s[1..], descending, t);
      assert WithTime([s[0]] + rest, t) == th + (tx + tail);
      assert WithTime(s, t) == th + tail;
      // Equal times would have put `x` first, so at most one of `tx`, `th` is non-empty.
      if tx == [] {
        assert tx + tail == tail && tx + (th + tail) == th + tail;
      } else {
        assert th == [];
        assert th + (tx + tail) == tx + tail && th + tail == tail;
      }
    }
  }

  /**
   * The sort is stable, as Python's `sorted` is also with `reverse=True`: items with
   * equal last change times keep their relative order.
   */
  lemma {:induction false} SortIsStable(s: Table, descending: bool, t: int)
    ensures WithTime(SortByLastChange(s, descending), t) == WithTime(s, t)
  {
    if s != [] {
      SortIsStable(s[1..], descending, t);
      InsertKeepsTies(s[0], SortByLastChange(s[1..], descending), descending, t);
    }
  }
}
