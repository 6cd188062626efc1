/**
 * The part of a `ttk.Treeview` the poll-mode trackers rely on: an ordered list of
 * children, each an item id with a row of values and a tag; `insert` appends a row
 * under a fresh id, `item` replaces a row's values and tag, `delete` removes one child.
 */
module TreeWidget {

  type ItemId = nat

  /** The values `(name, size, status)` of one row and its tag. */
  datatype Row = Row(name: string, size: nat, status: string, tag: string)

  predicate DistinctIds(s: seq<ItemId>)
  {
    forall i, j :: 0 <= i < j < |s| ==> s[i] != s[j]
  }

  /** `s` without the first occurrence of `x`. */
  function Without(s: seq<ItemId>, x: ItemId): (r: seq<ItemId>)
    ensures DistinctIds(s) ==> DistinctIds(r) && forall y :: y in r <==> y in s && y != x
  {
    if s == [] then []
    else if s[0] == x then s[1..]
    else
      var rest := Without(s[1..], x);
      assert DistinctIds(s) ==> s[0] !in s[1..];
      [s[0]] + rest
  }

  /** The ids of `s` as a set. */
  function Elems(s: seq<ItemId>): set<ItemId>
  {
    set x | x in s
  }

  /** The ids of `s` that are not in `gone`, in their order in `s`. */
  function Drop(s: seq<ItemId>, gone: set<ItemId>): seq<ItemId>
  {
    if s == [] then []
    else (if s[0] in gone then [] else [s[0]]) + Drop(s[1..], gone)
  }

  /** The kept ids are exactly those of `s` outside `gone`. */
  lemma {:induction false} DropMembers(s: seq<ItemId>, gone: set<ItemId>)
    ensures forall y :: y in Drop(s, gone) <==> y in s && y !in gone
  {
    if s != [] {
      DropMembers(s[1..], gone);
      assert s == [s[0]] + s[1..];
    }
  }

  lemma {:induction false} DropAppend(a: seq<ItemId>, b: seq<ItemId>, gone: set<ItemId>)
    ensures Drop(a + b, gone) == Drop(a, gone) + Drop(b, gone)
  {
    if a == [] {
      assert a + b == b;
    } else {
      assert (a + b)[0] == a[0] && (a + b)[1..] == a[1..] + b;
      DropAppend(a[1..], b, gone);
    }
  }

  /** Dropping ids that do not occur changes nothing. */
  lemma {:induction false} DropDisjoint(s: seq<ItemId>, gone: set<ItemId>)
    requires forall y :: y in s ==> y !in gone
    ensures Drop(s, gone) == s
  {
    if s != [] {
      assert s[0] in s;
      DropDisjoint(s[1..], gone);
      assert s == [s[0]] + s[1..];
    }
  }

  /** Dropping every id that occurs leaves nothing. */
  lemma {:induction false} DropAll(s: seq<ItemId>, gone: set<ItemId>)
    requires forall y :: y in s ==> y in gone
    ensures Drop(s, gone) == []
  {
    if s != [] {
      assert s[0] in s;
      DropAll(s[1..], gone);
    }
  }

  /** Adding an absent id to the dropped ones changes nothing. */
  lemma {:induction false} DropAbsent(s: seq<ItemId>, gone: set<ItemId>, x: ItemId)
    requires x !in s
    ensures Drop(s, gone + {x}) == Drop(s, gone)
  {
    if s != [] {
      assert s[0] in s;
      DropAbsent(s[1..], gone, x);
    }
  }

  /** Deleting one more child of a list without repetitions is dropping one more id. */
  lemma {:induction false} DropWithout(s: seq<ItemId>, gone: set<ItemId>, x: ItemId)
    requires DistinctIds(s) && x !in gone
    ensures Without(Drop(s, gone), x) == Drop(s, gone + {x})
  {
    if s != [] {
      var rest := Drop(s[1..], gone);
      assert DistinctIds(s[1..]) by {
        forall i, j | 0 <= i < j < |s[1..]| ensures s[1..][i] != s[1..][j] {
          assert s[1..][i] == s[i + 1] && s[1..][j] == s[j + 1];
        }
      }
      if s[0] == x {
        assert x !in s[1..];
        DropAbsent(s[1..], gone, x);
        assert ([x] + rest)[1..] == rest;
      } else if s[0] in gone {
        assert Drop(s, gone) == rest && Drop(s, gone + {x}) == Drop(s[1..], gone + {x});
        DropWithout(s[1..], gone, x);
      } else {
        DropWithout(s[1..], gone, x);
        assert ([s[0]] + rest)[0] == s[0] && ([s[0]] + rest)[1..] == rest;
      }
    }
  }

  /** Deleting an id of the first part of a list deletes it there. */
  lemma {:induction false} WithoutAppend(a: seq<ItemId>, b: seq<ItemId>, x: ItemId)
    requires x in a
    ensures Without(a + b, x) == Without(a, x) + b
  {
    assert (a + b)[0] == a[0] && (a + b)[1..] == a[1..] + b;
    if a[0] != x {
      WithoutAppend(a[1..], b, x);
    }
  }

  /** The rows of the children `ids`, in display order. */
  function RowsOf(ids: seq<ItemId>, items: map<ItemId, Row>): (rows: seq<Row>)
    requires forall id :: id in ids ==> id in items
    ensures |rows| == |ids|
  {
    seq(|ids|, k requires 0 <= k < |ids| => items[ids[k]])
  }

  /** Appending a new child with its row appends that row to the display. */
  lemma RowsOfAppend(ids: seq<ItemId>, items: map<ItemId, Row>, id: ItemId, row: Row)
    requires forall x :: x in ids ==> x in items
    requires id !in ids
    ensures RowsOf(ids + [id], items[id := row]) == RowsOf(ids, items) + [row]
  {
    var lhs, rhs := RowsOf(ids + [id], items[id := row]), RowsOf(ids, items) + [row];
    forall k | 0 <= k < |ids| ensures lhs[k] == rhs[k] {
      assert (ids + [id])[k] == ids[k];
    }
  }

  lemma {:induction false} DistinctCounts(s: seq<ItemId>)
    requires DistinctIds(s)
    ensures forall x :: multiset(s)[x] == if x in s then 1 else 0
  {
    if s != [] {
      assert s == [s[0]] + s[1..];
      assert s[0] !in s[1..];
      DistinctCounts(s[1..]);
    }
  }

  /** Two id lists without repetitions that hold the same ids are rearrangements of each other. */
  lemma SameIdsSameMultiset(a: seq<ItemId>, b: seq<ItemId>)
    requires DistinctIds(a) && DistinctIds(b)
    requires forall x :: x in a <==> x in b
    ensures multiset(a) == multiset(b) && |a| == |b|
  {
    DistinctCounts(a);
    DistinctCounts(b);
    assert forall x :: multiset(a)[x] == multiset(b)[x];
    assert multiset(a) == multiset(b);
    assert |a| == |multiset(a)| == |multiset(b)| == |b|;
  }

  class Treeview {
    var children: seq<ItemId>
    var items: map<ItemId, Row>
    var nextId: nat

    ghost predicate Valid()
      reads this
    {
      && DistinctIds(children)
      && (forall id :: id in items <==> id in children)
      && (forall id :: id in items ==> id < nextId)
    }

    /** The rows on display, top to bottom. */
    function Rows(): seq<Row>
      reads this
      requires Valid()
    {
      RowsOf(children, items)
    }

    constructor ()
      ensures Valid() && children == [] && items == map[]
    {
      children, items, nextId := [], map[], 0;
    }

    /** `tree.insert("", "end", values=..., tags=...)`: a new row at the bottom, under an id never used before. */
    method Insert(row: Row) returns (id: ItemId)
      requires Valid()
      modifies this
      ensures Valid()
      ensures id !in old(items)
      ensures children == old(children) + [id] && items == old(items)[id := row]
      ensures Rows() == old(Rows()) + [row]
    {
      id := nextId;
      assert id !in children;
      RowsOfAppend(children, items, id, row);
      children := children + [id];
      items := items[id := row];
      nextId := nextId + 1;
    }

    /** `tree.item(id, values=..., tags=...)`: replaces the row of an existing item in place. */
    method SetItem(id: ItemId, row: Row)
      requires Valid() && id in items
      modifies this
      ensures Valid()
      ensures children == old(children) && items == old(items)[id := row]
    {
      items := items[id := row];
    }

    /** `tree.move(id, "", "end")`: an existing row is moved to the bottom, its values untouched. */
    method MoveToEnd(id: ItemId)
      requires Valid() && id in items
      modifies this
      ensures Valid()
      ensures children == Without(old(children), id) + [id] && items == old(items)
    {
      var rest := Without(children, id);
      assert DistinctIds(rest + [id]) by {
        forall i, j | 0 <= i < j < |rest + [id]| ensures (rest + [id])[i] != (rest + [id])[j] {
          if j == |rest| {
            assert (rest + [id])[i] == rest[i];
          }
        }
      }
      children := rest + [id];
    }

    /** `tree.delete(id)`: removes an existing item. */
    method Delete(id: ItemId)
      requires Valid() && id in items
      modifies this
      ensures Valid()
      ensures children == Without(old(children), id) && items == old(items) - {id}
    {
      children := Without(children, id);
      items := items - {id};
    }
  }
}
