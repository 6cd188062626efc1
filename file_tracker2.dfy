/**
 * The poll-mode tracker with an extension filter: each tick it merges a fresh walk into
 * `files_info`, then reconciles the tree rows with the tracked files, oldest change
 * first, reusing a row whose name matches and deleting the rows nobody claimed.
 */
module FileTracker2 {
  import opened Wrappers
  import opened Paths
  import opened ExtensionFilter
  import opened Reconcile
  import opened Ordering
  import opened TreeWidget

  /** A file is "Logging..." while at most this many ticks have passed since its last size change. */
  const LoggingWindow := 10

  /** The row shown for a tracked file at time `now`: name, size, status and the matching tag. */
  function StatusRow(f: FileInfo, now: int): Row
  {
    var name := Basename(f.path);
    if now - f.lastChange <= LoggingWindow then Row(name, f.size, "Logging...", "logging")
    else Row(name, f.size, "Idle", "idle")
  }

  /** The items of `s` whose name the filter text lets through, in their order in `s`. */
  function Displayed(s: Table, filter: string): Table
  {
    if s == [] then []
    else
      var init := Displayed(s[..|s| - 1], filter);
      if Keeps(filter, Basename(s[|s| - 1].path)) then init + [s[|s| - 1]] else init
  }

  lemma DisplayedStep(s: Table, i: nat, filter: string)
    requires i < |s|
    ensures Displayed(s[..i + 1], filter)
         == Displayed(s[..i], filter) + (if Keeps(filter, Basename(s[i].path)) then [s[i]] else [])
  {
    assert s[..i + 1] == s[..i] + [s[i]];
    DisplayedSnoc(s[..i], s[i], filter);
  }

  lemma DisplayedSnoc(t: Table, x: FileInfo, filter: string)
    ensures Displayed(t + [x], filter) == Displayed(t, filter) + (if Keeps(filter, Basename(x.path)) then [x] else [])
  {
    assert (t + [x])[..|t|] == t;
  }

  /** The displayed items are exactly the items whose name passes the filter. */
  lemma {:induction false} DisplayedMembers(s: Table, filter: string)
    ensures forall f :: f in Displayed(s, filter) <==> f in s && Keeps(filter, Basename(f.path))
  {
    if s != [] {
      DisplayedMembers(s[..|s| - 1], filter);
      assert s == s[..|s| - 1] + [s[|s| - 1]];
    }
  }

  /** The rows for `s`, one per item, in the same order. */
  function StatusRows(s: Table, now: int): (rows: seq<Row>)
    ensures |rows| == |s|
  {
    seq(|s|, k requires 0 <= k < |s| => StatusRow(s[k], now))
  }

  /** Filtering keeps the order: the displayed items of a sorted table are sorted the same way. */
  lemma {:induction false} DisplayedSorted(s: Table, filter: string, descending: bool)
    requires SortedBy(s, descending)
    ensures SortedBy(Displayed(s, filter), descending)
  {
    if s != [] {
      var init, last := s[..|s| - 1], s[|s| - 1];
      SortedPrefix(s, descending);
      DisplayedSorted(init, filter, descending);
      if Keeps(filter, Basename(last.path)) {
        DisplayedBeforeLast(s, init, last, filter, descending);
        AppendSorted(Displayed(init, filter), last, descending);
      }
    }
  }

  lemma SortedPrefix(s: Table, descending: bool)
    requires s != [] && SortedBy(s, descending)
    ensures SortedBy(s[..|s| - 1], descending)
  {
    var init := s[..|s| - 1];
    forall i, j | 0 <= i < j < |init| ensures Before(init[i], init[j], descending) {
      assert init[i] == s[i] && init[j] == s[j];
    }
  }

  lemma DisplayedBeforeLast(s: Table, init: Table, last: FileInfo, filter: string, descending: bool)
    requires s != [] && SortedBy(s, descending)
    requires init == s[..|s| - 1] && last == s[|s| - 1]
    ensures forall e :: e in Displayed(init, filter) ==> Before(e, last, descending)
  {
    DisplayedWithin(init, filter);
    forall e | e in Displayed(init, filter) ensures Before(e, last, descending) {
      var i :| 0 <= i < |init| && init[i] == e;
      assert s[i] == e;
    }
  }

  lemma DisplayedWithin(s: Table, filter: string)
    ensures forall f :: f in Displayed(s, filter) ==> f in s
  {
    DisplayedMembers(s, filter);
  }


  /**
   * The status is "Logging..." exactly while `now - lastChange <= 10` (so at 10 ticks it
   * still logs) and "Idle" afterwards; the tag always agrees with the status; once idle,
   * a file stays idle as time passes without a new change.
   */
  lemma StatusThreshold(f: FileInfo, now: int, later: int)
    ensures StatusRow(f, now).status == "Logging..." <==> now - f.lastChange <= 10
    ensures StatusRow(f, now).status == "Idle" <==> now - f.lastChange > 10
    ensures StatusRow(f, now).tag == (if StatusRow(f, now).status == "Logging..." then "logging" else "idle")
    ensures StatusRow(f, now).name == Basename(f.path) && StatusRow(f, now).size == f.size
    ensures now <= later && StatusRow(f, now).status == "Idle" ==> StatusRow(f, later).status == "Idle"
  {
  }

  /**
   * A file that the latest walk found new, or with a new size, shows "Logging..." for the
   * ten ticks after that walk and "Idle" from then on.
   */
  lemma ChangedFileLogsForTenTicks(table: Table, walk: seq<WalkEntry>, now: int, k: nat, later: int)
    requires Distinct(WalkPaths(walk)) && k < |walk|
    requires Lookup(table, walk[k].path).None? || Lookup(table, walk[k].path).value.size != ObservedSize(walk[k])
    ensures StatusRow(Reconciled(table, walk, now)[k], later).status == "Logging..." <==> later <= now + 10
  {
  }

  /**
   * The bookkeeping of `update_treeview` part-way through: `slots[j]` is the row written for
   * the j-th shown file, no slot is among the unclaimed rows, and every child is one or the other.
   */
  ghost predicate Claimed(children: seq<ItemId>, items: map<ItemId, Row>, unclaimed: set<ItemId>,
                          slots: seq<ItemId>, shown: Table, now: int)
  {
    && |slots| == |shown| && DistinctIds(slots)
    && (forall id :: id in unclaimed ==> id !in slots)
    && (forall id :: id in children <==> id in unclaimed || id in slots)
    && (forall j :: 0 <= j < |slots| ==> slots[j] in items && items[slots[j]] == StatusRow(shown[j], now))
  }

  lemma ClaimStep(children: seq<ItemId>, items: map<ItemId, Row>, unclaimed: set<ItemId>,
                  slots: seq<ItemId>, shown: Table, now: int, f: FileInfo,
                  children': seq<ItemId>, items': map<ItemId, Row>, unclaimed': set<ItemId>, slot: ItemId)
    requires Claimed(children, items, unclaimed, slots, shown, now)
    requires forall id :: id in items <==> id in children
    requires items' == items[slot := StatusRow(f, now)]
    requires forall id :: id in children' <==> id in children || id == slot
    requires || (slot in unclaimed && unclaimed' == unclaimed - {slot})
             || (slot !in items && unclaimed' == unclaimed)
    ensures Claimed(children', items', unclaimed', slots + [slot], shown + [f], now)
  {
    assert slot !in slots;
    assert DistinctIds(slots + [slot]) by {
      forall i, j | 0 <= i < j < |slots + [slot]| ensures (slots + [slot])[i] != (slots + [slot])[j] {
        if j == |slots| {
          assert (slots + [slot])[i] == slots[i];
        }
      }
    }
  }

  lemma DeleteStep(children: seq<ItemId>, items: map<ItemId, Row>, unclaimed: set<ItemId>,
                   slots: seq<ItemId>, shown: Table, now: int, children': seq<ItemId>, items': map<ItemId, Row>)
    requires Claimed(children, items, unclaimed, slots, shown, now)
    requires forall id :: id in items <==> id in children
    requires items' == items - unclaimed
    requires forall id :: id in items' <==> id in children'
    ensures Claimed(children', items', {}, slots, shown, now)
  {
  }

  /** The basenames of the items of `s`, in order: the names their rows carry. */
  function Names(s: Table): (names: seq<string>)
    ensures |names| == |s|
  {
    seq(|s|, k requires 0 <= k < |s| => Basename(s[k].path))
  }

  lemma NamesStep(s: Table, f: FileInfo)
    ensures Names(s + [f]) == Names(s) + [Basename(f.path)]
  {
    assert forall k :: 0 <= k < |s| ==> (s + [f])[k] == s[k];
  }

  /**
   * How the j-th shown file, named `names[j]`, got its row in a pass that started from
   * the rows `i0`: either it reused an old row carrying its name, or it got a new row
   * because none of the old rows still unclaimed at that point carried its name.
   */
  ghost predicate MatchedByName(i0: map<ItemId, Row>, slots: seq<ItemId>, names: seq<string>, j: nat)
    requires j < |slots| && j < |names|
  {
    if slots[j] in i0 then i0[slots[j]].name == names[j]
    else forall id :: id in i0 && id !in slots[..j] ==> i0[id].name != names[j]
  }

  /**
   * Where the rows of `update_treeview` sit part-way through: the old children `c0` in
   * their place, then the newly inserted rows in the order they were made; the old rows
   * not yet claimed are the unclaimed ones.
   */
  ghost predicate Placed(c0: seq<ItemId>, children: seq<ItemId>, unclaimed: set<ItemId>, slots: seq<ItemId>)
  {
    unclaimed == Elems(c0) - Elems(slots) && children == c0 + Drop(slots, Elems(c0))
  }

  /** Every shown file so far got its row by name, as `MatchedByName` says. */
  ghost predicate AllMatched(i0: map<ItemId, Row>, slots: seq<ItemId>, names: seq<string>)
  {
    |slots| == |names| && forall j :: 0 <= j < |slots| ==> MatchedByName(i0, slots, names, j)
  }

  lemma PlaceStep(c0: seq<ItemId>, children: seq<ItemId>, unclaimed: set<ItemId>, slots: seq<ItemId>,
                  slot: ItemId, children': seq<ItemId>, unclaimed': set<ItemId>)
    requires Placed(c0, children, unclaimed, slots)
    requires slot in unclaimed ==> children' == children && unclaimed' == unclaimed - {slot}
    requires slot !in unclaimed ==> slot !in children && children' == children + [slot] && unclaimed' == unclaimed
    ensures Placed(c0, children', unclaimed', slots + [slot])
    ensures slot !in unclaimed ==> slot !in c0
  {
    var made := Drop(slots, Elems(c0));
    assert Elems(slots + [slot]) == Elems(slots) + {slot};
    assert Drop(slots + [slot], Elems(c0)) == made + (if slot in c0 then [] else [slot]) by {
      DropAppend(slots, [slot], Elems(c0));
      assert [slot][1..] == [];
    }
    if slot !in unclaimed {
      assert slot !in c0;
      assert children' == (c0 + made) + [slot] == c0 + (made + [slot]);
    }
  }

  /** The file named `name` got the row `slot` by name: reusing an unclaimed old row, or because none had its name. */
  lemma MatchStep(i0: map<ItemId, Row>, items: map<ItemId, Row>, unclaimed: set<ItemId>,
                  slots: seq<ItemId>, names: seq<string>, name: string, slot: ItemId)
    requires AllMatched(i0, slots, names)
    requires forall id :: id in i0 && id !in slots ==> id in unclaimed
    requires forall id :: id in unclaimed ==> id in items && id in i0 && items[id] == i0[id]
    requires slot in unclaimed ==> items[slot].name == name
    requires slot !in unclaimed ==> slot !in i0 && forall id :: id in unclaimed ==> items[id].name != name
    ensures AllMatched(i0, slots + [slot], names + [name])
  {
    var slots', names' := slots + [slot], names + [name];
    forall j | 0 <= j < |slots| ensures MatchedByName(i0, slots', names', j) {
      assert slots'[j] == slots[j] && slots'[..j] == slots[..j] && names'[j] == names[j];
      assert MatchedByName(i0, slots, names, j);
    }
    assert MatchedByName(i0, slots', names', |slots|) by {
      assert slots'[|slots|] == slot && slots'[..|slots|] == slots && names'[|slots|] == name;
    }
  }

  /**
   * What the claiming loop of `update_treeview` keeps, part-way through a pass that
   * started from the rows `c0` with values `i0`: the rows claimed so far, where they
   * sit, the unclaimed rows still untouched, and how each was matched by name.
   */
  ghost predicate PassSoFar(c0: seq<ItemId>, i0: map<ItemId, Row>, children: seq<ItemId>, items: map<ItemId, Row>,
                            unclaimed: set<ItemId>, slots: seq<ItemId>, shown: Table, now: int)
  {
    && Claimed(children, items, unclaimed, slots, shown, now)
    && Placed(c0, children, unclaimed, slots)
    && (forall id :: id in unclaimed ==> id in items && id in i0 && items[id] == i0[id])
    && AllMatched(i0, slots, Names(shown))
  }

  /** Before the first file nothing is claimed and every old row is unclaimed and untouched. */
  lemma PassStart(c0: seq<ItemId>, i0: map<ItemId, Row>, now: int)
    requires forall id :: id in c0 <==> id in i0
    ensures PassSoFar(c0, i0, c0, i0, Elems(c0), [], [], now)
  {
    assert Elems([]) == {} && Drop([], Elems(c0)) == [];
    assert c0 + [] == c0;
  }

  /** The rows still unclaimed carry the values they had when the pass started. */
  lemma UnclaimedUntouched(c0: seq<ItemId>, i0: map<ItemId, Row>, children: seq<ItemId>, items: map<ItemId, Row>,
                           unclaimed: set<ItemId>, slots: seq<ItemId>, shown: Table, now: int)
    requires PassSoFar(c0, i0, children, items, unclaimed, slots, shown, now)
    ensures forall id :: id in unclaimed ==> id in items && id in i0 && items[id] == i0[id]
  {
  }

  /** One shown file claims its row as `ClaimRow` promises: the pass so far extends by that file. */
  lemma PassStep(c0: seq<ItemId>, i0: map<ItemId, Row>, children: seq<ItemId>, items: map<ItemId, Row>,
                 unclaimed: set<ItemId>, slots: seq<ItemId>, shown: Table, now: int, f: FileInfo,
                 children': seq<ItemId>, items': map<ItemId, Row>, unclaimed': set<ItemId>, slot: ItemId)
    requires (forall id :: id in c0 <==> id in i0) && (forall id :: id in items <==> id in children)
    requires PassSoFar(c0, i0, children, items, unclaimed, slots, shown, now)
    requires items' == items[slot := StatusRow(f, now)]
    requires forall id :: id in children' <==> id in children || id == slot
    requires slot in unclaimed ==>
      && items[slot].name == Basename(f.path) && children' == children && unclaimed' == unclaimed - {slot}
    requires slot !in unclaimed ==>
      && (forall id :: id in unclaimed ==> items[id].name != Basename(f.path))
      && slot !in items && children' == children + [slot] && unclaimed' == unclaimed
    ensures PassSoFar(c0, i0, children', items', unclaimed', slots + [slot], shown + [f], now)
  {
    ClaimStep(children, items, unclaimed, slots, shown, now, f, children', items', unclaimed', slot);
    PlaceStep(c0, children, unclaimed, slots, slot, children', unclaimed');
    MatchStep(i0, items, unclaimed, slots, Names(shown), Basename(f.path), slot);
    NamesStep(shown, f);
  }

  /**
   * What the claiming loop of the corrected pass keeps: the rows claimed so far sit at the
   * bottom in the order they were claimed, below the old rows still unclaimed.
   */
  ghost predicate InOrderSoFar(c0: seq<ItemId>, children: seq<ItemId>, items: map<ItemId, Row>,
                               unclaimed: set<ItemId>, slots: seq<ItemId>, shown: Table, now: int)
  {
    && DistinctIds(c0) && Claimed(children, items, unclaimed, slots, shown, now)
    && unclaimed == Elems(c0) - Elems(slots)
    && children == Drop(c0, Elems(slots)) + slots
  }

  /** Before the first file nothing is claimed and every old row is in place. */
  lemma InOrderStart(c0: seq<ItemId>, items: map<ItemId, Row>, now: int)
    requires DistinctIds(c0)
    ensures InOrderSoFar(c0, c0, items, Elems(c0), [], [], now)
  {
    assert Elems([]) == {};
    DropDisjoint(c0, {});
    assert Drop(c0, {}) + [] == c0;
  }

  lemma DeleteOneMore(s: seq<ItemId>, m: map<ItemId, Row>, unclaimed: set<ItemId>, rest: set<ItemId>, item: ItemId)
    requires DistinctIds(s) && item in rest && rest <= unclaimed
    ensures Without(Drop(s, unclaimed - rest), item) == Drop(s, unclaimed - (rest - {item}))
    ensures (m - (unclaimed - rest)) - {item} == m - (unclaimed - (rest - {item}))
  {
    DropWithout(s, unclaimed - rest, item);
    assert (unclaimed - rest) + {item} == unclaimed - (rest - {item});
  }

  /** What a whole pass leaves: one row per shown file, the claimed old rows in place, then the new ones. */
  lemma PassResult(c0: seq<ItemId>, children: seq<ItemId>, items: map<ItemId, Row>, unclaimed: set<ItemId>,
                   slots: seq<ItemId>, shown: Table, now: int, children': seq<ItemId>, items': map<ItemId, Row>)
    requires Claimed(children, items, unclaimed, slots, shown, now) && Placed(c0, children, unclaimed, slots)
    requires forall id :: id in items <==> id in children
    requires children' == Drop(children, unclaimed) && items' == items - unclaimed
    requires DistinctIds(children') && forall id :: id in items' <==> id in children'
    ensures |slots| == |shown| == |children'| && multiset(slots) == multiset(children')
    ensures forall j :: 0 <= j < |slots| ==> slots[j] in items' && items'[slots[j]] == StatusRow(shown[j], now)
    ensures children' == Drop(c0, Elems(c0) - Elems(slots)) + Drop(slots, Elems(c0))
  {
    DeleteStep(children, items, unclaimed, slots, shown, now, children', items');
    SameIdsSameMultiset(slots, children');
    PlacedAfterDelete(c0, slots, unclaimed);
  }

  /** Deleting the unclaimed old rows leaves the claimed old rows in place, then the new ones. */
  lemma PlacedAfterDelete(c0: seq<ItemId>, slots: seq<ItemId>, unclaimed: set<ItemId>)
    requires unclaimed == Elems(c0) - Elems(slots)
    ensures Drop(c0 + Drop(slots, Elems(c0)), unclaimed) == Drop(c0, unclaimed) + Drop(slots, Elems(c0))
  {
    var made := Drop(slots, Elems(c0));
    DropAppend(c0, made, unclaimed);
    DropMembers(slots, Elems(c0));
    DropDisjoint(made, unclaimed);
  }

  /** In the corrected pass, deleting the unclaimed old rows leaves exactly the claimed rows, in claim order. */
  lemma InOrderAfterDelete(c0: seq<ItemId>, slots: seq<ItemId>, unclaimed: set<ItemId>)
    requires unclaimed == Elems(c0) - Elems(slots)
    ensures Drop(Drop(c0, Elems(slots)) + slots, unclaimed) == slots
  {
    var kept := Drop(c0, Elems(slots));
    DropAppend(kept, slots, unclaimed);
    DropMembers(c0, Elems(slots));
    DropAll(kept, unclaimed);
    DropDisjoint(slots, unclaimed);
  }

  /** The bookkeeping of the corrected pass: the old rows nobody claimed yet, then the claimed rows in claim order. */
  lemma InOrderStep(c0: seq<ItemId>, unclaimed: set<ItemId>, slots: seq<ItemId>, children: seq<ItemId>,
                    slot: ItemId, children': seq<ItemId>, unclaimed': set<ItemId>)
    requires DistinctIds(c0)
    requires unclaimed == Elems(c0) - Elems(slots) && children == Drop(c0, Elems(slots)) + slots
    requires slot in unclaimed ==> children' == Without(children, slot) + [slot] && unclaimed' == unclaimed - {slot}
    requires slot !in unclaimed ==> slot !in children && children' == children + [slot] && unclaimed' == unclaimed
    ensures unclaimed' == Elems(c0) - Elems(slots + [slot])
    ensures children' == Drop(c0, Elems(slots + [slot])) + (slots + [slot])
  {
    assert Elems(slots + [slot]) == Elems(slots) + {slot};
    if slot in unclaimed {
      InOrderReuse(c0, slots, slot);
    } else {
      InOrderInsert(c0, slots, slot);
    }
  }

  /** A reused old row leaves its place among the unclaimed rows and goes below the claimed ones. */
  lemma InOrderReuse(c0: seq<ItemId>, slots: seq<ItemId>, slot: ItemId)
    requires DistinctIds(c0) && slot in c0 && slot !in slots
    ensures Without(Drop(c0, Elems(slots)) + slots, slot) + [slot] == Drop(c0, Elems(slots) + {slot}) + (slots + [slot])
  {
    DropMembers(c0, Elems(slots));
    WithoutAppend(Drop(c0, Elems(slots)), slots, slot);
    DropWithout(c0, Elems(slots), slot);
  }

  /** A new row goes below the claimed ones and leaves the unclaimed old rows as they are. */
  lemma InOrderInsert(c0: seq<ItemId>, slots: seq<ItemId>, slot: ItemId)
    requires slot !in c0
    ensures (Drop(c0, Elems(slots)) + slots) + [slot] == Drop(c0, Elems(slots) + {slot}) + (slots + [slot])
  {
    DropAbsent(c0, Elems(slots), slot);
  }

  class Tracker2App {
    var filesInfo: Table
    const tree: Treeview

    ghost predicate Valid()
      reads this, tree
    {
      tree.Valid() && Distinct(PathsOf(filesInfo))
    }

    constructor ()
      ensures Valid() && fresh(tree)
      ensures filesInfo == [] && tree.children == []
    {
      filesInfo := [];
      tree := new Treeview();
    }

    /** `update_files_info`: the walk's result replaces the table. */
    method UpdateFilesInfo(walk: seq<WalkEntry>, now: int)
      requires Valid() && Distinct(WalkPaths(walk))
      modifies this
      ensures Valid()
      ensures filesInfo == Reconciled(old(filesInfo), walk, now)
    {
      var current := Rescan(filesInfo, walk, now);
      ReconciledPaths(filesInfo, walk, now);
      filesInfo := current;
    }

    /**
     * `update_treeview`: afterwards the tree holds exactly one row per tracked file that
     * passes the filter; `slots[j]` is the row of the j-th such file in ascending order of
     * last change. A file reuses an old row of its name, which keeps its place, or gets a
     * new row at the bottom; so the old rows still in use come first, in their old order,
     * and then the new rows in the order they were made.
     */
    method UpdateTreeview(extensionFilterText: string, now: int) returns (ghost slots: seq<ItemId>)
      requires Valid()
      modifies tree
      ensures Valid()
      ensures var shown := Displayed(SortByLastChange(filesInfo, false), extensionFilterText);
        && |slots| == |shown| == |tree.children|
        && multiset(slots) == multiset(tree.children)
        && (forall j :: 0 <= j < |slots| ==> slots[j] in tree.items && tree.items[slots[j]] == StatusRow(shown[j], now))
        && AllMatched(old(tree.items), slots, Names(shown))
      ensures var before := Elems(old(tree.children));
        tree.children == Drop(old(tree.children), before - Elems(slots)) + Drop(slots, before)
    {
      ghost var c0 := tree.children;
      var sortedFiles := SortByLastChange(filesInfo, false);
      ghost var shown := Displayed(sortedFiles, extensionFilterText);
      var currentItems;
      currentItems, slots := ClaimRows(sortedFiles, extensionFilterText, now);
      ghost var children1, items1 := tree.children, tree.items;
      DeleteRows(currentItems);
      PassResult(c0, children1, items1, currentItems, slots, shown, now, tree.children, tree.items);
    }

    /**
     * The main loop of `update_treeview`: each file in `sortedFiles` that passes the filter
     * claims an old row of its name or gets a new one; the old rows nobody claimed are returned.
     */
    method ClaimRows(sortedFiles: Table, extensionFilterText: string, now: int)
      returns (currentItems: set<ItemId>, ghost slots: seq<ItemId>)
      requires tree.Valid()
      modifies tree
      ensures tree.Valid()
      ensures var shown := Displayed(sortedFiles, extensionFilterText);
        && Claimed(tree.children, tree.items, currentItems, slots, shown, now)
        && Placed(old(tree.children), tree.children, currentItems, slots)
        && AllMatched(old(tree.items), slots, Names(shown))
      ensures forall id :: id in currentItems ==>
        id in tree.items && id in old(tree.items) && tree.items[id] == old(tree.items)[id]
    {
      ghost var c0, i0 := tree.children, tree.items;
      currentItems := set id | id in tree.children;
      var extensionFilter := StripLeadingDots(extensionFilterText);
      ghost var shown: Table := [];
      slots := [];
      assert Displayed(sortedFiles[..0], extensionFilterText) == [] by {
        assert sortedFiles[..0] == [];
      }
      PassStart(c0, tree.items, now);
      for i := 0 to |sortedFiles|
        invariant tree.Valid() && forall id :: id in c0 <==> id in i0
        invariant shown == Displayed(sortedFiles[..i], extensionFilterText)
        invariant PassSoFar(c0, i0, tree.children, tree.items, currentItems, slots, shown, now)
      {
        DisplayedStep(sortedFiles, i, extensionFilterText);
        currentItems, slots, shown :=
          ClaimFileRow(sortedFiles[i], extensionFilter, extensionFilterText, now, currentItems, c0, i0, slots, shown);
      }
      assert sortedFiles[..|sortedFiles|] == sortedFiles;
      UnclaimedUntouched(c0, i0, tree.children, tree.items, currentItems, slots, shown, now);
    }

    /** One turn of the loop of `update_treeview`: the file `f`, if the filter lets it through, claims its row. */
    method ClaimFileRow(f: FileInfo, extensionFilter: string, extensionFilterText: string, now: int,
                        unclaimed: set<ItemId>, ghost c0: seq<ItemId>, ghost i0: map<ItemId, Row>,
                        ghost slots: seq<ItemId>, ghost shown: Table)
      returns (unclaimed': set<ItemId>, ghost slots': seq<ItemId>, ghost shown': Table)
      requires tree.Valid() && (forall id :: id in c0 <==> id in i0)
      requires extensionFilter == StripLeadingDots(extensionFilterText)
      requires PassSoFar(c0, i0, tree.children, tree.items, unclaimed, slots, shown, now)
      modifies tree
      ensures tree.Valid()
      ensures shown' == shown + (if Keeps(extensionFilterText, Basename(f.path)) then [f] else [])
      ensures !Keeps(extensionFilterText, Basename(f.path)) ==>
        && tree.children == old(tree.children) && tree.items == old(tree.items)
        && unclaimed' == unclaimed && slots' == slots
      ensures PassSoFar(c0, i0, tree.children, tree.items, unclaimed', slots', shown', now)
    {
      var fileName := Basename(f.path);
      if extensionFilter != [] && !EndsWith(Lower(fileName), "." + Lower(extensionFilter)) {
        assert !Keeps(extensionFilterText, fileName);
        unclaimed', slots', shown' := unclaimed, slots, shown;
      } else {
        assert Keeps(extensionFilterText, fileName);
        var row := StatusRow(f, now);
        assert row.name == fileName;
        var slot;
        ghost var children0, items0 := tree.children, tree.items;
        slot, unclaimed' := ClaimRow(unclaimed, row);
        PassStep(c0, i0, children0, items0, unclaimed, slots, shown, now, f,
                 tree.children, tree.items, unclaimed', slot);
        slots', shown' := slots + [slot], shown + [f];
      }
    }

    /**
     * `update_treeview` with each reused row also moved to the bottom
     * (`tree.move(item, "", "end")`), so that the rows on display follow the sorted order
     * and the latest change is at the bottom.
     */
    method UpdateTreeviewInOrder(extensionFilterText: string, now: int)
      requires Valid()
      modifies tree
      ensures Valid()
      ensures tree.Rows() == StatusRows(Displayed(SortByLastChange(filesInfo, false), extensionFilterText), now)
    {
      ghost var c0 := tree.children;
      var sortedFiles := SortByLastChange(filesInfo, false);
      ghost var shown := Displayed(sortedFiles, extensionFilterText);
      var currentItems;
      ghost var slots;
      currentItems, slots := ClaimRowsInOrder(sortedFiles, extensionFilterText, now);
      ghost var children1, items1 := tree.children, tree.items;
      DeleteRows(currentItems);
      DeleteStep(children1, items1, currentItems, slots, shown, now, tree.children, tree.items);
      InOrderAfterDelete(c0, slots, currentItems);
      assert tree.children == slots;
      assert tree.Rows() == StatusRows(shown, now);
    }

    /** The main loop of the corrected pass: as `ClaimRows`, with every claimed row moved to the bottom. */
    method ClaimRowsInOrder(sortedFiles: Table, extensionFilterText: string, now: int)
      returns (currentItems: set<ItemId>, ghost slots: seq<ItemId>)
      requires tree.Valid()
      modifies tree
      ensures tree.Valid()
      ensures InOrderSoFar(old(tree.children), tree.children, tree.items, currentItems, slots,
                           Displayed(sortedFiles, extensionFilterText), now)
    {
      ghost var c0 := tree.children;
      currentItems := set id | id in tree.children;
      var extensionFilter := StripLeadingDots(extensionFilterText);
      ghost var shown: Table := [];
      slots := [];
      assert Displayed(sortedFiles[..0], extensionFilterText) == [] by {
        assert sortedFiles[..0] == [];
      }
      InOrderStart(c0, tree.items, now);
      for i := 0 to |sortedFiles|
        invariant tree.Valid()
        invariant shown == Displayed(sortedFiles[..i], extensionFilterText)
        invariant InOrderSoFar(c0, tree.children, tree.items, currentItems, slots, shown, now)
      {
        DisplayedStep(sortedFiles, i, extensionFilterText);
        currentItems, slots, shown :=
          ClaimFileRowAtEnd(sortedFiles[i], extensionFilter, extensionFilterText, now, currentItems, c0, slots, shown);
      }
      assert sortedFiles[..|sortedFiles|] == sortedFiles;
    }

    /** One turn of the corrected loop: the file `f`, if the filter lets it through, claims its row and moves it down. */
    method ClaimFileRowAtEnd(f: FileInfo, extensionFilter: string, extensionFilterText: string, now: int,
                             unclaimed: set<ItemId>, ghost c0: seq<ItemId>, ghost slots: seq<ItemId>, ghost shown: Table)
      returns (unclaimed': set<ItemId>, ghost slots': seq<ItemId>, ghost shown': Table)
      requires tree.Valid()
      requires extensionFilter == StripLeadingDots(extensionFilterText)
      requires InOrderSoFar(c0, tree.children, tree.items, unclaimed, slots, shown, now)
      modifies tree
      ensures tree.Valid()
      ensures shown' == shown + (if Keeps(extensionFilterText, Basename(f.path)) then [f] else [])
      ensures !Keeps(extensionFilterText, Basename(f.path)) ==>
        && tree.children == old(tree.children) && tree.items == old(tree.items)
        && unclaimed' == unclaimed && slots' == slots
      ensures InOrderSoFar(c0, tree.children, tree.items, unclaimed', slots', shown', now)
    {
      var fileName := Basename(f.path);
      if extensionFilter != [] && !EndsWith(Lower(fileName), "." + Lower(extensionFilter)) {
        assert !Keeps(extensionFilterText, fileName);
        unclaimed', slots', shown' := unclaimed, slots, shown;
      } else {
        assert Keeps(extensionFilterText, fileName);
        var row := StatusRow(f, now);
        var slot;
        ghost var children0, items0 := tree.children, tree.items;
        slot, unclaimed' := ClaimRowAtEnd(unclaimed, row);
        ClaimStep(children0, items0, unclaimed, slots, shown, now, f, tree.children, tree.items, unclaimed', slot);
        InOrderStep(c0, unclaimed, slots, children0, slot, tree.children, unclaimed');
        slots', shown' := slots + [slot], shown + [f];
      }
    }

    /**
     * One file's row: the row of an unclaimed item with the same name is overwritten in
     * place and that item is claimed; without one, a new row is appended at the bottom.
     */
    method ClaimRow(candidates: set<ItemId>, row: Row) returns (slot: ItemId, remaining: set<ItemId>)
      requires tree.Valid() && forall id :: id in candidates ==> id in tree.items
      modifies tree
      ensures tree.Valid()
      ensures tree.items == old(tree.items)[slot := row]
      ensures forall id :: id in tree.children <==> id in old(tree.children) || id == slot
      ensures slot in candidates ==>
        && old(tree.items)[slot].name == row.name
        && tree.children == old(tree.children) && remaining == candidates - {slot}
      ensures slot !in candidates ==>
        && (forall id :: id in candidates ==> old(tree.items)[id].name != row.name)
        && slot !in old(tree.items) && tree.children == old(tree.children) + [slot] && remaining == candidates
    {
      var matching := MatchingItem(candidates, row.name);
      if matching.Some? {
        tree.SetItem(matching.value, row);
        slot, remaining := matching.value, candidates - {matching.value};
      } else {
        slot := tree.Insert(row);
        remaining := candidates;
      }
    }

    /** `ClaimRow`, with a reused row also moved to the bottom. */
    method ClaimRowAtEnd(candidates: set<ItemId>, row: Row) returns (slot: ItemId, remaining: set<ItemId>)
      requires tree.Valid() && forall id :: id in candidates ==> id in tree.items
      modifies tree
      ensures tree.Valid()
      ensures tree.items == old(tree.items)[slot := row]
      ensures forall id :: id in tree.children <==> id in old(tree.children) || id == slot
      ensures slot in candidates ==>
        && old(tree.items)[slot].name == row.name
        && tree.children == Without(old(tree.children), slot) + [slot] && remaining == candidates - {slot}
      ensures slot !in candidates ==>
        && (forall id :: id in candidates ==> old(tree.items)[id].name != row.name)
        && slot !in old(tree.items) && tree.children == old(tree.children) + [slot] && remaining == candidates
    {
      slot, remaining := ClaimRow(candidates, row);
      if slot in candidates {
        tree.MoveToEnd(slot);
      }
    }

    /** The final loop of `update_treeview`: every row left unclaimed is deleted; the others keep their order. */
    method DeleteRows(unclaimed: set<ItemId>)
      requires tree.Valid() && forall id :: id in unclaimed ==> id in tree.items
      modifies tree
      ensures tree.Valid()
      ensures tree.children == Drop(old(tree.children), unclaimed)
      ensures tree.items == old(tree.items) - unclaimed
    {
      ghost var start := tree.children;
      var rest := unclaimed;
      assert unclaimed - rest == {};
      DropDisjoint(start, {});
      while rest != {}
        invariant tree.Valid() && rest <= unclaimed && DistinctIds(start)
        invariant tree.children == Drop(start, unclaimed - rest)
        invariant tree.items == old(tree.items) - (unclaimed - rest)
        decreases rest
      {
        var item :| item in rest;
        DeleteOneMore(start, old(tree.items), unclaimed, rest, item);
        tree.Delete(item);
        rest := rest - {item};
      }
      assert unclaimed - rest == unclaimed;
    }

    /** The inner search of `update_treeview`: some unclaimed row whose name is `fileName`, if there is one. */
    method MatchingItem(candidates: set<ItemId>, fileName: string) returns (matching: Option<ItemId>)
      requires tree.Valid() && forall id :: id in candidates ==> id in tree.items
      ensures matching.Some? ==> matching.value in candidates && tree.items[matching.value].name == fileName
      ensures matching.None? ==> forall id :: id in candidates ==> tree.items[id].name != fileName
    {
      var rest := candidates;
      while rest != {}
        invariant rest <= candidates
        invariant forall id :: id in candidates - rest ==> tree.items[id].name != fileName
        decreases rest
      {
        var item :| item in rest;
        if tree.items[item].name == fileName {
          return Some(item);
        }
        rest := rest - {item};
      }
      return None;
    }
  }

  /** Two items sorted by ascending last change: already in order, or swapped. */
  lemma SortTwo(x: FileInfo, y: FileInfo)
    ensures SortByLastChange([x, y], false) == if x.lastChange <= y.lastChange then [x, y] else [y, x]
  {
    assert [x, y][1..] == [y] && [y][1..] == [];
    assert SortByLastChange([y], false) == [y];
  }

  /** With an empty filter text both files of a two-file table are shown. */
  lemma EmptyFilterShowsTwo(a: FileInfo, b: FileInfo)
    ensures Displayed([a, b], "") == [a, b]
  {
    EmptyFilterShowsOne(a);
    EmptyFilterAppends(a, b);
  }

  lemma EmptyFilterShowsOne(a: FileInfo)
    ensures Displayed([a], "") == [a]
  {
    assert StripLeadingDots("") == [];
    assert Keeps("", Basename(a.path));
    assert [a][..0] == [];
  }

  lemma EmptyFilterAppends(a: FileInfo, b: FileInfo)
    ensures Displayed([a, b], "") == Displayed([a], "") + [b]
  {
    assert StripLeadingDots("") == [];
    assert Keeps("", Basename(b.path));
    assert [a, b][..1] == [a];
  }

  /**
   * The reordering scenario: at tick 0 the walk finds the files `p` and `q`, both of
   * size 1, and the tree shows p, q. At tick 20 `p` has grown, so the sorted order is
   * q, p; but both rows are reused in place, and the file that changed last stays on top.
   */
  method ResizedRowStaysOnTop(p: Path, q: Path) returns (app: Tracker2App)
    requires Basename(p) != Basename(q)
    ensures app.Valid()
    ensures app.filesInfo == [FileInfo(p, 2, 20), FileInfo(q, 1, 0)]
    ensures |app.tree.Rows()| == 2 && app.tree.Rows()[0].name == Basename(p) && app.tree.Rows()[1].name == Basename(q)
  {
    app := new Tracker2App();
    app.UpdateFilesInfo([WalkEntry(p, Some(1)), WalkEntry(q, Some(1))], 0);
    assert app.filesInfo == [FileInfo(p, 1, 0), FileInfo(q, 1, 0)];
    DrawTwoNewFiles(app, p, q);
    app.UpdateFilesInfo([WalkEntry(p, Some(2)), WalkEntry(q, Some(1))], 20);
    assert Lookup([FileInfo(p, 1, 0), FileInfo(q, 1, 0)], q) == Some(FileInfo(q, 1, 0));
    assert app.filesInfo == [FileInfo(p, 2, 20), FileInfo(q, 1, 0)];
    RedrawAfterGrowth(app, p, q);
  }

  /**
   * The same two ticks with the corrected pass: the grown file's row moves to the bottom,
   * below the row of the file that changed earlier.
   */
  method ResizedRowMovesDown(p: Path, q: Path) returns (app: Tracker2App)
    requires p != q
    ensures app.Valid()
    ensures app.filesInfo == [FileInfo(p, 2, 20), FileInfo(q, 1, 0)]
    ensures |app.tree.Rows()| == 2 && app.tree.Rows()[0].name == Basename(q) && app.tree.Rows()[1].name == Basename(p)
  {
    app := new Tracker2App();
    app.UpdateFilesInfo([WalkEntry(p, Some(1)), WalkEntry(q, Some(1))], 0);
    assert app.filesInfo == [FileInfo(p, 1, 0), FileInfo(q, 1, 0)];
    DrawInOrder(app, p, q);
    app.UpdateFilesInfo([WalkEntry(p, Some(2)), WalkEntry(q, Some(1))], 20);
    assert Lookup([FileInfo(p, 1, 0), FileInfo(q, 1, 0)], q) == Some(FileInfo(q, 1, 0));
    assert app.filesInfo == [FileInfo(p, 2, 20), FileInfo(q, 1, 0)];
    RedrawInOrderAfterGrowth(app, p, q);
  }

  /** The first tick's corrected pass: two new rows, p above q. */
  method DrawInOrder(app: Tracker2App, p: Path, q: Path)
    requires app.Valid() && app.filesInfo == [FileInfo(p, 1, 0), FileInfo(q, 1, 0)]
    modifies app.tree
    ensures app.Valid()
    ensures |app.tree.Rows()| == 2 && app.tree.Rows()[0].name == Basename(p) && app.tree.Rows()[1].name == Basename(q)
  {
    app.UpdateTreeviewInOrder("", 0);
    InOrderRowsAtStart(p, q, app.filesInfo, app.tree.Rows());
  }

  lemma InOrderRowsAtStart(p: Path, q: Path, files: Table, rows: seq<Row>)
    requires files == [FileInfo(p, 1, 0), FileInfo(q, 1, 0)]
    requires rows == StatusRows(Displayed(SortByLastChange(files, false), ""), 0)
    ensures |rows| == 2 && rows[0].name == Basename(p) && rows[1].name == Basename(q)
  {
    var shown := StartShown(p, q);
    RowNamesOfTwo(FileInfo(p, 1, 0), FileInfo(q, 1, 0), 0, rows);
  }

  lemma RowNamesOfTwo(a: FileInfo, b: FileInfo, now: int, rows: seq<Row>)
    requires rows == StatusRows([a, b], now)
    ensures |rows| == 2 && rows[0].name == Basename(a.path) && rows[1].name == Basename(b.path)
  {
    assert rows[0] == StatusRow(a, now) && rows[1] == StatusRow(b, now);
  }

  lemma StartShown(p: Path, q: Path) returns (shown: Table)
    ensures shown == [FileInfo(p, 1, 0), FileInfo(q, 1, 0)]
    ensures Displayed(SortByLastChange([FileInfo(p, 1, 0), FileInfo(q, 1, 0)], false), "") == shown
  {
    shown := [FileInfo(p, 1, 0), FileInfo(q, 1, 0)];
    SortTwo(FileInfo(p, 1, 0), FileInfo(q, 1, 0));
    EmptyFilterShowsTwo(shown[0], shown[1]);
  }

  /** The second tick's corrected pass: the rows follow the sorted order q, p. */
  method RedrawInOrderAfterGrowth(app: Tracker2App, p: Path, q: Path)
    requires app.Valid() && app.filesInfo == [FileInfo(p, 2, 20), FileInfo(q, 1, 0)]
    modifies app.tree
    ensures app.Valid()
    ensures |app.tree.Rows()| == 2 && app.tree.Rows()[0].name == Basename(q) && app.tree.Rows()[1].name == Basename(p)
  {
    app.UpdateTreeviewInOrder("", 20);
    InOrderRowsAfterGrowth(p, q, app.filesInfo, app.tree.Rows());
  }

  lemma InOrderRowsAfterGrowth(p: Path, q: Path, files: Table, rows: seq<Row>)
    requires files == [FileInfo(p, 2, 20), FileInfo(q, 1, 0)]
    requires rows == StatusRows(Displayed(SortByLastChange(files, false), ""), 20)
    ensures |rows| == 2 && rows[0].name == Basename(q) && rows[1].name == Basename(p)
  {
    var shown := GrowthShown(p, q);
    RowNamesOfTwo(FileInfo(q, 1, 0), FileInfo(p, 2, 20), 20, rows);
  }

  /** The first tick's `update_treeview`: two new rows, p above q. */
  method DrawTwoNewFiles(app: Tracker2App, p: Path, q: Path)
    requires app.Valid() && app.filesInfo == [FileInfo(p, 1, 0), FileInfo(q, 1, 0)] && app.tree.children == []
    modifies app.tree
    ensures app.Valid() && |app.tree.children| == 2
    ensures app.tree.items[app.tree.children[0]].name == Basename(p)
    ensures app.tree.items[app.tree.children[1]].name == Basename(q)
  {
    SortTwo(FileInfo(p, 1, 0), FileInfo(q, 1, 0));
    EmptyFilterShowsTwo(FileInfo(p, 1, 0), FileInfo(q, 1, 0));
    ghost var none := app.tree.children;
    assert Elems(none) == {};
    ghost var slots := app.UpdateTreeview("", 0);
    DropDisjoint(slots, {});
    assert app.tree.children == slots;
  }

  /** The second tick's `update_treeview`: both rows are reused where they are. */
  method RedrawAfterGrowth(app: Tracker2App, p: Path, q: Path)
    requires Basename(p) != Basename(q)
    requires app.Valid() && app.filesInfo == [FileInfo(p, 2, 20), FileInfo(q, 1, 0)] && |app.tree.children| == 2
    requires app.tree.items[app.tree.children[0]].name == Basename(p)
    requires app.tree.items[app.tree.children[1]].name == Basename(q)
    modifies app.tree
    ensures app.Valid() && app.tree.children == old(app.tree.children)
    ensures app.tree.items[app.tree.children[0]].name == Basename(p)
    ensures app.tree.items[app.tree.children[1]].name == Basename(q)
  {
    ghost var c0, i0 := app.tree.children, app.tree.items;
    ghost var slots := app.UpdateTreeview("", 20);
    RowsKeptAfterGrowth(p, q, app.filesInfo, c0, i0, slots, app.tree.children, app.tree.items);
  }

  /** What the contract of `UpdateTreeview` leaves of the second tick's pass: the rows p, q, where they were. */
  lemma RowsKeptAfterGrowth(p: Path, q: Path, files: Table, c0: seq<ItemId>, i0: map<ItemId, Row>,
                            slots: seq<ItemId>, children: seq<ItemId>, items: map<ItemId, Row>)
    requires Basename(p) != Basename(q) && files == [FileInfo(p, 2, 20), FileInfo(q, 1, 0)]
    requires |c0| == 2 && DistinctIds(c0) && (forall id :: id in i0 <==> id in c0)
    requires i0[c0[0]].name == Basename(p) && i0[c0[1]].name == Basename(q)
    requires var shown := Displayed(SortByLastChange(files, false), "");
      && |slots| == |shown|
      && (forall j :: 0 <= j < |slots| ==> slots[j] in items && items[slots[j]] == StatusRow(shown[j], 20))
      && AllMatched(i0, slots, Names(shown))
    requires var before := Elems(c0);
      children == Drop(c0, before - Elems(slots)) + Drop(slots, before)
    ensures children == c0 && c0[0] in items && c0[1] in items
    ensures items[c0[0]].name == Basename(p) && items[c0[1]].name == Basename(q)
  {
    var shown := GrowthShown(p, q);
    NamesOfTwo(shown[0], shown[1]);
    SwappedRowsReused(c0, i0, slots, shown, 20, children, items, [Basename(q), Basename(p)]);
  }

  /** At the second tick the grown file is the latest change, so it is shown second. */
  lemma GrowthShown(p: Path, q: Path) returns (shown: Table)
    ensures shown == [FileInfo(q, 1, 0), FileInfo(p, 2, 20)]
    ensures Displayed(SortByLastChange([FileInfo(p, 2, 20), FileInfo(q, 1, 0)], false), "") == shown
  {
    shown := [FileInfo(q, 1, 0), FileInfo(p, 2, 20)];
    SortTwo(FileInfo(p, 2, 20), FileInfo(q, 1, 0));
    EmptyFilterShowsTwo(shown[0], shown[1]);
  }

  lemma NamesOfTwo(a: FileInfo, b: FileInfo)
    ensures Names([a, b]) == [Basename(a.path), Basename(b.path)]
  {
  }

  /**
   * Two rows carrying the names of two shown files, in the opposite order, and a pass
   * that shows those files: each file claims the row of its name, and both rows stay
   * where they were.
   */
  lemma SwappedRowsReused(c1: seq<ItemId>, i1: map<ItemId, Row>, slots: seq<ItemId>, shown: Table, now: int,
                          children: seq<ItemId>, items: map<ItemId, Row>, names: seq<string>)
    requires |c1| == 2 && |shown| == 2 && c1[0] != c1[1] && forall id :: id in i1 <==> id in c1
    requires names == Names(shown)
    requires i1[c1[0]].name == names[1] && i1[c1[1]].name == names[0] && names[0] != names[1]
    requires AllMatched(i1, slots, names)
    requires forall j :: 0 <= j < |slots| ==> slots[j] in items && items[slots[j]] == StatusRow(shown[j], now)
    requires children == Drop(c1, Elems(c1) - Elems(slots)) + Drop(slots, Elems(c1))
    ensures slots == [c1[1], c1[0]] && children == c1 && c1[0] in items && c1[1] in items
    ensures items[c1[0]].name == Basename(shown[1].path) && items[c1[1]].name == Basename(shown[0].path)
  {
    var x, y := c1[0], c1[1];
    assert c1 == [x, y];
    SlotsSwapped(x, y, i1, slots, names);
    SwappedElems(x, y);
    ClaimedAllInPlace(c1, slots);
    StatusThreshold(shown[0], now, now);
    StatusThreshold(shown[1], now, now);
  }

  lemma SwappedElems(x: ItemId, y: ItemId)
    ensures Elems([x, y]) == Elems([y, x])
  {
  }

  /** The rows x, y, named for the second and the first shown file, are claimed as y, x. */
  lemma SlotsSwapped(x: ItemId, y: ItemId, i1: map<ItemId, Row>, slots: seq<ItemId>, names: seq<string>)
    requires x != y && forall id :: id in i1 <==> id in [x, y]
    requires |names| == 2 && i1[x].name == names[1] && i1[y].name == names[0] && names[0] != names[1]
    requires AllMatched(i1, slots, names)
    ensures slots == [y, x]
  {
    assert MatchedByName(i1, slots, names, 0) && y !in slots[..0];
    assert slots[0] == y;
    assert MatchedByName(i1, slots, names, 1) && slots[..1] == [y];
    assert slots[1] == x;
  }

  /** A pass that claimed every old row, in another order, leaves the rows where they were. */
  lemma ClaimedAllInPlace(c1: seq<ItemId>, slots: seq<ItemId>)
    requires Elems(c1) == Elems(slots)
    ensures Drop(c1, Elems(c1) - Elems(slots)) + Drop(slots, Elems(c1)) == c1
  {
    assert Elems(c1) - Elems(slots) == {};
    DropDisjoint(c1, {});
    DropAll(slots, Elems(c1));
    assert c1 + [] == c1;
  }
}
