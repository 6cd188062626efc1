/**
 * The poll-mode DVR monitor: each tick it merges a fresh walk into `files_info`, then
 * rebuilds the tree from scratch, newest change first, marking files that changed in the
 * last ten ticks "Checking..." and the others "Finished".
 */
module DvrMonitor {
  import opened Paths
  import opened Reconcile
  import opened Ordering
  import opened TreeWidget
  import FileTracker2

  /** The row the monitor inserts for a tracked file at time `now`, with the tag of its status. */
  function DvrRow(f: FileInfo, now: int): Row
  {
    var name := Basename(f.path);
    if now - f.lastChange > 10 then Row(name, f.size, "Finished", "finished")
    else Row(name, f.size, "Checking...", "checking")
  }

  /** The rows for `s`, one per item, in the same order. */
  function DvrRows(s: Table, now: int): (rows: seq<Row>)
    ensures |rows| == |s|
  {
    seq(|s|, k requires 0 <= k < |s| => DvrRow(s[k], now))
  }

  /**
   * "Finished" exactly when more than ten ticks passed since the last change, so at exactly
   * ten ticks a file is still "Checking..."; the tag always names the status.
   */
  lemma DvrStatusThreshold(f: FileInfo, now: int)
    ensures DvrRow(f, now).status == "Finished" <==> now - f.lastChange > 10
    ensures DvrRow(f, now).status == "Checking..." <==> now - f.lastChange <= 10
    ensures DvrRow(f, now).tag == (if DvrRow(f, now).status == "Finished" then "finished" else "checking")
  {
  }

  /** The two poll-mode trackers classify alike: "Checking..." here exactly when "Logging..." there. */
  lemma TrackersAgree(f: FileInfo, now: int)
    ensures DvrRow(f, now).status == "Checking..." <==> FileTracker2.StatusRow(f, now).status == "Logging..."
    ensures DvrRow(f, now).name == FileTracker2.StatusRow(f, now).name
    ensures DvrRow(f, now).size == FileTracker2.StatusRow(f, now).size
  {
  }

  /** The rows shown are newest first, one per tracked file, and in no other order than the stable sort's. */
  lemma DvrRowsNewestFirst(filesInfo: Table, now: int)
    ensures var sorted := SortByLastChange(filesInfo, true);
      && |DvrRows(sorted, now)| == |filesInfo|
      && (forall i, j :: 0 <= i < j < |sorted| ==> sorted[i].lastChange >= sorted[j].lastChange)
      && multiset(sorted) == multiset(filesInfo)
      && (forall t :: WithTime(sorted, t) == WithTime(filesInfo, t))
  {
    SortKeepsItems(filesInfo, true);
    forall t ensures WithTime(SortByLastChange(filesInfo, true), t) == WithTime(filesInfo, t) {
      SortIsStable(filesInfo, true, t);
    }
  }

  lemma DvrRowsStep(files: Table, i: nat, now: int)
    requires i < |files|
    ensures DvrRows(files[..i + 1], now) == DvrRows(files[..i], now) + [DvrRow(files[i], now)]
  {
    var lhs, rhs := DvrRows(files[..i + 1], now), DvrRows(files[..i], now) + [DvrRow(files[i], now)];
    forall k | 0 <= k < i + 1 ensures lhs[k] == rhs[k] {
      assert files[..i + 1][k] == files[k];
    }
  }

  /** A row whose tag is the one the status calls for. */
  predicate WellTagged(row: Row)
  {
    && (row.status == "Checking..." ==> row.tag == "checking")
    && (row.status == "Finished" ==> row.tag == "finished")
  }

  lemma DvrRowsWellTagged(s: Table, now: int)
    ensures forall k :: 0 <= k < |s| ==> WellTagged(DvrRows(s, now)[k])
  {
  }

  class DvrApp {
    var filesInfo: Table
    const tree: Treeview

    ghost predicate Valid()
      reads this, tree
    {
      tree.Valid() && Distinct(PathsOf(filesInfo))
    }

    constructor ()
      ensures Valid() && fresh(tree)
      ensures filesInfo == [] && tree.children == []
    {
      filesInfo := [];
      tree := new Treeview();
    }

    /** `update_files_info`: the same merge as the other poll-mode tracker. */
    method UpdateFilesInfo(walk: seq<WalkEntry>, now: int)
      requires Valid() && Distinct(WalkPaths(walk))
      modifies this
      ensures Valid()
      ensures filesInfo == Reconciled(old(filesInfo), walk, now)
    {
      var current := Rescan(filesInfo, walk, now);
      ReconciledPaths(filesInfo, walk, now);
      filesInfo := current;
    }

    /**
     * `update_treeview`: every old row is deleted, then one row per tracked file is
     * inserted, newest change first; the closing pass that re-tags rows by their status
     * changes nothing, because every row already carries the tag of its status.
     */
    method UpdateTreeview(now: int)
      requires Valid()
      modifies tree
      ensures Valid()
      ensures tree.Rows() == DvrRows(SortByLastChange(filesInfo, true), now)
    {
      ClearRows();
      var sortedFiles := SortByLastChange(filesInfo, true);
      InsertRows(sortedFiles, now);
      DvrRowsWellTagged(sortedFiles, now);
      RetagRows();
    }

    /** The first loop of `update_treeview`: every existing row is deleted. */
    method ClearRows()
      requires tree.Valid()
      modifies tree
      ensures tree.Valid() && tree.children == [] && tree.items == map[]
    {
      var oldChildren := tree.children;
      for k := 0 to |oldChildren|
        invariant tree.Valid()
        invariant tree.children == oldChildren[k..]
      {
        assert oldChildren[k..] == [oldChildren[k]] + oldChildren[k + 1..];
        tree.Delete(oldChildren[k]);
      }
    }

    /** The insertion loop: one row per file, in the given order, below the existing rows. */
    method InsertRows(files: Table, now: int)
      requires tree.Valid()
      modifies tree
      ensures tree.Valid()
      ensures tree.Rows() == old(tree.Rows()) + DvrRows(files, now)
    {
      ghost var start := tree.Rows();
      for i := 0 to |files|
        invariant tree.Valid()
        invariant tree.Rows() == start + DvrRows(files[..i], now)
      {
        var id := tree.Insert(DvrRow(files[i], now));
        DvrRowsStep(files, i, now);
      }
      assert files[..|files|] == files;
    }

    /** The closing loop: each row gets the tag named by its status, which leaves well-tagged rows as they are. */
    method RetagRows()
      requires tree.Valid()
      requires forall k :: 0 <= k < |tree.Rows()| ==> WellTagged(tree.Rows()[k])
      modifies tree
      ensures tree.Valid()
      ensures tree.children == old(tree.children) && tree.items == old(tree.items)
    {
      var shownChildren := tree.children;
      ghost var rows := tree.Rows();
      for k := 0 to |shownChildren|
        invariant tree.Valid()
        invariant tree.children == shownChildren && tree.items == old(tree.items)
      {
        var item := shownChildren[k];
        var row := tree.items[item];
        assert row == rows[k] && WellTagged(rows[k]);
        if row.status == "Checking..." {
          tree.SetItem(item, row.(tag := "checking"));
        } else if row.status == "Finished" {
          tree.SetItem(item, row.(tag := "finished"));
        }
      }
    }
  }
}
