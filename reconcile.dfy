/**
 * The poll-mode reconciliation step `update_files_info`, the same merge in the two
 * poll-mode trackers (FileTracker2's copy also prints a line per new file, which is left
 * out): a fresh directory walk is merged into the table of path -> (size, time of the last
 * size change), and the merged table replaces the old one.
 *
 * The table is a Python dict; it is modelled as an association list with distinct
 * paths, in insertion order, because the trackers later sort its items and ties keep
 * that order.
 */
module Reconcile {
  import opened Wrappers
  import opened Paths

  /** One file reported by the walk: its path and the result of `os.path.getsize` (None: it raised OSError). */
  datatype WalkEntry = WalkEntry(path: Path, size: Option<nat>)

  /** One item of `files_info`: path -> (size, lastChangeTime); times are integer ticks. */
  datatype FileInfo = FileInfo(path: Path, size: nat, lastChange: int)

  type Table = seq<FileInfo>

  function WalkPaths(walk: seq<WalkEntry>): (ps: seq<Path>)
    ensures |ps| == |walk|
  {
    seq(|walk|, k requires 0 <= k < |walk| => walk[k].path)
  }

  function PathsOf(t: Table): (ps: seq<Path>)
    ensures |ps| == |t|
  {
    seq(|t|, k requires 0 <= k < |t| => t[k].path)
  }

  /** Every path occurs once: a walk visits each file once, and a dict has each key once. */
  predicate Distinct(ps: seq<Path>)
  {
    forall i, j :: 0 <= i < j < |ps| ==> ps[i] != ps[j]
  }

  /** `self.files_info.get(p)`: the item for `p`, if the table has one. */
  function Lookup(t: Table, p: Path): (r: Option<FileInfo>)
    ensures r.Some? ==> r.value in t && r.value.path == p
    ensures r.None? <==> p !in PathsOf(t)
  {
    if t == [] then None
    else if t[0].path == p then
      assert PathsOf(t)[0] == p;
      Some(t[0])
    else
      assert PathsOf(t) == [t[0].path] + PathsOf(t[1..]);
      Lookup(t[1..], p)
  }

  /** In a table with distinct paths, looking up an item's path finds that item. */
  lemma {:induction false} LookupDistinct(t: Table, k: nat)
    requires Distinct(PathsOf(t)) && k < |t|
    ensures Lookup(t, t[k].path) == Some(t[k])
  {
    if k > 0 {
      assert t[0].path == PathsOf(t)[0] != PathsOf(t)[k] == t[k].path;
      assert PathsOf(t[1..]) == PathsOf(t)[1..];
      LookupDistinct(t[1..], k - 1);
    }
  }

  /** The size the walk records: an OSError while reading the size counts as size 0. */
  function ObservedSize(e: WalkEntry): nat
  {
    match e.size
    case Some(n) => n
    case None => 0
  }

  /** The item that one observation of `p` with `size` at `now` leaves in the new table. */
  function Observe(table: Table, p: Path, size: nat, now: int): FileInfo
  {
    match Lookup(table, p)
    case Some(last) => if size != last.size then FileInfo(p, size, now) else FileInfo(p, last.size, last.lastChange)
    case None => FileInfo(p, size, now)
  }

  /** The table `update_files_info` builds from `walk` at time `now`, one item per walked file, in walk order. */
  function Reconciled(table: Table, walk: seq<WalkEntry>, now: int): Table
  {
    seq(|walk|, k requires 0 <= k < |walk| => Observe(table, walk[k].path, ObservedSize(walk[k]), now))
  }

  /** The loop of `update_files_info`: builds `current_files_info` from the walk and the previous table. */
  method Rescan(filesInfo: Table, walk: seq<WalkEntry>, now: int) returns (current: Table)
    requires Distinct(WalkPaths(walk))
    ensures current == Reconciled(filesInfo, walk, now)
  {
    current := [];
    for i := 0 to |walk|
      invariant current == Reconciled(filesInfo, walk[..i], now)
    {
      var path := walk[i].path;
      var size := match walk[i].size case Some(n) => n case None => 0;
      match Lookup(filesInfo, path)
      case Some(last) =>
        if size != last.size {
          current := current + [FileInfo(path, size, now)];
        } else {
          current := current + [FileInfo(path, last.size, last.lastChange)];
        }
      case None =>
        current := current + [FileInfo(path, size, now)];
    }
    assert walk[..|walk|] == walk;
  }

  /**
   * The new table holds exactly the walked paths, in walk order, each once: paths that
   * the walk no longer reports are dropped without trace.
   */
  lemma ReconciledPaths(table: Table, walk: seq<WalkEntry>, now: int)
    requires Distinct(WalkPaths(walk))
    ensures PathsOf(Reconciled(table, walk, now)) == WalkPaths(walk)
    ensures Distinct(PathsOf(Reconciled(table, walk, now)))
    ensures forall p :: Lookup(Reconciled(table, walk, now), p).Some? <==> p in WalkPaths(walk)
  {
    assert PathsOf(Reconciled(table, walk, now)) == WalkPaths(walk);
  }

  /**
   * The item for the walked file `walk[k]`: a new path, or one whose size changed, is
   * stamped with `now`; an unchanged size keeps the previous item verbatim; an unreadable
   * size is recorded as 0.
   */
  lemma ReconciledEntry(table: Table, walk: seq<WalkEntry>, now: int, k: nat)
    requires Distinct(WalkPaths(walk)) && k < |walk|
    ensures var r, before := Lookup(Reconciled(table, walk, now), walk[k].path), Lookup(table, walk[k].path);
      && r.Some?
      && r.value.path == walk[k].path
      && r.value.size == ObservedSize(walk[k])
      && (walk[k].size.None? ==> r.value.size == 0)
      && (before.None? ==> r.value.lastChange == now)
      && (before.Some? && before.value.size != ObservedSize(walk[k]) ==> r.value.lastChange == now)
      && (before.Some? && before.value.size == ObservedSize(walk[k]) ==> r.value == before.value)
  {
    var t := Reconciled(table, walk, now);
    ReconciledPaths(table, walk, now);
    LookupDistinct(t, k);
  }

  /** Merging the same walk a second time, at any later or earlier time, changes nothing. */
  lemma ReconciledIdempotent(table: Table, walk: seq<WalkEntry>, t1: int, t2: int)
    requires Distinct(WalkPaths(walk))
    ensures Reconciled(Reconciled(table, walk, t1), walk, t2) == Reconciled(table, walk, t1)
  {
    var once := Reconciled(table, walk, t1);
    ReconciledPaths(table, walk, t1);
    forall k | 0 <= k < |walk|
      ensures Observe(once, walk[k].path, ObservedSize(walk[k]), t2) == once[k]
    {
      LookupDistinct(once, k);
    }
  }
}
