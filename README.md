# FileWatcher in Dafny

FileWatcher watches a folder for growing files, typically video recordings being written, and tells the user which files are still growing and which have settled. It has two ways of watching:

- **Poll mode** (`FileTracker2.py`, `DVR_monitor.py`). Each tick, the app walks the folder and merges the walk into a table `files_info` of path -> (size, time of the last size change). `update_files_info` is the same merge in both apps; only FileTracker2's copy also prints a line for each new file. Then it redraws a tree of rows, one per file. FileTracker2 keeps the rows it can reuse, sorts oldest change first, shows "Logging..." while a file changed at most 10 seconds ago and "Idle" after that, and can filter by extension. DVR_monitor clears the tree, inserts the rows newest change first, and shows "Checking..." or "Finished".
- **Push mode** (`FileMonitorOI.py`, with an earlier prototype in `test.py`). A handler receives "created" and "modified" events. It keeps each file's size in two parallel tables. A per-file five-second timer calls `check_size`, which either declares the file settled (red popup, file forgotten) or records the new size and re-arms.

Modules, following the program's structure:

| file | module | what it holds |
|---|---|---|
| `wrappers.dfy` | `Wrappers` | `Option` |
| `paths.dfy` | `Paths` | `os.path.basename` on POSIX paths |
| `fs_events.dfy` | `FsEvents` | a watchdog event, a size read, a popup signal |
| `extension_filter.dfy` | `ExtensionFilter` | FileTracker2's extension filter (`lstrip('.')`, `lower()`, `endswith`) |
| `reconcile.dfy` | `Reconcile` | the `update_files_info` merge common to both poll-mode apps, as a loop and as a specification function |
| `ordering.dfy` | `Ordering` | `sorted(..., key=lastChange, reverse=...)` as a stable insertion sort |
| `treeview.dfy` | `TreeWidget` | the ttk tree as a class: children in display order, item values, insert/item/move/delete |
| `file_tracker2.dfy` | `FileTracker2` | FileTracker2's app: status rule, filter, the row-reconciling `update_treeview` |
| `dvr_monitor.dfy` | `DvrMonitor` | DVR_monitor's app: status rule and the clear-and-rebuild `update_treeview` |
| `file_monitor_oi.dfy` | `FileMonitorOI` | the push-mode handler with timers, and the popup geometry clamps |
| `prototype_monitor.dfy` | `PrototypeMonitor` | the earlier handler of `test.py` |

The model works as follows:

- **Tables.** A Python dict is an association list with distinct keys, kept in insertion order. Order matters here: the items are sorted afterwards, and ties keep their relative order.
- **Filesystem reads.** The walk is a list of (path, size-or-error) entries. In push mode a size read is `Read(n)`, `NotFound` or `Unreadable`.
- **Time.** Time is an integer clock, with one `now` per pass.
- **Timers.** Each timer is a handle 0, 1, 2, ... in creation order. `timers[t]` is the path that timer `t` was made for. The handler keeps the set of cancelled handles and the set of fired handles. `Fire(t, read)` stands for timer `t` running out.
- **Popups.** Every popup call is appended to a list as (file name, changing).

## Model

| member | source | states |
|---|---|---|
| Paths.Basename | FileTracker2.py:128 | the result is a suffix of the path with no '/', and it is preceded by a '/' unless it is the whole path |
| Paths.LastComponentLength | FileMonitorOI.py:306 | the last component is exactly the characters after the last '/' |
| Paths.BasenameOfJoin | FileTracker2.py:95 | the basename of `os.path.join(root, file)` is `file` again |
| ExtensionFilter.StripLeadingDotsShape | FileTracker2.py:125 | the result is a suffix of the filter, everything removed was a dot, and the result does not start with a dot |
| ExtensionFilter.EmptyFilterKeepsAll | FileTracker2.py:131 | a filter that is empty after stripping dots keeps every file |
| ExtensionFilter.KeepsIffSuffix | FileTracker2.py:131-132 | with a non-empty filter, a file is kept iff its lower-cased name is some stem, then ".", then the lower-cased filter |
| ExtensionFilter.StripDots | FileTracker2.py:125 | any number of leading dots is stripped completely |
| ExtensionFilter.LeadingDotsIgnored | FileTracker2.py:125 | leading dots on the filter never change which files are kept |
| ExtensionFilter.StripCommutesWithLower | FileTracker2.py:131 | stripping dots and lower-casing can be done in either order |
| ExtensionFilter.LowerIdempotent | FileTracker2.py:131 | lower-casing twice is lower-casing once |
| ExtensionFilter.CaseInsensitive | FileTracker2.py:131 | the filter's decision ignores the case of both the filter and the file name |
| ExtensionFilter.Mp4Scenario | FileTracker2.py:125-132 | filter "mp4" keeps "a.mp4" and drops "b.txt" |
| ExtensionFilter.DottedUpperCaseScenario | FileTracker2.py:125-132 | filter ".MP4" keeps "clip.mp4" |
| Reconcile.Lookup | FileTracker2.py:101-102 | a found item is in the table under that path; nothing is found iff the path is not a key |
| Reconcile.LookupDistinct | FileTracker2.py:101-102 | with distinct keys, looking up an item's path finds that very item |
| Reconcile.Rescan | FileTracker2.py:91-111 | the loop builds exactly the specification table `Reconciled` of the old table, the walk and `now` |
| Reconcile.ReconciledPaths | FileTracker2.py:92-111 | the new table's keys are exactly the walked paths, in walk order, each once; a path is found iff it was walked, so unwalked paths are dropped |
| Reconcile.ReconciledEntry | FileTracker2.py:96-108 | for each walked file: a new path or a changed size is stamped `now`, an unchanged size keeps the old (size, time) verbatim, and an unreadable size is recorded as 0 |
| Reconcile.ReconciledIdempotent | FileTracker2.py:101-106 | merging the same walk again, at any time, leaves the table as it is |
| Ordering.InsertInOrder | FileTracker2.py:122 | inserting into a sorted list keeps it sorted and adds exactly that item |
| Ordering.SortByLastChange | FileTracker2.py:122 | the result is sorted by last change time in the requested direction and is a permutation of the input |
| Ordering.SortKeepsItems | DVR_monitor.py:92 | sorting keeps the length and exactly the same items |
| Ordering.InsertKeepsTies | FileTracker2.py:122 | insertion keeps the order among the items with any one time, with the new item first |
| Ordering.SortIsStable | FileTracker2.py:122 | the sort is stable: items with equal times keep their relative order, as with Python's `sorted` |
| TreeWidget.Treeview.constructor | FileTracker2.py:47 | a new tree has no rows |
| TreeWidget.Treeview.Insert | FileTracker2.py:152 | the new row gets a fresh id, is appended at the end, and nothing else changes |
| TreeWidget.Treeview.SetItem | FileTracker2.py:149 | only that row's values change, and it keeps its place |
| TreeWidget.Treeview.MoveToEnd | FileTracker2.py:121 | the row leaves its place and goes to the bottom; the other rows keep their order and no values change |
| TreeWidget.Treeview.Delete | FileTracker2.py:157 | that row leaves the display order and the item values, and nothing else changes |
| FileTracker2.DisplayedMembers | FileTracker2.py:130-132 | a file is shown iff it is tracked and the filter keeps its basename |
| FileTracker2.StatusThreshold | FileTracker2.py:134-140 | "Logging..." iff at most 10 ticks passed since the last change, "Idle" iff more; the tag agrees; an idle file stays idle while time passes |
| FileTracker2.ChangedFileLogsForTenTicks | FileTracker2.py:103-108 | a file that the latest walk found new or resized shows "Logging..." exactly for the 10 ticks after that walk |
| FileTracker2.Tracker2App.constructor | FileTracker2.py:14 | the app starts with no tracked files and no rows |
| FileTracker2.Tracker2App.UpdateFilesInfo | FileTracker2.py:91-111 | the table becomes `Reconciled` of the old table, the walk and `now` |
| FileTracker2.Tracker2App.UpdateTreeview | FileTracker2.py:113-157 | afterwards there is exactly one row per tracked file that passes the filter, and the row for the j-th such file in ascending change order holds its name, size, status and tag; each file reused an old row of its name or got a new row because no unclaimed old row had its name (`AllMatched`); the reused old rows stay in their old order, followed by the new rows in the order they were inserted |
| FileTracker2.Tracker2App.ClaimRows | FileTracker2.py:127-153 | after the loop every shown file has its row, the unclaimed old rows are untouched, and the rows sit as the old children followed by the inserted rows, each matched by name |
| FileTracker2.Tracker2App.ClaimFileRow | FileTracker2.py:128-153 | a file the filter drops changes nothing; a kept file is appended to the shown files and claims its row, keeping the loop's bookkeeping |
| FileTracker2.PassStep | FileTracker2.py:142-153 | one reuse-or-insert step, as `ClaimRow` performs it, extends the bookkeeping of the pass (rows claimed, their places and their name matching) by one file |
| FileTracker2.DisplayedSorted | FileTracker2.py:122-132 | filtering a sorted table leaves it sorted in the same direction |
| FileTracker2.Tracker2App.ClaimRow | FileTracker2.py:142-153 | either an unclaimed row that had the file's name is overwritten and claimed, and the display order does not change; or no unclaimed row had the name, and a new row is appended at the end |
| FileTracker2.Tracker2App.DeleteRows | FileTracker2.py:155-157 | every row left unclaimed is deleted and no other, and the rows that stay keep their order |
| FileTracker2.Tracker2App.MatchingItem | FileTracker2.py:142-146 | a result is an unclaimed row with that name; no result means no unclaimed row has that name |
| FileTracker2.Tracker2App.UpdateTreeviewInOrder | FileTracker2.py:121-157 | the corrected pass: the rows on display are exactly the status rows of the filtered files in ascending order of last change, latest at the bottom |
| FileTracker2.Tracker2App.ClaimRowsInOrder | FileTracker2.py:127-153 | after the corrected loop the old rows nobody claimed come first, then the claimed rows in the sorted order |
| FileTracker2.Tracker2App.ClaimRowAtEnd | FileTracker2.py:142-153 | as `ClaimRow`, with a reused row also moved to the bottom: a reused row had the file's name and now sits last; a new row is appended only when no unclaimed row had the name |
| FileTracker2.Tracker2App.ClaimFileRowAtEnd | FileTracker2.py:128-153 | one turn of the corrected loop: a file the filter drops changes nothing; a kept file is appended to the shown files and its row goes to the bottom, keeping the corrected bookkeeping |
| FileTracker2.InOrderStep | FileTracker2.py:142-153 | one claim of the corrected pass keeps the unclaimed old rows in front and the claimed rows, in claim order, at the bottom |
| FileTracker2.InOrderAfterDelete | FileTracker2.py:155-157 | after the delete loop of the corrected pass only the claimed rows remain, in claim order |
| FileTracker2.PassResult | FileTracker2.py:142-157 | after the delete loop the claimed old rows keep their places and the inserted rows follow |
| FileTracker2.ResizedRowStaysOnTop | FileTracker2.py:121-153 | two files of size 1 at tick 0, then the first grows at tick 20: both rows are reused in place, so the file that changed last is still on top |
| FileTracker2.RowsKeptAfterGrowth | FileTracker2.py:142-150 | the second tick of that scenario reuses both old rows and leaves the display order as it was |
| FileTracker2.SwappedRowsReused | FileTracker2.py:142-150 | when the sorted order swaps two rows that are both reused, the display order stays the old one |
| FileTracker2.ResizedRowMovesDown | FileTracker2.py:121-157 | the same two ticks with the corrected pass: the grown file's row moves below the other |
| DvrMonitor.DvrStatusThreshold | DVR_monitor.py:96-101 | "Finished" iff more than 10 ticks passed since the last change, so exactly 10 gives "Checking..."; the tag agrees |
| DvrMonitor.TrackersAgree | DVR_monitor.py:96-101 | DVR_monitor's "Checking..." is exactly FileTracker2's "Logging...", with the same name and size |
| DvrMonitor.DvrRowsNewestFirst | DVR_monitor.py:92 | one row per tracked file, the files newest change first, a permutation of the table, and files with equal times keep their order in the table |
| DvrMonitor.DvrRowsWellTagged | DVR_monitor.py:96-103 | every inserted row carries the tag of its status |
| DvrMonitor.DvrApp.constructor | DVR_monitor.py:15 | the app starts with no tracked files and no rows |
| DvrMonitor.DvrApp.UpdateFilesInfo | DVR_monitor.py:67-86 | the table becomes `Reconciled` of the old table, the walk and `now` |
| DvrMonitor.DvrApp.UpdateTreeview | DVR_monitor.py:88-119 | the tree shows exactly the rows of the tracked files sorted newest first, with their status and tag, and nothing else |
| DvrMonitor.DvrApp.ClearRows | DVR_monitor.py:89-90 | every row is deleted |
| DvrMonitor.DvrApp.InsertRows | DVR_monitor.py:94-103 | one row per file is appended, in the given order, below the rows already present |
| DvrMonitor.DvrApp.RetagRows | DVR_monitor.py:112-119 | re-tagging rows that already carry the tags of their status changes no row |
| FileMonitorOI.ResizedWidth | FileMonitorOI.py:206 | the new width is the dragged width, but never below 100 |
| FileMonitorOI.ResizedHeight | FileMonitorOI.py:207 | the new height is the dragged height, but never below 50 |
| FileMonitorOI.OutlineFontSize | FileMonitorOI.py:216 | the font size is never below 10; from width 200 up, it is the width divided by 20 and rounded down |
| FileMonitorOI.App.constructor | FileMonitorOI.py:32 | the history and the popup list start empty |
| FileMonitorOI.Alarm.constructor | FileMonitorOI.py:114 | a new alarm has no file records |
| FileMonitorOI.FileChangeHandler.constructor | FileMonitorOI.py:296-301 | a new handler tracks nothing; its tables are in sync exactly when the alarm has no records |
| FileMonitorOI.FileChangeHandler.OnCreated | FileMonitorOI.py:303-326 | a file gets its size in both tables, one history entry, a green popup and a fresh pending timer; a directory or a failing size read changes nothing; the invariant holds |
| FileMonitorOI.FileChangeHandler.OnModified | FileMonitorOI.py:328-343 | a tracked file with a new size gets it in both tables; its old timer is cancelled and no longer pending; a fresh timer is pending and a green popup is shown; anything else changes nothing |
| FileMonitorOI.FileChangeHandler.RecordNew | FileMonitorOI.py:310-316 | the size goes to both tables and the record has no timer yet; arming a timer for the path then restores the invariant |
| FileMonitorOI.FileChangeHandler.RecordSize | FileMonitorOI.py:336-337 | the new size is written to both tables, keeping the invariant |
| FileMonitorOI.FileChangeHandler.Rearm | FileMonitorOI.py:341 | a tracked file's record points at a fresh pending timer made for it |
| FileMonitorOI.FileChangeHandler.StartSizeCheck | FileMonitorOI.py:345-349 | a new timer for the path is issued, pending, and stored in the path's record |
| FileMonitorOI.FileChangeHandler.CheckSize | FileMonitorOI.py:351-375 | an unchanged or vanished file leaves both tables with a red popup; a new size is recorded and a fresh timer armed; an untracked path or another read error changes nothing |
| FileMonitorOI.FileChangeHandler.Settle | FileMonitorOI.py:357-364 | a red popup, and the path leaves both tables |
| FileMonitorOI.FileChangeHandler.Fire | FileMonitorOI.py:347 | a pending timer fires once and has the effect of `check_size` on its path, including on the alarm's record (removed on settling, new size and fresh timer on growth); a cancelled or already fired timer does nothing |
| FileMonitorOI.LiveTimerSettlesRecording | FileMonitorOI.py:345-375 | continuing that recording with an unchanged size: the cancelled first timer fires to no effect, the live one drops the file from both tables with a red popup, and neither of its two timers is left pending |
| FileMonitorOI.GrowthCancelsFirstTimer | FileMonitorOI.py:303-343 | a file created empty that then grows is tracked at its new size; its first timer is cancelled and the second pending; two green popups and one history entry |
| PrototypeMonitor.App.constructor | test.py:26 | the history and the popup list start empty |
| PrototypeMonitor.FileChangeHandler.constructor | test.py:161-164 | a new handler tracks nothing |
| PrototypeMonitor.FileChangeHandler.OnCreated | test.py:166-172 | a file gets its observed size, its name in the history and a green popup; a directory or a failing size read changes nothing |
| PrototypeMonitor.FileChangeHandler.OnModified | test.py:174-185 | a tracked file with a new size gets it with a green popup; with the same size it gets a red popup; an untracked path, a directory or a failing read changes nothing; the tracked paths never change |

Every handler entry point preserves the handler invariant `FileChangeHandler.Valid`:

- every tracked path has an alarm record with the same size;
- that record's timer was made for that path;
- every cancelled or fired handle was issued.

Every entry point also keeps the key sets of the two tables equal once they are equal (`old(InSync()) ==> InSync()`). They start equal when the alarm's records are empty: a new alarm has none (FileMonitorOI.py:114). The history changes only in `OnCreated`, which appends exactly one entry. `GrowthCancelsFirstTimer` and `LiveTimerSettlesRecording` walk through one recording. It is created empty and grows once. The cancelled first timer then fires to no effect, and the live timer drops the file with a red popup.

## Left out

- The tkinter interface is left out: windows, popups, canvas drawing, colours, fonts, scroll position and `yview_moveto`, and `user_is_at_bottom`. Popups are records in a list. Tree rows are records; Tk's conversion of values to strings is not modelled.
- The watchdog `Observer` is left out: its scheduling, `start`/`stop`/`join` and `is_alive` are a foreign library and its threads. Events arrive as method calls.
- `threading.Timer` timing and `threading.Lock` are left out. Each entry point runs atomically and a timer fires when `Fire` is called. The race in which a timer has already started `check_size` when `on_modified` cancels it is therefore not modelled.
- `os.walk` and `os.path.getsize` are inputs: the walk as a list of entries, a size read as `Read`, `NotFound` or `Unreadable`. The walk's visiting order is whatever order that list has.
- Reconcile.Rescan: requires the walk's paths to be distinct, which `os.walk` guarantees; repeated paths overwriting each other in the dict are not modelled.
- `time.time()` and `datetime.now()` are left out. Time is an integer `now` per pass, read once where the source reads the clock once per file, and the creation timestamp is a string parameter. So files stamped in the same walk tie here, where in the source they get rising times in walk order: DVR_monitor's newest-first sort (DVR_monitor.py:92) then shows them in reverse walk order, while the model's stable sort keeps walk order. FileTracker2's oldest-first order is the same either way.
- The periodic drivers are left out: the DVR's `while` loop with `sleep` and FileTracker2's `root.after` rescheduling. They only call the update steps modelled here.
- JSON setup save and load, dialogs and message boxes are left out. They are file I/O and UI.
- `plan.py` is not part of this model; it holds only a docstring.
- ExtensionFilter.Lower: lower-cases ASCII letters only; Python's `str.lower` also maps other Unicode letters.
- FileMonitorOI.FileChangeHandler.OnCreated: the history entry is a record (name, size, timestamp), not the formatted text the source appends.
- FileMonitorOI.FileChangeHandler.Valid: does not claim at most one live timer per path. `on_created` on a path that is already tracked overwrites its record without cancelling the old timer, so the old timer stays pending and can still fire.
- FileMonitorOI.FileChangeHandler.InSync: holds only from an alarm with no records. A handler made for an alarm whose records are left over from an earlier handler keeps those extra records.
- FileMonitorOI.OutlineFontSize: `int(width / 20)` is float division then truncation; this is exact integer truncation, which agrees for every width short of 2^53.
- FileMonitorOI.FileChangeHandler.OnCreated: a failed size read (`NotFound` or `Unreadable`) is a no-op here. In the source, `os.path.getsize` at FileMonitorOI.py:307 is not inside a `try`, so the exception leaves `on_created` before any table, history entry, popup or timer is touched; that escape into the observer thread is not modelled.
- FileMonitorOI.FileChangeHandler.OnModified: a failed size read (`NotFound` or `Unreadable`) is a no-op here. In the source, `os.path.getsize` at FileMonitorOI.py:333 is not inside a `try`, so the exception leaves `on_modified` (releasing the lock) before anything is changed; that escape is not modelled.
- FileMonitorOI.FileChangeHandler.CheckSize: an `Unreadable` size read is a no-op here. In the source only `FileNotFoundError` is caught (FileMonitorOI.py:370); any other `OSError` ends the timer's thread, so the file stays tracked with no live timer. The model shows the same end state (nothing changes and no timer is armed) but not the thread's death.
- PrototypeMonitor.FileChangeHandler.OnCreated: a failed size read (`NotFound` or `Unreadable`) is a no-op here; in the source `os.path.getsize` at test.py:170 is not inside a `try`, and the exception leaves the handler before anything changes.
- PrototypeMonitor.FileChangeHandler.OnModified: a failed size read (`NotFound` or `Unreadable`) is a no-op here; in the source `os.path.getsize` at test.py:177 is read before the tracked check and is not inside a `try`, so the exception leaves the handler before anything changes, even for an untracked path.
- FileTracker2.Tracker2App.UpdateFilesInfo: FileTracker2's merge prints "New file detected: ..." for every new path (FileTracker2.py:109) and DVR_monitor's does not; console output is left out, so both apps share one merge here.
- Paths.Basename: splits on '/' only. On Windows, `os.path.basename` also splits on '\\' (and after a drive letter's ':'); those paths are not modelled.

## Findings

| source | as written | input that shows it | evidently intended | confidence | as-written member | corrected member |
|---|---|---|---|---|---|---|
| FileTracker2.py:121-153 | a file that already has a row reuses that row where it is; only new rows go to the end, so the display order is not the sorted order | files p and q of size 1 found at tick 0 (rows p, q); at tick 20 p has size 2, so the sorted order is q, p, but the rows stay p, q and the latest change is on top | rows in ascending order of last change, latest at the bottom, as the comment at FileTracker2.py:121 says; for example by moving each reused row to the end (`tree.move(item, "", "end")`) | medium, not executed | FileTracker2.ResizedRowStaysOnTop | FileTracker2.Tracker2App.UpdateTreeviewInOrder |

`UpdateTreeview` models the code as written, and its contract says where reused and new rows end up. `UpdateTreeviewInOrder` is the corrected pass, and `ResizedRowMovesDown` runs the same two ticks through it. No other member builds on the display order, so neither pass is used elsewhere.
