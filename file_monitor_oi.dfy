/**
 * The push-mode monitor: a handler per watched folder receives "created" and "modified"
 * events, keeps the observed size of each file in two parallel tables (its own
 * `file_sizes` and the alarm's `files` records), and arms a five-second timer per file
 * whose callback `check_size` either declares the file settled (red popup, file dropped)
 * or, if the size moved, records it and re-arms.
 *
 * Timers are handles 0, 1, 2, ... in order of creation; `timers[t]` is the path timer `t`
 * was created for; a handle is pending until it is cancelled or fires.
 */
module FileMonitorOI {
  import opened Wrappers
  import opened Paths
  import opened FsEvents

  type TimerId = nat

  /** One line of the app's file history: name, size and the creation timestamp text. */
  datatype HistoryEntry = HistoryEntry(fileName: string, size: nat, timestamp: string)

  /** `alarm["files"][path]`: `{"name", "size", "timer"}`. */
  datatype AlarmFile = AlarmFile(name: string, size: nat, timer: Option<TimerId>)

  /** The width after a right-button drag: the dragged width, but never below 100 pixels. */
  function ResizedWidth(startWidth: int, deltaX: int): (w: int)
    ensures w >= 100
    ensures startWidth + deltaX >= 100 ==> w == startWidth + deltaX
    ensures startWidth + deltaX < 100 ==> w == 100
  {
    if 100 >= startWidth + deltaX then 100 else startWidth + deltaX
  }

  /** The height after a right-button drag: the dragged height, but never below 50 pixels. */
  function ResizedHeight(startHeight: int, deltaY: int): (h: int)
    ensures h >= 50
    ensures startHeight + deltaY >= 50 ==> h == startHeight + deltaY
    ensures startHeight + deltaY < 50 ==> h == 50
  {
    if 50 >= startHeight + deltaY then 50 else startHeight + deltaY
  }

  /** Python's `int(a / b)` for a positive `b`: the quotient truncated toward zero. */
  function TruncatedQuotient(a: int, b: int): int
    requires b > 0
  {
    if a >= 0 then a / b else -((-a) / b)
  }

  /** The outline text's font size: one twentieth of the canvas width, rounded down, and at least 10. */
  function OutlineFontSize(canvasWidth: int): (size: int)
    ensures size >= 10
    ensures canvasWidth >= 200 ==> 20 * size <= canvasWidth < 20 * size + 20
    ensures canvasWidth < 200 ==> size == 10
  {
    var scaled := TruncatedQuotient(canvasWidth, 20);
    if scaled >= 10 then scaled else 10
  }

  /**
   * Every path in `sizes` has a record in `files` with the same size and a timer created
   * for that path.
   */
  ghost predicate Tracked(sizes: map<Path, nat>, files: map<Path, AlarmFile>, timers: seq<Path>)
  {
    forall p :: p in sizes ==>
      && p in files
      && files[p].size == sizes[p]
      && files[p].timer.Some?
      && files[p].timer.value < |timers|
      && timers[files[p].timer.value] == p
  }

  /**
   * Recording size `n` for `p` in both tables, in a record named `name`, and arming a fresh
   * timer for it keeps `Tracked`.
   */
  lemma TrackedArm(sizes: map<Path, nat>, files: map<Path, AlarmFile>, timers: seq<Path>, p: Path, name: string, n: nat)
    requires Tracked(sizes, files, timers)
    ensures Tracked(sizes[p := n], files[p := AlarmFile(name, n, Some(|timers|))], timers + [p])
  {
    var timers' := timers + [p];
    forall q | q in sizes && q != p
      ensures timers'[files[q].timer.value] == q
    {
      assert timers'[files[q].timer.value] == timers[files[q].timer.value];
    }
  }

  /** Dropping `p` from both tables keeps `Tracked`. */
  lemma TrackedDrop(sizes: map<Path, nat>, files: map<Path, AlarmFile>, timers: seq<Path>, p: Path)
    requires Tracked(sizes, files, timers)
    ensures Tracked(sizes - {p}, files - {p}, timers)
  {
  }

  /** The two operations above keep the tables' key sets equal. */
  lemma InSyncSteps(sizes: map<Path, nat>, files: map<Path, AlarmFile>, p: Path, n: nat, f: AlarmFile)
    requires sizes.Keys == files.Keys
    ensures sizes[p := n].Keys == files[p := f].Keys
    ensures (sizes - {p}).Keys == (files - {p}).Keys
  {
  }

  /** The parts of the application the handler writes to: the file history and the popup calls. */
  class App {
    var fileHistory: seq<HistoryEntry>
    var popups: seq<Popup>

    constructor ()
      ensures fileHistory == [] && popups == []
    {
      fileHistory, popups := [], [];
    }
  }

  /** One configured folder alarm; only its `files` records belong to the model. */
  class Alarm {
    var files: map<Path, AlarmFile>

    constructor ()
      ensures files == map[]
    {
      files := map[];
    }
  }

  class FileChangeHandler {
    const app: App
    const alarm: Alarm
    var fileSizes: map<Path, nat>
    var timers: seq<Path>
    var cancelled: set<TimerId>
    var fired: set<TimerId>

    /** Every handle that was cancelled or fired was issued. */
    ghost predicate HandlesIssued()
      reads this
    {
      (forall t :: t in cancelled ==> t < |timers|) && (forall t :: t in fired ==> t < |timers|)
    }

    /** The handler's tables, as values, satisfy `Tracked`. */
    ghost predicate Valid()
      reads this, alarm
    {
      HandlesIssued() && Tracked(fileSizes, alarm.files, timers)
    }

    /** The two tables track the same paths (true when the alarm's records start empty). */
    ghost predicate InSync()
      reads this, alarm
    {
      fileSizes.Keys == alarm.files.Keys
    }

    /** Timer `t` was started and has neither been cancelled nor fired. */
    predicate Pending(t: TimerId)
      reads this
    {
      t < |timers| && t !in cancelled && t !in fired
    }

    constructor (app: App, alarm: Alarm)
      ensures this.app == app && this.alarm == alarm
      ensures fileSizes == map[] && timers == [] && cancelled == {} && fired == {}
      ensures Valid()
      ensures InSync() <==> alarm.files == map[]
    {
      this.app, this.alarm := app, alarm;
      fileSizes, timers, cancelled, fired := map[], [], {}, {};
    }

    /**
     * `on_created`: for a file, the size is stored in both tables (the record without a
     * timer), one history entry and a green popup are recorded, and a fresh timer is armed.
     * A directory event, or a size read that raises, changes nothing.
     */
    method OnCreated(event: FsEvent, read: SizeRead, timestamp: string)
      requires Valid()
      modifies this, alarm, app
      ensures Valid()
      ensures old(InSync()) ==> InSync()
      ensures cancelled == old(cancelled) && fired == old(fired)
      ensures if event.isDirectory || !read.Read? then
          && fileSizes == old(fileSizes) && alarm.files == old(alarm.files) && timers == old(timers)
          && app.fileHistory == old(app.fileHistory) && app.popups == old(app.popups)
        else
          var p, n := event.srcPath, read.size;
          && fileSizes == old(fileSizes)[p := n]
          && alarm.files == old(alarm.files)[p := AlarmFile(Basename(p), n, Some(|old(timers)|))]
          && timers == old(timers) + [p]
          && Pending(|old(timers)|)
          && app.fileHistory == old(app.fileHistory) + [HistoryEntry(Basename(p), n, timestamp)]
          && app.popups == old(app.popups) + [Popup(Basename(p), true)]
    {
      if !event.isDirectory {
        var filePath := event.srcPath;
        var fileName := Basename(filePath);
        if read.Read? {
          var fileSize := read.size;
          RecordNew(filePath, fileName, fileSize);
          app.fileHistory := app.fileHistory + [HistoryEntry(fileName, fileSize, timestamp)];
          app.popups := app.popups + [Popup(fileName, true)];
          StartSizeCheck(filePath);
        }
      }
    }

    /**
     * The locked block of `on_created`: the size in both tables, the record without a timer;
     * arming a timer for the path afterwards restores the invariant.
     */
    method RecordNew(filePath: Path, fileName: string, size: nat)
      requires Valid()
      modifies this, alarm
      ensures HandlesIssued()
      ensures Tracked(fileSizes, alarm.files[filePath := AlarmFile(fileName, size, Some(|timers|))], timers + [filePath])
      ensures old(InSync()) ==> InSync()
      ensures fileSizes == old(fileSizes)[filePath := size]
      ensures alarm.files == old(alarm.files)[filePath := AlarmFile(fileName, size, None)]
      ensures timers == old(timers) && cancelled == old(cancelled) && fired == old(fired)
    {
      TrackedArm(fileSizes, alarm.files, timers, filePath, fileName, size);
      if InSync() {
        InSyncSteps(fileSizes, alarm.files, filePath, size, AlarmFile(fileName, size, None));
      }
      fileSizes := fileSizes[filePath := size];
      alarm.files := alarm.files[filePath := AlarmFile(fileName, fileSizes[filePath], None)];
    }

    /**
     * `on_modified`: a tracked file whose size moved gets the new size in both tables, its
     * pending timer cancelled, a fresh timer and a green popup. An untracked path, an
     * unchanged size, a directory or a size read that raises changes nothing.
     */
    method OnModified(event: FsEvent, read: SizeRead)
      requires Valid()
      modifies this, alarm, app
      ensures Valid()
      ensures old(InSync()) ==> InSync()
      ensures app.fileHistory == old(app.fileHistory) && fired == old(fired)
      ensures var p := event.srcPath;
        if !event.isDirectory && p in old(fileSizes) && read.Read? && read.size != old(fileSizes)[p] then
          && fileSizes == old(fileSizes)[p := read.size]
          && alarm.files == old(alarm.files)[p := old(alarm.files)[p].(size := read.size, timer := Some(|old(timers)|))]
          && cancelled == old(cancelled) + {old(alarm.files)[p].timer.value}
          && !Pending(old(alarm.files)[p].timer.value)
          && timers == old(timers) + [p]
          && Pending(|old(timers)|)
          && app.popups == old(app.popups) + [Popup(Basename(p), true)]
        else
          && fileSizes == old(fileSizes) && alarm.files == old(alarm.files) && timers == old(timers)
          && cancelled == old(cancelled) && app.popups == old(app.popups)
    {
      if !event.isDirectory {
        var filePath := event.srcPath;
        if filePath in fileSizes && read.Read? {
          var currentSize := read.size;
          var previousSize := fileSizes[filePath];
          if currentSize != previousSize {
            var fileName := Basename(filePath);
            RecordSize(filePath, currentSize);
            var timer := alarm.files[filePath].timer;
            if timer.Some? {
              cancelled := cancelled + {timer.value};
            }
            Rearm(filePath);
            app.popups := app.popups + [Popup(fileName, true)];
          }
        }
      }
    }

    /** The new size of a tracked file, written to both tables. */
    method RecordSize(filePath: Path, size: nat)
      requires Valid() && filePath in fileSizes
      modifies this, alarm
      ensures Valid()
      ensures old(InSync()) ==> InSync()
      ensures fileSizes == old(fileSizes)[filePath := size]
      ensures alarm.files == old(alarm.files)[filePath := old(alarm.files)[filePath].(size := size)]
      ensures timers == old(timers) && cancelled == old(cancelled) && fired == old(fired)
    {
      if InSync() {
        InSyncSteps(fileSizes, alarm.files, filePath, size, alarm.files[filePath].(size := size));
      }
      fileSizes := fileSizes[filePath := size];
      alarm.files := alarm.files[filePath := alarm.files[filePath].(size := size)];
    }

    /** `start_size_check` for a file that is already tracked. */
    method Rearm(filePath: Path)
      requires HandlesIssued() && Tracked(fileSizes, alarm.files, timers) && filePath in fileSizes
      modifies this, alarm
      ensures Valid()
      ensures old(InSync()) ==> InSync()
      ensures timers == old(timers) + [filePath] && Pending(|old(timers)|)
      ensures alarm.files == old(alarm.files)[filePath := old(alarm.files)[filePath].(timer := Some(|old(timers)|))]
      ensures fileSizes == old(fileSizes) && cancelled == old(cancelled) && fired == old(fired)
    {
      var record := alarm.files[filePath];
      TrackedArm(fileSizes, alarm.files, timers, filePath, record.name, record.size);
      assert fileSizes[filePath := record.size] == fileSizes;
      StartSizeCheck(filePath);
    }

    /** `start_size_check`: a new five-second timer for `filePath`, stored in its record. */
    method StartSizeCheck(filePath: Path)
      requires HandlesIssued() && filePath in alarm.files
      modifies this, alarm
      ensures HandlesIssued()
      ensures timers == old(timers) + [filePath] && Pending(|old(timers)|)
      ensures alarm.files == old(alarm.files)[filePath := old(alarm.files)[filePath].(timer := Some(|old(timers)|))]
      ensures fileSizes == old(fileSizes) && cancelled == old(cancelled) && fired == old(fired)
    {
      var timer := |timers|;
      timers := timers + [filePath];
      alarm.files := alarm.files[filePath := alarm.files[filePath].(timer := Some(timer))];
    }

    /**
     * `check_size`, the timer callback: for a tracked file whose size is unchanged, or that
     * no longer exists, a red popup is shown and the file leaves both tables; a size that
     * moved is recorded in both tables and a fresh timer armed. An untracked path changes
     * nothing, and neither does a size read failing with another error, which escapes the
     * callback.
     */
    method CheckSize(filePath: Path, read: SizeRead)
      requires Valid()
      modifies this, alarm, app
      ensures Valid()
      ensures old(InSync()) ==> InSync()
      ensures app.fileHistory == old(app.fileHistory) && cancelled == old(cancelled) && fired == old(fired)
      ensures filePath !in old(fileSizes) || read.Unreadable? ==>
          && fileSizes == old(fileSizes) && alarm.files == old(alarm.files) && timers == old(timers)
          && app.popups == old(app.popups)
      ensures filePath in old(fileSizes) && (read.NotFound? || (read.Read? && read.size == old(fileSizes)[filePath])) ==>
          && fileSizes == old(fileSizes) - {filePath}
          && alarm.files == old(alarm.files) - {filePath}
          && timers == old(timers)
          && app.popups == old(app.popups) + [Popup(Basename(filePath), false)]
      ensures filePath in old(fileSizes) && read.Read? && read.size != old(fileSizes)[filePath] ==>
          && fileSizes == old(fileSizes)[filePath := read.size]
          && alarm.files == old(alarm.files)[filePath := old(alarm.files)[filePath].(size := read.size, timer := Some(|old(timers)|))]
          && timers == old(timers) + [filePath]
          && Pending(|old(timers)|)
          && app.popups == old(app.popups)
    {
      if filePath in fileSizes {
        match read
        case Read(currentSize) =>
          var previousSize := fileSizes[filePath];
          if currentSize == previousSize {
            Settle(filePath);
          } else {
            RecordSize(filePath, currentSize);
            Rearm(filePath);
          }
        case NotFound =>
          Settle(filePath);
        case Unreadable =>
      }
    }

    /** A file that stopped growing, or vanished: a red popup, and it leaves both tables. */
    method Settle(filePath: Path)
      requires Valid()
      modifies this, alarm, app
      ensures Valid()
      ensures old(InSync()) ==> InSync()
      ensures fileSizes == old(fileSizes) - {filePath}
      ensures alarm.files == old(alarm.files) - {filePath}
      ensures app.popups == old(app.popups) + [Popup(Basename(filePath), false)]
      ensures app.fileHistory == old(app.fileHistory)
      ensures timers == old(timers) && cancelled == old(cancelled) && fired == old(fired)
    {
      var fileName := Basename(filePath);
      TrackedDrop(fileSizes, alarm.files, timers, filePath);
      if InSync() {
        InSyncSteps(fileSizes, alarm.files, filePath, 0, AlarmFile(fileName, 0, None));
      }
      app.popups := app.popups + [Popup(fileName, false)];
      fileSizes := fileSizes - {filePath};
      alarm.files := alarm.files - {filePath};
    }

    /**
     * A timer running out: a pending timer is marked fired and calls `check_size` for its
     * path; a cancelled or already fired timer does nothing.
     */
    method Fire(t: TimerId, read: SizeRead)
      requires Valid()
      modifies this, alarm, app
      ensures Valid()
      ensures old(InSync()) ==> InSync()
      ensures !Pending(t) && cancelled == old(cancelled) && app.fileHistory == old(app.fileHistory)
      ensures !old(Pending(t)) ==>
          && fileSizes == old(fileSizes) && alarm.files == old(alarm.files) && timers == old(timers)
          && fired == old(fired) && app.popups == old(app.popups)
      ensures old(Pending(t)) ==> fired == old(fired) + {t}
      ensures old(Pending(t)) ==> var p := old(timers)[t];
        if p !in old(fileSizes) || read.Unreadable? then
          && fileSizes == old(fileSizes) && alarm.files == old(alarm.files) && timers == old(timers)
          && app.popups == old(app.popups)
        else if read.NotFound? || read.size == old(fileSizes)[p] then
          && fileSizes == old(fileSizes) - {p} && alarm.files == old(alarm.files) - {p}
          && timers == old(timers) && app.popups == old(app.popups) + [Popup(Basename(p), false)]
        else
          && fileSizes == old(fileSizes)[p := read.size]
          && alarm.files == old(alarm.files)[p := old(alarm.files)[p].(size := read.size, timer := Some(|old(timers)|))]
          && timers == old(timers) + [p] && Pending(|old(timers)|) && app.popups == old(app.popups)
    {
      if t < |timers| && t !in cancelled && t !in fired {
        fired := fired + {t};
        CheckSize(timers[t], read);
      }
    }
  }

  /**
   * A recording that appears empty and grows once: the growth cancels the first timer and
   * arms a second, with two green popups so far.
   */
  method GrowthCancelsFirstTimer(path: Path, timestamp: string)
    returns (handler: FileChangeHandler)
    ensures fresh(handler) && fresh(handler.app) && fresh(handler.alarm)
    ensures handler.Valid() && handler.InSync()
    ensures handler.fileSizes == map[path := 1000] && handler.timers == [path, path]
    ensures !handler.Pending(0) && handler.Pending(1)
    ensures handler.app.popups == [Popup(Basename(path), true), Popup(Basename(path), true)]
    ensures handler.app.fileHistory == [HistoryEntry(Basename(path), 0, timestamp)]
  {
    var app := new App();
    var alarm := new Alarm();
    handler := new FileChangeHandler(app, alarm);
    handler.OnCreated(FsEvent(path, false), Read(0), timestamp);
    handler.OnModified(FsEvent(path, false), Read(1000));
  }

  /**
   * Continuing from there: the cancelled first timer fires to no effect, and the second,
   * finding the size settled, drops the file with a red popup.
   */
  method LiveTimerSettlesRecording(path: Path, timestamp: string) returns (handler: FileChangeHandler)
    ensures handler.Valid() && handler.InSync()
    ensures handler.fileSizes == map[] && handler.alarm.files == map[]
    ensures !handler.Pending(0) && !handler.Pending(1)
    ensures handler.app.popups == [Popup(Basename(path), true), Popup(Basename(path), true), Popup(Basename(path), false)]
  {
    handler := GrowthCancelsFirstTimer(path, timestamp);
    handler.Fire(0, Read(1000));
    assert handler.fileSizes == map[path := 1000] && handler.Pending(1);
    handler.Fire(1, Read(1000));
  }
}
