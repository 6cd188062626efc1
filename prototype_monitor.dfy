/**
 * The earlier prototype of the push-mode monitor: no timers; every "modified" event on a
 * tracked file re-reads its size and signals green when it moved and red when it did not.
 * Tracked files are never forgotten.
 */
module PrototypeMonitor {
  import opened Paths
  import opened FsEvents

  /** The parts of the application the handler writes to: file-name history and popup calls. */
  class App {
    var fileHistory: seq<string>
    var popups: seq<Popup>

    constructor ()
      ensures fileHistory == [] && popups == []
    {
      fileHistory, popups := [], [];
    }
  }

  class FileChangeHandler {
    const app: App
    var fileSizes: map<Path, nat>

    constructor (app: App)
      ensures this.app == app && fileSizes == map[]
    {
      this.app := app;
      fileSizes := map[];
    }

    /**
     * `on_created`: for a file, the observed size is stored, its name appended to the
     * history, and a green popup raised. A directory event, or a size read that raises,
     * changes nothing.
     */
    method OnCreated(event: FsEvent, read: SizeRead)
      modifies this, app
      ensures old(fileSizes).Keys <= fileSizes.Keys
      ensures if event.isDirectory || !read.Read? then
          fileSizes == old(fileSizes) && app.fileHistory == old(app.fileHistory) && app.popups == old(app.popups)
        else
          var p := event.srcPath;
          && fileSizes == old(fileSizes)[p := read.size]
          && app.fileHistory == old(app.fileHistory) + [Basename(p)]
          && app.popups == old(app.popups) + [Popup(Basename(p), true)]
    {
      if !event.isDirectory {
        var filePath := event.srcPath;
        var fileName := Basename(filePath);
        if read.Read? {
          fileSizes := fileSizes[filePath := read.size];
          app.fileHistory := app.fileHistory + [fileName];
          app.popups := app.popups + [Popup(fileName, true)];
        }
      }
    }

    /**
     * `on_modified`: the size is read first, so a read that raises changes nothing; then a
     * tracked file whose size moved gets the new size and a green popup, a tracked file
     * whose size did not move a red popup, and an untracked path nothing.
     */
    method OnModified(event: FsEvent, read: SizeRead)
      modifies this, app
      ensures fileSizes.Keys == old(fileSizes).Keys
      ensures app.fileHistory == old(app.fileHistory)
      ensures var p := event.srcPath;
        if event.isDirectory || !read.Read? || p !in old(fileSizes) then
          fileSizes == old(fileSizes) && app.popups == old(app.popups)
        else if read.size != old(fileSizes)[p] then
          fileSizes == old(fileSizes)[p := read.size] && app.popups == old(app.popups) + [Popup(Basename(p), true)]
        else
          fileSizes == old(fileSizes) && app.popups == old(app.popups) + [Popup(Basename(p), false)]
    {
      if !event.isDirectory {
        var filePath := event.srcPath;
        if read.Read? {
          var currentSize := read.size;
          if filePath in fileSizes {
            if fileSizes[filePath] != currentSize {
              fileSizes := fileSizes[filePath := currentSize];
              app.popups := app.popups + [Popup(Basename(filePath), true)];
            } else {
              app.popups := app.popups + [Popup(Basename(filePath), false)];
            }
          }
        }
      }
    }
  }
}
