/** What the push-mode handlers receive from the file system and what they send to the display. */
module FsEvents {
  import opened Paths

  /** A watchdog event as the handlers use it: its `src_path` and `is_directory`. */
  datatype FsEvent = FsEvent(srcPath: Path, isDirectory: bool)

  /** The outcome of one `os.path.getsize` call. */
  datatype SizeRead =
    | Read(size: nat)   // the call returned a byte count
    | NotFound          // it raised FileNotFoundError
    | Unreadable        // it raised another OSError (permission denied, I/O failure)

  /** One call of the alarm popup: the file name shown and whether the file is still changing (green) or settled (red). */
  datatype Popup = Popup(fileName: string, changing: bool)
}
