# Stale-file scanner and delete reporter, modelled in Dafny

This project models the filesystem core of a desktop "file system recovery
and optimisation" tool written in Python:

- **The staleness scanner** (`FileScannerThread.run`). A first walk of a
  directory tree counts its files. A second walk visits every file again.
  For each file it computes the whole days since the last access. It keeps
  `(path, days unused, size in MB)` for every file unused for more than 180
  days. A file whose metadata cannot be read is skipped. Either way the file
  is counted, and one progress percentage is emitted per file. After the
  last file the list of kept files is emitted once.
- **The delete reporter** (`FileEventHandler.on_deleted`). For every
  deletion notification whose path is not a directory, it appends one line
  `❌ File Deleted: <path>` to an output widget. Every other notification
  kind goes to the base class's handlers, which do nothing.

Files:

- `selection.dfy` (module `Selection`): an order-preserving filter-map
  `Select(s, f)` over a sequence, the positions `Kept(s, f)` it keeps, and
  the lemmas about them. Both components are instances of it: the scanner's
  `old_files.append` loop and the handler's conditional `append`.
- `scanner.dfy` (module `Scanner`): the input snapshot (`Dir`, `FileEntry`),
  the records and signals, the specification functions, the imperative
  `Run` / `ScanFiles` methods with their loop invariants, and the lemmas.
- `watcher.dfy` (module `Watcher`): notifications, the handler class
  `FileEventHandler` whose `output` field is the widget's list of lines,
  the specification function `Reports`, and the lemmas.

How the outside world is represented:

- The tree is an input snapshot: a sequence of `Dir`s in `os.walk` order.
  Each `Dir` holds its `FileEntry`s in listing order. Each entry carries the
  path `os.path.join` gives it, its last access time and its size. `None`
  stands for a query that raises.
- Both walks read the same snapshot. `totalFiles` therefore always equals
  the number of files the second walk visits.
- `time.time()` becomes one parameter `now`, fixed for the whole scan. The
  source reads the clock again for every file.
- Times are whole seconds (`int`). The source uses floats.
- The signals `update_progress` and `scan_result` become one returned
  sequence of `Signal`s in emission order. `Run` also returns the two
  counters as they stand at the end.
- The output widget of the handler is the field `output: seq<string>`.

Behaviour of the code that the model keeps as written:

- The code reports only deletions. Creations, modifications and moves
  produce nothing, because only `on_deleted` is overridden.
- A root path that does not exist makes `os.walk` yield nothing. The code
  then emits an empty result and no progress value; it raises no error.
  In the model this is the empty tree.
- A stale file whose size cannot be read is skipped like one whose access
  time cannot be read (one `try` covers both queries).

## Model

| member | source | states |
|---|---|---|
| Scanner.Run | project.py:26-52 | The first pass's counter equals `TotalFiles(tree)`, the second pass's counter ends equal to it, and the emitted signals are exactly `ScanSignals(tree, now)`: one progress value per visited file, then `ScanResult` of the stale records of the files in visiting order |
| Scanner.ScanFiles | project.py:37-50 | The inner loop over one directory's files adds one to the counter per file, appends exactly what each file contributes to `old_files` in order, keeps what was emitted before, and appends one progress value per file, the one for counts `scannedFiles0 + 1` up to `scannedFiles` |
| Scanner.FlattenLength | project.py:32-33 | The number of files the first walk adds up equals the number of files the second walk visits |
| Scanner.TotalFilesPrefix | project.py:32-33 | The files of a leading part of the walk never exceed the total, so the second pass's counter never exceeds the first pass's total |
| Scanner.NextDirectory | project.py:36-37 | Moving to the next directory appends its files after those already visited and adds their number to the count |
| Scanner.DaysUnused | project.py:41 | Days unused is `(now - atime) // 86400` rounded down: `d * 86400 <= now - atime < (d + 1) * 86400`, also for an access time in the future |
| Scanner.SizeInMegabytes | project.py:43 | The recorded size is the size in bytes divided by 1024² rounded down |
| Scanner.StaleThreshold | project.py:41-42 | More than 180 days unused means at least 181 × 86400 seconds since the last access; a file at exactly 180 days is not reported |
| Scanner.ClassifyReports | project.py:39-46 | A file yields a record if and only if both queries succeed and its days unused exceed 180; the record holds its path, the floor of the days and the floor of the megabytes |
| Scanner.StaleRecordsStep | project.py:42-44 | Visiting one more file extends the result by exactly that file's record, or by nothing |
| Scanner.StaleRecordsInOrder | project.py:36-44 | The result lists the reported files in visiting order: each record comes from the file at a strictly increasing position, so no file appears twice, and a position is used exactly when its file is reported |
| Scanner.StaleRecordsMembership | project.py:36-44 | A record is in the result if and only if some visited file yields it |
| Scanner.ThreeAges | project.py:41-44 | Files unused for 10, 200 and 400 days give exactly the 200- and 400-day records, in that order, with sizes rounded down to whole megabytes |
| Scanner.PercentBounds | project.py:49 | The progress value is the percentage rounded down, lies in 0..100, and is 100 exactly when every file has been scanned |
| Scanner.PercentMonotone | project.py:48-49 | Scanning more files never lowers the progress value |
| Scanner.ProgressSignalsShape | project.py:48-50 | After `k` files there are exactly `k` progress values, value `n` is the percentage after `n + 1` files, all lie in 0..100, they never decrease, and the last is 100 when all files are scanned |
| Scanner.ScanSignalsShape | project.py:48-52 | The scan emits one progress value per counted file and then the result, exactly once and last; with no files it emits no progress value and an empty result |
| Selection.Keep | project.py:44 | A single step appends at most one element, and nothing exactly when the file yields no record |
| Selection.SelectAppend | project.py:36-44 | Filtering a concatenation gives the filtered parts in turn, so the walk may be split at any directory boundary |
| Selection.SelectLength | project.py:36-44 | The result never has more entries than there are visited files |
| Selection.KeptMatchesSelect | project.py:36-44 | The kept positions are strictly increasing positions of the input, and entry `m` of the result is what the element at the `m`-th kept position yields |
| Selection.KeptExactly | project.py:42-44 | A position is kept if and only if its element yields a value |
| Selection.SelectMembership | project.py:36-44 | A value is in the result if and only if some element of the input yields it |
| Watcher.FileEventHandler.constructor | project.py:56-58 | The handler starts with the widget's existing lines |
| Watcher.FileEventHandler.OnDeleted | project.py:60-62 | The widget gains the line `❌ File Deleted: <path>` for a path that is not a directory and nothing for a directory |
| Watcher.FileEventHandler.Dispatch | project.py:55-62 | Delivering one notification appends exactly its report: the deletion line for a non-directory deletion, nothing for any other notification |
| Watcher.ReportsSingle | project.py:60-62 | One notification is reported as the per-event filter says |
| Watcher.ReportsAppend | project.py:60-62 | Delivering two runs of notifications one after the other appends their reports in the same order |
| Watcher.ReportedPathOfLine | project.py:62 | A deletion line gives back exactly the path it was made from |
| Watcher.ReportsInOrder | project.py:55-62 | The lines report, in arrival order and once each, exactly the deletions of non-directories, each line naming its event's path |
| Watcher.ReportsCount | project.py:60-62 | The number of lines equals the number of deletion notifications whose path is not a directory |
| Watcher.CreateThenDelete | project.py:55-62 | A file created and then deleted yields one line, for the deletion; a directory created and deleted yields none |

## Left out

- Scanner.Run: does not model the two walks seeing different trees. The source walks the filesystem twice; if files appear or vanish in between, the counter can pass the total (progress above 100) or the total can be 0 while the second walk divides by it. Here both walks read one snapshot.
- Scanner.Run: takes one clock reading `now` for the whole scan, where the source reads `time.time()` once per file.
- Scanner.PercentBounds: the progress value is `(100 * scanned) / total` on integers. The source computes `int((scanned / total) * 100)` in floating point, which can be one lower (for 29 of 100 files the float expression gives 28).
- Scanner.DaysUnused: times are whole seconds, and days unused is an integer; in the source both are floats (`200.0`).
- The `print` of each per-file error is left out: it is console output.
- How the tree is walked (`os.walk`, link following, the order the OS lists entries in) is left out: the snapshot fixes the order.
- `QThread`, `pyqtSignal` and starting the scanner thread are left out: they are concurrency plumbing. The signals are the returned sequence.
- `closeEvent`'s stop and join of the observer and its `quit()` request to the scanner thread are left out: concurrency plumbing. The source never waits for the scanner thread, and `quit()` does not stop a `run()` that has no event loop.
- The watchdog `Observer` that delivers notifications (`monitor_files`) is left out: it is an OS subscription. The model takes the notifications as given and states, with `ReportsAppend`, what successive `Dispatch` calls add up to.
- `recover_deleted_files` is left out: it is a thin loop over a Windows shell object. How the Windows shell lists the recycle bin, and how `shutil.move` behaves when the destination already exists, lie outside the model.
- `optimize_storage`, `load_drives` and `update_system_info` are left out: a single shell command and `psutil` queries.
- The Qt user interface (`initUI`, `display_drive_files`, `display_scan_results`, `select_folder`, `clear_output`) is left out: it is presentation only.
