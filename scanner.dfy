/** The staleness scanner `FileScannerThread.run`: a first pass counts the
    files of a directory tree, a second pass visits them again in the same
    order, keeps the ones last accessed more than 180 days ago, and emits one
    progress percentage per file followed by the list of kept files.

    The tree is an input snapshot (what `os.walk` yields, with the metadata
    the scan queries already attached) and both passes read the same one.
    The signals `update_progress` and `scan_result` become the returned
    sequence of `Signal`s, in emission order. */
module Scanner {
  import opened Selection

  /** `24 * 3600`: the divisor that turns seconds into whole days. */
  const SecondsPerDay: int := 24 * 3600

  /** `1024 ** 2`: the divisor that turns bytes into whole megabytes. */
  const BytesPerMegabyte: int := 1024 * 1024

  /** A file is reported when its days unused are strictly above this. */
  const StaleDays: int := 180

  /** One file of the tree: its joined path, its last access time in whole
      seconds and its size in bytes; `None` means the query raises. */
  datatype FileEntry = FileEntry(path: string, lastAccess: Option<int>, size: Option<nat>)

  /** One step of the walk: the files directly inside one directory, each
      with the path `os.path.join(root, file)` gives it. */
  datatype Dir = Dir(files: seq<FileEntry>)

  /** One element of `old_files`: `(file_path, days_unused, size)`. */
  datatype Record = Record(path: string, daysUnused: int, sizeMB: nat)

  /** What the scanner emits: a progress value or the final result list. */
  datatype Signal = UpdateProgress(percent: nat) | ScanResult(oldFiles: seq<Record>)

  /** Whole days since the last access, rounded down (also for an access
      time in the future, where it is negative). */
  function DaysUnused(now: int, lastAccess: int): (d: int)
    ensures d * SecondsPerDay <= now - lastAccess < (d + 1) * SecondsPerDay
  {
    (now - lastAccess) / SecondsPerDay
  }

  /** Whole megabytes, rounded down. */
  function SizeInMegabytes(bytes: nat): (mb: nat)
    ensures mb * BytesPerMegabyte <= bytes < (mb + 1) * BytesPerMegabyte
  {
    bytes / BytesPerMegabyte
  }

  /** What the body of the inner loop appends for one file: nothing when the
      access time cannot be read, nothing when the file is not stale, nothing
      when a stale file's size cannot be read, and the record otherwise. */
  function Classify(e: FileEntry, now: int): Option<Record>
  {
    match e.lastAccess
    case None => None
    case Some(t) =>
      var days := DaysUnused(now, t);
      if days > StaleDays then
        match e.size
        case None => None
        case Some(bytes) => Some(Record(e.path, days, SizeInMegabytes(bytes)))
      else None
  }

  /** The list the second pass builds from the files it visits, in order. */
  function StaleRecords(files: seq<FileEntry>, now: int): seq<Record>
  {
    Select(files, (e: FileEntry) => Classify(e, now))
  }

  /** The files of the tree in the order the second pass visits them. */
  function Flatten(tree: seq<Dir>): seq<FileEntry>
  {
    if tree == [] then [] else Flatten(tree[..|tree| - 1]) + tree[|tree| - 1].files
  }

  /** What the first pass adds up: the number of files per directory. */
  function TotalFiles(tree: seq<Dir>): nat
  {
    if tree == [] then 0 else TotalFiles(tree[..|tree| - 1]) + |tree[|tree| - 1].files|
  }

  /** The progress percentage after `scanned` of `total` files, rounded down. */
  function Percent(scanned: nat, total: nat): nat
    requires 0 < total && scanned <= total
  {
    (100 * scanned) / total
  }

  /** The progress values emitted after each of the first `k` of `total` files. */
  function ProgressSignals(k: nat, total: nat): seq<Signal>
    requires k <= total
  {
    if k == 0 then [] else ProgressSignals(k - 1, total) + [UpdateProgress(Percent(k, total))]
  }

  /** Everything the scan emits: one progress value per file, then the result. */
  function ScanSignals(tree: seq<Dir>, now: int): seq<Signal>
  {
    ProgressSignals(TotalFiles(tree), TotalFiles(tree)) + [ScanResult(StaleRecords(Flatten(tree), now))]
  }

  /** A file is reported when both of its queries succeed and it has gone
      unused for more than `StaleDays` whole days. */
  predicate IsReported(e: FileEntry, now: int)
  {
    e.lastAccess.Some? && e.size.Some? && DaysUnused(now, e.lastAccess.value) > StaleDays
  }

  /** The positions, in the visiting order, of the files the scan reports. */
  function StaleIndices(files: seq<FileEntry>, now: int): seq<nat>
  {
    Kept(files, (e: FileEntry) => Classify(e, now))
  }

  /** `FileScannerThread.run` on a snapshot `tree` and a clock reading `now`.
      Besides the signals it returns the two counters as they stand at the end. */
  method Run(tree: seq<Dir>, now: int) returns (emitted: seq<Signal>, totalFiles: nat, scannedFiles: nat)
    ensures totalFiles == TotalFiles(tree)
    ensures scannedFiles == totalFiles
    ensures emitted == ScanSignals(tree, now)
  {
    var oldFiles: seq<Record> := [];
    totalFiles := 0;
    scannedFiles := 0;
    emitted := [];

    // Count total files for progress calculation
    var i := 0;
    while i < |tree|
      invariant 0 <= i <= |tree|
      invariant totalFiles == TotalFiles(tree[..i])
    {
      assert tree[..i + 1][..i] == tree[..i];
      totalFiles := totalFiles + |tree[i].files|;
      i := i + 1;
    }
    assert tree[..|tree|] == tree;


    // Scan files
    i := 0;
    while i < |tree|
      invariant 0 <= i <= |tree|
      invariant scannedFiles == TotalFiles(tree[..i]) <= totalFiles
      invariant oldFiles == StaleRecords(Flatten(tree[..i]), now)
      invariant emitted == ProgressSignals(scannedFiles, totalFiles)
    {
      NextDirectory(tree, i);
      SelectAppend(Flatten(tree[..i]), tree[i].files, (e: FileEntry) => Classify(e, now));
      oldFiles, emitted, scannedFiles := ScanFiles(tree[i].files, now, totalFiles, oldFiles, emitted, scannedFiles);
      i := i + 1;
    }
    assert tree[..|tree|] == tree;
    emitted := emitted + [ScanResult(oldFiles)];
  }

  /** The inner loop of the second pass, over the files of one directory:
      it appends what each file contributes to `old_files`, counts each file
      and emits one progress value per file. */
  method ScanFiles(files: seq<FileEntry>, now: int, totalFiles: nat,
                   oldFiles0: seq<Record>, emitted0: seq<Signal>, scannedFiles0: nat)
    returns (oldFiles: seq<Record>, emitted: seq<Signal>, scannedFiles: nat)
    requires scannedFiles0 + |files| <= totalFiles
    requires emitted0 == ProgressSignals(scannedFiles0, totalFiles)
    ensures scannedFiles == scannedFiles0 + |files|
    ensures oldFiles == oldFiles0 + StaleRecords(files, now)
    ensures emitted == ProgressSignals(scannedFiles, totalFiles)
    ensures |emitted| == |emitted0| + |files| && emitted[..|emitted0|] == emitted0
    ensures forall m :: |emitted0| <= m < |emitted| ==>
      emitted[m] == UpdateProgress(Percent(scannedFiles0 + (m - |emitted0|) + 1, totalFiles))
  {
    oldFiles, emitted, scannedFiles := oldFiles0, emitted0, scannedFiles0;
    var j := 0;
    while j < |files|
      invariant 0 <= j <= |files|
      invariant scannedFiles == scannedFiles0 + j
      invariant oldFiles == oldFiles0 + StaleRecords(files[..j], now)
      invariant emitted == ProgressSignals(scannedFiles, totalFiles)
    {
      var file := files[j];
      StaleRecordsStep(files, j, now);
      match file.lastAccess {
        case None =>
          // the access time cannot be read: the file is skipped
        case Some(lastAccessTime) =>
          var daysUnused := DaysUnused(now, lastAccessTime);
          if daysUnused > StaleDays {
            match file.size {
              case None =>
                // the size cannot be read: the file is skipped
              case Some(bytes) =>
                oldFiles := oldFiles + [Record(file.path, daysUnused, SizeInMegabytes(bytes))];
            }
          }
      }

      scannedFiles := scannedFiles + 1;
      var progress := Percent(scannedFiles, totalFiles);
      emitted := emitted + [UpdateProgress(progress)];
      j := j + 1;
    }
    assert files[..|files|] == files;
    ProgressSignalsShape(scannedFiles0, totalFiles);
    ProgressSignalsShape(scannedFiles, totalFiles);
  }

  /** Visiting file `j` of a directory extends the list by what that file
      contributes. */
  lemma StaleRecordsStep(files: seq<FileEntry>, j: nat, now: int)
    requires j < |files|
    ensures StaleRecords(files[..j + 1], now) == StaleRecords(files[..j], now) + Keep(Classify(files[j], now))
  {
    assert files[..j + 1][..j] == files[..j];
  }

  /** Moving the walk on to directory `i`: its files follow those already
      visited, and the count of those files stays within the total. */
  lemma NextDirectory(tree: seq<Dir>, i: nat)
    requires i < |tree|
    ensures Flatten(tree[..i + 1]) == Flatten(tree[..i]) + tree[i].files
    ensures TotalFiles(tree[..i + 1]) == TotalFiles(tree[..i]) + |tree[i].files| <= TotalFiles(tree)
  {
    assert tree[..i + 1][..i] == tree[..i];
    TotalFilesPrefix(tree, i + 1);
  }

  /** The first pass counts exactly the files the second pass visits. */
  lemma {:induction false} FlattenLength(tree: seq<Dir>)
    ensures |Flatten(tree)| == TotalFiles(tree)
    decreases |tree|
  {
    if tree != [] {
      FlattenLength(tree[..|tree| - 1]);
    }
  }

  /** A leading part of the tree holds no more files than the whole tree. */
  lemma {:induction false} TotalFilesPrefix(tree: seq<Dir>, i: nat)
    requires i <= |tree|
    ensures TotalFiles(tree[..i]) <= TotalFiles(tree)
    decreases |tree|
  {
    if i < |tree| {
      assert tree[..|tree| - 1][..i] == tree[..i];
      TotalFilesPrefix(tree[..|tree| - 1], i);
    } else {
      assert tree[..i] == tree;
    }
  }

  /** Integer division by a positive number rounds down. */
  lemma DivFloor(a: int, t: int)
    requires 0 < t
    ensures (a / t) * t <= a < (a / t + 1) * t
  {
  }

  /** Multiplying by a positive number preserves strict order. */
  lemma MulCancel(a: int, b: int, t: int)
    requires 0 < t && a * t < b * t
    ensures a < b
  {
  }

  /** The progress value is the percentage rounded down: at most 100, and
      100 exactly when every file has been scanned. */
  lemma PercentBounds(scanned: nat, total: nat)
    requires 0 < total && scanned <= total
    ensures Percent(scanned, total) * total <= 100 * scanned < (Percent(scanned, total) + 1) * total
    ensures Percent(scanned, total) <= 100
    ensures Percent(scanned, total) == 100 <==> scanned == total
  {
    var p := Percent(scanned, total);
    DivFloor(100 * scanned, total);
    assert p * total <= 100 * scanned < (p + 1) * total;
    assert 100 * scanned <= 100 * total;
    MulCancel(p, 101, total);
    if p == 100 {
      assert 100 * total <= 100 * scanned;
    }
    if scanned == total {
      MulCancel(100, p + 1, total);
    }
  }

  /** Scanning more files never lowers the progress value. */
  lemma PercentMonotone(s1: nat, s2: nat, total: nat)
    requires 0 < total && s1 <= s2 <= total
    ensures Percent(s1, total) <= Percent(s2, total)
  {
    PercentBounds(s1, total);
    PercentBounds(s2, total);
    MulCancel(Percent(s1, total), Percent(s2, total) + 1, total);
  }

  /** The progress values after the first `k` files: one per file, each a
      percentage between 0 and 100, never decreasing, and 100 at the end of
      the scan. */
  lemma {:induction false} ProgressSignalsShape(k: nat, total: nat)
    requires k <= total
    ensures |ProgressSignals(k, total)| == k
    ensures forall n :: 0 <= n < k ==>
      ProgressSignals(k, total)[n] == UpdateProgress(Percent(n + 1, total))
      && ProgressSignals(k, total)[n].percent <= 100
    ensures forall m, n :: 0 <= m <= n < k ==>
      ProgressSignals(k, total)[m].percent <= ProgressSignals(k, total)[n].percent
    ensures 0 < k == total ==> ProgressSignals(k, total)[k - 1] == UpdateProgress(100)
  {
    if k > 0 {
      ProgressSignalsShape(k - 1, total);
      var ps := ProgressSignals(k, total);
      PercentBounds(k, total);
      forall n | 0 <= n < k
        ensures ps[n] == UpdateProgress(Percent(n + 1, total)) && ps[n].percent <= 100
      {
        PercentBounds(n + 1, total);
      }
      forall m, n | 0 <= m <= n < k
        ensures ps[m].percent <= ps[n].percent
      {
        PercentMonotone(m + 1, n + 1, total);
      }
    }
  }

  /** What the scan emits: one progress value per file the first pass
      counted, none of them the result; then the result list, exactly once
      and last. With no files there is no progress value and the result is
      empty. */
  lemma ScanSignalsShape(tree: seq<Dir>, now: int)
    ensures |ScanSignals(tree, now)| == TotalFiles(tree) + 1
    ensures forall n :: 0 <= n < TotalFiles(tree) ==> ScanSignals(tree, now)[n].UpdateProgress?
    ensures ScanSignals(tree, now)[TotalFiles(tree)] == ScanResult(StaleRecords(Flatten(tree), now))
    ensures TotalFiles(tree) == 0 ==> ScanSignals(tree, now) == [ScanResult([])]
  {
    var total := TotalFiles(tree);
    ProgressSignalsShape(total, total);
    if total == 0 {
      FlattenLength(tree);
      assert Flatten(tree) == [];
    }
  }

  /** Days unused above 180 means at least 181 whole days, counted in
      seconds: a file unused for exactly 180 days and some seconds is not
      reported. */
  lemma StaleThreshold(now: int, lastAccess: int)
    ensures DaysUnused(now, lastAccess) > StaleDays <==> now - lastAccess >= (StaleDays + 1) * SecondsPerDay
  {
  }

  /** One file: the scan keeps a record for it exactly when it is reported,
      and the record carries its path, its whole days unused and its whole
      megabytes. An unreadable access time, or an unreadable size of a stale
      file, gives no record. */
  lemma ClassifyReports(e: FileEntry, now: int)
    ensures Classify(e, now).Some? <==> IsReported(e, now)
    ensures IsReported(e, now) ==> (
      Classify(e, now).value.path == e.path
      && Classify(e, now).value.daysUnused > StaleDays
      && Classify(e, now).value.daysUnused * SecondsPerDay <= now - e.lastAccess.value
      && now - e.lastAccess.value < (Classify(e, now).value.daysUnused + 1) * SecondsPerDay
      && Classify(e, now).value.sizeMB * BytesPerMegabyte <= e.size.value
      && e.size.value < (Classify(e, now).value.sizeMB + 1) * BytesPerMegabyte)
  {
  }

  /** The result list follows the visiting order: place `m` of the list is
      the record of the file at position `StaleIndices[m]`, the positions
      strictly increase (so no file appears twice), and a file's position is
      among them exactly when that file is reported. */
  lemma StaleRecordsInOrder(files: seq<FileEntry>, now: int)
    ensures |StaleIndices(files, now)| == |StaleRecords(files, now)| <= |files|
    ensures forall m :: 0 <= m < |StaleIndices(files, now)| ==>
      StaleIndices(files, now)[m] < |files|
      && IsReported(files[StaleIndices(files, now)[m]], now)
      && Classify(files[StaleIndices(files, now)[m]], now) == Some(StaleRecords(files, now)[m])
    ensures forall m, n :: 0 <= m < n < |StaleIndices(files, now)| ==>
      StaleIndices(files, now)[m] < StaleIndices(files, now)[n]
    ensures forall k :: 0 <= k < |files| ==>
      (k in StaleIndices(files, now) <==> IsReported(files[k], now))
  {
    var f := (e: FileEntry) => Classify(e, now);
    KeptMatchesSelect(files, f);
    SelectLength(files, f);
    forall m | 0 <= m < |StaleIndices(files, now)|
      ensures IsReported(files[StaleIndices(files, now)[m]], now)
    {
      ClassifyReports(files[StaleIndices(files, now)[m]], now);
    }
    forall k | 0 <= k < |files|
      ensures k in StaleIndices(files, now) <==> IsReported(files[k], now)
    {
      KeptExactly(files, f, k);
      ClassifyReports(files[k], now);
    }
  }

  /** A record is in the result if and only if some visited file yields it. */
  lemma StaleRecordsMembership(files: seq<FileEntry>, now: int, r: Record)
    ensures r in StaleRecords(files, now) <==>
      exists k :: 0 <= k < |files| && Classify(files[k], now) == Some(r)
  {
    SelectMembership(files, (e: FileEntry) => Classify(e, now), r);
  }

  /** Three readable files last accessed 10, 200 and 400 days ago: the scan
      reports the second and the third, in that order, with their sizes in
      whole megabytes. */
  lemma ThreeAges(now: int)
    ensures StaleRecords([
        FileEntry("a", Some(now - 10 * SecondsPerDay), Some(5 * BytesPerMegabyte)),
        FileEntry("b", Some(now - 200 * SecondsPerDay), Some(3 * BytesPerMegabyte + 7)),
        FileEntry("c", Some(now - 400 * SecondsPerDay - 1), Some(BytesPerMegabyte - 1))], now)
      == [Record("b", 200, 3), Record("c", 400, 0)]
  {
    var files := [
        FileEntry("a", Some(now - 10 * SecondsPerDay), Some(5 * BytesPerMegabyte)),
        FileEntry("b", Some(now - 200 * SecondsPerDay), Some(3 * BytesPerMegabyte + 7)),
        FileEntry("c", Some(now - 400 * SecondsPerDay - 1), Some(BytesPerMegabyte - 1))];
    assert files[..0] == [];
    StaleRecordsStep(files, 0, now);
    StaleRecordsStep(files, 1, now);
    StaleRecordsStep(files, 2, now);
    assert files[..3] == files;
  }
}
