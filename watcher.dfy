/** The change reporter `FileEventHandler`: it receives the notifications a
    recursive watch delivers and appends one line to its output widget for
    each deleted file. Only `on_deleted` is overridden; the base class's
    handlers for every other kind do nothing. The widget's text is modelled
    as the sequence of lines appended to it. */
module Watcher {
  import opened Selection

  /** The kinds of change a notification can carry. */
  datatype EventKind = Created | Modified | Deleted | Moved

  /** One notification: its kind, the path it concerns, and whether that
      path is a directory. */
  datatype FileSystemEvent = FileSystemEvent(kind: EventKind, srcPath: string, isDirectory: bool)

  /** The text in front of the path in a deletion report. */
  const DeletedPrefix: string := "\U{274C} File Deleted: "

  /** The line reported for a deleted file. */
  function DeletedLine(path: string): string
  {
    DeletedPrefix + path
  }

  /** The path a deletion report names, or `None` for any other line. */
  function ReportedPath(line: string): Option<string>
  {
    if |DeletedPrefix| <= |line| && line[..|DeletedPrefix|] == DeletedPrefix
    then Some(line[|DeletedPrefix|..])
    else None
  }

  /** What the handler reports for one event: a line for the deletion of
      something that is not a directory, nothing otherwise. */
  function Report(e: FileSystemEvent): Option<string>
  {
    if e.kind == Deleted && !e.isDirectory then Some(DeletedLine(e.srcPath)) else None
  }

  /** The lines the handler appends for a sequence of events, in order. */
  function Reports(events: seq<FileSystemEvent>): seq<string>
  {
    Select(events, Report)
  }

  /** The positions of the events that produce a line, in arrival order. */
  function ReportedIndices(events: seq<FileSystemEvent>): seq<nat>
  {
    Kept(events, Report)
  }

  class FileEventHandler {
    /** The lines appended so far to the output widget. */
    var output: seq<string>

    constructor (output: seq<string>)
      ensures this.output == output
    {
      this.output := output;
    }

    /** `on_deleted`: appends the report line unless the path is a directory. */
    method OnDeleted(event: FileSystemEvent)
      modifies this
      ensures output == old(output) + (if event.isDirectory then [] else [DeletedLine(event.srcPath)])
    {
      if !event.isDirectory {
        output := output + [DeletedLine(event.srcPath)];
      }
    }

    /** Delivery of one notification: deletions go to `on_deleted`; the
        handlers of the other kinds are the base class's, which do nothing. */
    method Dispatch(event: FileSystemEvent)
      modifies this
      ensures output == old(output) + Reports([event])
    {
      match event.kind {
        case Deleted => OnDeleted(event);
        case Created =>
        case Modified =>
        case Moved =>
      }
      ReportsSingle(event);
    }
  }

  /** One event is reported as `Report` says. */
  lemma ReportsSingle(event: FileSystemEvent)
    ensures Reports([event]) == Keep(Report(event))
  {
    assert [event][..0] == [];
    assert Select([event], Report) == Select([], Report) + Keep(Report(event));
  }

  /** Delivering `events` and then `more` appends the reports of `events`
      followed by those of `more`: the effect of successive `Dispatch` calls
      adds up to `Reports` of the whole sequence. */
  lemma ReportsAppend(events: seq<FileSystemEvent>, more: seq<FileSystemEvent>)
    ensures Reports(events + more) == Reports(events) + Reports(more)
  {
    SelectAppend(events, more, Report);
  }

  /** A report line gives back the path it was made from. */
  lemma ReportedPathOfLine(path: string)
    ensures ReportedPath(DeletedLine(path)) == Some(path)
  {
    assert DeletedLine(path)[..|DeletedPrefix|] == DeletedPrefix;
    assert DeletedLine(path)[|DeletedPrefix|..] == path;
  }

  /** The handler reports, in arrival order and once each, exactly the
      deletions of paths that are not directories: place `m` of the output
      names the path of the event at position `ReportedIndices[m]`, those
      positions strictly increase, and a position is among them exactly when
      its event is a deletion of a non-directory. */
  lemma ReportsInOrder(events: seq<FileSystemEvent>)
    ensures |ReportedIndices(events)| == |Reports(events)| <= |events|
    ensures forall m :: 0 <= m < |ReportedIndices(events)| ==>
      ReportedIndices(events)[m] < |events|
      && events[ReportedIndices(events)[m]].kind == Deleted
      && !events[ReportedIndices(events)[m]].isDirectory
      && Reports(events)[m] == DeletedLine(events[ReportedIndices(events)[m]].srcPath)
      && ReportedPath(Reports(events)[m]) == Some(events[ReportedIndices(events)[m]].srcPath)
    ensures forall m, n :: 0 <= m < n < |ReportedIndices(events)| ==>
      ReportedIndices(events)[m] < ReportedIndices(events)[n]
    ensures forall k :: 0 <= k < |events| ==>
      (k in ReportedIndices(events) <==> events[k].kind == Deleted && !events[k].isDirectory)
  {
    KeptMatchesSelect(events, Report);
    SelectLength(events, Report);
    forall m | 0 <= m < |ReportedIndices(events)|
      ensures ReportedPath(Reports(events)[m]) == Some(events[ReportedIndices(events)[m]].srcPath)
    {
      ReportedPathOfLine(events[ReportedIndices(events)[m]].srcPath);
    }
    forall k | 0 <= k < |events|
      ensures k in ReportedIndices(events) <==> events[k].kind == Deleted && !events[k].isDirectory
    {
      KeptExactly(events, Report, k);
    }
  }

  /** The number of lines equals the number of non-directory deletions. */
  lemma {:induction false} ReportsCount(events: seq<FileSystemEvent>)
    ensures |Reports(events)| == |set k | 0 <= k < |events| && events[k].kind == Deleted && !events[k].isDirectory|
  {
    ReportsInOrder(events);
    var ks := ReportedIndices(events);
    var deletions := set k | 0 <= k < |events| && events[k].kind == Deleted && !events[k].isDirectory;
    assert deletions == set m | 0 <= m < |ks| :: ks[m];
    DistinctCount(ks);
  }

  /** A strictly increasing sequence has as many distinct elements as places. */
  lemma {:induction false} DistinctCount(ks: seq<nat>)
    requires forall m, n :: 0 <= m < n < |ks| ==> ks[m] < ks[n]
    ensures |set m | 0 <= m < |ks| :: ks[m]| == |ks|
    decreases |ks|
  {
    if ks != [] {
      var init := ks[..|ks| - 1];
      DistinctCount(init);
      var last := ks[|ks| - 1];
      assert (set m | 0 <= m < |ks| :: ks[m]) == (set m | 0 <= m < |init| :: init[m]) + {last};
      assert last !in (set m | 0 <= m < |init| :: init[m]);
    }
  }

  /** A file created and then deleted under the watch yields one line, for
      the deletion; creating and removing a directory yields none. */
  lemma CreateThenDelete(path: string)
    ensures Reports([FileSystemEvent(Created, path, false), FileSystemEvent(Deleted, path, false)])
      == [DeletedLine(path)]
    ensures Reports([FileSystemEvent(Created, path, true), FileSystemEvent(Deleted, path, true)]) == []
  {
    var created, deleted := FileSystemEvent(Created, path, false), FileSystemEvent(Deleted, path, false);
    ReportsAppend([created], [deleted]);
    ReportsSingle(created);
    ReportsSingle(deleted);
    assert [created] + [deleted] == [created, deleted];
    var dirCreated, dirDeleted := FileSystemEvent(Created, path, true), FileSystemEvent(Deleted, path, true);
    ReportsAppend([dirCreated], [dirDeleted]);
    ReportsSingle(dirCreated);
    ReportsSingle(dirDeleted);
    assert [dirCreated] + [dirDeleted] == [dirCreated, dirDeleted];
  }
}
