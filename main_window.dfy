/** The session state held by the main window, and its operations with the
    rendering stripped: each method is proved to follow the transition of
    module Review, which the lemmas of ReviewLaws are about. */
module PhotoCuller {
  import opened Wrappers
  import opened Paths
  import opened Disk
  import opened FolderScan
  import opened UniqueNames
  import opened Review

  class MainWindow {
    var files: seq<Path>
    var history: seq<MoveRecord>
    var index: int
    var initialCount: int
    var sourceFolder: Option<string>
    var trashFolder: Option<string>

    /** The fields as a value. */
    function State(): Session
      reads this
    {
      Session(files, history, index, initialCount, sourceFolder, trashFolder)
    }

    ghost predicate Valid()
      reads this
    {
      CursorOk(files, index)
    }

    /** UpdateButtons enables Keep and Reject when there is a file ... */
    predicate HasFiles()
      reads this
    {
      |files| > 0
    }

    /** ... and Undo when there is something to undo. */
    predicate CanUndo()
      reads this
    {
      |history| > 0
    }

    constructor ()
      ensures Valid() && State() == Initial()
    {
      files, history, index, initialCount := [], [], 0, 0;
      sourceFolder, trashFolder := None, None;
    }

    /** Load: `listing` is the folder's enumeration, or None when it throws. */
    method LoadFolder(folder: string, listing: Option<seq<Path>>, fs: FileSystem)
      modifies this
      ensures Valid()
      ensures State() == AfterLoadFolder(old(State()), folder, listing, fs.existing)
    {
      sourceFolder := Some(folder);
      trashFolder := Some(Combine(folder, RejectFolderName));
      history := [];
      files := [];
      if listing.None? {
        return;
      }
      files := Scan(listing.value);
      initialCount := |files|;
      index := 0;
      ShowCurrent(fs);
    }

    /** Keep: advance the cursor unless on the last item. */
    method MoveNext(fs: FileSystem)
      requires Valid()
      modifies this`files, this`index
      ensures Valid()
      ensures State() == AfterMoveNext(old(State()), fs.existing)
    {
      if |files| == 0 {
        return;
      }
      if index < |files| - 1 {
        index := index + 1;
        ShowCurrent(fs);
      }
    }

    /** Reject: move the current file into the reject folder under a free
        name and remember the move, or drop the entry if its file is gone. */
    method MoveCurrentToTrash(fs: FileSystem, permitted: bool) returns (outcome: Outcome)
      requires Valid()
      modifies this`files, this`index, this`history, fs
      ensures Valid()
      ensures Step(State(), fs.existing, outcome) ==
              AfterMoveToTrash(old(State()), old(fs.existing), permitted)
    {
      if |files| == 0 || IsNullOrWhiteSpace(trashFolder) {
        return Ignored;
      }
      ghost var expected := AfterMoveToTrash(State(), fs.existing, permitted);
      var current := files[index];
      if !fs.Exists(current) {
        files := RemoveAt(files, index);
        ShowCurrent(fs);
        assert Step(State(), fs.existing, StaleRemoved(current)) == expected;
        return StaleRemoved(current);
      }
      var destination := GetUniquePath(fs, RejectTarget(trashFolder.value, current));
      if destination.None? {
        return NameSpaceExhausted;
      }
      ghost var disk := fs.existing;
      var moved := fs.Move(current, destination.value, permitted);
      if !moved {
        return MoveFailed;
      }
      var record := MoveRecord(current, destination.value, index);
      history := history + [record];
      files := RemoveAt(files, index);
      if index >= |files| {
        index := |files| - 1;
      }
      ShowCurrent(fs);
      assert fs.existing == AfterMove(disk, current, destination.value);
      assert Step(State(), fs.existing, Rejected(record)) == expected;
      return Rejected(record);
    }

    /** Undo: pop the last move and put the file back, under a free name if
        its old path is taken, at its old position (clamped). */
    method UndoLastMove(fs: FileSystem, permitted: bool) returns (outcome: Outcome)
      requires Valid()
      modifies this`files, this`index, this`history, fs
      ensures Valid()
      ensures Step(State(), fs.existing, outcome) ==
              AfterUndo(old(State()), old(fs.existing), permitted)
    {
      if |history| == 0 {
        return Ignored;
      }
      ghost var expected := AfterUndo(State(), fs.existing, permitted);
      var record := history[|history| - 1];
      history := history[..|history| - 1];
      if !fs.Exists(record.movedPath) {
        return RestoreTargetMissing(record);
      }
      var restorePath := record.originalPath;
      if fs.Exists(restorePath) {
        var unique := GetUniquePath(fs, restorePath);
        if unique.None? {
          return NameSpaceExhausted;
        }
        restorePath := unique.value;
      }
      ghost var disk := fs.existing;
      var moved := fs.Move(record.movedPath, restorePath, permitted);
      if !moved {
        return MoveFailed;
      }
      var insertIndex := Clamp(record.originalIndex, 0, |files|);
      files := InsertAt(files, insertIndex, restorePath);
      index := insertIndex;
      ShowCurrent(fs);
      assert fs.existing == AfterMove(disk, record.movedPath, restorePath);
      assert Step(State(), fs.existing, Restored(restorePath, insertIndex)) == expected;
      return Restored(restorePath, insertIndex);
    }

    /** ShowCurrent without the preview: clamp the cursor and drop entries
        whose file has vanished, one per recursive call. */
    method ShowCurrent(fs: FileSystem)
      modifies this`files, this`index
      ensures Cursor(files, index) == PruneMissing(old(files), old(index), fs.existing)
      decreases |files|
    {
      if |files| == 0 {
        return;
      }
      index := Clamp(index, 0, |files| - 1);
      var path := files[index];
      if !fs.Exists(path) {
        files := RemoveAt(files, index);
        ShowCurrent(fs);
        return;
      }
    }

    /** GetUniquePath: the path itself if free, else the first free
        `{stem}_{i}{ext}` for i below 10000; None is the IOException. */
    static method GetUniquePath(fs: FileSystem, path: Path) returns (r: Option<Path>)
      ensures r == UniquePath(fs.existing, path)
      ensures r.Some? ==> r.value !in fs.existing
    {
      if !fs.Exists(path) {
        return Some(path);
      }
      for i := 1 to SuffixLimit
        invariant FirstFreeSuffix(fs.existing, path, 1) == FirstFreeSuffix(fs.existing, path, i)
      {
        var candidate := Candidate(path, i);
        if !fs.Exists(candidate) {
          return Some(candidate);
        }
      }
      return None;
    }
  }
}
