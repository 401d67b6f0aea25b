/** The review session of MainWindow as pure transitions: what each
    operation does to the file list, the cursor, the undo history and the
    files on disk. The class PhotoCuller.MainWindow is proved to follow them. */
module Review {
  import opened Wrappers
  import opened Paths
  import opened Disk
  import opened FolderScan
  import opened UniqueNames

  /** One rejection: where the file was, where it went, and the list
      position it had. */
  datatype MoveRecord = MoveRecord(originalPath: Path, movedPath: Path, originalIndex: int)

  /** The fields of MainWindow that the session uses; the undo stack's top is
      the last element of `history`. */
  datatype Session = Session(
    files: seq<Path>,
    history: seq<MoveRecord>,
    index: int,
    initialCount: int,
    sourceFolder: Option<string>,
    trashFolder: Option<string>)

  /** The list and the cursor, the part ShowCurrent changes. */
  datatype Cursor = Cursor(files: seq<Path>, index: int)

  /** What an operation reports: the message boxes of MainWindow, the
      exception of GetUniquePath, and the successful cases. */
  datatype Outcome =
    | Ignored
    | StaleRemoved(path: Path)
    | NameSpaceExhausted
    | MoveFailed
    | Rejected(record: MoveRecord)
    | RestoreTargetMissing(record: MoveRecord)
    | Restored(path: Path, position: int)

  /** The session and the disk after an operation, and what it reported. */
  datatype Step = Step(session: Session, disk: set<Path>, outcome: Outcome)

  const RejectFolderName: string := "_rejected"

  /** The cursor is on an item of a non-empty list. On an empty list no
      operation reads it, and it can hold anything: the -1 that rejecting the
      last item leaves, or the old cursor that an aborted load keeps. */
  predicate CursorOk(files: seq<Path>, index: int)
  {
    files == [] || 0 <= index < |files|
  }

  /** Every listed file exists. */
  predicate AllPresent(files: seq<Path>, disk: set<Path>)
  {
    forall i :: 0 <= i < |files| ==> files[i] in disk
  }

  /** No path is listed twice. */
  predicate NoDuplicates(files: seq<Path>)
  {
    forall i, j :: 0 <= i < j < |files| ==> files[i] != files[j]
  }

  /** Where a rejected file is asked to go: the reject folder, under the
      file's own name. */
  function RejectTarget(trashFolder: string, current: Path): (r: Path)
    ensures r.dir == trashFolder && FileName(r) == FileName(current)
  {
    Path(trashFolder, current.stem, current.ext)
  }

  /** Math.Clamp */
  function Clamp(v: int, lo: int, hi: int): (r: int)
    requires lo <= hi
    ensures lo <= r <= hi
    ensures lo <= v <= hi ==> r == v
    ensures v < lo ==> r == lo
    ensures v > hi ==> r == hi
  {
    if v < lo then lo else if v > hi then hi else v
  }

  /** List.RemoveAt */
  function RemoveAt(s: seq<Path>, i: int): (r: seq<Path>)
    requires 0 <= i < |s|
    ensures |r| == |s| - 1
    ensures r[..i] == s[..i] && r[i..] == s[i + 1..]
  {
    s[..i] + s[i + 1..]
  }

  /** List.Insert */
  function InsertAt(s: seq<Path>, i: int, x: Path): (r: seq<Path>)
    requires 0 <= i <= |s|
    ensures |r| == |s| + 1 && r[i] == x
    ensures r[..i] == s[..i] && r[i + 1..] == s[i..]
  {
    s[..i] + [x] + s[i..]
  }

  /** Char.IsWhiteSpace, for the ASCII white space, U+0085 and U+00A0. */
  predicate IsWhiteSpace(c: char)
  {
    c == ' ' || '\t' <= c <= '\r' || c == '\U{85}' || c == '\U{A0}'
  }

  /** String.IsNullOrWhiteSpace */
  predicate IsNullOrWhiteSpace(s: Option<string>)
  {
    s.None? || forall i :: 0 <= i < |s.value| ==> IsWhiteSpace(s.value[i])
  }

  /** ShowCurrent without rendering: clamp the cursor into the list, and while
      the file under it is missing, remove that entry and look again. */
  function PruneMissing(files: seq<Path>, index: int, disk: set<Path>): (r: Cursor)
    decreases |files|
    ensures files == [] ==> r == Cursor(files, index)
    ensures files != [] ==> CursorOk(r.files, r.index)
    ensures r.files != [] ==> r.files[r.index] in disk
    ensures |r.files| <= |files|
  {
    if files == [] then Cursor(files, index)
    else
      var i := Clamp(index, 0, |files| - 1);
      if files[i] in disk then Cursor(files, i)
      else
        PruneMissing(RemoveAt(files, i), i, disk)
  }

  lemma RemoveAtMultiset(files: seq<Path>, i: int)
    requires 0 <= i < |files|
    ensures multiset(RemoveAt(files, i)) == multiset(files) - multiset{files[i]}
  {
    assert files == files[..i] + [files[i]] + files[i + 1..];
  }

  /** ShowCurrent only removes entries, and only entries whose file is
      missing: every existing file keeps all its occurrences in the list. */
  lemma {:induction false} PruneMissingRemovesOnlyMissing(files: seq<Path>, index: int, disk: set<Path>)
    ensures multiset(PruneMissing(files, index, disk).files) <= multiset(files)
    ensures forall p :: p in disk ==> multiset(PruneMissing(files, index, disk).files)[p] == multiset(files)[p]
    decreases |files|
  {
    if files != [] {
      var i := Clamp(index, 0, |files| - 1);
      if files[i] !in disk {
        RemoveAtMultiset(files, i);
        PruneMissingRemovesOnlyMissing(RemoveAt(files, i), i, disk);
      }
    }
  }

  /** The state of a fresh window. */
  function Initial(): Session
  {
    Session([], [], 0, 0, None, None)
  }

  /** LoadFolder: remember the folder and its `_rejected` subfolder, clear the
      history and the list, list the allowed files in order, put the cursor
      on the first and show it. `listing` is what Directory.EnumerateFiles
      yields, or None when it throws; nothing catches that exception, so the
      load stops with the folders set and both lists cleared, and keeps the
      old cursor and initial count. */
  function AfterLoadFolder(s: Session, folder: string, listing: Option<seq<Path>>, disk: set<Path>): (r: Session)
    ensures CursorOk(r.files, r.index)
  {
    var cleared := s.(files := [], history := [], sourceFolder := Some(folder),
                      trashFolder := Some(Combine(folder, RejectFolderName)));
    match listing
    case None => cleared
    case Some(enumerated) =>
      var listed := Scan(enumerated);
      var c := PruneMissing(listed, 0, disk);
      cleared.(files := c.files, index := c.index, initialCount := |listed|)
  }

  /** MoveNext: on a non-empty list, step forward unless on the last item,
      and show the new item. */
  function AfterMoveNext(s: Session, disk: set<Path>): (r: Session)
    ensures CursorOk(s.files, s.index) ==> CursorOk(r.files, r.index)
  {
    if |s.files| == 0 then s
    else if s.index < |s.files| - 1 then
      var c := PruneMissing(s.files, s.index + 1, disk);
      s.(files := c.files, index := c.index)
    else s
  }

  /** MoveCurrentToTrash. */
  function AfterMoveToTrash(s: Session, disk: set<Path>, permitted: bool): (r: Step)
    requires CursorOk(s.files, s.index)
    ensures CursorOk(r.session.files, r.session.index)
  {
    if |s.files| == 0 || IsNullOrWhiteSpace(s.trashFolder) then Step(s, disk, Ignored)
    else
      var current := s.files[s.index];
      if current !in disk then
        var c := PruneMissing(RemoveAt(s.files, s.index), s.index, disk);
        Step(s.(files := c.files, index := c.index), disk, StaleRemoved(current))
      else
        match UniquePath(disk, RejectTarget(s.trashFolder.value, current))
        case None => Step(s, disk, NameSpaceExhausted)
        case Some(destination) =>
          if !CanMove(disk, current, destination, permitted) then Step(s, disk, MoveFailed)
          else
            var record := MoveRecord(current, destination, s.index);
            var rest := RemoveAt(s.files, s.index);
            var moved := AfterMove(disk, current, destination);
            var c := PruneMissing(rest, if s.index >= |rest| then |rest| - 1 else s.index, moved);
            Step(s.(files := c.files, index := c.index, history := s.history + [record]),
                 moved, Rejected(record))
  }

  /** UndoLastMove. */
  function AfterUndo(s: Session, disk: set<Path>, permitted: bool): (r: Step)
    ensures CursorOk(s.files, s.index) ==> CursorOk(r.session.files, r.session.index)
  {
    if |s.history| == 0 then Step(s, disk, Ignored)
    else
      var record := s.history[|s.history| - 1];
      var popped := s.(history := s.history[..|s.history| - 1]);
      if record.movedPath !in disk then Step(popped, disk, RestoreTargetMissing(record))
      else
        var restore := if record.originalPath in disk then UniquePath(disk, record.originalPath)
                       else Some(record.originalPath);
        match restore
        case None => Step(popped, disk, NameSpaceExhausted)
        case Some(restorePath) =>
          if !CanMove(disk, record.movedPath, restorePath, permitted) then Step(popped, disk, MoveFailed)
          else
            var at := Clamp(record.originalIndex, 0, |s.files|);
            var moved := AfterMove(disk, record.movedPath, restorePath);
            var c := PruneMissing(InsertAt(s.files, at, restorePath), at, moved);
            Step(popped.(files := c.files, index := c.index), moved, Restored(restorePath, at))
  }
}
