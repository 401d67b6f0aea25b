/** What the review session guarantees, proved about the transitions of
    module Review (and so about the methods of PhotoCuller.MainWindow). */
module ReviewLaws {
  import opened Wrappers
  import opened Paths
  import opened Disk
  import opened FolderScan
  import opened UniqueNames
  import opened Review

  // ---------------------------------------------------------------- ShowCurrent

  /** When every listed file exists, ShowCurrent only clamps the cursor. */
  lemma PruneMissingAllPresent(files: seq<Path>, index: int, disk: set<Path>)
    requires files != [] && AllPresent(files, disk)
    ensures PruneMissing(files, index, disk) == Cursor(files, Clamp(index, 0, |files| - 1))
  {
  }

  // ---------------------------------------------------------------- LoadFolder

  /** Pruning from the first entry leaves the cursor on the first entry:
      each missing file removed there moves the next one under it. */
  lemma {:induction false} PruneMissingFromFront(files: seq<Path>, disk: set<Path>)
    ensures PruneMissing(files, 0, disk).index == 0
    decreases |files|
  {
    if files != [] && files[0] !in disk {
      PruneMissingFromFront(RemoveAt(files, 0), disk);
    }
  }

  /** Pruning from the first entry removes only leading entries: the list
      that remains is a suffix of the one pruned. */
  lemma {:induction false} PruneMissingFromFrontIsSuffix(files: seq<Path>, disk: set<Path>)
    ensures var r := PruneMissing(files, 0, disk);
      |r.files| <= |files| && r.files == files[|files| - |r.files|..]
    decreases |files|
  {
    if files != [] && files[0] !in disk {
      var tail := files[1..];
      assert RemoveAt(files, 0) == tail;
      assert PruneMissing(files, 0, disk) == PruneMissing(tail, 0, disk);
      PruneMissingFromFrontIsSuffix(tail, disk);
      var r := PruneMissing(tail, 0, disk).files;
      assert tail[|tail| - |r|..] == files[|files| - |r|..];
    }
  }

  /** Loading a folder starts a fresh session: empty history, the cursor on
      the first entry, the folder remembered, and the reject folder
      `<folder>\_rejected`, which is never blank, so Reject is enabled as
      soon as there are files. */
  lemma LoadFolderStartsFresh(s: Session, folder: string, enumerated: seq<Path>, disk: set<Path>)
    ensures var r := AfterLoadFolder(s, folder, Some(enumerated), disk);
      r.history == [] && r.index == 0 && r.initialCount == |Scan(enumerated)| &&
      r.sourceFolder == Some(folder) &&
      r.trashFolder == Some(Combine(folder, RejectFolderName)) &&
      !IsNullOrWhiteSpace(r.trashFolder)
  {
    PruneMissingFromFront(Scan(enumerated), disk);
    var trash := Combine(folder, RejectFolderName);
    CombineParts(folder, RejectFolderName);
    assert trash[|trash| - |RejectFolderName|..][0] == '_';
    assert !IsWhiteSpace(trash[|trash| - |RejectFolderName|]);
  }

  /** A load whose enumeration throws has already set both folders and
      emptied the list and the history, but keeps the old cursor and initial
      count; every later keep, reject and undo is then ignored until a load
      succeeds. */
  lemma LoadFolderListingFails(s: Session, folder: string, disk: set<Path>, permitted: bool)
    ensures var r := AfterLoadFolder(s, folder, None, disk);
      r.files == [] && r.history == [] &&
      r.index == s.index && r.initialCount == s.initialCount &&
      r.sourceFolder == Some(folder) && r.trashFolder == Some(Combine(folder, RejectFolderName))
    ensures var r := AfterLoadFolder(s, folder, None, disk);
      AfterMoveNext(r, disk) == r &&
      AfterMoveToTrash(r, disk, permitted) == Step(r, disk, Ignored) &&
      AfterUndo(r, disk, permitted) == Step(r, disk, Ignored)
  {
  }

  /** The loaded list holds only allowed enumerated files, and every one
      of them that exists. */
  lemma LoadFolderListsAllowedFiles(s: Session, folder: string, enumerated: seq<Path>, disk: set<Path>)
    ensures var r := AfterLoadFolder(s, folder, Some(enumerated), disk);
      forall p :: p in r.files ==> p in enumerated && IsSupported(p.ext)
    ensures var r := AfterLoadFolder(s, folder, Some(enumerated), disk);
      forall p :: p in disk && p in enumerated && IsSupported(p.ext) ==> p in r.files
  {
    var listed := Scan(enumerated);
    var r := AfterLoadFolder(s, folder, Some(enumerated), disk);
    ScanSelectsAndSorts(enumerated);
    PruneMissingRemovesOnlyMissing(listed, 0, disk);
    forall p | p in r.files ensures p in enumerated && IsSupported(p.ext) {
      assert p in multiset(r.files);
    }
    forall p | p in disk && p in enumerated && IsSupported(p.ext) ensures p in r.files {
      assert p in multiset(listed);
      assert p in multiset(r.files);
    }
  }

  /** Even when some enumerated files are missing, the loaded list is what
      is left of the sorted listing once its missing leading entries are
      dropped, so it is still sorted. */
  lemma LoadFolderSorted(s: Session, folder: string, enumerated: seq<Path>, disk: set<Path>)
    ensures var r := AfterLoadFolder(s, folder, Some(enumerated), disk);
      var listed := Scan(enumerated);
      |r.files| <= |listed| && r.files == listed[|listed| - |r.files|..] &&
      SortedBy(r.files, Before)
  {
    var listed := Scan(enumerated);
    ScanSelectsAndSorts(enumerated);
    PruneMissingFromFrontIsSuffix(listed, disk);
  }

  /** When every enumerated file exists, the loaded list is exactly the
      sorted listing. */
  lemma LoadFolderAllPresent(s: Session, folder: string, enumerated: seq<Path>, disk: set<Path>)
    requires forall p :: p in enumerated ==> p in disk
    ensures var r := AfterLoadFolder(s, folder, Some(enumerated), disk);
      r.files == Scan(enumerated) && SortedBy(r.files, Before)
  {
    var listed := Scan(enumerated);
    ScanSelectsAndSorts(enumerated);
    if listed != [] {
      assert listed[0] in listed;
    }
  }

  // ---------------------------------------------------------------- MoveNext

  /** Keep never touches the history, the folders or the disk, and can only
      drop entries whose file is missing. If the next file exists it steps
      the cursor forward by one and leaves the list alone; on an empty list
      or on the last item it changes nothing at all. */
  lemma MoveNextSteps(s: Session, disk: set<Path>)
    requires CursorOk(s.files, s.index)
    ensures var r := AfterMoveNext(s, disk);
      r.history == s.history && r.initialCount == s.initialCount &&
      r.sourceFolder == s.sourceFolder && r.trashFolder == s.trashFolder &&
      multiset(r.files) <= multiset(s.files)
    ensures s.files == [] || s.index == |s.files| - 1 ==> AfterMoveNext(s, disk) == s
    ensures s.files != [] && s.index < |s.files| - 1 && s.files[s.index + 1] in disk ==>
      AfterMoveNext(s, disk) == s.(index := s.index + 1)
  {
    if s.files != [] && s.index < |s.files| - 1 {
      PruneMissingRemovesOnlyMissing(s.files, s.index + 1, disk);
    }
  }

  // ---------------------------------------------------------------- MoveCurrentToTrash

  /** Which outcome a rejection has, in terms of the state before it. */
  lemma MoveToTrashOutcomes(s: Session, disk: set<Path>, permitted: bool)
    requires CursorOk(s.files, s.index)
    ensures var r := AfterMoveToTrash(s, disk, permitted);
      var enabled := s.files != [] && !IsNullOrWhiteSpace(s.trashFolder);
      var target := if enabled then UniquePath(disk, RejectTarget(s.trashFolder.value, s.files[s.index]))
                    else None;
      var moving := enabled && s.files[s.index] in disk;
      (r.outcome.Ignored? <==> !enabled) &&
      (r.outcome.StaleRemoved? <==> enabled && s.files[s.index] !in disk) &&
      (r.outcome.NameSpaceExhausted? <==> moving && target.None?) &&
      (r.outcome.MoveFailed? <==> moving && target.Some? && !permitted) &&
      (r.outcome.Rejected? <==> moving && target.Some? && permitted)
  {
  }

  /** A rejection that is ignored, runs out of names or whose move fails
      changes neither the session nor the disk. */
  lemma MoveToTrashFailureChangesNothing(s: Session, disk: set<Path>, permitted: bool)
    requires CursorOk(s.files, s.index)
    requires AfterMoveToTrash(s, disk, permitted).outcome in {Ignored, NameSpaceExhausted, MoveFailed}
    ensures AfterMoveToTrash(s, disk, permitted).session == s
    ensures AfterMoveToTrash(s, disk, permitted).disk == disk
  {
  }

  /** Rejecting an entry whose file has vanished removes that entry (and any
      further missing ones ShowCurrent then meets), records nothing and
      leaves the disk alone. */
  lemma MoveToTrashPrunesStale(s: Session, disk: set<Path>, permitted: bool)
    requires CursorOk(s.files, s.index) && s.files != [] && !IsNullOrWhiteSpace(s.trashFolder)
    requires s.files[s.index] !in disk
    ensures var r := AfterMoveToTrash(s, disk, permitted);
      r.outcome == StaleRemoved(s.files[s.index]) && r.disk == disk &&
      r.session.history == s.history && |r.session.files| < |s.files| &&
      multiset(r.session.files) <= multiset(RemoveAt(s.files, s.index)) &&
      (forall p :: p in disk ==> multiset(r.session.files)[p] == multiset(s.files)[p])
    ensures AllPresent(RemoveAt(s.files, s.index), disk) ==>
      AfterMoveToTrash(s, disk, permitted).session.files == RemoveAt(s.files, s.index)
  {
    var rest := RemoveAt(s.files, s.index);
    RemoveAtMultiset(s.files, s.index);
    PruneMissingRemovesOnlyMissing(rest, s.index, disk);
  }

  /** A successful rejection moves the current file to a free name in the
      reject folder, pushes the record (current, destination, old index)
      and drops the entry. When every listed file exists and none is listed
      twice, the list loses exactly that entry and the cursor stays put,
      or moves back one from the last item (to -1 on an emptied list). */
  lemma MoveToTrashMoves(s: Session, disk: set<Path>, permitted: bool)
    requires CursorOk(s.files, s.index)
    requires AfterMoveToTrash(s, disk, permitted).outcome.Rejected?
    ensures var r := AfterMoveToTrash(s, disk, permitted);
      var current := s.files[s.index];
      var destination := r.outcome.record.movedPath;
      r.outcome.record == MoveRecord(current, destination, s.index) &&
      UniquePath(disk, RejectTarget(s.trashFolder.value, current)) == Some(destination) &&
      destination.dir == s.trashFolder.value &&
      current in disk && destination !in disk &&
      r.disk == AfterMove(disk, current, destination) &&
      current !in r.disk && destination in r.disk &&
      r.session.history == s.history + [r.outcome.record] &&
      |r.session.files| < |s.files|
    ensures var r := AfterMoveToTrash(s, disk, permitted);
      AllPresent(s.files, disk) && NoDuplicates(s.files) ==>
        r.session.files == RemoveAt(s.files, s.index) &&
        r.session.index == (if s.index == |s.files| - 1 then s.index - 1 else s.index)
  {
    var r := AfterMoveToTrash(s, disk, permitted);
    var current := s.files[s.index];
    var destination := r.outcome.record.movedPath;
    var rest := RemoveAt(s.files, s.index);
    var moved := AfterMove(disk, current, destination);
    if AllPresent(s.files, disk) && NoDuplicates(s.files) {
      forall i | 0 <= i < |rest| ensures rest[i] in moved {
        var k := if i < s.index then i else i + 1;
        assert rest[i] == s.files[k] && k != s.index;
      }
      if rest != [] {
        PruneMissingAllPresent(rest, if s.index >= |rest| then |rest| - 1 else s.index, moved);
      }
    }
  }

  // ---------------------------------------------------------------- UndoLastMove

  /** Undo on an empty history is a no-op. */
  lemma UndoOnEmptyHistory(s: Session, disk: set<Path>, permitted: bool)
    requires s.history == []
    ensures AfterUndo(s, disk, permitted) == Step(s, disk, Ignored)
  {
  }

  /** Otherwise undo always consumes the newest record, and unless it
      restores the file, it leaves the list, the cursor and the disk as they
      were. */
  lemma UndoPopsOneRecord(s: Session, disk: set<Path>, permitted: bool)
    requires s.history != []
    ensures var r := AfterUndo(s, disk, permitted);
      r.session.history == s.history[..|s.history| - 1] && r.outcome != Ignored &&
      r.session.initialCount == s.initialCount &&
      r.session.sourceFolder == s.sourceFolder && r.session.trashFolder == s.trashFolder
    ensures var r := AfterUndo(s, disk, permitted);
      !r.outcome.Restored? ==> r.session.files == s.files && r.session.index == s.index && r.disk == disk
  {
  }

  /** Which outcome an undo has, in terms of the newest record. */
  lemma UndoOutcomes(s: Session, disk: set<Path>, permitted: bool)
    requires s.history != []
    ensures var r := AfterUndo(s, disk, permitted);
      var record := s.history[|s.history| - 1];
      var restore := if record.originalPath in disk then UniquePath(disk, record.originalPath)
                     else Some(record.originalPath);
      (r.outcome == RestoreTargetMissing(record) <==> record.movedPath !in disk) &&
      (r.outcome.NameSpaceExhausted? <==> record.movedPath in disk && restore.None?) &&
      (r.outcome.MoveFailed? <==> record.movedPath in disk && restore.Some? && !permitted) &&
      (r.outcome.Restored? <==> record.movedPath in disk && restore.Some? && permitted)
  {
    var record := s.history[|s.history| - 1];
    if record.movedPath in disk && record.originalPath in disk {
      var restore := UniquePath(disk, record.originalPath);
      assert restore.Some? ==> restore.value != record.movedPath;
    }
  }

  /** A successful undo moves the file back to its old path, or to a free
      variant of it when that path is taken, inserts it at its old index
      clamped into the list, and puts the cursor on it. */
  lemma UndoRestores(s: Session, disk: set<Path>, permitted: bool)
    requires AfterUndo(s, disk, permitted).outcome.Restored?
    ensures s.history != []
    ensures var r := AfterUndo(s, disk, permitted);
      var record := s.history[|s.history| - 1];
      var restorePath := r.outcome.path;
      var at := r.outcome.position;
      at == Clamp(record.originalIndex, 0, |s.files|) &&
      r.session.files == InsertAt(s.files, at, restorePath) &&
      r.session.index == at && |r.session.files| == |s.files| + 1 &&
      r.session.history == s.history[..|s.history| - 1] &&
      (record.originalPath !in disk ==> restorePath == record.originalPath) &&
      (record.originalPath in disk ==> UniquePath(disk, record.originalPath) == Some(restorePath)) &&
      record.movedPath in disk && restorePath !in disk &&
      r.disk == AfterMove(disk, record.movedPath, restorePath)
  {
    var r := AfterUndo(s, disk, permitted);
    var record := s.history[|s.history| - 1];
    var at := Clamp(record.originalIndex, 0, |s.files|);
    var restorePath := r.outcome.path;
    var inserted := InsertAt(s.files, at, restorePath);
    assert inserted[at] == restorePath;
  }

  // ---------------------------------------------------------------- Round trip

  /** Rejecting the current file and undoing at once, with nothing else
      touching the disk, gives back the same session and the same disk: the
      path is back at its index with the cursor on it, and the history is
      as before. The undo can fail only if its move is refused. */
  lemma RejectThenUndoRoundTrip(s: Session, disk: set<Path>, permitted: bool, undoPermitted: bool)
    requires CursorOk(s.files, s.index) && AllPresent(s.files, disk) && NoDuplicates(s.files)
    requires AfterMoveToTrash(s, disk, permitted).outcome.Rejected?
    ensures var rejected := AfterMoveToTrash(s, disk, permitted);
      var undone := AfterUndo(rejected.session, rejected.disk, undoPermitted);
      (undoPermitted ==> undone == Step(s, disk, Restored(s.files[s.index], s.index))) &&
      (!undoPermitted ==> undone.outcome == MoveFailed && undone.session.history == s.history)
  {
    var rejected := AfterMoveToTrash(s, disk, permitted);
    MoveToTrashMoves(s, disk, permitted);
    var current := s.files[s.index];
    var record := rejected.outcome.record;
    var destination := record.movedPath;
    var t := rejected.session;
    assert t.files == RemoveAt(s.files, s.index);
    assert t.history[|t.history| - 1] == record;
    assert t.history[..|t.history| - 1] == s.history;
    assert current !in rejected.disk && destination in rejected.disk;
    if undoPermitted {
      var undone := AfterUndo(t, rejected.disk, undoPermitted);
      assert undone.outcome.Restored?;
      UndoRestores(t, rejected.disk, undoPermitted);
      assert Clamp(s.index, 0, |t.files|) == s.index;
      assert InsertAt(t.files, s.index, current) == s.files;
      assert AfterMove(rejected.disk, destination, current) == disk;
    }
  }

  // ---------------------------------------------------------------- History

  /** The history grows by one exactly on a successful rejection and
      shrinks by one on every undo that finds a record. */
  lemma HistoryLockstep(s: Session, disk: set<Path>, permitted: bool)
    requires CursorOk(s.files, s.index)
    ensures var r := AfterMoveToTrash(s, disk, permitted);
      r.session.history == if r.outcome.Rejected? then s.history + [r.outcome.record] else s.history
    ensures |AfterUndo(s, disk, permitted).session.history| == if s.history == [] then 0 else |s.history| - 1
  {
  }

  // ---------------------------------------------------------------- Distinct paths

  /** A list without repeats is one in which every path occurs at most once. */
  lemma {:induction false} NoDuplicatesByCount(s: seq<Path>)
    ensures NoDuplicates(s) <==> forall p :: multiset(s)[p] <= 1
  {
    if NoDuplicates(s) {
      forall p ensures multiset(s)[p] <= 1 {
        CountOfDistinct(s, p);
      }
    }
    if forall p :: multiset(s)[p] <= 1 {
      forall i, j | 0 <= i < j < |s| ensures s[i] != s[j] {
        assert s == s[..j] + s[j..];
        assert s[i] in s[..j] && s[j] in s[j..];
        assert multiset(s)[s[j]] == multiset(s[..j])[s[j]] + multiset(s[j..])[s[j]];
      }
    }
  }

  lemma {:induction false} CountOfDistinct(s: seq<Path>, p: Path)
    requires NoDuplicates(s)
    ensures multiset(s)[p] <= 1
  {
    if s != [] {
      assert s == [s[0]] + s[1..];
      assert NoDuplicates(s[1..]) by {
        forall i, j | 0 <= i < j < |s[1..]| ensures s[1..][i] != s[1..][j] {
          assert s[1..][i] == s[i + 1] && s[1..][j] == s[j + 1];
        }
      }
      CountOfDistinct(s[1..], p);
      if s[0] == p {
        assert p !in s[1..] by {
          forall k | 0 <= k < |s[1..]| ensures s[1..][k] != p {
            assert s[1..][k] == s[k + 1];
          }
        }
      }
    }
  }

  /** Removing entries cannot create a repeat. */
  lemma NoDuplicatesShrink(a: seq<Path>, b: seq<Path>)
    requires NoDuplicates(a) && multiset(b) <= multiset(a)
    ensures NoDuplicates(b)
  {
    NoDuplicatesByCount(a);
    NoDuplicatesByCount(b);
  }

  /** ShowCurrent never lists a path twice that was listed once. */
  lemma PruneMissingKeepsDistinct(files: seq<Path>, index: int, disk: set<Path>)
    requires NoDuplicates(files)
    ensures NoDuplicates(PruneMissing(files, index, disk).files)
  {
    PruneMissingRemovesOnlyMissing(files, index, disk);
    NoDuplicatesShrink(files, PruneMissing(files, index, disk).files);
  }

  /** A load of a listing without repeats gives a list without repeats. */
  lemma LoadFolderKeepsDistinct(s: Session, folder: string, listing: Option<seq<Path>>, disk: set<Path>)
    requires listing.Some? ==> NoDuplicates(listing.value)
    ensures NoDuplicates(AfterLoadFolder(s, folder, listing, disk).files)
  {
    if listing.Some? {
      var listed := Scan(listing.value);
      ScanSelectsAndSorts(listing.value);
      NoDuplicatesByCount(listing.value);
      NoDuplicatesByCount(listed);
      PruneMissingKeepsDistinct(listed, 0, disk);
    }
  }

  /** Keep only removes entries, so it keeps the list free of repeats. */
  lemma MoveNextKeepsDistinct(s: Session, disk: set<Path>)
    requires CursorOk(s.files, s.index) && NoDuplicates(s.files)
    ensures NoDuplicates(AfterMoveNext(s, disk).files)
  {
    if s.files != [] && s.index < |s.files| - 1 {
      PruneMissingKeepsDistinct(s.files, s.index + 1, disk);
    }
  }

  /** The list a reject leaves: unchanged, or the current entry removed and
      then pruned from the old cursor, clamped to the end after a move. */
  lemma MoveToTrashList(s: Session, disk: set<Path>, permitted: bool)
    requires CursorOk(s.files, s.index)
    ensures var r := AfterMoveToTrash(s, disk, permitted);
      (r.outcome.StaleRemoved? || r.outcome.Rejected?) ==>
        var rest := RemoveAt(s.files, s.index);
        var at := if r.outcome.Rejected? && s.index >= |rest| then |rest| - 1 else s.index;
        r.session.files == PruneMissing(rest, at, r.disk).files
    ensures var r := AfterMoveToTrash(s, disk, permitted);
      !(r.outcome.StaleRemoved? || r.outcome.Rejected?) ==> r.session.files == s.files
  {
  }

  /** Removing one entry and then pruning never adds an entry. */
  lemma RemoveThenPruneOnlyRemoves(files: seq<Path>, i: int, at: int, disk: set<Path>)
    requires 0 <= i < |files|
    ensures multiset(PruneMissing(RemoveAt(files, i), at, disk).files) <= multiset(files)
  {
    RemoveAtMultiset(files, i);
    PruneMissingRemovesOnlyMissing(RemoveAt(files, i), at, disk);
  }

  /** Reject never adds an entry. */
  lemma MoveToTrashOnlyRemoves(s: Session, disk: set<Path>, permitted: bool)
    requires CursorOk(s.files, s.index)
    ensures multiset(AfterMoveToTrash(s, disk, permitted).session.files) <= multiset(s.files)
  {
    var r := AfterMoveToTrash(s, disk, permitted);
    MoveToTrashList(s, disk, permitted);
    if r.outcome.StaleRemoved? || r.outcome.Rejected? {
      var rest := RemoveAt(s.files, s.index);
      RemoveThenPruneOnlyRemoves(s.files, s.index,
        if r.outcome.Rejected? && s.index >= |rest| then |rest| - 1 else s.index, r.disk);
    }
  }

  /** Reject only removes entries, so it keeps the list free of repeats. */
  lemma MoveToTrashKeepsDistinct(s: Session, disk: set<Path>, permitted: bool)
    requires CursorOk(s.files, s.index) && NoDuplicates(s.files)
    ensures NoDuplicates(AfterMoveToTrash(s, disk, permitted).session.files)
  {
    MoveToTrashOnlyRemoves(s, disk, permitted);
    NoDuplicatesShrink(s.files, AfterMoveToTrash(s, disk, permitted).session.files);
  }

  /** Inserting a path that is not listed yet keeps the list free of repeats. */
  lemma InsertFreshKeepsDistinct(files: seq<Path>, at: int, x: Path)
    requires 0 <= at <= |files| && NoDuplicates(files) && x !in files
    ensures NoDuplicates(InsertAt(files, at, x))
  {
    var r := InsertAt(files, at, x);
    forall i, j | 0 <= i < j < |r| ensures r[i] != r[j] {
      var i' := if i < at then i else i - 1;
      var j' := if j < at then j else j - 1;
      if i != at && j != at {
        assert r[i] == files[i'] && r[j] == files[j'] && i' < j';
      } else if i == at {
        assert r[j] == files[j'];
      } else {
        assert r[i] == files[i'];
      }
    }
  }

  /** Undo adds one entry. When every listed file exists it is a new one:
      the restore path is free on disk, so it is not listed yet. */
  lemma UndoKeepsDistinct(s: Session, disk: set<Path>, permitted: bool)
    requires CursorOk(s.files, s.index) && NoDuplicates(s.files) && AllPresent(s.files, disk)
    ensures NoDuplicates(AfterUndo(s, disk, permitted).session.files)
  {
    var r := AfterUndo(s, disk, permitted);
    if r.outcome.Restored? {
      UndoRestores(s, disk, permitted);
      var x := r.outcome.path;
      var at := r.outcome.position;
      assert x !in s.files;
      InsertFreshKeepsDistinct(s.files, at, x);
      PruneMissingKeepsDistinct(InsertAt(s.files, at, x), at, r.disk);
      assert r.session.files == PruneMissing(InsertAt(s.files, at, x), at, r.disk).files;
    } else if s.history != [] {
      UndoPopsOneRecord(s, disk, permitted);
    }
  }
}
