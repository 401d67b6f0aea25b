# PhotoCuller review session, in Dafny

PhotoCuller is a small Windows photo-culling tool. The user picks a folder and
the window lists its photos, one at a time. For each photo the user presses
**Keep**, which moves on to the next photo, or **Reject**, which moves the
file into a `_rejected` subfolder. **Undo** puts the last rejected file back.
This project models the session state of `MainWindow` that drives these
actions, and proves what each action does to the list, the cursor, the undo
stack and the files on disk. The state is the file list, the cursor, the
history of moves, the initial count and the two folders.

The files on disk are a set of paths. A file exists when its path is in the
set. A directory listing is an input sequence. A move is asked for with a
flag `permitted`, which stands for everything outside the program that can
make `File.Move` throw (permissions, locks, I/O errors). The move happens
exactly when it is permitted, the source exists and the destination is free.
A folder listing that throws (`DirectoryNotFoundException`,
`UnauthorizedAccessException`, `IOException`) is a listing of `None`.
Every operation reads the set at the time it is called. So files that vanish
between two calls are covered too, and the pruning in `ShowCurrent` exists
for exactly that case.

Layout:

- `wrappers.dfy`, module `Wrappers`: `Option`.
- `paths.dfy`, module `Paths`:
  - a path is `(dir, stem, ext)`;
  - `Path.Combine`;
  - the `OrdinalIgnoreCase` comparison, which folds ASCII letters to upper case and then compares code points lexicographically, with its total-preorder laws;
  - the decimal rendering of the suffix number.
- `folder_scan.dfy`, module `FolderScan`:
  - the extension allowlist;
  - the LINQ `Where` as a filter;
  - the `OrderBy` as a stable insertion sort;
  - proofs that the result is sorted and holds exactly the allowed entries.
- `disk.dfy`, module `Disk`: the set of existing paths, as the value `AfterMove` and as the class `FileSystem`, whose `Move` changes it in place.
- `unique_names.dfy`, module `UniqueNames`: the collision-free name search of `GetUniquePath` as a function.
- `review.dfy`, module `Review`:
  - `MoveRecord`, `Session` and the outcomes;
  - each operation as a pure transition (`AfterLoadFolder`, `AfterMoveNext`, `AfterMoveToTrash`, `AfterUndo`);
  - `PruneMissing`, which is `ShowCurrent` with its rendering removed.
- `main_window.dfy`, module `PhotoCuller`:
  - the class `MainWindow`, with the fields and step-by-step methods of the C# `MainWindow`;
  - each state-changing method is proved to leave the fields and the disk as its transition in `Review` says;
  - `GetUniquePath` keeps the suffix loop of the C# code and is proved equal to `UniqueNames.UniquePath`.
- `review_laws.dfy`, module `ReviewLaws`: the properties of the transitions, and so of the methods. These cover:
  - load resets the session;
  - keep is a bounded advance;
  - the three reject cases;
  - the four undo cases;
  - reject followed by undo is a round trip;
  - the history moves in lockstep with the operations.

The message boxes of `MainWindow` become `Outcome` values:

- `StaleRemoved`: the current file had vanished and its entry was dropped.
- `MoveFailed`: the `File.Move` inside a try block threw.
- `RestoreTargetMissing`: the rejected file is no longer in its new place.
- A load whose listing throws returns no outcome. Nothing in `MainWindow` catches that exception. The model records the state at the throw: both folders set, the list and history cleared, and the old cursor and initial count. If the session went on from there, keep, reject and undo would be ignored until a load succeeds.
- `NameSpaceExhausted`: `GetUniquePath` threw its `IOException`. That call is outside both try blocks, so the exception leaves the operation. The model records the state at the throw. In an undo this means the record has already been popped.
- `Ignored`: the operation's guard returned early.

An undo always consumes the newest record, even when the file then cannot be put back, as `MainWindow` does. `ShowCurrent` runs after every successful load, and after every keep, reject or undo that changes the list or the cursor. It may drop further entries whose files have vanished. So "the list shrinks by exactly one" and "the list is unchanged" are proved under the condition that every listed file exists and no path is listed twice.

## Model

| member | source | states |
|---|---|---|
| FolderScan.FilterBy | PhotoCuller/MainWindow.xaml.cs:68 | each element keeps all its occurrences when it passes the predicate and loses all of them otherwise |
| FolderScan.SupportedExtensions | PhotoCuller/MainWindow.xaml.cs:11-17 | definition: the 23 allowed extensions; characterised by `FolderScan.ShortOrUndottedRefused` and `FolderScan.SupportedInAnyCase` |
| FolderScan.IsSupported | PhotoCuller/MainWindow.xaml.cs:11 | definition: membership in the allowlist under the ignore-case comparer; characterised by `FolderScan.IsSupportedIgnoresCase` |
| FolderScan.Admitted | PhotoCuller/MainWindow.xaml.cs:68 | definition: the `Where` predicate on a path's extension; characterised by `FolderScan.ScanSelectsAndSorts` |
| FolderScan.IsSupportedIgnoresCase | PhotoCuller/MainWindow.xaml.cs:11 | two extensions that are equal ignoring case are both allowed or both refused |
| FolderScan.SupportedInAnyCase | PhotoCuller/MainWindow.xaml.cs:11-17 | `.JPG`, `.Jpeg`, `.cr3` and `.RAW` are allowed |
| FolderScan.ShortOrUndottedRefused | PhotoCuller/MainWindow.xaml.cs:11-17 | an extension shorter than four characters, or one not starting with a dot, is refused, since every allowed extension is a dot and three or more characters |
| FolderScan.Insert | PhotoCuller/MainWindow.xaml.cs:69 | definition: one insertion step of the stable sort; characterised by `FolderScan.InsertPermutes` and `FolderScan.InsertSorted` |
| FolderScan.SortBy | PhotoCuller/MainWindow.xaml.cs:69 | definition: `OrderBy` as a stable insertion sort; characterised by `FolderScan.SortBySorts` |
| FolderScan.Scan | PhotoCuller/MainWindow.xaml.cs:67-69 | definition: the filtered and sorted listing; characterised by `FolderScan.ScanSelectsAndSorts` |
| FolderScan.Before | PhotoCuller/MainWindow.xaml.cs:69 | definition: the `OrderBy` comparison, full paths under `OrdinalIgnoreCase`; characterised by `FolderScan.BeforeIsTotalPreorder` |
| FolderScan.BeforeIsTotalPreorder | PhotoCuller/MainWindow.xaml.cs:69 | the full-path `OrdinalIgnoreCase` order used by `OrderBy` is total and transitive |
| FolderScan.InsertPermutes | PhotoCuller/MainWindow.xaml.cs:69 | inserting into a sorted run adds exactly the new element and loses nothing |
| FolderScan.InsertKeepsLowerBound | PhotoCuller/MainWindow.xaml.cs:69 | a lower bound of a run and of the new element is still a lower bound after the insertion |
| FolderScan.InsertSorted | PhotoCuller/MainWindow.xaml.cs:69 | under a total preorder, inserting into a sorted run keeps it sorted |
| FolderScan.SortBySorts | PhotoCuller/MainWindow.xaml.cs:69 | the sort returns a sorted permutation of its input |
| FolderScan.FilterSortSelects | PhotoCuller/MainWindow.xaml.cs:67-69 | filtering then sorting gives a sorted sequence whose elements are exactly the input elements that pass, with their multiplicities |
| FolderScan.ScanSelectsAndSorts | PhotoCuller/MainWindow.xaml.cs:11-17 | the listing is sorted by path ignoring case and holds exactly the enumerated paths whose extension is one of the 23 allowed extensions, compared ignoring case, each as often as enumerated |
| Paths.OrdinalLeReflexive | PhotoCuller/MainWindow.xaml.cs:69 | the ordinal string order is reflexive |
| Paths.OrdinalLeTotal | PhotoCuller/MainWindow.xaml.cs:69 | any two strings are comparable in the ordinal order |
| Paths.OrdinalLeTransitive | PhotoCuller/MainWindow.xaml.cs:69 | the ordinal order is transitive |
| Paths.OrdinalLeAntisymmetric | PhotoCuller/MainWindow.xaml.cs:69 | two strings each ordinal-below the other are equal |
| Paths.LeIgnoreCaseTotalPreorder | PhotoCuller/MainWindow.xaml.cs:69 | the `OrdinalIgnoreCase` order is a total preorder, and its ties are exactly the strings that are equal ignoring case |
| Paths.FileName | PhotoCuller/MainWindow.xaml.cs:143 | definition: `Path.GetFileName`, the stem followed by the extension; `Review.RejectTarget` keeps it |
| Paths.FullName | PhotoCuller/MainWindow.xaml.cs:67-69 | definition: the full path string that is listed and sorted; `FolderScan.Before` compares it |
| Paths.Combine | PhotoCuller/MainWindow.xaml.cs:62 | definition: `Path.Combine` of a folder and a name, also used at lines 143 and 286; characterised by `Paths.CombineParts` |
| Paths.FoldCase | PhotoCuller/MainWindow.xaml.cs:69 | definition: the per-character upper-casing of `OrdinalIgnoreCase`; characterised by `Paths.FoldCaseIdempotent` |
| Paths.FoldCaseIdempotent | PhotoCuller/MainWindow.xaml.cs:69 | folding twice is folding once, and a folded string equals its source ignoring case |
| Paths.EqualsIgnoreCase | PhotoCuller/MainWindow.xaml.cs:11 | definition: `OrdinalIgnoreCase` equality; the ties of `Paths.LeIgnoreCaseTotalPreorder` |
| Paths.OrdinalLe | PhotoCuller/MainWindow.xaml.cs:69 | definition: the ordinal string order; characterised by `Paths.OrdinalLeReflexive`, `Paths.OrdinalLeTotal`, `Paths.OrdinalLeTransitive` and `Paths.OrdinalLeAntisymmetric` |
| Paths.LeIgnoreCase | PhotoCuller/MainWindow.xaml.cs:69 | definition: the `OrdinalIgnoreCase` order; characterised by `Paths.LeIgnoreCaseTotalPreorder` |
| Paths.CombineParts | PhotoCuller/MainWindow.xaml.cs:62 | `Path.Combine` keeps the folder as a prefix and the name as a suffix; when it adds a character between them, that character is a backslash |
| Paths.DigitChar | PhotoCuller/MainWindow.xaml.cs:286 | a decimal digit d renders as the character whose code is that of '0' plus d |
| Paths.DecimalString | PhotoCuller/MainWindow.xaml.cs:286 | the suffix number renders as a non-empty string of decimal digits, a single digit exactly when it is below 10; characterised by `Paths.DecimalStringInjective` |
| Paths.DecimalStringInjective | PhotoCuller/MainWindow.xaml.cs:286 | two numbers with the same decimal form are equal |
| Paths.Path | PhotoCuller/MainWindow.xaml.cs:280-282 | definition: a path split into its folder, its name without extension and its extension, as `GetDirectoryName`, `GetFileNameWithoutExtension` and `GetExtension` give them; characterised by `Paths.FileName` and `Paths.FullName` |
| Paths.UpperOrdinal | PhotoCuller/MainWindow.xaml.cs:69 | definition: the per-character upper-case fold of `OrdinalIgnoreCase`, for ASCII letters; characterised by `Paths.FoldCaseIdempotent` |
| Disk.CanMove | PhotoCuller/MainWindow.xaml.cs:147 | definition: when `File.Move` at lines 147 and 190 does not throw: permitted, the source exists and the destination is free; characterised by `Disk.FileSystem.Move` |
| Disk.AfterMove | PhotoCuller/MainWindow.xaml.cs:147 | after a move the source path is gone, the destination exists, and every other path is as it was |
| Disk.FileSystem.Exists | PhotoCuller/MainWindow.xaml.cs:135 | definition: `File.Exists` is membership in the set of existing paths; every `File.Exists` call of `MainWindow` goes through it |
| Disk.FileSystem.Move | PhotoCuller/MainWindow.xaml.cs:190 | the move succeeds exactly when it is permitted, the source exists and the destination is free; on success the source path becomes the destination, and on failure nothing changes |
| UniqueNames.SuffixLimit | PhotoCuller/MainWindow.xaml.cs:284 | definition: the loop bound 10000, so suffixes run from 1 to 9999; `UniqueNames.FirstFreeSuffix` states it |
| UniqueNames.Candidate | PhotoCuller/MainWindow.xaml.cs:280-286 | the i-th alternative name is in the same folder with the same extension and differs from the original path |
| UniqueNames.CandidateInjective | PhotoCuller/MainWindow.xaml.cs:284-286 | different suffixes give different names, so the loop's 9999 candidates are 9999 distinct paths |
| UniqueNames.FirstFreeSuffix | PhotoCuller/MainWindow.xaml.cs:284-291 | the suffix found is below 10000, its candidate is free and every earlier candidate is taken; there is no answer exactly when every candidate from the start up to 9999 is taken |
| UniqueNames.UniquePath | PhotoCuller/MainWindow.xaml.cs:273-294 | a returned path does not exist and lies in the requested folder |
| UniqueNames.UniquePathChoice | PhotoCuller/MainWindow.xaml.cs:273-294 | a free path is returned unchanged; for a taken one the search fails exactly when suffixes 1 to 9999 are all taken, and otherwise returns the first free candidate |
| UniqueNames.FirstFreeSuffixIsFirst | PhotoCuller/MainWindow.xaml.cs:284-291 | if candidate k is free and all from i up to k are taken, the search starting at i finds k |
| UniqueNames.UniquePathPicksFirstFree | PhotoCuller/MainWindow.xaml.cs:273-291 | for a taken path whose candidates 1 to k-1 are taken and whose candidate k is free, the result is candidate k |
| UniqueNames.RepeatedRequestAdvances | PhotoCuller/MainWindow.xaml.cs:273-291 | once the first free name is taken, asking again gives a different name with a larger suffix, or none |
| Review.Session | PhotoCuller/MainWindow.xaml.cs:19-24 | definition: the six fields, with the undo stack as a sequence whose last element is the top; `PhotoCuller.MainWindow.State` reads it from the class |
| Review.Initial | PhotoCuller/MainWindow.xaml.cs:19-24 | definition: the field initialisers, empty lists, cursor and count 0, no folders; characterised by `PhotoCuller.MainWindow.constructor` |
| Review.RejectFolderName | PhotoCuller/MainWindow.xaml.cs:62 | definition: the `_rejected` subfolder name; characterised by `ReviewLaws.LoadFolderStartsFresh` |
| Review.CursorOk | PhotoCuller/MainWindow.xaml.cs:212-213 | definition: a non-empty list has its cursor on one of its items; characterised by `Review.PruneMissing` and `Review.AfterLoadFolder`, whose results keep it |
| Review.IsWhiteSpace | PhotoCuller/MainWindow.xaml.cs:129 | definition: `Char.IsWhiteSpace` on the ASCII white space, U+0085 and U+00A0; characterised by `ReviewLaws.LoadFolderStartsFresh` |
| Review.Outcome | PhotoCuller/MainWindow.xaml.cs:151 | definition: what an operation reports, namely the message boxes at lines 151, 177 and 194, the exception at line 293, and the successful cases; characterised by `ReviewLaws.MoveToTrashOutcomes` and `ReviewLaws.UndoOutcomes` |
| Review.AllPresent | PhotoCuller/MainWindow.xaml.cs:215 | definition: every listed file exists, so `ShowCurrent` removes nothing; used by `ReviewLaws.PruneMissingAllPresent` |
| Review.NoDuplicates | PhotoCuller/MainWindow.xaml.cs:19 | definition: no path is listed twice; characterised by `ReviewLaws.NoDuplicatesByCount` |
| Review.MoveRecord | PhotoCuller/MainWindow.xaml.cs:296 | definition: the record of one reject, holding the original path, the moved path and the original index; `ReviewLaws.MoveToTrashMoves` says what a reject pushes and `ReviewLaws.UndoRestores` how undo uses it |
| Review.RejectTarget | PhotoCuller/MainWindow.xaml.cs:143 | the requested reject path lies in the reject folder and has the current file's name |
| Review.Clamp | PhotoCuller/MainWindow.xaml.cs:198 | `Math.Clamp` lies within its bounds, keeps a value that is already inside them, and turns a value below or above them into the lower or upper bound |
| Review.RemoveAt | PhotoCuller/MainWindow.xaml.cs:137 | `List.RemoveAt` shortens the list by one: the entries before the index stay where they are and the ones after it move down by one, in order; characterised by `Review.RemoveAtMultiset` |
| Review.InsertAt | PhotoCuller/MainWindow.xaml.cs:199 | `List.Insert` puts the new element at the index, with the entries before it unchanged and those from the index on shifted up by one |
| Review.IsNullOrWhiteSpace | PhotoCuller/MainWindow.xaml.cs:129 | definition: `string.IsNullOrWhiteSpace` on the reject folder; `ReviewLaws.LoadFolderStartsFresh` shows a loaded reject folder is never blank |
| Review.PruneMissing | PhotoCuller/MainWindow.xaml.cs:204-220 | an empty list is left as it is, cursor included; otherwise the result is an empty list, or a list with the cursor in range on an existing file; the list never grows |
| Review.RemoveAtMultiset | PhotoCuller/MainWindow.xaml.cs:137 | `RemoveAt` drops exactly one occurrence of the element at that index |
| Review.PruneMissingRemovesOnlyMissing | PhotoCuller/MainWindow.xaml.cs:212-220 | pruning only removes entries, and never an entry whose file exists |
| Review.AfterLoadFolder | PhotoCuller/MainWindow.xaml.cs:58-74 | after a load, whether or not its listing throws, the cursor is on an item or the list is empty |
| Review.AfterMoveNext | PhotoCuller/MainWindow.xaml.cs:113-125 | keep preserves a valid cursor |
| Review.AfterMoveToTrash | PhotoCuller/MainWindow.xaml.cs:127-164 | after a reject the cursor is on an item or the list is empty |
| Review.AfterUndo | PhotoCuller/MainWindow.xaml.cs:166-202 | undo preserves a valid cursor |
| ReviewLaws.PruneMissingAllPresent | PhotoCuller/MainWindow.xaml.cs:212-220 | when every listed file exists, `ShowCurrent` only clamps the cursor into the list |
| ReviewLaws.PruneMissingFromFrontIsSuffix | PhotoCuller/MainWindow.xaml.cs:212-219 | pruning that starts on the first entry only drops leading entries, so what remains is a suffix of the list |
| ReviewLaws.PruneMissingFromFront | PhotoCuller/MainWindow.xaml.cs:72-73 | pruning that starts on the first entry leaves the cursor on the first entry |
| ReviewLaws.LoadFolderStartsFresh | PhotoCuller/MainWindow.xaml.cs:58-73 | a load whose listing succeeds clears the history, sets the cursor to 0, records the initial count and the folder, and sets the reject folder to `<folder>\_rejected`, which is never blank |
| ReviewLaws.LoadFolderListingFails | PhotoCuller/MainWindow.xaml.cs:60-67 | a load whose listing throws leaves both folders set, the list and the history empty, and the old cursor and initial count; keep, reject and undo then change nothing |
| ReviewLaws.LoadFolderListsAllowedFiles | PhotoCuller/MainWindow.xaml.cs:65-73 | every listed file was enumerated and has an allowed extension, and every existing enumerated file with an allowed extension is listed |
| ReviewLaws.LoadFolderSorted | PhotoCuller/MainWindow.xaml.cs:65-73 | even when some enumerated files are missing, the loaded list is a suffix of the sorted filtered listing, and so is sorted ignoring case |
| ReviewLaws.LoadFolderAllPresent | PhotoCuller/MainWindow.xaml.cs:65-72 | when every enumerated file exists, the list is exactly the filtered listing sorted ignoring case |
| ReviewLaws.MoveNextSteps | PhotoCuller/MainWindow.xaml.cs:113-125 | keep leaves the history and folders alone and never adds entries; it changes nothing on an empty list or on the last item; otherwise, when the next file exists, it only increments the cursor |
| ReviewLaws.MoveToTrashOutcomes | PhotoCuller/MainWindow.xaml.cs:127-153 | a reject is ignored exactly when the list is empty or the reject folder is blank; it drops a stale entry exactly when the current file is missing; it runs out of names, fails to move or succeeds according to the name search and the move |
| ReviewLaws.MoveToTrashFailureChangesNothing | PhotoCuller/MainWindow.xaml.cs:145-153 | an ignored reject, an exhausted name search or a failed move changes neither the session nor the disk |
| ReviewLaws.MoveToTrashPrunesStale | PhotoCuller/MainWindow.xaml.cs:134-140 | a reject of a missing file removes its entry, pushes nothing and leaves the disk alone; when the rest of the list exists, exactly that entry is removed |
| ReviewLaws.MoveToTrashMoves | PhotoCuller/MainWindow.xaml.cs:142-163 | a successful reject moves the current file to the unique free name in the reject folder, pushes (current, destination, old index) and shortens the list; when all files exist and none is listed twice, exactly that entry goes and the cursor becomes `Count-1` if it was past the end |
| ReviewLaws.UndoOnEmptyHistory | PhotoCuller/MainWindow.xaml.cs:168-172 | undo on an empty history changes nothing |
| ReviewLaws.UndoPopsOneRecord | PhotoCuller/MainWindow.xaml.cs:174-196 | otherwise undo pops exactly one record, and unless it restores the file, the list, the cursor and the disk are unchanged |
| ReviewLaws.UndoOutcomes | PhotoCuller/MainWindow.xaml.cs:174-196 | which undo outcome occurs: a missing moved file, an exhausted name search, a refused move or a restore, each stated by an if-and-only-if |
| ReviewLaws.UndoRestores | PhotoCuller/MainWindow.xaml.cs:182-201 | a restore uses the original path if it is free and otherwise its unique free variant, inserts it at the original index clamped to `[0, Count]`, puts the cursor there and grows the list by one |
| ReviewLaws.RejectThenUndoRoundTrip | PhotoCuller/MainWindow.xaml.cs:155-200 | on a list whose files all exist and that lists no path twice, a reject followed at once by a permitted undo restores the same list, cursor, history and disk, with the path back at its index; a refused undo still leaves the history as it was before the reject |
| ReviewLaws.HistoryLockstep | PhotoCuller/MainWindow.xaml.cs:155-174 | the history grows by one exactly on a successful reject, and shrinks by one on every undo with a record |
| ReviewLaws.NoDuplicatesByCount | PhotoCuller/MainWindow.xaml.cs:19 | a list has no repeats exactly when every path occurs in it at most once |
| ReviewLaws.CountOfDistinct | PhotoCuller/MainWindow.xaml.cs:19 | in a list without repeats every path occurs at most once |
| ReviewLaws.NoDuplicatesShrink | PhotoCuller/MainWindow.xaml.cs:137 | removing entries from a list without repeats cannot create one |
| ReviewLaws.PruneMissingKeepsDistinct | PhotoCuller/MainWindow.xaml.cs:212-219 | `ShowCurrent` keeps a list without repeats free of them |
| ReviewLaws.LoadFolderKeepsDistinct | PhotoCuller/MainWindow.xaml.cs:65-73 | a load of a listing without repeats, or a load whose listing throws, gives a list without repeats |
| ReviewLaws.MoveNextKeepsDistinct | PhotoCuller/MainWindow.xaml.cs:113-125 | keep keeps the list free of repeats |
| ReviewLaws.MoveToTrashList | PhotoCuller/MainWindow.xaml.cs:134-163 | the list after a reject is unchanged, or is the list with the current entry removed and then pruned, from the old cursor clamped to the end after a move |
| ReviewLaws.RemoveThenPruneOnlyRemoves | PhotoCuller/MainWindow.xaml.cs:137-138 | removing an entry and then pruning never adds an entry |
| ReviewLaws.MoveToTrashOnlyRemoves | PhotoCuller/MainWindow.xaml.cs:127-164 | a reject never adds an entry to the list |
| ReviewLaws.MoveToTrashKeepsDistinct | PhotoCuller/MainWindow.xaml.cs:127-164 | reject keeps the list free of repeats |
| ReviewLaws.InsertFreshKeepsDistinct | PhotoCuller/MainWindow.xaml.cs:199 | inserting a path that is not listed yet keeps the list free of repeats |
| ReviewLaws.UndoKeepsDistinct | PhotoCuller/MainWindow.xaml.cs:182-201 | when every listed file exists, undo keeps the list free of repeats, because the restore path is free on disk and so not listed yet |
| PhotoCuller.MainWindow.constructor | PhotoCuller/MainWindow.xaml.cs:19-29 | a new window has an empty list and history, cursor 0 and no folders |
| PhotoCuller.MainWindow.HasFiles | PhotoCuller/MainWindow.xaml.cs:254-256 | definition: Keep and Reject are enabled when the list is non-empty |
| PhotoCuller.MainWindow.CanUndo | PhotoCuller/MainWindow.xaml.cs:257 | definition: Undo is enabled when the history is non-empty |
| PhotoCuller.MainWindow.LoadFolder | PhotoCuller/MainWindow.xaml.cs:58-74 | the fields become the load transition of the old state and the folder listing, including the listing that throws |
| PhotoCuller.MainWindow.MoveNext | PhotoCuller/MainWindow.xaml.cs:113-125 | the fields become the keep transition |
| PhotoCuller.MainWindow.MoveCurrentToTrash | PhotoCuller/MainWindow.xaml.cs:127-164 | the fields, the disk and the reported outcome are those of the reject transition |
| PhotoCuller.MainWindow.UndoLastMove | PhotoCuller/MainWindow.xaml.cs:166-202 | the fields, the disk and the reported outcome are those of the undo transition |
| PhotoCuller.MainWindow.ShowCurrent | PhotoCuller/MainWindow.xaml.cs:204-220 | the recursive prune leaves the list and cursor as `PruneMissing` says, and terminates because each call removes an entry |
| PhotoCuller.MainWindow.GetUniquePath | PhotoCuller/MainWindow.xaml.cs:273-294 | the suffix loop returns what `UniquePath` specifies, so never an existing path |

## Left out

- The WPF window, its event handlers and key bindings, and the folder dialog: they only call the operations above. The dialog is the only reader of `_sourceFolder`, which the model stores but does not use.
- Message boxes appear as `Outcome` values.
- The image preview (`LoadPreview`, `BitmapImage`) and its fallback text.
- The button states and the empty-state texts of `UpdateButtons` and `ShowEmptyState`. The queries `HasFiles` and `CanUndo` expose the two conditions the buttons use.
- `Directory.CreateDirectory` for the reject folder, and a failure of it. The set of paths models files only.
- Real file-system semantics: atomicity of moves, other processes changing files while an operation runs, and the actual contents of a folder listing.
- Disk.FileSystem.Exists: a path exists only when the exact `Path` value is in the set, so letter case matters. Windows file names ignore case. So for a disk holding `T\img.jpg`, `UniqueNames.UniquePath` returns `T\IMG.JPG` itself, where the C# code sees that name as taken and returns `T\IMG_1.JPG`. The same holds for every `File.Exists` and `File.Move` in the model.
- The exact .NET rules of `Path.Combine`, `GetFileName`, `GetFileNameWithoutExtension` and `GetExtension`. A path is already split into folder, stem and extension.
- Paths.OrdinalLe: the order compares Unicode code points, while .NET's ordinal comparison compares UTF-16 code units. The two differ for characters above U+FFFF. Their surrogates (U+D800 to U+DFFF) sort below U+E000 to U+FFFF in .NET, but above them here. So the model lists a name starting with U+1F600 after one starting with the fullwidth U+FF5E, the opposite of `OrderBy`.
- Case folding beyond ASCII letters. `OrdinalIgnoreCase` also folds non-ASCII letters; here only 'a' to 'z' fold.
- `Char.IsWhiteSpace` beyond the ASCII white space, U+0085 and U+00A0.
- FolderScan.SortBySorts: the stability of `OrderBy` is not proved. The model sorts stably, like `OrderBy`, but the proof states only that the result is sorted and holds the same elements.
- FolderScan.ScanSelectsAndSorts: likewise, it does not state that paths that are equal ignoring case keep their enumeration order.
- ReviewLaws.MoveNextSteps: "keep never changes the list" is proved only when the next file exists. Otherwise the `ShowCurrent` after the step drops the vanished entries, and the lemma states only that no entry is added.
- ReviewLaws.MoveToTrashPrunesStale: "exactly that entry is removed" is proved only when the rest of the list exists, for the same reason.
- ReviewLaws.MoveToTrashMoves: "the list shrinks by exactly one" is proved only when every listed file exists and no path is listed twice. In general the lemma states only that the list gets shorter.
- Review.CursorOk: on an empty list any cursor is accepted. An aborted load keeps the old cursor on an emptied list, so the model does not promise that an empty list's cursor is -1 or 0. No operation reads the cursor of an empty list.
- Review.NoDuplicates: the list can come to hold the same path twice, so distinctness is proved only operation by operation. Keep and reject preserve it. A load gives it when the listing has no repeats. Undo preserves it only when every listed file exists. Example: the list is `[y.jpg, x_1.jpg]`, and `x_1.jpg` was deleted by another program. The newest record is `(x.jpg, _rejected\x.jpg, 0)`, and a new `x.jpg` was created. Undo then restores to the free name `x_1.jpg` and inserts it, giving `[x_1.jpg, y.jpg, x_1.jpg]`. The C# code does the same.
- The model records the state at an exception that leaves an operation (a listing that throws, or an exhausted name search) and lets the session go on from it. By default WPF shuts the application down when an exception escapes a click handler, and no handler for unhandled exceptions is part of this model.
