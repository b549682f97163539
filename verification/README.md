# Autobackup to USB: the manifest parser and the backup walk

This project models the core of a Windows service. When a removable storage device
arrives, the service reads the device's `.autobackup` manifest and copies the files and
folders it names onto the device. A file is copied only when the device holds no copy
that is at least as recent.

The model has two halves:

- **The manifest parser** (`Manifest`). `parseFile` reads the manifest line by line:
  - an empty line or a `#` line is skipped;
  - a `-` line appends `line.substr(2)` to the neglected-files list;
  - a `+` line is split at the first `" ==> "` into a local location and a media location.

  The two lists are static vectors. They are never cleared, so every arrival appends to
  what earlier arrivals left. `isIgnored` is a linear search of the neglected list.
- **The backup walk** (`StoragePaths`, `BackupEngine`, `DeviceArrival`).
  - `getFolderPathOnStorage` mirrors a folder as its last `\`-separated component under
    the storage folder.
  - `backup` descends into a folder's entries, skipping `.` and `..`, and creates the
    mirrored folder first when it is missing.
  - `backupFile` compares 64-bit `FILETIME` values. It skips the copy when the local file
    is not newer and otherwise calls `CopyFileW` with overwriting.
  - The arrival handler runs `backup(localFileLoc, device)` for every accumulated entry,
    in order.

Supporting modules:

- `Wrappers` holds `Option`.
- `WideString` holds the `std::wstring` operations the code uses, with 64-bit `size_t`
  arithmetic written out. `npos` is 2^64 − 1, and `splitPos - 2`, `splitPos + 5` and
  `find_last_of + 1` wrap modulo 2^64. `substr` yields `None` where it throws
  `std::out_of_range`.
- `FileTime` holds `FILETIME` and `ULARGE_INTEGER.QuadPart`.

The outside world enters only as parameters:

- The local disk is a function from path to `Node`:
  - a file carries the time `getFileInfo` reads, or `None` when `CreateFileW` fails;
  - a folder carries its enumerated entries in order.
- The storage device is a map from path to folder or file.
- A `World` names the paths where `CreateDirectoryW` or `CopyFileW` fails. Because it is
  arbitrary, it also covers a copy into a folder that could not be created.

The walk returns the list of actions it takes (create folder, copy, skip), each with its
outcome, together with the storage device afterwards.

Behaviour of the code worth noting:

- Nothing is trimmed.
- A `+` line without `" ==> "` still reads:
  - with at least 4 characters it reads as (`line[2..]`, `line[4..]`);
  - with fewer it throws `out_of_range`, which leaves the handler with the earlier
    lines already appended and nothing backed up.
- A `+` line whose delimiter starts at index 1 (`"+ ==> x"`) makes `splitPos - 2` wrap
  around, so its local location is all of `line[2..]`.
- A folder that cannot be created is still descended into.
- The lists persist across arrivals. A device's entries are backed up again on every
  later arrival of a device whose `.autobackup` exists and parses completely; an arrival
  without a manifest, or whose parse throws, backs up nothing.
- Neither the media location nor the neglected list is consulted by the backup.

## Model

| member | source | states |
|---|---|---|
| WideString.SizeSub | WindowsAutobackupToUSB/AutobackupFileUtil.cpp:59 | `size_t` subtraction: the plain difference when it does not underflow, otherwise the difference plus 2^64 |
| WideString.SizeAdd | WindowsAutobackupToUSB/AutobackupFileUtil.cpp:60 | `size_t` addition, as in `splitPos+strlen(FILE_DATA_DELIM)` here and in `find_last_of(L"\\")+1` at AutobackupService.cpp:226: the plain sum when it stays below 2^64, otherwise the sum less 2^64, so `npos + 1` is 0 |
| WideString.Substr | WindowsAutobackupToUSB/AutobackupFileUtil.cpp:59-60 | `substr(pos, count)` fails exactly when `pos` is past the end, and yields the rest of the string when `count` reaches past it |
| WideString.SubstrToEnd | WindowsAutobackupToUSB/AutobackupFileUtil.cpp:54 | `substr(pos)` fails exactly when `pos` is past the end, and otherwise yields everything from `pos` on |
| WideString.Find | WindowsAutobackupToUSB/AutobackupFileUtil.cpp:58 | `find` yields the first occurrence of the pattern, and nothing exactly when the pattern does not occur |
| WideString.LastIndexOf | WindowsAutobackupToUSB/AutobackupService.cpp:226 | `find_last_of` on one character yields a position holding it with none after it, and nothing exactly when it is absent |
| Manifest.ReadLine | WindowsAutobackupToUSB/AutobackupFileUtil.cpp:50-64 | a line that starts with neither `+` nor `-` (including empty and `#` lines) adds nothing; a `+` line that reads gives a backup entry, and a `-` line that reads gives a neglected path |
| Manifest.IgnoreLineNeglectsRemainder | WindowsAutobackupToUSB/AutobackupFileUtil.cpp:53-55 | a `-` line neglects everything after its first two characters, unmodified, and throws when shorter than two |
| Manifest.BackupLineSplitsAtFirstDelimiter | WindowsAutobackupToUSB/AutobackupFileUtil.cpp:57-61 | a `+` line whose first `" ==> "` starts at index p ≥ 2 reads as (`line[2..p]`, everything after that delimiter) |
| Manifest.BackupLineDelimiterAtOne | WindowsAutobackupToUSB/AutobackupFileUtil.cpp:58-60 | when the first delimiter starts at index 1, `splitPos - 2` wraps and the local location is all of `line[2..]` |
| Manifest.BackupLineWithoutDelimiter | WindowsAutobackupToUSB/AutobackupFileUtil.cpp:58-60 | without a delimiter, `npos` arithmetic makes the line read as (`line[2..]`, `line[4..]`), and a line shorter than 4 throws |
| Manifest.ReadLineFailsIffOutOfRange | WindowsAutobackupToUSB/AutobackupFileUtil.cpp:53-60 | a line fails to read exactly when it is a `-` line shorter than 2, or a `+` line without a delimiter shorter than 4 |
| Manifest.WrittenDirectiveReadsBack | WindowsAutobackupToUSB/AutobackupFileUtil.cpp:57-61 | `"+ " + a + " ==> " + b` reads back as (a, b) whenever `a` holds no `>`, which no Windows path does |
| Manifest.DirectiveWithArrowInLocalPath | WindowsAutobackupToUSB/AutobackupFileUtil.cpp:58-60 | for example, a local path ending in `" ==>"` does not read back: `"+ p ==> ==> b"` gives ("p", "==> b"); the general rule is `BackupLineSplitsAtFirstDelimiter` |
| Manifest.LocalPathHasNoDelimiter | WindowsAutobackupToUSB/AutobackupFileUtil.cpp:58-59 | the local location read from a `+` line never contains the delimiter, unless the delimiter starts at index 1 |
| Manifest.Apply | WindowsAutobackupToUSB/AutobackupFileUtil.cpp:54-61 | a directive is pushed back onto the end of its own list and the other list stays as it was: a `-` directive adds its path at the end of the neglected list only, a `+` directive adds its entry at the end of the backup list only, and an empty line or comment changes neither |
| Manifest.ParseLines | WindowsAutobackupToUSB/AutobackupFileUtil.cpp:46-66 | parsing only appends to both lists, and a parse that throws names a line of the manifest |
| Manifest.ParseAppliesDirectivesInOrder | WindowsAutobackupToUSB/AutobackupFileUtil.cpp:47-65 | the parse completes exactly when every line reads, and then its lists are the lines' directives appended in line order |
| Manifest.ApplyOnPriorLists | WindowsAutobackupToUSB/AutobackupFileUtil.cpp:17-18 | a push_back onto lists that already hold earlier directives keeps them in front |
| Manifest.ParseOnPriorLists | WindowsAutobackupToUSB/AutobackupFileUtil.cpp:17-18 | parsing on top of earlier lists stops at the same line and leaves the earlier lists in front of what a parse from scratch leaves |
| Manifest.ParseCountsDirectives | WindowsAutobackupToUSB/AutobackupFileUtil.cpp:53-62 | a completed parse appends one entry per `+` line and one neglected path per `-` line |
| Manifest.ParseStopsAtFailingLine | WindowsAutobackupToUSB/AutobackupFileUtil.cpp:47-61 | an aborted parse keeps exactly what the lines before the failing one appended, and the failing line is one that throws |
| Manifest.MixedManifest | WindowsAutobackupToUSB/AutobackupFileUtil.cpp:46-66 | a manifest of a comment, an empty line, a `-` line and a `+` line yields one neglected path and one entry |
| Manifest.FindNeglected | WindowsAutobackupToUSB/AutobackupFileUtil.cpp:79 | `std::find` yields the first index holding the path, or the end when none does |
| Manifest.IsIgnored | WindowsAutobackupToUSB/AutobackupFileUtil.cpp:77-80 | a path is ignored exactly when it is on the neglected list |
| FileTime.QuadPart | WindowsAutobackupToUSB/AutobackupService.cpp:197-202 | the 64-bit value is below 2^64 and gives back the low part as its remainder and the high part as its quotient by 2^32 |
| FileTime.QuadPartOrderIsLexicographic | WindowsAutobackupToUSB/AutobackupService.cpp:205 | comparing `QuadPart` values orders times by high part, then low part |
| StoragePaths.FolderPathOnStorage | WindowsAutobackupToUSB/AutobackupService.cpp:224-229 | the mirrored path is the storage folder, a `\`, and the last `\`-free component of the folder path (all of it when there is no `\`) |
| StoragePaths.LastComponentIsUnique | WindowsAutobackupToUSB/AutobackupService.cpp:226 | a path has only one last component |
| StoragePaths.MirroredChildFolder | WindowsAutobackupToUSB/AutobackupService.cpp:163-172 | a sub-folder `dir\name` is mirrored as `name` under the storage folder |
| StoragePaths.FileName | WindowsAutobackupToUSB/AutobackupService.cpp:186 | `PathFindFileNameW` yields a suffix of the path that starts after a delimiter followed by a non-slash, with no later such start |
| StoragePaths.FileNameOfChild | WindowsAutobackupToUSB/AutobackupService.cpp:172 | the file name of `dir\name` is `name` for a plain entry name |
| BackupEngine.ListDirFiles | WindowsAutobackupToUSB/AutobackupService.cpp:381-387 | the listed names are exactly the enumerated entries other than `.` and `..` |
| BackupEngine.ListDirFilesKeepsOrder | WindowsAutobackupToUSB/AutobackupService.cpp:381-387 | the filter keeps enumeration order |
| BackupEngine.MediaFileInfo | WindowsAutobackupToUSB/AutobackupService.cpp:131-146 | `getFileInfo` on a file that exists at the path yields that file's time (NULL when it cannot be opened), and a missing path or a folder yields NULL |
| BackupEngine.CopySucceeds | WindowsAutobackupToUSB/AutobackupService.cpp:215 | `CopyFileW` fails onto a folder and wherever the world makes it fail |
| BackupEngine.MediaFilePath | WindowsAutobackupToUSB/AutobackupService.cpp:186-190 | a file's destination lies directly inside the storage folder, under the local file's own name when that name is plain |
| BackupEngine.BackupFile | WindowsAutobackupToUSB/AutobackupService.cpp:181-222 | an unreadable local file does nothing; otherwise the copy is skipped exactly when the destination has a readable time not earlier than the local one; a copy overwrites unless the world or a folder at the destination makes it fail, and carries the local time over |
| BackupEngine.FailedCopyIsRetried | WindowsAutobackupToUSB/AutobackupService.cpp:215-218 | a failed copy, taken to leave its destination as it was, leaves the device unchanged, so the next run attempts the same copy again |
| BackupEngine.EnsureFolder | WindowsAutobackupToUSB/AutobackupService.cpp:163-169 | the mirrored folder is created only when nothing exists at that path, and is there afterwards exactly when creation succeeds |
| BackupEngine.Backup | WindowsAutobackupToUSB/AutobackupService.cpp:148-179 | every folder creation, copy and skip of a walk lies inside the storage folder it was given |
| BackupEngine.BackupChildren | WindowsAutobackupToUSB/AutobackupService.cpp:171-173 | the walk over a folder's entries acts only inside that folder's mirrored folder |
| BackupEngine.MissingFolderCreatedFirst | WindowsAutobackupToUSB/AutobackupService.cpp:163-169 | a folder's walk starts by creating its mirrored folder exactly when nothing is at that path, and the creation's outcome is the world's |
| BackupEngine.DecisionsFollowPlan | WindowsAutobackupToUSB/AutobackupService.cpp:148-179 | every readable file of a tree gets exactly one copy-or-skip decision, in walk order, against its planned destination, whatever the device holds and whatever fails |
| BackupEngine.PlanCountsReadableFiles | WindowsAutobackupToUSB/AutobackupService.cpp:157-173 | the plan holds one decision per readable file of the tree |
| BackupEngine.ChildLandsInMirroredFolder | WindowsAutobackupToUSB/AutobackupService.cpp:163-172 | a file entry of a folder goes to the mirrored folder plus its name, and a sub-folder entry is mirrored under it |
| BackupEngine.BackupKeepsMedia | WindowsAutobackupToUSB/AutobackupService.cpp:148-222 | with failed copies taken to leave their destinations as they were, the walk removes nothing from the device, turns no folder into a file, and makes no copy older |
| BackupEngine.BackupChangesOnlyWritten | WindowsAutobackupToUSB/AutobackupService.cpp:148-222 | with failed copies taken to leave their destinations as they were, the walk changes the device only at paths of folder creations and copies that succeeded: every other path is present, absent and unchanged as before |
| BackupEngine.BackupChildrenChangeOnlyWritten | WindowsAutobackupToUSB/AutobackupService.cpp:171-173 | the same frame for the walk over a folder's entries |
| BackupEngine.WrittenAreDestinations | WindowsAutobackupToUSB/AutobackupService.cpp:148-222 | every path the walk writes is a planned folder or file destination |
| BackupEngine.FreshDestinationsAreAllAttempted | WindowsAutobackupToUSB/AutobackupService.cpp:148-222 | when the destinations are pairwise distinct and none is on the device, the walk skips nothing, attempts one creation per folder and one copy per readable file |
| BackupEngine.WellNamedDestinationsAreDistinct | WindowsAutobackupToUSB/AutobackupService.cpp:163-190 | when every folder's entries have distinct plain names, no two folders or files of the tree share a destination |
| BackupEngine.WellNamedTreeOnFreshDevice | WindowsAutobackupToUSB/AutobackupService.cpp:148-222 | a tree with distinct plain entry names, onto a device holding none of its destinations: nothing skipped, one folder creation per folder, one copy per readable file |
| BackupEngine.SuccessfulRunLeavesPlanUpToDate | WindowsAutobackupToUSB/AutobackupService.cpp:196-218 | after a run whose copies all succeed, every readable file has a copy at its destination that is not older |
| BackupEngine.UpToDatePlanCopiesNothing | WindowsAutobackupToUSB/AutobackupService.cpp:196-211 | a walk over files whose destinations are all up to date skips every one |
| BackupEngine.SecondRunCopiesNothing | WindowsAutobackupToUSB/AutobackupService.cpp:148-222 | running the walk again after a run whose copies all succeeded copies nothing |
| DeviceArrival.OnArrival | WindowsAutobackupToUSB/AutobackupService.cpp:297-305 | a device without a manifest changes nothing, and an arrival never drops an entry of the earlier files list or the earlier neglected list |
| DeviceArrival.BackupReadsOnlyLocalPaths | WindowsAutobackupToUSB/AutobackupService.cpp:302-304 | entries with the same local locations are backed up identically, whatever their media locations |
| DeviceArrival.BackupEntries | WindowsAutobackupToUSB/AutobackupService.cpp:302-304 | the entry loop acts only inside the arrived device |
| DeviceArrival.BackupEntriesChangesOnlyWritten | WindowsAutobackupToUSB/AutobackupService.cpp:302-304 | with failed copies taken to leave their destinations as they were, the entry loop changes the device only at paths some entry created or copied to |
| DeviceArrival.EntriesDecisionsFollowPlan | WindowsAutobackupToUSB/AutobackupService.cpp:302-304 | the entry loop decides each readable file of each entry's tree once, in entry order |
| DeviceArrival.BackupEntriesKeepsMedia | WindowsAutobackupToUSB/AutobackupService.cpp:302-304 | with failed copies taken to leave their destinations as they were, the entry loop removes nothing from the device and makes no copy older |
| DeviceArrival.SuccessfulEntriesLeavePlanUpToDate | WindowsAutobackupToUSB/AutobackupService.cpp:302-304 | after a loop whose copies all succeed, every planned file is up to date on the device |
| DeviceArrival.UpToDateEntriesCopyNothing | WindowsAutobackupToUSB/AutobackupService.cpp:302-304 | a loop over entries that are all up to date copies nothing |
| DeviceArrival.ArrivalReplaysAccumulatedEntries | WindowsAutobackupToUSB/AutobackupService.cpp:299-304 | an arrival backs up exactly when the manifest parses on its own; it then decides the earlier arrivals' entries first and the manifest's own after them; it otherwise stops at the same line; either way the lists grow by the manifest's directives |
| DeviceArrival.NeglectedFilesAreNotConsulted | WindowsAutobackupToUSB/AutobackupService.cpp:302-304 | the neglected list does not change what an arrival backs up |
| DeviceArrival.RepeatedArrivalCopiesNothing | WindowsAutobackupToUSB/AutobackupService.cpp:299-304 | the same device arriving again with the same manifest and an unchanged disk, after all copies succeeded, copies nothing though its entries are now listed twice |

## Left out

- The service lifecycle, the event-log and log-file writing, and the notification plumbing up to the device name are not modelled. Logging has no effect on the outcome.
- A manifest that cannot be opened is not modelled. `deviceHasAutobackupFile` (AutobackupFileUtil.cpp:37) opens it for reading and writing; when that fails (a read-only `.autobackup`, a write-protected volume, or a folder named `.autobackup`, which `FindFirstFile` at line 32 also matches), `getline` at line 49 only sets the fail bit, `eof()` at line 47 never becomes true, and `parseFile` loops forever on empty lines. The manifest parameter, lines or nothing, cannot express that.
- The conversion of the manifest's bytes into wide characters by `wfstream`'s default locale is not modelled. A byte-order mark or non-ASCII bytes do not reach the parser as the characters the user wrote; the model receives the characters themselves.
- Surrogate pairs are not modelled. A Dafny character is a whole Unicode scalar value, while a `wchar_t` holds a UTF-16 code unit, so a character outside the Basic Multilingual Plane counts as one character here and as two in the source's lengths and positions.
- A junction or symbolic-link cycle is not modelled. It makes `backup` (AutobackupService.cpp:154-173) recurse without end, and a finite `Node` tree cannot express that.
- `deviceHasAutobackupFile` is not modelled. The model receives the manifest's lines, or nothing when the device has no `.autobackup` file.
- Splitting the file stream into lines is not modelled. `getline` and `eof` reach the parse as a sequence of lines.
- An exception that escapes the device handler ends the arrival. What the service process does next is not modelled.
- Storage paths are compared as exact strings. Windows resolves them case-insensitively, so when `dev\F.txt` and `dev\f.txt` are both backed up, `getFileInfo` (AutobackupService.cpp:191) finds the first copy for the second file and the check at line 205 can skip it, where the model copies.
- An existing folder that cannot be listed is not modelled. `listDirFiles` (AutobackupService.cpp:370-387) only logs an invalid handle from `FindFirstFile` and then reads the unfilled find record anyway, for example on access denied; `Dir(entries)` always has an enumeration to offer.
- `GetFileAttributesW` on a missing path is not modelled. It returns `INVALID_FILE_ATTRIBUTES`, which the code treats as a folder, and `listDirFiles` then reads an unfilled find record. The disk is a total function, so every path names a file or a folder.
- `wcscpy_s`/`wcscat_s` with a 255-character bound are not modelled. A longer destination path invokes the invalid-parameter handler.
- `MAX_PATH` truncation in `StringCchCopy`/`StringCchCat` is not modelled.
- Memory management (`new`/`delete`, leaks) is not modelled.
- Embedded NUL characters are not modelled. Passing paths through `c_str()` would cut them short.
- Timestamp granularity of the device's file system is not modelled. `CopyFileW` is taken to carry the last-write time over exactly.
- What a failed `CopyFileW` leaves at its destination is not modelled. The model takes a failed copy to leave the device exactly as it was. With overwriting on (AutobackupService.cpp:215), a copy that fails part-way, on a full device or a device pulled out mid-copy, can leave the older copy truncated, partly written or deleted. A truncated copy carries the time of the interrupted write, so a later run may skip it as up to date.
- BackupEngine.FailedCopyIsRetried: holds only under the assumption that a failed `CopyFileW` leaves its destination as it was. A copy interrupted after it opened the destination can leave a newer partial file, which the next run skips rather than retries.
- BackupEngine.BackupKeepsMedia: "removes nothing and makes no copy older" holds only under the assumption that a failed `CopyFileW` leaves its destination as it was. In the program a failed copy can truncate or delete the earlier copy at that destination.
- BackupEngine.BackupChangesOnlyWritten: the frame covers folder creations and successful copies only, under the assumption that a failed `CopyFileW` leaves its destination as it was. In the program the destination of a failed copy can change too.
- BackupEngine.BackupChildrenChangeOnlyWritten: the same frame over a folder's entries, under the same assumption that a failed `CopyFileW` leaves its destination as it was.
- DeviceArrival.BackupEntriesChangesOnlyWritten: the frame of the entry loop rests on the same assumption, that a failed `CopyFileW` leaves its destination as it was. In the program the destination of a failed copy can change too.
- DeviceArrival.BackupEntriesKeepsMedia: "removes nothing and makes no copy older" for the entry loop rests on the same assumption, that a failed `CopyFileW` leaves its destination as it was. In the program a failed copy can truncate or delete the earlier copy.
- The behaviour of `PathFindFileNameW` comes from its documentation, because the library routine is not part of this model.
- BackupEngine.WellNamedTreeOnFreshDevice: states the counts of folder creations and copies only for one tree whose folders have distinct plain entry names, onto a device holding none of its destinations. Several sources reach one destination when two manifest entries share their last component (`C:\x\data` and `D:\y\data` both map to `dev\data`), when an entry is listed twice after repeated arrivals, or when names differ only in case; the later ones are then skipped or overwrite.
- Manifest.BackupLineSplitsAtFirstDelimiter: requires the line to be shorter than `npos`, which `std::wstring::max_size` guarantees for any real string.
- Manifest.BackupLineDelimiterAtOne: requires the line to be shorter than `npos`, which `std::wstring::max_size` guarantees for any real string.
- Manifest.BackupLineWithoutDelimiter: requires the line to be shorter than `npos`, which `std::wstring::max_size` guarantees for any real string.
- Manifest.ReadLineFailsIffOutOfRange: requires the line to be shorter than `npos`, which `std::wstring::max_size` guarantees for any real string.
- Manifest.WrittenDirectiveReadsBack: requires the line to be shorter than `npos`, which `std::wstring::max_size` guarantees for any real string.
- Manifest.LocalPathHasNoDelimiter: requires the line to be shorter than `npos`, which `std::wstring::max_size` guarantees for any real string.
- Manifest.MixedManifest: requires the line to be shorter than `npos`, which `std::wstring::max_size` guarantees for any real string.
- `getBackupFilesList` and `getNeglectedFilesList` are the two fields of `Manifest.Lists`. They return the static vectors unchanged.
