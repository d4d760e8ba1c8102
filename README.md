# MRC file mover: a Dafny model of the transfer pipeline

The repository moves `*.mrc` files out of a watched source directory into a
destination directory. It ships three variants of a class `MRCFileMover`:

- `mrc_mover_simple.py` copies each file, compares MD5 digests of source
  and copy, and deletes the source only when they agree. When they differ it
  deletes the copy instead.
- `file_mover.py` moves each file with one `shutil.move`.
- `mrc_mover_gui.py` is `file_mover.py` plus a `running` flag. The GUI's Stop
  button clears it with `stop()`. The scan loop checks it before each file.

All three share a readiness probe and a scan pass. The probe takes two size
readings one second apart. The scan pass filters the listing for `*.mrc`
names and skips names already in the in-memory set `processed_files`. A name
goes into that set only when its transfer returns true.

This project models one pass of each variant over an abstract filesystem and
proves what the pass does for every possible answer of the filesystem.

## Layout

- `files.dfy`, module `Files`: the filesystem is a map from `Path(dir, name)`
  to bytes. The module holds the size probe (`IsFileReady`) and the `*.mrc`
  filter (`MrcNames`). It models the library calls the movers make:
  `shutil.copy2`, `os.remove` and `shutil.move`. Each is a function of the
  filesystem and an oracle answer. The `Disk` class performs them in place.
- `ledger.dfy`, module `Ledger`: the scan loop that all three variants share.
  It is a function `Pass` over the listed names with the per-file transfer as
  a parameter. The lemmas here are about the dedup set. It only grows. It
  grows exactly by the names whose transfer succeeded. A recorded name is
  never attempted again. A pass changes only the files of the names it
  attempted.
- `simple_mover.dfy`, module `SimpleMover`: the copy, verify, delete step
  (`Transfer`), the class `MrcFileMover` with its methods, and the lemmas
  about them.
- `file_mover.dfy`, module `FileMover`: the move step (`Move`), the class,
  and its lemmas.
- `gui_mover.dfy`, module `GuiMover`: the class with `running` and `Stop`,
  and the cut-off of a pass by `stop()`.

Every class method that changes state is proved against the pure
specification. Its `ensures` equates the new filesystem and dedup set with
`Pass` or with the per-file function, applied to the old state.

I/O is given as oracle inputs:

- A size probe is two optional readings. `None` is a reading that raised.
- A copy is faithful, corrupted (other bytes reach the disk), or failing. A
  failing copy may leave a partial file behind.
- Reading either file for its digest, and each `os.remove`, is allowed or
  refused.
- A `shutil.move` either renames, or its `os.rename` raises and it falls
  back to a `copy2` (with the answers of a copy) followed by an `os.unlink`
  of the source, which is allowed or refused.
- The digest is a parameter `hash: Bytes -> Digest`. Nothing is assumed of
  it. One lemma adds the assumption that it is injective.
- The per-file answers of a pass are a function from base name to answers.
  The names in one listing are distinct.

## Model

| member | source | states |
|---|---|---|
| `Files.IsFileReady` | mrc_mover_simple.py:89-99 | ready exactly when both size readings succeed and are equal; a failed reading gives false and is never raised. `is_file_ready` is the same in file_mover.py:29-41 and mrc_mover_gui.py:152-159, and all three variants use this one function |
| `Files.MrcNames` | file_mover.py:66 | `glob("*.mrc")`: the result holds exactly the listed names that end in `.mrc`, and is no longer than the listing |
| `Files.MrcNamesKeepOrder` | file_mover.py:66-72 | the `.mrc` names are visited in listing order: the filtered list is a subsequence of the listing |
| `Files.CopyEffect` | mrc_mover_simple.py:125 | `shutil.copy2` succeeds exactly when the source exists, is a different path and the write completes. On success the destination holds the written bytes. Nothing but the destination path ever changes. Copying a file onto itself changes nothing |
| `Files.RemoveEffect` | mrc_mover_simple.py:130 | `os.remove` succeeds exactly when the file exists and removal is allowed. On success the path is gone; on failure nothing changes; no other path changes |
| `Files.RenameEffect` | file_mover.py:54 | `shutil.move` succeeds exactly when the source exists and either the rename goes through or the fallback copy goes to a different path and the source is then unlinked. On success the destination holds the moved bytes and the source path is gone unless it is the destination. On failure the source keeps its bytes and only the destination may change: a failed rename of an existing file whose fallback copy went through but whose unlink was refused leaves the copy at the destination; a failed rename with nothing else changes nothing |
| `Files.Disk.Copy2` | mrc_mover_simple.py:125 | the disk after the call and the result are those of `CopyEffect` |
| `Files.Disk.Remove` | mrc_mover_simple.py:136 | the disk after the call and the result are those of `RemoveEffect` |
| `Files.Disk.Move` | mrc_mover_gui.py:168 | the disk after the call and the result are those of `RenameEffect` |
| `Ledger.Pass` | mrc_mover_simple.py:154-160 | the scan loop only appends attempts and only adds to the dedup set; it makes no more attempts than there are listed names |
| `Ledger.PassLedgerGrowsOnlyOnSuccess` | file_mover.py:72-75 | after a pass the set is the old set plus exactly the names whose attempts in this pass succeeded; every attempted name was listed |
| `Ledger.PassNeverRetriesRecorded` | mrc_mover_gui.py:186-188 | no attempt is of a name that was in the set before the pass, or that an earlier attempt of the same pass recorded |
| `Ledger.PassCountsInsertions` | mrc_mover_simple.py:158-162 | every name a pass records is new, so the number of names added equals the number of successful attempts |
| `Ledger.SecondPassSkipsFirstPassSuccesses` | file_mover.py:86-88 | over repeated passes that share the set, a name moved by one pass is never attempted by a later pass, even if a file of that name is listed again; the two passes may meet the filesystem with different answers, and the second starts from whatever disk the wait between passes left |
| `Ledger.PassAttemptsEachNameOnce` | file_mover.py:72-75 | over a listing without repeated names, a pass attempts each name at most once |
| `Ledger.PassAttemptsEveryNewName` | mrc_mover_simple.py:154-160 | no listed name is passed over unless it was already in the set: every listed name missing from the set at the start of a pass is attempted at least once |
| `Ledger.PassResumes` | mrc_mover_gui.py:183-188 | the scan loop over a listing split in two is the loop over the first part followed by the loop over the second, from the state the first part left |
| `Ledger.PassTouchesOnlyAttempted` | file_mover.py:72-75 | if one transfer of a name changes only the paths in a given footprint, then a pass changes no path outside the footprints of the names it attempted |
| `SimpleMover.Transfer` | mrc_mover_simple.py:112-142 | `safe_copy_and_delete`. A file that is not ready is left alone and gives false. The call succeeds exactly when every step succeeds: ready, copied to a different path, both digests read and equal, source removed. It returns true exactly when it deleted the source. On every failure the source keeps its bytes. On success the destination `dest_dir/basename` holds bytes with the source's digest. No other path changes |
| `SimpleMover.TransferMovesFaithfulCopy` | mrc_mover_simple.py:121-132 | a ready file whose copy is faithful and whose source may be removed ends up only at `dest_dir/basename`, with the same bytes; the call returns true |
| `SimpleMover.TransferRejectsUnverifiedCopy` | mrc_mover_simple.py:133-138 | a copy that fails verification for any reason (a differing digest, or either file unreadable) is rejected: false, the source keeps its bytes, and the destination path is removed, or holds the written bytes when its removal is refused; nothing else changes |
| `SimpleMover.TransferKeepsBothWhenSourceStays` | mrc_mover_simple.py:128-142 | a verified copy (faithful or not, as long as the digests agree) whose source cannot be removed gives false, and both the source and the copy stay, the copy as written |
| `SimpleMover.TransferExactUnderInjectiveHash` | mrc_mover_simple.py:101-110 | if the digest tells contents apart, a successful transfer leaves exactly the source's bytes at the destination |
| `SimpleMover.TransferIntoSameDirectoryDoesNothing` | mrc_mover_simple.py:121-125 | when the destination directory is the source directory, every copy is onto itself and raises, so every call gives false and changes nothing |
| `SimpleMover.RegularMrcFiles` | mrc_mover_simple.py:148-149 | the comprehension holds exactly the listed names that end in `.mrc` and are regular files of the source directory |
| `SimpleMover.RegularMrcFilesKeepOrder` | mrc_mover_simple.py:148-149 | the comprehension keeps listing order: its result is a subsequence of the listing |
| `SimpleMover.TransferStaysInFootprint` | mrc_mover_simple.py:121-138 | one transfer of a name changes only the source and destination paths of that name |
| `SimpleMover.ProcessPassAttemptsOnlyNewMrcFiles` | mrc_mover_simple.py:148-158 | a pass attempts exactly the listed `.mrc` names that were regular files at scan time and not in the set: each of them at least once, no other name, and none again once it succeeded |
| `SimpleMover.ProcessPassRecordsSuccesses` | mrc_mover_simple.py:154-162 | a pass adds exactly the names whose transfers succeeded; the number added equals the number of successful transfers |
| `SimpleMover.ProcessPassTouchesOnlyAttempted` | mrc_mover_simple.py:154-160 | a pass changes no file outside the source and destination paths of the names it attempted |
| `SimpleMover.MrcFileMover.constructor` | mrc_mover_simple.py:22-30 | a new mover has the configured directories and an empty set |
| `SimpleMover.MrcFileMover.CalculateFileHash` | mrc_mover_simple.py:81-87 | reading in 4096-byte chunks yields the digest of the whole content; a missing or unreadable file yields no digest |
| `SimpleMover.MrcFileMover.VerifyCopy` | mrc_mover_simple.py:101-110 | true exactly when both files can be read and their digests are equal; a read failure on either side gives false |
| `SimpleMover.MrcFileMover.SafeCopyAndDelete` | mrc_mover_simple.py:112-142 | the result and the disk afterwards are those of `Transfer` |
| `SimpleMover.MrcFileMover.VisitFile` | mrc_mover_simple.py:157-160 | one turn of the scan loop: the disk and the set afterwards are those of `Ledger.Visit` with `Transfer` as the step (a name in the set is skipped with nothing changed; any other name enters the set exactly when its transfer returned true), and the turn adds one to the count of successful attempts exactly when it recorded the name |
| `SimpleMover.MrcFileMover.ScanAndProcess` | mrc_mover_simple.py:144-166 | a listing that raises gives 0 and changes nothing. Otherwise the disk and the set afterwards are those of `Pass` over the regular `.mrc` files. The set only grows, and the count returned is the number of names added |
| `FileMover.Move` | file_mover.py:43-60 | `move_file`. A file that is not ready is left alone and gives false. The call succeeds exactly when the file is ready, exists, and is renamed or copied to a different path whose source is then unlinked. On failure the source keeps its bytes, and nothing changes at all when the rename itself went through or the file was missing. On success `destination_dir/name` holds the moved bytes and the source is gone, unless both paths coincide. No other path changes |
| `FileMover.MoveRenames` | file_mover.py:51-56 | a successful move into another directory is exactly a rename of the source entry to `destination_dir/name`, holding the moved bytes |
| `FileMover.MoveFallbackLeavesCopy` | file_mover.py:54-60 | a ready file whose rename raises, whose fallback copy goes through and whose source cannot be unlinked gives false and sits at both paths, the copy as written |
| `FileMover.MoveIntoSameDirectoryKeepsFile` | file_mover.py:51-56 | when the destination directory is the source directory, a ready file stays where it was: reported as moved when the rename onto itself goes through, as not moved when the fallback copy onto itself raises |
| `FileMover.MoveStaysInFootprint` | file_mover.py:51-54 | one move of a name changes only the source and destination paths of that name |
| `FileMover.MovePassAttemptsOnlyNewMrcNames` | file_mover.py:66-74 | a pass attempts exactly the listed `.mrc` names not in the set: each of them at least once, no other name, and none again once it succeeded |
| `FileMover.MovePassRecordsSuccesses` | file_mover.py:72-75 | a pass adds to the set exactly the names whose moves succeeded |
| `FileMover.MovePassTouchesOnlyAttempted` | file_mover.py:72-75 | a pass changes no file outside the source and destination paths of the names it attempted |
| `FileMover.MrcFileMover.constructor` | file_mover.py:20-27 | a new mover has the given directories and an empty set |
| `FileMover.MrcFileMover.MoveFile` | file_mover.py:43-60 | the result and the disk afterwards are those of `Move` |
| `FileMover.MrcFileMover.ScanAndMove` | file_mover.py:62-78 | with no `.mrc` entry nothing changes. Otherwise the disk and the set afterwards are those of `Pass` over the `.mrc` names, and the set only grows |
| `GuiMover.AttemptsPrecedeStop` | mrc_mover_gui.py:183-188 | a pass attempts only names listed before the point where `stop()` took effect, makes no more attempts than there are such names, and over a listing without repeated names attempts each at most once |
| `GuiMover.StopCutsPassShort` | mrc_mover_gui.py:183-188 | a pass cut short by `stop()` is the uninterrupted pass of file_mover.py with its tail missing: resuming it over the remaining names gives exactly the uninterrupted pass, its attempts are a prefix of that pass's attempts and its set a subset of that pass's set, and without a stop during the pass the two are equal |
| `GuiMover.MrcFileMover.constructor` | mrc_mover_gui.py:124-135 | a new mover has the given directories, an empty set, and `running` set |
| `GuiMover.MrcFileMover.Stop` | mrc_mover_gui.py:193-194 | clears `running` and changes nothing else. The state afterwards does not depend on the flag before, so calling it twice is the same as once |
| `GuiMover.MrcFileMover.MoveFile` | mrc_mover_gui.py:161-174 | the result and the disk afterwards are those of `Move` |
| `GuiMover.MrcFileMover.ScanAndMove` | mrc_mover_gui.py:176-191 | the disk and the set afterwards are those of `Pass` over the `.mrc` names before the cut-off. The cut-off is none when `running` was clear, and otherwise the position where `stop()` took effect. `running` stays set only if no stop came during the pass. The set only grows |

## Behaviour of the code that the model keeps

Some of what the code does is easy to miss; the model does the same.

- A failing `os.listdir` in `scan_and_process` returns 0, the same value as a
  pass that moved nothing (mrc_mover_simple.py:164-166). The two conditions
  are not told apart.
- `Path.glob` on a missing directory yields no entries and does not raise.
  In the two `shutil.move` variants an unavailable source directory looks
  like an empty one. Their listings are therefore inputs that cannot fail.
- `scan_and_process` returns the number of successful transfers, and the
  two `scan_and_move` passes return nothing. How many files a pass
  attempted is not reported.
- When the removal of a rejected copy raises, the call still returns false,
  and the rejected copy stays at the destination.
- A copy that raises part-way can leave a partial file at the destination.
  The code does not remove it (`Files.CopyEffect`, `Failed(Some(_))`).
- A file already present at `dest_dir/basename` is overwritten by the copy
  or the move. If the copy is then rejected and removed, the earlier
  destination file is gone too.
- With the destination directory equal to the source directory, the simple
  variant never transfers anything (`SameFileError`). The `shutil.move`
  variants leave the file in place; when the rename onto itself goes
  through they report success and record the name.
- `shutil.move` falls back to `copy2` and `os.unlink` whenever `os.rename`
  raises, not only across devices. If the copy goes through and the unlink
  is refused (a source directory the process can read but not write),
  `move_file` returns false with the file at both paths. The name is not
  recorded, so every later pass copies it again
  (`FileMover.MoveFallbackLeavesCopy`).

## Left out

- Logging (`logging` calls, `log_message`, `update_log`) is left out. It is
  output only.
- Config loading, `create_default_config`, `sys.exit`, `main` and argument
  handling are left out. They are plumbing around the constructor.
- The tkinter `MRCMoverGUI` class and the thread started by `toggle_mover`
  are left out. A `stop()` from the GUI thread is modelled by the
  `stopBefore` input of `GuiMover.MrcFileMover.ScanAndMove`. That input is
  the position before whose check the stop takes effect. A stop that lands
  during a `move_file` call takes effect at the next check, which is the
  same position.
- The `run` loops with `time.sleep` are left out. A single pass is modelled.
  `Ledger.SecondPassSkipsFirstPassSuccesses` covers repeated passes.
- MD5 and its 4096-byte chunk updates are not modelled. The digest is a
  parameter, and the chunked state is the sequence of bytes fed so far.
  `SimpleMover.MrcFileMover.CalculateFileHash` shows that chunking does not
  change the result.
- The one-second wait and the writer that may be appending during it are
  not modelled. The two size readings are oracle inputs, not read from the
  model's disk.
- Read failures part-way through hashing are one flag per file.
- `copy2` metadata and the `mkdir` of the destination directory are not
  modelled.
- The filesystem holds regular files only. A sub-directory named `*.mrc`
  matches `glob` in the move variants, and `shutil.move` would move it. Here
  such a listed name is simply absent, and its move fails.
- Two spellings of one directory (aliases, symbolic links) are not modelled.
  Paths are equal only when their directory strings and names are equal.
- Windows-specific behaviour is not modelled: case-insensitive `glob`. A
  `rename` that refuses to overwrite is a failed rename, which the fallback
  covers: `shutil.move` still overwrites the destination through `copy2`.
