/** The mover of file_mover.py: each ready `*.mrc` file is moved to the
    destination directory with a single `shutil.move`, and every failure is
    returned as `false`. */
module FileMover {
  import opened Files
  import opened Ledger

  /** The oracle answers for one attempt on one file. */
  datatype MoveIo = MoveIo(
    probe: SizeProbe,  // the two size readings of `is_file_ready`
    move: RenameIo)    // what `shutil.move` does

  /** `move_file` of `source` to `destDir` joined with its base name. */
  function Move(files: FileMap, destDir: string, source: Path, io: MoveIo): (e: Effect)
    // a file that is not ready is left alone
    ensures !IsFileReady(io.probe) ==> e == Effect(false, files)
    // success exactly when the file is ready, exists, and is renamed or
    // copied to a different path whose source is then unlinked
    ensures e.ok <==>
      && IsFileReady(io.probe) && source in files
      && (io.move.Renamed? || (source.dir != destDir && !io.move.copy.Failed? && io.move.unlinkAllowed))
    // on failure the source keeps its bytes, and when the rename itself went
    // through or the file was missing nothing changes at all
    ensures !e.ok ==> SameAt(files, e.files, source)
    ensures !e.ok && (io.move.Renamed? || source !in files) ==> e.files == files
    // on success the moved bytes sit under the destination path and the
    // source path is gone, unless both paths are the same
    ensures e.ok ==>
      && Path(destDir, source.name) in e.files
      && e.files[Path(destDir, source.name)] == MovedBytes(files[source], io.move)
      && (source.dir != destDir ==> source !in e.files)
    // nothing but the source and its destination path changes
    ensures forall p :: p != source && p != Path(destDir, source.name) ==> SameAt(files, e.files, p)
  {
    if !IsFileReady(io.probe) then Effect(false, files)
    else RenameEffect(files, source, Path(destDir, source.name), io.move)
  }

  /** The transfer the scan loop applies to each listed name. */
  function MoveStep(sourceDir: string, destDir: string, io: string -> MoveIo): Step
  {
    (files: FileMap, name: string) => Move(files, destDir, Path(sourceDir, name), io(name))
  }

  /** The paths one move of `name` may change. */
  function MoveFootprint(sourceDir: string, destDir: string): string -> set<Path>
  {
    (name: string) => {Path(sourceDir, name), Path(destDir, name)}
  }

  /** A successful move into a different directory is exactly a rename:
      the source entry is removed and the destination entry holds the moved
      bytes (the source's own, unless the fallback copy wrote others). */
  lemma MoveRenames(files: FileMap, destDir: string, source: Path, io: MoveIo)
    requires Move(files, destDir, source, io).ok && source.dir != destDir
    ensures Move(files, destDir, source, io).files
      == (files - {source})[Path(destDir, source.name) := MovedBytes(files[source], io.move)]
  {
    var dest := Path(destDir, source.name);
    if io.move.Fallback? {
      var written := Written(files[source], io.move.copy);
      assert files[dest := written] - {source} == (files - {source})[dest := written];
    }
  }

  /** A ready file whose rename is refused but whose fallback copy goes
      through, and whose source cannot then be unlinked, is reported as not
      moved while it sits at both paths. Its name is not recorded, so every
      later pass copies it again. */
  lemma MoveFallbackLeavesCopy(files: FileMap, destDir: string, source: Path, io: MoveIo)
    requires IsFileReady(io.probe) && source in files && source.dir != destDir
    requires io.move.Fallback? && !io.move.copy.Failed? && !io.move.unlinkAllowed
    ensures Move(files, destDir, source, io)
      == Effect(false, files[Path(destDir, source.name) := Written(files[source], io.move.copy)])
  {
  }

  /** When the source directory is also the destination directory, a ready
      file stays where it was: a rename onto itself reports success, and the
      fallback copy onto itself raises (`SameFileError`) and reports failure. */
  lemma MoveIntoSameDirectoryKeepsFile(files: FileMap, source: Path, io: MoveIo)
    requires IsFileReady(io.probe) && source in files
    ensures Move(files, source.dir, source, io) == Effect(io.move.Renamed?, files)
  {
    assert (files - {source})[source := files[source]] == files;
  }

  /** One move of `name` changes only the source and destination paths of
      that name. */
  lemma MoveStaysInFootprint(sourceDir: string, destDir: string, io: string -> MoveIo)
    ensures forall f: FileMap, n: string, p: Path :: p !in MoveFootprint(sourceDir, destDir)(n) ==>
      SameAt(f, MoveStep(sourceDir, destDir, io)(f, n).files, p)
  {
    forall f: FileMap, n: string, p: Path | p !in MoveFootprint(sourceDir, destDir)(n)
      ensures SameAt(f, MoveStep(sourceDir, destDir, io)(f, n).files, p)
    {
      assert MoveFootprint(sourceDir, destDir)(n) == {Path(sourceDir, n), Path(destDir, n)};
      var e := Move(f, destDir, Path(sourceDir, n), io(n));
      assert MoveStep(sourceDir, destDir, io)(f, n) == e;
      assert p != Path(sourceDir, n) && p != Path(destDir, n);
      assert SameAt(f, e.files, p);
    }
  }

  /** One `scan_and_move` pass, for any listing and any oracle answers,
      attempts exactly the listed `*.mrc` names that are not in the ledger,
      and never attempts a name again once it has succeeded. */
  lemma {:induction false} MovePassAttemptsOnlyNewMrcNames(
    sourceDir: string, destDir: string, io: string -> MoveIo,
    files: FileMap, ledger: set<string>, entries: seq<string>)
    ensures var r := Pass(MoveStep(sourceDir, destDir, io), Start(files, ledger), MrcNames(entries));
      && (forall a :: a in r.trace ==> a.name in entries && HasSuffix(a.name, MrcSuffix) && a.name !in ledger)
      && (forall i, j :: 0 <= i < j < |r.trace| && r.trace[i].ok ==> r.trace[j].name != r.trace[i].name)
      && (forall n :: n in entries && HasSuffix(n, MrcSuffix) && n !in ledger ==>
            exists i :: 0 <= i < |r.trace| && r.trace[i].name == n)
  {
    var step := MoveStep(sourceDir, destDir, io);
    var s := Start(files, ledger);
    var names := MrcNames(entries);
    var r := Pass(step, s, names);
    PassLedgerGrowsOnlyOnSuccess(step, s, names);
    PassNeverRetriesRecorded(step, s, names);
    PassAttemptsEveryNewName(step, s, names);
    assert r.trace[|s.trace|..] == r.trace;
    forall a | a in r.trace
      ensures a.name !in ledger
    {
      var i :| 0 <= i < |r.trace| && r.trace[i] == a;
    }
  }

  /** One `scan_and_move` pass adds to the ledger exactly the names whose
      moves succeeded. */
  lemma {:induction false} MovePassRecordsSuccesses(
    sourceDir: string, destDir: string, io: string -> MoveIo,
    files: FileMap, ledger: set<string>, names: seq<string>)
    ensures var r := Pass(MoveStep(sourceDir, destDir, io), Start(files, ledger), names);
      r.ledger == ledger + Successes(r.trace)
  {
    var step := MoveStep(sourceDir, destDir, io);
    var s := Start(files, ledger);
    PassLedgerGrowsOnlyOnSuccess(step, s, names);
    assert Pass(step, s, names).trace[|s.trace|..] == Pass(step, s, names).trace;
  }

  /** One `scan_and_move` pass changes no file outside the source and
      destination paths of the names it attempted. */
  lemma {:induction false} MovePassTouchesOnlyAttempted(
    sourceDir: string, destDir: string, io: string -> MoveIo,
    files: FileMap, ledger: set<string>, names: seq<string>)
    ensures forall p :: OutsideAll(MoveFootprint(sourceDir, destDir),
                                   Pass(MoveStep(sourceDir, destDir, io), Start(files, ledger), names).trace, p) ==>
      SameAt(files, Pass(MoveStep(sourceDir, destDir, io), Start(files, ledger), names).files, p)
  {
    var step := MoveStep(sourceDir, destDir, io);
    var s := Start(files, ledger);
    MoveStaysInFootprint(sourceDir, destDir, io);
    PassTouchesOnlyAttempted(step, MoveFootprint(sourceDir, destDir), s, names);
    assert Pass(step, s, names).trace[|s.trace|..] == Pass(step, s, names).trace;
  }

  class MrcFileMover {
    const sourceDir: string
    const destinationDir: string
    /** The dedup ledger: base names moved during this process's life. */
    var processedFiles: set<string>

    /** A mover over the two directories, with an empty ledger. */
    constructor (sourceDir: string, destinationDir: string)
      ensures this.sourceDir == sourceDir && this.destinationDir == destinationDir
      ensures processedFiles == {}
    {
      this.sourceDir := sourceDir;
      this.destinationDir := destinationDir;
      processedFiles := {};
    }

    /** `move_file`: probe, then move to the destination directory. */
    method MoveFile(disk: Disk, filePath: Path, io: MoveIo) returns (ok: bool)
      modifies disk
      ensures Effect(ok, disk.files) == Move(old(disk.files), destinationDir, filePath, io)
    {
      if !IsFileReady(io.probe) {
        return false;
      }
      var destPath := Path(destinationDir, filePath.name);
      ok := disk.Move(filePath, destPath, io.move);
    }

    /** `scan_and_move`: one pass over the `*.mrc` entries of the source
        directory. With no such entry it returns at once; otherwise each name
        not in the ledger is moved and recorded when the move returns true. */
    method ScanAndMove(disk: Disk, entries: seq<string>, io: string -> MoveIo)
      modifies this, disk
      ensures MrcNames(entries) == [] ==>
        processedFiles == old(processedFiles) && disk.files == old(disk.files)
      ensures var r := Pass(MoveStep(sourceDir, destinationDir, io),
                            Start(old(disk.files), old(processedFiles)), MrcNames(entries));
        disk.files == r.files && processedFiles == r.ledger
      ensures old(processedFiles) <= processedFiles
    {
      var mrcFiles := MrcNames(entries);
      if |mrcFiles| == 0 {
        return;
      }
      ghost var step := MoveStep(sourceDir, destinationDir, io);
      ghost var start := Start(disk.files, processedFiles);
      var i := 0;
      while i < |mrcFiles|
        invariant i <= |mrcFiles|
        invariant disk.files == Pass(step, start, mrcFiles[..i]).files
        invariant processedFiles == Pass(step, start, mrcFiles[..i]).ledger
      {
        var filePath := Path(sourceDir, mrcFiles[i]);
        assert mrcFiles[..i + 1] == mrcFiles[..i] + [filePath.name];
        ghost var state := Pass(step, start, mrcFiles[..i]);
        assert Pass(step, start, mrcFiles[..i + 1]) == Visit(step, state, filePath.name);
        assert filePath.name !in processedFiles ==>
          step(disk.files, filePath.name) == Move(disk.files, destinationDir, filePath, io(filePath.name));
        if filePath.name !in processedFiles {
          var ok := MoveFile(disk, filePath, io(filePath.name));
          if ok {
            processedFiles := processedFiles + {filePath.name};
          }
        }
        i := i + 1;
      }
      assert mrcFiles[..i] == mrcFiles;
    }
  }
}
