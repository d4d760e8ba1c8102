/** The mover of mrc_mover_simple.py: each ready `*.mrc` file is copied to
    the destination directory, the copy is checked by comparing MD5 digests,
    and only then is the source deleted. A failed check deletes the copy
    instead. Every failure is returned as `false`. */
module SimpleMover {
  import opened Files
  import opened Ledger

  /** `calculate_file_hash` reads the file 4096 bytes at a time. */
  const ChunkSize: nat := 4096

  /** The oracle answers for one attempt on one file. */
  datatype TransferIo = TransferIo(
    probe: SizeProbe,      // the two size readings of `is_file_ready`
    copy: CopyIo,          // what `shutil.copy2` does
    sourceReadable: bool,  // hashing the source does not raise
    copyReadable: bool,    // hashing the destination copy does not raise
    removeSource: bool,    // `os.remove` of the verified source is allowed
    removeCopy: bool)      // `os.remove` of a rejected copy is allowed

  /** `verify_copy`: both files can be read and their digests agree. A read
      failure on either side counts as a mismatch, never as a match. */
  predicate CopyVerified(files: FileMap, source: Path, dest: Path, io: TransferIo, hash: Bytes -> Digest)
  {
    && io.sourceReadable && io.copyReadable
    && source in files && dest in files
    && hash(files[source]) == hash(files[dest])
  }

  /** `safe_copy_and_delete` of `source`, with the copy going to
      `destDir` joined with the source's base name. */
  function Transfer(files: FileMap, destDir: string, source: Path, io: TransferIo, hash: Bytes -> Digest): (e: Effect)
    // a file that is not ready is left alone
    ensures !IsFileReady(io.probe) ==> e == Effect(false, files)
    // success exactly when every step succeeds: ready, copied onto a
    // different path, both digests read and equal, and the source removed
    ensures e.ok <==>
      && IsFileReady(io.probe) && source in files && source != Path(destDir, source.name)
      && !io.copy.Failed? && io.sourceReadable && io.copyReadable
      && hash(Written(files[source], io.copy)) == hash(files[source])
      && io.removeSource
    // the call returns true exactly when it deleted the source
    ensures e.ok <==> source in files && source !in e.files
    // on every failure the source keeps its bytes
    ensures !e.ok ==> SameAt(files, e.files, source)
    // the source is gone only after a copy with the same digest was made
    ensures e.ok ==>
      && Path(destDir, source.name) in e.files
      && hash(e.files[Path(destDir, source.name)]) == hash(files[source])
    // nothing but the source and its destination path changes
    ensures forall p :: p != source && p != Path(destDir, source.name) ==> SameAt(files, e.files, p)
  {
    if !IsFileReady(io.probe) then Effect(false, files)
    else
      var dest := Path(destDir, source.name);
      var copied := CopyEffect(files, source, dest, io.copy);
      if !copied.ok then Effect(false, copied.files)
      else if CopyVerified(copied.files, source, dest, io, hash) then
        RemoveEffect(copied.files, source, io.removeSource)
      else if dest in copied.files then
        Effect(false, RemoveEffect(copied.files, dest, io.removeCopy).files)
      else
        Effect(false, copied.files)
  }

  /** The comprehension of `scan_and_process`: the listed names that end in
      `.mrc` and are regular files in `sourceDir`, in listing order. */
  function RegularMrcFiles(entries: seq<string>, files: FileMap, sourceDir: string): (r: seq<string>)
    ensures |r| <= |entries|
    ensures forall n :: n in r <==> n in entries && HasSuffix(n, MrcSuffix) && Path(sourceDir, n) in files
  {
    if entries == [] then []
    else
      var rest := RegularMrcFiles(entries[..|entries| - 1], files, sourceDir);
      var last := entries[|entries| - 1];
      assert entries == entries[..|entries| - 1] + [last];
      if HasSuffix(last, MrcSuffix) && Path(sourceDir, last) in files then rest + [last] else rest
  }

  /** The comprehension keeps the listing order: its result is a
      subsequence of the listing. */
  lemma {:induction false} RegularMrcFilesKeepOrder(entries: seq<string>, files: FileMap, sourceDir: string)
    ensures IsSubsequence(RegularMrcFiles(entries, files, sourceDir), entries)
  {
    if entries != [] {
      var init := entries[..|entries| - 1];
      RegularMrcFilesKeepOrder(init, files, sourceDir);
      var rest := RegularMrcFiles(init, files, sourceDir);
      assert (rest + [entries[|entries| - 1]])[..|rest|] == rest;
    }
  }

  /** The transfer the scan loop applies to each listed name. */
  function TransferStep(sourceDir: string, destDir: string, io: string -> TransferIo, hash: Bytes -> Digest): Step
  {
    (files: FileMap, name: string) => Transfer(files, destDir, Path(sourceDir, name), io(name), hash)
  }

  /** The paths one transfer of `name` may change. */
  function TransferFootprint(sourceDir: string, destDir: string): string -> set<Path>
  {
    (name: string) => {Path(sourceDir, name), Path(destDir, name)}
  }

  /** A ready, faithfully copied, readable file whose source may be removed
      is moved: the destination holds the source's bytes, the source is gone
      and nothing else changes. */
  lemma TransferMovesFaithfulCopy(files: FileMap, destDir: string, source: Path, io: TransferIo, hash: Bytes -> Digest)
    requires IsFileReady(io.probe) && source in files && source.dir != destDir
    requires io.copy.Faithful? && io.sourceReadable && io.copyReadable && io.removeSource
    ensures Transfer(files, destDir, source, io, hash)
      == Effect(true, (files - {source})[Path(destDir, source.name) := files[source]])
  {
    var dest := Path(destDir, source.name);
    assert (files[dest := files[source]]) - {source} == (files - {source})[dest := files[source]];
  }

  /** A copy that fails verification is rejected, whatever the reason: a
      digest that differs, or either file that cannot be read. The call
      returns false, the source keeps its bytes, and the copy is deleted
      unless that delete is refused, in which case it stays as written. */
  lemma TransferRejectsUnverifiedCopy(files: FileMap, destDir: string, source: Path, io: TransferIo, hash: Bytes -> Digest)
    requires IsFileReady(io.probe) && source in files && source.dir != destDir && !io.copy.Failed?
    requires !(io.sourceReadable && io.copyReadable && hash(Written(files[source], io.copy)) == hash(files[source]))
    ensures var e := Transfer(files, destDir, source, io, hash);
      && !e.ok
      && source in e.files && e.files[source] == files[source]
      && (io.removeCopy ==> e.files == files - {Path(destDir, source.name)})
      && (!io.removeCopy ==> e.files == files[Path(destDir, source.name) := Written(files[source], io.copy)])
  {
  }

  /** A verified copy whose source cannot be deleted is reported as a
      failure, and both the source and the copy stay. */
  lemma TransferKeepsBothWhenSourceStays(files: FileMap, destDir: string, source: Path, io: TransferIo, hash: Bytes -> Digest)
    requires IsFileReady(io.probe) && source in files && source.dir != destDir && !io.copy.Failed?
    requires io.sourceReadable && io.copyReadable && hash(Written(files[source], io.copy)) == hash(files[source])
    requires !io.removeSource
    ensures Transfer(files, destDir, source, io, hash)
      == Effect(false, files[Path(destDir, source.name) := Written(files[source], io.copy)])
  {
  }

  /** With a digest that tells different contents apart, a successful
      transfer leaves at the destination exactly the source's bytes. */
  lemma TransferExactUnderInjectiveHash(files: FileMap, destDir: string, source: Path, io: TransferIo, hash: Bytes -> Digest)
    requires forall x: Bytes, y: Bytes :: hash(x) == hash(y) ==> x == y
    requires Transfer(files, destDir, source, io, hash).ok
    ensures var e := Transfer(files, destDir, source, io, hash);
      Path(destDir, source.name) in e.files && e.files[Path(destDir, source.name)] == files[source]
  {
  }

  /** When the source directory is also the destination directory every
      copy is onto itself (`SameFileError`), so nothing is ever transferred
      and nothing changes. */
  lemma TransferIntoSameDirectoryDoesNothing(files: FileMap, source: Path, io: TransferIo, hash: Bytes -> Digest)
    ensures Transfer(files, source.dir, source, io, hash) == Effect(false, files)
  {
  }

  /** One `scan_and_process` pass, for any listing and any oracle answers,
      attempts exactly the listed regular `*.mrc` files that are not in the
      ledger, and never attempts a name twice once it has succeeded. */
  lemma {:induction false} ProcessPassAttemptsOnlyNewMrcFiles(
    sourceDir: string, destDir: string, io: string -> TransferIo, hash: Bytes -> Digest,
    files: FileMap, ledger: set<string>, entries: seq<string>)
    ensures var r := Pass(TransferStep(sourceDir, destDir, io, hash), Start(files, ledger),
                          RegularMrcFiles(entries, files, sourceDir));
      && (forall a :: a in r.trace ==>
            && a.name in entries && HasSuffix(a.name, MrcSuffix)
            && Path(sourceDir, a.name) in files && a.name !in ledger)
      && (forall i, j :: 0 <= i < j < |r.trace| && r.trace[i].ok ==> r.trace[j].name != r.trace[i].name)
      && (forall n :: n in entries && HasSuffix(n, MrcSuffix) && Path(sourceDir, n) in files && n !in ledger ==>
            exists i :: 0 <= i < |r.trace| && r.trace[i].name == n)
  {
    var step := TransferStep(sourceDir, destDir, io, hash);
    var s := Start(files, ledger);
    var names := RegularMrcFiles(entries, files, sourceDir);
    var r := Pass(step, s, names);
    PassLedgerGrowsOnlyOnSuccess(step, s, names);
    PassNeverRetriesRecorded(step, s, names);
    PassAttemptsEveryNewName(step, s, names);
    assert r.trace[|s.trace|..] == r.trace;
    forall a | a in r.trace
      ensures a.name !in ledger
    {
      var i :| 0 <= i < |r.trace| && r.trace[i] == a;
    }
  }

  /** One `scan_and_process` pass adds to the ledger exactly the names whose
      transfers succeeded, so the count it returns is the number of
      successful transfers. */
  lemma {:induction false} ProcessPassRecordsSuccesses(
    sourceDir: string, destDir: string, io: string -> TransferIo, hash: Bytes -> Digest,
    files: FileMap, ledger: set<string>, names: seq<string>)
    ensures var r := Pass(TransferStep(sourceDir, destDir, io, hash), Start(files, ledger), names);
      && r.ledger == ledger + Successes(r.trace)
      && |r.ledger - ledger| == OkCount(r.trace)
  {
    var step := TransferStep(sourceDir, destDir, io, hash);
    var s := Start(files, ledger);
    PassLedgerGrowsOnlyOnSuccess(step, s, names);
    PassCountsInsertions(step, s, names);
    assert Pass(step, s, names).trace[|s.trace|..] == Pass(step, s, names).trace;
  }

  /** One transfer of `name` changes only the source and destination paths
      of that name. */
  lemma TransferStaysInFootprint(sourceDir: string, destDir: string, io: string -> TransferIo, hash: Bytes -> Digest)
    ensures forall f: FileMap, n: string, p: Path :: p !in TransferFootprint(sourceDir, destDir)(n) ==>
      SameAt(f, TransferStep(sourceDir, destDir, io, hash)(f, n).files, p)
  {
    forall f: FileMap, n: string, p: Path | p !in TransferFootprint(sourceDir, destDir)(n)
      ensures SameAt(f, TransferStep(sourceDir, destDir, io, hash)(f, n).files, p)
    {
      assert TransferFootprint(sourceDir, destDir)(n) == {Path(sourceDir, n), Path(destDir, n)};
      var e := Transfer(f, destDir, Path(sourceDir, n), io(n), hash);
      assert TransferStep(sourceDir, destDir, io, hash)(f, n) == e;
      assert p != Path(sourceDir, n) && p != Path(destDir, n);
      assert SameAt(f, e.files, p);
    }
  }

  /** One `scan_and_process` pass changes no file outside the source and
      destination paths of the names it attempted. */
  lemma {:induction false} ProcessPassTouchesOnlyAttempted(
    sourceDir: string, destDir: string, io: string -> TransferIo, hash: Bytes -> Digest,
    files: FileMap, ledger: set<string>, names: seq<string>)
    ensures forall p :: OutsideAll(TransferFootprint(sourceDir, destDir),
                                   Pass(TransferStep(sourceDir, destDir, io, hash), Start(files, ledger), names).trace, p) ==>
      SameAt(files, Pass(TransferStep(sourceDir, destDir, io, hash), Start(files, ledger), names).files, p)
  {
    var step := TransferStep(sourceDir, destDir, io, hash);
    var s := Start(files, ledger);
    TransferStaysInFootprint(sourceDir, destDir, io, hash);
    PassTouchesOnlyAttempted(step, TransferFootprint(sourceDir, destDir), s, names);
    assert Pass(step, s, names).trace[|s.trace|..] == Pass(step, s, names).trace;
  }

  class MrcFileMover {
    const sourceDir: string
    const destDir: string
    /** The dedup ledger: base names transferred during this process's life. */
    var processedFiles: set<string>

    /** A mover over the two configured directories, with an empty ledger. */
    constructor (sourceDir: string, destDir: string)
      ensures this.sourceDir == sourceDir && this.destDir == destDir
      ensures processedFiles == {}
    {
      this.sourceDir := sourceDir;
      this.destDir := destDir;
      processedFiles := {};
    }

    /** `calculate_file_hash`: stream the file through the digest in chunks of
        `ChunkSize` bytes. The digest state is represented by the bytes fed to
        it so far, so the result depends on the content alone, however it is
        chunked. Opening or reading the file raises when it does not exist or
        `readable` is false. */
    method CalculateFileHash(disk: Disk, path: Path, readable: bool, hash: Bytes -> Digest) returns (digest: Option<Digest>)
      ensures digest.Some? <==> readable && path in disk.files
      ensures digest.Some? ==> digest.value == hash(disk.files[path])
    {
      if !readable || path !in disk.files {
        return None;
      }
      var content := disk.files[path];
      var absorbed: Bytes := [];
      var pos := 0;
      while pos < |content|
        invariant pos <= |content|
        invariant absorbed == content[..pos]
      {
        var end := if pos + ChunkSize <= |content| then pos + ChunkSize else |content|;
        var chunk := content[pos..end];
        absorbed := absorbed + chunk;
        pos := end;
      }
      assert absorbed == content;
      return Some(hash(absorbed));
    }

    /** `verify_copy`: true exactly when both digests can be computed and agree. */
    method VerifyCopy(disk: Disk, source: Path, dest: Path, io: TransferIo, hash: Bytes -> Digest) returns (ok: bool)
      ensures ok <==>
        && io.sourceReadable && io.copyReadable
        && source in disk.files && dest in disk.files
        && hash(disk.files[source]) == hash(disk.files[dest])
    {
      var sourceHash := CalculateFileHash(disk, source, io.sourceReadable, hash);
      if sourceHash.None? {
        return false;
      }
      var destHash := CalculateFileHash(disk, dest, io.copyReadable, hash);
      if destHash.None? {
        return false;
      }
      ok := sourceHash.value == destHash.value;
    }

    /** `safe_copy_and_delete`: probe, copy, verify, then delete the source
        or, when the digests differ, the copy. */
    method SafeCopyAndDelete(disk: Disk, source: Path, io: TransferIo, hash: Bytes -> Digest) returns (ok: bool)
      modifies disk
      ensures Effect(ok, disk.files) == Transfer(old(disk.files), destDir, source, io, hash)
    {
      if !IsFileReady(io.probe) {
        return false;
      }
      var dest := Path(destDir, source.name);
      var copied := disk.Copy2(source, dest, io.copy);
      if !copied {
        return false;
      }
      var verified := VerifyCopy(disk, source, dest, io, hash);
      if verified {
        ok := disk.Remove(source, io.removeSource);
      } else {
        if dest in disk.files {
          var _ := disk.Remove(dest, io.removeCopy);
        }
        ok := false;
      }
    }

    /** One turn of the `scan_and_process` loop: a name in the ledger is
        skipped; any other name is transferred and recorded when the transfer
        returns true. The filesystem and ledger afterwards are those of
        `Visit`; `recorded` says whether the turn made a successful attempt.
        `trace` is the record of the attempts made so far. */
    method VisitFile(disk: Disk, filename: string, io: string -> TransferIo, hash: Bytes -> Digest,
                     ghost trace: seq<Attempt>) returns (recorded: bool)
      modifies this, disk
      ensures var v := Visit(TransferStep(sourceDir, destDir, io, hash),
                             PassState(old(disk.files), old(processedFiles), trace), filename);
        && disk.files == v.files && processedFiles == v.ledger
        && OkCount(v.trace) == OkCount(trace) + (if recorded then 1 else 0)
    {
      ghost var step := TransferStep(sourceDir, destDir, io, hash);
      ghost var v := Visit(step, PassState(disk.files, processedFiles, trace), filename);
      recorded := false;
      if filename !in processedFiles {
        assert step(disk.files, filename) == Transfer(disk.files, destDir, Path(sourceDir, filename), io(filename), hash);
        recorded := SafeCopyAndDelete(disk, Path(sourceDir, filename), io(filename), hash);
        if recorded {
          processedFiles := processedFiles + {filename};
        }
        assert v.trace[..|v.trace| - 1] == trace;
      }
    }

    /** `scan_and_process`: one pass over the source directory. A listing
        that raises (`None`) ends the pass with 0 and changes nothing.
        Otherwise each regular `*.mrc` file not in the ledger is transferred,
        recorded when the transfer returns true, and counted. */
    method ScanAndProcess(disk: Disk, listing: Option<seq<string>>, io: string -> TransferIo, hash: Bytes -> Digest)
      returns (processed: nat)
      modifies this, disk
      ensures listing.None? ==>
        processed == 0 && processedFiles == old(processedFiles) && disk.files == old(disk.files)
      ensures listing.Some? ==>
        var r := Pass(TransferStep(sourceDir, destDir, io, hash),
                      Start(old(disk.files), old(processedFiles)),
                      RegularMrcFiles(listing.value, old(disk.files), sourceDir));
        disk.files == r.files && processedFiles == r.ledger
      ensures old(processedFiles) <= processedFiles
      ensures processed == |processedFiles - old(processedFiles)|
    {
      if listing.None? {
        return 0;
      }
      var mrcFiles := RegularMrcFiles(listing.value, disk.files, sourceDir);
      ghost var step := TransferStep(sourceDir, destDir, io, hash);
      ghost var start := Start(disk.files, processedFiles);
      processed := 0;
      var i := 0;
      while i < |mrcFiles|
        invariant i <= |mrcFiles|
        invariant disk.files == Pass(step, start, mrcFiles[..i]).files
        invariant processedFiles == Pass(step, start, mrcFiles[..i]).ledger
        invariant processed == OkCount(Pass(step, start, mrcFiles[..i]).trace)
      {
        var filename := mrcFiles[i];
        ghost var state := Pass(step, start, mrcFiles[..i]);
        assert mrcFiles[..i + 1] == mrcFiles[..i] + [filename];
        assert Pass(step, start, mrcFiles[..i + 1]) == Visit(step, state, filename);
        var recorded := VisitFile(disk, filename, io, hash, state.trace);
        if recorded {
          processed := processed + 1;
        }
        i := i + 1;
      }
      PassCountsInsertions(step, start, mrcFiles);
      assert mrcFiles[..i] == mrcFiles;
    }
  }
}
