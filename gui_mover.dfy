/** The mover behind the GUI of mrc_mover_gui.py: the mover of file_mover.py
    with a `running` flag. The GUI's Stop button calls `stop()` from another
    thread; the scan loop looks at the flag before each file and stops
    attempting files once it is false. */
module GuiMover {
  import opened Files
  import opened Ledger
  import opened FileMover

  /** How many of `n` listed names a pass gets to: none when the mover is
      already stopped, otherwise those before the position where `stop()`
      takes effect. */
  function Cutoff(running: bool, stopBefore: nat, n: nat): (cut: nat)
    ensures cut <= n
    ensures !running ==> cut == 0
    ensures running && n <= stopBefore ==> cut == n
    ensures running && stopBefore < n ==> cut == stopBefore
  {
    if !running then 0 else if stopBefore < n then stopBefore else n
  }

  /** A pass attempts no name listed at or after the position where `stop()`
      takes effect: every attempt is of a name listed before it, the
      attempts are at most as many as those names, and over a listing
      without repeated names each of them is attempted at most once. */
  lemma AttemptsPrecedeStop(step: Step, s: PassState, names: seq<string>, running: bool, stopBefore: nat)
    ensures var cut := Cutoff(running, stopBefore, |names|);
      var r := Pass(step, s, names[..cut]);
      && |r.trace| <= |s.trace| + cut
      && (forall a :: a in r.trace[|s.trace|..] ==> a.name in names[..cut])
      && ((forall i, j :: 0 <= i < j < |names| ==> names[i] != names[j]) ==>
          forall i, j :: |s.trace| <= i < j < |r.trace| ==> r.trace[i].name != r.trace[j].name)
  {
    var cut := Cutoff(running, stopBefore, |names|);
    PassLedgerGrowsOnlyOnSuccess(step, s, names[..cut]);
    if forall i, j :: 0 <= i < j < |names| ==> names[i] != names[j] {
      assert forall i, j :: 0 <= i < j < |names[..cut]| ==> names[..cut][i] != names[..cut][j] by {
        forall i, j | 0 <= i < j < |names[..cut]|
          ensures names[..cut][i] != names[..cut][j]
        {
          assert names[..cut][i] == names[i] && names[..cut][j] == names[j];
        }
      }
      PassAttemptsEachNameOnce(step, s, names[..cut]);
    }
  }

  /** A pass cut short by `stop()` is the uninterrupted pass of
      file_mover.py with its tail missing: resuming it over the names after
      the cut-off gives exactly the uninterrupted pass, so its attempts are a
      prefix of the uninterrupted pass's attempts and its ledger a subset of
      that pass's ledger. Without a stop during the pass the two coincide. */
  lemma StopCutsPassShort(step: Step, s: PassState, names: seq<string>, running: bool, stopBefore: nat)
    ensures var cut := Cutoff(running, stopBefore, |names|);
      var stopped := Pass(step, s, names[..cut]);
      var full := Pass(step, s, names);
      && Pass(step, stopped, names[cut..]) == full
      && stopped.trace <= full.trace
      && stopped.ledger <= full.ledger
      && (running && |names| <= stopBefore ==> stopped == full)
  {
    var cut := Cutoff(running, stopBefore, |names|);
    assert names[..cut] + names[cut..] == names;
    PassResumes(step, s, names[..cut], names[cut..]);
    assert running && |names| <= stopBefore ==> names[..cut] == names;
  }

  class MrcFileMover {
    const sourceDir: string
    const destinationDir: string
    /** The dedup ledger: base names moved during this process's life. */
    var processedFiles: set<string>
    /** Cleared by `stop()`; the scan loop checks it before each file. */
    var running: bool

    /** A running mover over the two directories, with an empty ledger. */
    constructor (sourceDir: string, destinationDir: string)
      ensures this.sourceDir == sourceDir && this.destinationDir == destinationDir
      ensures processedFiles == {} && running
    {
      this.sourceDir := sourceDir;
      this.destinationDir := destinationDir;
      processedFiles := {};
      running := true;
    }

    /** `stop()`: clear the flag. The state afterwards does not depend on the
        flag before, so a second call changes nothing. */
    method Stop()
      modifies this`running
      ensures !running
    {
      running := false;
    }

    /** `move_file`: probe, then move to the destination directory. */
    method MoveFile(disk: Disk, filePath: Path, io: MoveIo) returns (ok: bool)
      modifies disk
      ensures Effect(ok, disk.files) == Move(old(disk.files), destinationDir, filePath, io)
    {
      if !IsFileReady(io.probe) {
        return false;
      }
      var destPath := Path(destinationDir, filePath.name);
      ok := disk.Move(filePath, destPath, io.move);
    }

    /** `scan_and_move`: one pass over the `*.mrc` entries of the source
        directory, checking `running` before each file. `stopBefore` is the
        position in the list of `*.mrc` names before whose check the GUI
        thread's `stop()` takes effect; a position past the end means it does
        not come during this pass. */
    method ScanAndMove(disk: Disk, entries: seq<string>, io: string -> MoveIo, stopBefore: nat)
      modifies this, disk
      ensures var names := MrcNames(entries);
        var r := Pass(MoveStep(sourceDir, destinationDir, io),
                      Start(old(disk.files), old(processedFiles)),
                      names[..Cutoff(old(running), stopBefore, |names|)]);
        disk.files == r.files && processedFiles == r.ledger
      ensures running == (old(running) && |MrcNames(entries)| <= stopBefore)
      ensures old(processedFiles) <= processedFiles
    {
      var mrcFiles := MrcNames(entries);
      if |mrcFiles| == 0 {
        return;
      }
      ghost var step := MoveStep(sourceDir, destinationDir, io);
      ghost var start := Start(disk.files, processedFiles);
      ghost var cut := Cutoff(running, stopBefore, |mrcFiles|);
      ghost var wasRunning := running;
      var i := 0;
      while i < |mrcFiles|
        invariant i <= cut
        invariant running == (wasRunning && i <= stopBefore)
        invariant disk.files == Pass(step, start, mrcFiles[..i]).files
        invariant processedFiles == Pass(step, start, mrcFiles[..i]).ledger
      {
        if i == stopBefore {
          Stop();  // the GUI thread's stop() lands before this check
        }
        if !running {
          break;
        }
        var filePath := Path(sourceDir, mrcFiles[i]);
        assert mrcFiles[..i + 1] == mrcFiles[..i] + [filePath.name];
        ghost var state := Pass(step, start, mrcFiles[..i]);
        assert Pass(step, start, mrcFiles[..i + 1]) == Visit(step, state, filePath.name);
        assert filePath.name !in processedFiles ==>
          step(disk.files, filePath.name) == Move(disk.files, destinationDir, filePath, io(filePath.name));
        if filePath.name !in processedFiles {
          var ok := MoveFile(disk, filePath, io(filePath.name));
          if ok {
            processedFiles := processedFiles + {filePath.name};
          }
        }
        i := i + 1;
      }
      assert i == cut;
    }
  }
}
