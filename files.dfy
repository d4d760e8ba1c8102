/** The filesystem as the three movers see it: regular files addressed by
    directory and base name, the size probe that decides whether a file is
    still being written, the `*.mrc` name filter, and the handful of
    `os`/`shutil` calls the movers make. Every call that can fail in the real
    program takes an oracle argument that decides the failure. */
module Files {

  datatype Option<T> = None | Some(value: T)

  type Bytes = seq<bv8>

  /** A hex digest, as returned by `hexdigest()`. */
  type Digest = string

  /** `os.path.join(dir, name)`, or `dir / name` for a `pathlib.Path`.
      `name` is the base name, the key of the dedup ledger. */
  datatype Path = Path(dir: string, name: string)

  /** The regular files that exist, with their contents. */
  type FileMap = map<Path, Bytes>

  /** The result of one call that can fail: whether it returned normally,
      and the filesystem afterwards. */
  datatype Effect = Effect(ok: bool, files: FileMap)

  const MrcSuffix: string := ".mrc"

  /** Python's `str.endswith`. */
  predicate HasSuffix(s: string, suffix: string)
  {
    |suffix| <= |s| && s[|s| - |suffix|..] == suffix
  }

  /** Path `p` is absent from both maps, or present in both with the same bytes. */
  predicate SameAt(f: FileMap, g: FileMap, p: Path)
  {
    (p in f <==> p in g) && (p in f ==> f[p] == g[p])
  }

  // ---------------------------------------------------------------------
  // Readiness probe

  /** The two size readings taken one second apart; `None` is a reading that
      raised (file vanished, permission denied). */
  datatype SizeProbe = SizeProbe(initial: Option<nat>, final: Option<nat>)

  /** `is_file_ready`: the file is ready when both readings succeed and agree.
      A failing reading is never raised to the caller; it makes the file not
      ready. */
  function IsFileReady(probe: SizeProbe): (ready: bool)
    ensures ready <==> probe.initial.Some? && probe.final.Some? && probe.initial.value == probe.final.value
    ensures probe.initial.None? || probe.final.None? ==> !ready
  {
    match probe
    case SizeProbe(Some(initial), Some(final)) => initial == final
    case _ => false
  }

  // ---------------------------------------------------------------------
  // Listing filter

  /** `sub` is `s` with some elements left out and the rest kept in order. */
  predicate IsSubsequence(sub: seq<string>, s: seq<string>)
  {
    if s == [] then sub == []
    else
      || (sub != [] && sub[|sub| - 1] == s[|s| - 1] && IsSubsequence(sub[..|sub| - 1], s[..|s| - 1]))
      || IsSubsequence(sub, s[..|s| - 1])
  }

  /** The entries of a listing whose names end in `.mrc`, in listing order
      (`glob("*.mrc")` on a directory, or the suffix test of a comprehension). */
  function MrcNames(entries: seq<string>): (r: seq<string>)
    ensures |r| <= |entries|
    ensures forall n :: n in r <==> n in entries && HasSuffix(n, MrcSuffix)
  {
    if entries == [] then []
    else
      var rest := MrcNames(entries[..|entries| - 1]);
      var last := entries[|entries| - 1];
      assert entries == entries[..|entries| - 1] + [last];
      if HasSuffix(last, MrcSuffix) then rest + [last] else rest
  }

  /** The filter keeps the listing order: its result is a subsequence of
      the listing. */
  lemma {:induction false} MrcNamesKeepOrder(entries: seq<string>)
    ensures IsSubsequence(MrcNames(entries), entries)
  {
    if entries != [] {
      var init := entries[..|entries| - 1];
      MrcNamesKeepOrder(init);
      var rest := MrcNames(init);
      assert (rest + [entries[|entries| - 1]])[..|rest|] == rest;
    }
  }

  // ---------------------------------------------------------------------
  // The os / shutil calls, as functions of the filesystem and an oracle

  /** What `shutil.copy2` does once it starts writing. */
  datatype CopyIo =
    | Faithful                        // the destination receives the source's bytes
    | Corrupted(written: Bytes)       // the call returns, but other bytes reached the disk
    | Failed(leftover: Option<Bytes>) // the call raises; a partial file may stay behind

  /** `shutil.copy2(src, dst)`. It raises before writing anything when the
      source does not exist or when both paths name the same file
      (`SameFileError`). */
  function CopyEffect(files: FileMap, src: Path, dst: Path, io: CopyIo): (e: Effect)
    ensures e.ok <==> src in files && src != dst && !io.Failed?
    ensures e.ok ==> dst in e.files && e.files[dst] == (if io.Faithful? then files[src] else io.written)
    ensures forall p :: p != dst ==> SameAt(files, e.files, p)
    ensures src in files && src == dst ==> e.files == files
  {
    if src !in files || src == dst then Effect(false, files)
    else
      match io
      case Faithful => Effect(true, files[dst := files[src]])
      case Corrupted(written) => Effect(true, files[dst := written])
      case Failed(Some(partial)) => Effect(false, files[dst := partial])
      case Failed(None) => Effect(false, files)
  }

  /** `os.remove(p)`: raises when `p` does not exist or the oracle refuses
      (permission denied, file locked). */
  function RemoveEffect(files: FileMap, p: Path, allowed: bool): (e: Effect)
    ensures e.ok <==> p in files && allowed
    ensures e.ok ==> p !in e.files
    ensures !e.ok ==> e.files == files
    ensures forall q :: q != p ==> SameAt(files, e.files, q)
  {
    if p in files && allowed then Effect(true, files - {p}) else Effect(false, files)
  }

  /** The bytes a `shutil.copy2` that returned leaves at the destination. */
  function Written(source: Bytes, copy: CopyIo): Bytes
    requires !copy.Failed?
  {
    if copy.Faithful? then source else copy.written
  }

  /** What `shutil.move` does: `os.rename` succeeds, or it raises (on
      another device, permission denied, a locked file) and `shutil.move`
      falls back to `copy2` followed by `os.unlink` of the source. */
  datatype RenameIo =
    | Renamed                                    // `os.rename` succeeds
    | Fallback(copy: CopyIo, unlinkAllowed: bool) // `copy2`, then `os.unlink` of the source

  /** The bytes a `shutil.move` that returned leaves at the destination. */
  function MovedBytes(source: Bytes, io: RenameIo): Bytes
  {
    if io.Fallback? && !io.copy.Failed? then Written(source, io.copy) else source
  }

  /** `shutil.move(src, dst)`. A rename onto itself succeeds and changes
      nothing. When `os.rename` raises, `copy2(src, dst)` runs (raising for a
      missing source or onto itself, possibly leaving a partial file) and then
      `os.unlink(src)`; if the unlink raises, the copy stays at `dst` while
      the source stays too. */
  function RenameEffect(files: FileMap, src: Path, dst: Path, io: RenameIo): (e: Effect)
    ensures e.ok <==>
      && src in files
      && (io.Renamed? || (src != dst && !io.copy.Failed? && io.unlinkAllowed))
    // a rename that happens, or a missing source, leaves nothing behind on failure
    ensures !e.ok && (io.Renamed? || src !in files) ==> e.files == files
    ensures e.ok ==> dst in e.files && e.files[dst] == MovedBytes(files[src], io)
    ensures e.ok && src != dst ==> src !in e.files
    // on failure the source keeps its bytes; only the destination may change
    ensures !e.ok ==> SameAt(files, e.files, src)
    // a copy that went through but whose source could not be unlinked stays
    ensures && src in files && src != dst && io.Fallback? && !io.copy.Failed? && !io.unlinkAllowed
            ==> e == Effect(false, files[dst := Written(files[src], io.copy)])
    ensures forall q :: q != src && q != dst ==> SameAt(files, e.files, q)
  {
    if src !in files then Effect(false, files)
    else if io.Renamed? then Effect(true, (files - {src})[dst := files[src]])
    else
      var copied := CopyEffect(files, src, dst, io.copy);
      if !copied.ok then copied
      else RemoveEffect(copied.files, src, io.unlinkAllowed)
  }

  /** The disk shared by the mover and the rest of the machine. */
  class Disk {
    var files: FileMap

    constructor (initial: FileMap)
      ensures files == initial
    {
      files := initial;
    }

    method Copy2(src: Path, dst: Path, io: CopyIo) returns (ok: bool)
      modifies this
      ensures Effect(ok, files) == CopyEffect(old(files), src, dst, io)
    {
      var e := CopyEffect(files, src, dst, io);
      ok, files := e.ok, e.files;
    }

    method Remove(p: Path, allowed: bool) returns (ok: bool)
      modifies this
      ensures Effect(ok, files) == RemoveEffect(old(files), p, allowed)
    {
      var e := RemoveEffect(files, p, allowed);
      ok, files := e.ok, e.files;
    }

    method Move(src: Path, dst: Path, io: RenameIo) returns (ok: bool)
      modifies this
      ensures Effect(ok, files) == RenameEffect(old(files), src, dst, io)
    {
      var e := RenameEffect(files, src, dst, io);
      ok, files := e.ok, e.files;
    }
  }
}
