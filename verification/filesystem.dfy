/** An abstract file system: file contents by path plus the set of
    existing directories. `os.path.exists`, `os.path.isdir`, `os.listdir`,
    `os.makedirs(..., exist_ok=True)`, `shutil.copy` and `shutil.move` are
    updates and queries on it. */
module FileSystem {
  import opened Results
  import opened Paths

  newtype Byte = x: int | 0 <= x < 256
  type Bytes = seq<Byte>

  datatype Fs = Fs(files: map<Path, Bytes>, dirs: set<seq<string>>)

  /** `os.path.exists`: a file or a directory of that name. */
  predicate Exists(fs: Fs, p: Path)
  {
    p in fs.files || AsDir(p) in fs.dirs
  }

  /** Everything `Exists` reports, as a finite set of paths. */
  function Occupied(fs: Fs): (s: set<Path>)
    ensures forall p :: p in s <==> Exists(fs, p)
  {
    var s := fs.files.Keys + set d | d in fs.dirs && |d| > 0 :: DirAsPath(d);
    assert forall d | d in fs.dirs && |d| > 0 :: AsDir(DirAsPath(d)) == d by {
      forall d | d in fs.dirs && |d| > 0 ensures AsDir(DirAsPath(d)) == d {
        assert d[..|d| - 1] + [d[|d| - 1]] == d;
      }
    }
    assert forall p | Exists(fs, p) :: p in s by {
      forall p | Exists(fs, p)
        ensures p in s
      {
        if p !in fs.files {
          DirPathRoundTrip(p);
        }
      }
    }
    s
  }

  /** The file names `os.listdir(d)` reports. Sub-directories are not
      listed: see the README. */
  function FileNames(fs: Fs, d: seq<string>): (names: set<string>)
    ensures forall n :: n in names <==> Path(d, n) in fs.files
  {
    set p | p in fs.files && p.dirs == d :: p.name
  }

  /** `d` and all its ancestors. */
  function Prefixes(d: seq<string>): (s: set<seq<string>>)
    ensures d in s
    ensures forall e :: e in s <==> |e| <= |d| && d[..|e|] == e
  {
    assert d[..|d|] == d;
    set k | 0 <= k <= |d| :: d[..k]
  }

  /** Some ancestor of `d` (or `d` itself) is a file, so it cannot be a directory. */
  predicate BlockedByFile(fs: Fs, d: seq<string>)
  {
    exists k | 1 <= k <= |d| :: DirAsPath(d[..k]) in fs.files
  }

  /** `os.makedirs(d, exist_ok=True)`: creates `d` and its missing ancestors;
      raises when one of them is a file. */
  function MakeDirs(fs: Fs, d: seq<string>): (r: Result<Fs>)
    ensures r.Failure? <==> BlockedByFile(fs, d)
    ensures r.Failure? ==> r.error == NotADirectory
    ensures r.Success? ==> r.value.files == fs.files
    ensures r.Success? ==> d in r.value.dirs && fs.dirs <= r.value.dirs
    ensures r.Success? ==> forall e | e in r.value.dirs - fs.dirs :: |e| <= |d| && d[..|e|] == e
    // exactly `d` and its ancestors are added
    ensures r.Success? ==> r.value.dirs == fs.dirs + Prefixes(d)
  {
    if BlockedByFile(fs, d) then Failure(NotADirectory)
    else Success(Fs(fs.files, fs.dirs + Prefixes(d)))
  }

  /** `--mode`: keep the source (`shutil.copy`) or remove it (`shutil.move`). */
  datatype Mode = Copy | Move

  /** `shutil.copy(src, dst)` or `shutil.move(src, dst)` onto a file path. */
  function Transfer(fs: Fs, mode: Mode, src: Path, dst: Path): (r: Fs)
    requires src in fs.files
    ensures r.dirs == fs.dirs
    ensures dst in r.files && r.files[dst] == fs.files[src]
    ensures forall q | q in fs.files && q != src && q != dst :: q in r.files && r.files[q] == fs.files[q]
    ensures r.files.Keys == (if mode == Move then fs.files.Keys - {src} else fs.files.Keys) + {dst}
    // a copy leaves its source as it was; only the destination is written
    ensures mode == Copy ==> src in r.files && r.files[src] == fs.files[src]
    ensures KeepsFiles(fs, r, Removable(mode, src) + {dst})
  {
    var bytes := fs.files[src];
    match mode
    case Copy => Fs(fs.files[dst := bytes], fs.dirs)
    case Move => Fs((fs.files - {src})[dst := bytes], fs.dirs)
  }

  /** Every file of `fs` outside `removable` is still in `fs2` with the same bytes. */
  predicate KeepsFiles(fs: Fs, fs2: Fs, removable: set<Path>)
  {
    forall q | q in fs.files && q !in removable :: q in fs2.files && fs2.files[q] == fs.files[q]
  }

  /** The files a step may remove: the source in move mode, nothing in copy mode. */
  function Removable(mode: Mode, src: Path): set<Path>
  {
    if mode == Move then {src} else {}
  }

  /** `fs2` is `fs` after the bytes of `src` were written to the new file
      `dst`, removing `src` in move mode. The only folders added are the
      destination's folder and its ancestors, as `os.makedirs` creates them. */
  predicate Stores(fs: Fs, fs2: Fs, mode: Mode, src: Path, dst: Path)
  {
    && src in fs.files
    && dst in fs2.files && fs2.files[dst] == fs.files[src]
    && fs2.files.Keys == (if mode == Move then fs.files.Keys - {src} else fs.files.Keys) + {dst}
    && (forall q | q in fs.files && q != src && q != dst :: q in fs2.files && fs2.files[q] == fs.files[q])
    && fs2.dirs == fs.dirs + Prefixes(dst.dirs)
  }

  /** A file outside what a step may remove survives it unchanged. */
  lemma KeptEntry(fs: Fs, fs1: Fs, mode: Mode, src: Path, p: Path)
    requires KeepsFiles(fs, fs1, Removable(mode, src)) && p in fs.files && (mode == Move ==> p != src)
    ensures p in fs1.files && fs1.files[p] == fs.files[p]
  { }

  /** Bytes stored at `t` survive any later change that keeps every file
      outside `removable`. */
  lemma StoredThenKept(fs: Fs, fs1: Fs, fs2: Fs, mode: Mode, src: Path, t: Path, removable: set<Path>)
    requires Stores(fs, fs1, mode, src, t) && KeepsFiles(fs1, fs2, removable) && t !in removable
    ensures t in fs2.files && fs2.files[t] == fs.files[src]
  { }
}
