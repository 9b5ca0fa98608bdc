/** Duplicate detection (`check_duplicate` with `isduplicate`): among the
    files of the target's directory whose names start with the target's
    stem, a byte-identical copy of the source sends the image to the
    duplicates folder or skips it. */
module Duplicates {
  import opened Text
  import opened Paths
  import opened FileSystem
  import opened Settings

  /** What duplicate detection decides for a planned target. */
  datatype Decision =
    | Keep(target: Path)      // no identical copy: archive under the planned path
    | Reroute(target: Path)   // identical copy found, collect it in the duplicates folder
    | Skip                    // identical copy found, leave the image out

  /** File `name` of directory `dir` is a candidate for the stem and holds exactly `bytes`. */
  predicate IsCopy(fs: Fs, dir: seq<string>, stem: string, bytes: Bytes, name: string)
  {
    StartsWith(name, stem) && Path(dir, name) in fs.files && fs.files[Path(dir, name)] == bytes
  }

  /** Some stem-matching file of `dir` is byte-identical to `bytes`. */
  predicate HasCopy(fs: Fs, dir: seq<string>, stem: string, bytes: Bytes)
  {
    exists name | name in FileNames(fs, dir) :: IsCopy(fs, dir, stem, bytes, name)
  }

  /** The decision `check_duplicate` reaches; the order in which the
      directory is listed plays no part (see `ScanListing`). */
  function CheckDuplicate(cfg: Config, fs: Fs, bytes: Bytes, target: Path): (d: Decision)
    ensures d.Keep? <==> target.dirs !in fs.dirs || !HasCopy(fs, target.dirs, Stem(target.name), bytes)
    ensures d.Keep? ==> d.target == target
    ensures d.Reroute? <==> !d.Keep? && cfg.addDuplicates
    ensures d.Reroute? ==> d.target == Path(cfg.root + [DuplicateFolder], target.name)
  {
    if target.dirs in fs.dirs && HasCopy(fs, target.dirs, Stem(target.name), bytes) then
      if cfg.addDuplicates then Reroute(Path(cfg.root + [DuplicateFolder], target.name)) else Skip
    else Keep(target)
  }

  /** The loop of `check_duplicate` over `os.listdir` in whatever order the
      listing comes, stopping at the first stem-matching identical file.
      Every listing of the directory leads to the same decision. */
  method ScanListing(cfg: Config, fs: Fs, bytes: Bytes, target: Path, listing: seq<string>)
    returns (d: Decision)
    requires target.dirs in fs.dirs ==> forall n :: n in listing <==> n in FileNames(fs, target.dirs)
    ensures d == CheckDuplicate(cfg, fs, bytes, target)
  {
    if target.dirs !in fs.dirs {
      return Keep(target);
    }
    var dir := target.dirs;
    var stem := Stem(target.name);
    var i := 0;
    while i < |listing|
      invariant 0 <= i <= |listing|
      invariant forall j | 0 <= j < i :: !IsCopy(fs, dir, stem, bytes, listing[j])
    {
      var name := listing[i];
      assert name in listing;
      if StartsWith(name, stem) && fs.files[Path(dir, name)] == bytes {
        assert IsCopy(fs, dir, stem, bytes, name);
        if cfg.addDuplicates {
          return Reroute(Path(cfg.root + [DuplicateFolder], target.name));
        }
        return Skip;
      }
      i := i + 1;
    }
    assert !HasCopy(fs, dir, stem, bytes) by {
      forall name | name in FileNames(fs, dir)
        ensures !IsCopy(fs, dir, stem, bytes, name)
      {
        var j :| 0 <= j < |listing| && listing[j] == name;
      }
    }
    return Keep(target);
  }

  /** Files whose names do not start with the target's stem never affect
      the decision: two file systems that agree on whether the directory
      exists and on every stem-matching file in it decide alike. */
  lemma OtherEntriesIgnored(cfg: Config, fs1: Fs, fs2: Fs, bytes: Bytes, target: Path)
    requires (target.dirs in fs1.dirs <==> target.dirs in fs2.dirs)
    requires forall n | StartsWith(n, Stem(target.name)) ::
      && (Path(target.dirs, n) in fs1.files <==> Path(target.dirs, n) in fs2.files)
      && (Path(target.dirs, n) in fs1.files ==> fs1.files[Path(target.dirs, n)] == fs2.files[Path(target.dirs, n)])
    ensures CheckDuplicate(cfg, fs1, bytes, target) == CheckDuplicate(cfg, fs2, bytes, target)
  {
    var dir := target.dirs;
    var stem := Stem(target.name);
    if HasCopy(fs1, dir, stem, bytes) {
      var n :| n in FileNames(fs1, dir) && IsCopy(fs1, dir, stem, bytes, n);
      assert n in FileNames(fs2, dir) && IsCopy(fs2, dir, stem, bytes, n);
    }
    if HasCopy(fs2, dir, stem, bytes) {
      var n :| n in FileNames(fs2, dir) && IsCopy(fs2, dir, stem, bytes, n);
      assert n in FileNames(fs1, dir) && IsCopy(fs1, dir, stem, bytes, n);
    }
  }
}
