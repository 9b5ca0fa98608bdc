/** Paths as directory components plus a base name, and Python's
    `os.path.splitext` on the base name. */
module Paths {
  import opened Text

  /** `os.path.join(*dirs, name)`: `dirs` is `os.path.dirname`, `name` is
      `os.path.basename`. */
  datatype Path = Path(dirs: seq<string>, name: string)

  /** The path naming directory `d` itself, when `d` is not the root. */
  function DirAsPath(d: seq<string>): Path
    requires |d| > 0
  {
    Path(d[..|d| - 1], d[|d| - 1])
  }

  /** The directory a path names when it is used as a directory. */
  function AsDir(p: Path): seq<string>
  {
    p.dirs + [p.name]
  }

  lemma DirPathRoundTrip(p: Path)
    ensures DirAsPath(AsDir(p)) == p
  {
  }

  /** `stem + ext` is a split `splitext` produces: `ext` is a dot followed by
      no further dot, and `stem` is not made of dots only (leading dots of a
      name such as `.profile` are not an extension separator). */
  predicate ExtShape(stem: string, ext: string)
  {
    && |ext| >= 1 && ext[0] == '.'
    && (forall i | 1 <= i < |ext| :: ext[i] != '.')
    && (exists i | 0 <= i < |stem| :: stem[i] != '.')
  }

  /** Index of the last '.' in `s`. */
  function LastDot(s: string): (k: int)
    ensures -1 <= k < |s|
    ensures k >= 0 ==> s[k] == '.'
    ensures forall i | k < i < |s| :: s[i] != '.'
  {
    if |s| == 0 then -1
    else if s[|s| - 1] == '.' then |s| - 1
    else LastDot(s[..|s| - 1])
  }

  /** `os.path.splitext(name)`: split at the last dot, unless everything
      before that dot is dots; then the extension is empty. */
  function SplitExt(name: string): (r: (string, string))
    ensures r.0 + r.1 == name
    ensures r.1 != "" ==> ExtShape(r.0, r.1)
  {
    var k := LastDot(name);
    if k >= 0 && exists i | 0 <= i < k :: name[i] != '.' then
      assert name[..k] + name[k..] == name;
      (name[..k], name[k..])
    else
      assert name + "" == name;
      (name, "")
  }

  /** The only split of a name into a well-formed stem and extension is at
      its last dot. */
  lemma ShapeIsAtLastDot(name: string, k: nat)
    requires k <= |name| && ExtShape(name[..k], name[k..])
    ensures k == LastDot(name)
    ensures exists i | 0 <= i < k :: name[i] != '.'
  {
    var last := LastDot(name);
    assert name[k..][0] == '.';
    if last > k {
      assert false;
    }
    var i :| 0 <= i < k && name[..k][i] != '.';
    assert name[i] != '.';
  }

  /** `splitext` finds no extension only when no split of the name has the
      shape of one. */
  lemma NoExtMeansNoShape(name: string)
    requires Ext(name) == ""
    ensures forall k | 0 <= k <= |name| :: !ExtShape(name[..k], name[k..])
  {
    forall k | 0 <= k <= |name| && ExtShape(name[..k], name[k..])
      ensures false
    {
      ShapeIsAtLastDot(name, k);
    }
  }

  function Stem(name: string): string { SplitExt(name).0 }

  function Ext(name: string): string { SplitExt(name).1 }

  /** Joining a well-formed stem and extension and splitting again gives
      them back. */
  lemma SplitExtOfShape(stem: string, ext: string)
    requires ExtShape(stem, ext)
    ensures SplitExt(stem + ext) == (stem, ext)
  {
    var name := stem + ext;
    assert name[..|stem|] == stem && name[|stem|..] == ext;
    ShapeIsAtLastDot(name, |stem|);
  }

  /** A path as the single string Python passes around, components joined by '/'. */
  function PathString(p: Path): string
  {
    JoinSlash(p.dirs) + p.name
  }

  function JoinSlash(dirs: seq<string>): string
  {
    if |dirs| == 0 then "" else dirs[0] + "/" + JoinSlash(dirs[1..])
  }
}
