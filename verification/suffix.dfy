/** Collision resolution (`add_suffix`): a path that already exists gets
    `_01`, `_02`, ... inserted before its extension until the result is
    free. The probe terminates because the file system is finite and
    distinct suffix numbers give distinct paths. */
module Suffix {
  import opened Text
  import opened Paths
  import opened FileSystem

  /** The `i`-th probe: `stem_NN.ext`, with `NN` formatted by `"{:02d}"`. */
  function Candidate(p: Path, i: nat): Path
  {
    Path(p.dirs, Stem(p.name) + "_" + Padded(i, 2) + Ext(p.name))
  }

  /** Different suffix numbers give different paths. */
  lemma CandidateInjective(p: Path, i: nat, j: nat)
    requires Candidate(p, i) == Candidate(p, j)
    ensures i == j
  {
    var s := Stem(p.name) + "_";
    var e := Ext(p.name);
    var a := Padded(i, 2);
    var b := Padded(j, 2);
    assert s + a + e == s + b + e;
    assert |a| == |b|;
    assert a == (s + a + e)[|s|..|s| + |a|];
    assert b == (s + b + e)[|s|..|s| + |b|];
  }

  /** Pigeonhole: at most as many probes can be taken as there are
      existing paths. */
  lemma Pigeonhole(fs: Fs, p: Path, n: nat)
    requires TakenBelow(fs, p, n + 1)
    ensures n <= |Occupied(fs)|
  {
    var f := (i: nat) => Candidate(p, i);
    forall i: nat, j: nat | 1 <= i <= n && 1 <= j <= n && f(i) == f(j)
      ensures i == j
    {
      CandidateInjective(p, i, j);
    }
    InjectiveBound(f, n, Occupied(fs));
  }

  /** `n` distinct values drawn from `s` need `n` elements in `s`. */
  lemma {:induction false} InjectiveBound<T>(f: nat -> T, n: nat, s: set<T>)
    requires forall i: nat, j: nat | 1 <= i <= n && 1 <= j <= n && f(i) == f(j) :: i == j
    requires forall i: nat | 1 <= i <= n :: f(i) in s
    ensures n <= |s|
  {
    if n > 0 {
      var rest := s - {f(n)};
      forall i: nat | 1 <= i <= n - 1
        ensures f(i) in rest
      {
        assert f(i) != f(n);
      }
      InjectiveBound(f, n - 1, rest);
    }
  }

  /** The smallest suffix number at or after `i` whose probe is free, given
      that every probe before `i` is taken. */
  function FirstFree(fs: Fs, p: Path, i: nat): (k: nat)
    requires i >= 1 && TakenBelow(fs, p, i)
    ensures k >= i && !Exists(fs, Candidate(p, k))
    ensures TakenBelow(fs, p, k)
    decreases |Occupied(fs)| + 1 - i
  {
    if !Exists(fs, Candidate(p, i)) then i
    else
      TakenExtend(fs, p, i);
      Pigeonhole(fs, p, i);
      FirstFree(fs, p, i + 1)
  }

  /** There is only one smallest free suffix number. */
  lemma LeastFreeUnique(fs: Fs, p: Path, k1: nat, k2: nat)
    requires k1 >= 1 && !Exists(fs, Candidate(p, k1)) && forall j | 1 <= j < k1 :: Exists(fs, Candidate(p, j))
    requires k2 >= 1 && !Exists(fs, Candidate(p, k2)) && forall j | 1 <= j < k2 :: Exists(fs, Candidate(p, j))
    ensures k1 == k2
  {
  }

  /** `add_suffix(target)`: the target itself when it is free, otherwise
      the first free probe. The result never exists, stays in the target's
      directory and keeps the target's stem as a prefix. */
  function AddSuffix(fs: Fs, p: Path): (r: Path)
    ensures !Exists(fs, r)
    ensures r.dirs == p.dirs
    ensures StartsWith(r.name, Stem(p.name))
    ensures !Exists(fs, p) ==> r == p
    ensures Exists(fs, p) ==> exists k | k >= 1 ::
              && r == Candidate(p, k)
              && forall j | 1 <= j < k :: Exists(fs, Candidate(p, j))
  {
    if !Exists(fs, p) then
      assert Stem(p.name) + Ext(p.name) == p.name;
      p
    else
      var k := FirstFree(fs, p, 1);
      var c := Candidate(p, k);
      assert c.name[..|Stem(p.name)|] == Stem(p.name);
      c
  }

  /** Every probe numbered 1 up to but excluding `k` is taken. */
  predicate TakenBelow(fs: Fs, p: Path, k: nat)
  {
    forall j | 1 <= j < k :: Exists(fs, Candidate(p, j))
  }

  /** The probing loop of `add_suffix` as written. */
  method ProbeSuffix(fs: Fs, p: Path) returns (r: Path)
    ensures r == AddSuffix(fs, p)
  {
    r := p;
    var i := 1;
    while Exists(fs, r)
      invariant ProbeState(fs, p, r, i)
      decreases |Occupied(fs)| + 2 - i
    {
      ProbeAdvance(fs, p, r, i);
      r := Candidate(p, i);
      i := i + 1;
    }
    ProbeDone(fs, p, r, i);
  }

  /** The loop state before the `i`-th probe: `r` is the path last tried
      and every earlier one was taken. */
  predicate ProbeState(fs: Fs, p: Path, r: Path, i: nat)
  {
    && i >= 1
    && (i == 1 ==> r == p)
    && (i > 1 ==> r == Candidate(p, i - 1) && Exists(fs, p))
    && TakenBelow(fs, p, i - 1)
  }

  /** A taken path moves the loop on, and there are never more probes than
      occupied paths plus one. */
  lemma ProbeAdvance(fs: Fs, p: Path, r: Path, i: nat)
    requires ProbeState(fs, p, r, i) && Exists(fs, r)
    ensures ProbeState(fs, p, Candidate(p, i), i + 1)
    ensures i <= |Occupied(fs)| + 1
  {
    if i > 1 {
      TakenExtend(fs, p, i - 1);
      Pigeonhole(fs, p, i - 1);
    }
  }

  /** The loop stops at what `add_suffix` describes. */
  lemma ProbeDone(fs: Fs, p: Path, r: Path, i: nat)
    requires ProbeState(fs, p, r, i) && !Exists(fs, r)
    ensures r == AddSuffix(fs, p)
  {
    if i > 1 {
      ProbeStopsAtFirstFree(fs, p, i - 1);
    }
  }

  lemma TakenExtend(fs: Fs, p: Path, k: nat)
    requires TakenBelow(fs, p, k) && Exists(fs, Candidate(p, k))
    ensures TakenBelow(fs, p, k + 1)
  {
  }

  /** A probe that is free after only taken ones is the result of `add_suffix`. */
  lemma ProbeStopsAtFirstFree(fs: Fs, p: Path, k: nat)
    requires k >= 1 && Exists(fs, p) && TakenBelow(fs, p, k) && !Exists(fs, Candidate(p, k))
    ensures Candidate(p, k) == AddSuffix(fs, p)
  {
    LeastFreeUnique(fs, p, k, FirstFree(fs, p, 1));
  }

  // ---------------------------------------------------------------------
  // `add_suffix` as written rewrites every occurrence of the extension in
  // the whole path string, not only the one at the end.

  /** Python's `s.replace(old, new)`: every non-overlapping occurrence, left to right. */
  function ReplaceAll(s: string, pat: string, rep: string): string
    decreases |s|
  {
    if |pat| == 0 then
      // Python inserts `rep` before every character and at the end
      if |s| == 0 then rep else rep + [s[0]] + ReplaceAll(s[1..], pat, rep)
    else if |s| < |pat| then s
    else if s[..|pat|] == pat then rep + ReplaceAll(s[|pat|..], pat, rep)
    else [s[0]] + ReplaceAll(s[1..], pat, rep)
  }

  /** The `i`-th probe of `add_suffix` as written, on the full path string. */
  function AsWrittenCandidate(p: Path, i: nat): string
  {
    ReplaceAll(PathString(p), Ext(p.name), "_" + Padded(i, 2) + Ext(p.name))
  }

  /** `pat` occurs in `s` at index `k`. */
  predicate OccursAt(s: string, pat: string, k: nat)
  {
    k + |pat| <= |s| && s[k..k + |pat|] == pat
  }

  /** When the extension occurs in the path string only at its end, the
      code as written and `Candidate` build the same path. */
  lemma AsWrittenAgrees(p: Path, i: nat)
    requires Ext(p.name) != ""
    requires forall k | 0 <= k < |PathString(p)| - |Ext(p.name)| :: !OccursAt(PathString(p), Ext(p.name), k)
    ensures AsWrittenCandidate(p, i) == PathString(Candidate(p, i))
  {
    var rep := "_" + Padded(i, 2) + Ext(p.name);
    var c := Candidate(p, i);
    assert AsWrittenCandidate(p, i) == JoinSlash(p.dirs) + (Stem(p.name) + rep) by {
      ReplaceInPath(p, rep);
    }
    assert c.name == Stem(p.name) + rep;
  }

  /** Replacing an extension that occurs only at the end of the path string
      rewrites the file name alone. */
  lemma ReplaceInPath(p: Path, rep: string)
    requires Ext(p.name) != ""
    requires forall k | 0 <= k < |PathString(p)| - |Ext(p.name)| :: !OccursAt(PathString(p), Ext(p.name), k)
    ensures ReplaceAll(PathString(p), Ext(p.name), rep) == JoinSlash(p.dirs) + (Stem(p.name) + rep)
  {
    var e := Ext(p.name);
    var stem := Stem(p.name);
    assert p.name == stem + e;
    assert PathString(p) == JoinSlash(p.dirs) + p.name;
    ReplaceAtName(JoinSlash(p.dirs), p.name, stem, e, rep);
  }

  /** The string form of `ReplaceInPath`: folders `d`, then a name that
      ends in the pattern. */
  lemma ReplaceAtName(d: string, name: string, stem: string, pat: string, rep: string)
    requires |pat| > 0 && name == stem + pat
    requires forall k | 0 <= k < |d + name| - |pat| :: !OccursAt(d + name, pat, k)
    ensures ReplaceAll(d + name, pat, rep) == d + (stem + rep)
  {
    NameSplit(d, name, stem, pat);
    ReplaceEnd(d + name, d + stem, pat, rep);
    Regroup(d, stem, rep);
  }

  lemma Regroup(a: string, b: string, c: string)
    ensures (a + b) + c == a + (b + c)
  {
  }

  /** The folders and stem before a name's extension are a prefix with no
      occurrence of the pattern. */
  lemma NameSplit(d: string, name: string, stem: string, pat: string)
    requires |pat| > 0 && name == stem + pat
    requires forall k | 0 <= k < |d + name| - |pat| :: !OccursAt(d + name, pat, k)
    ensures d + name == (d + stem) + pat
    ensures forall k | 0 <= k < |d + stem| :: !OccursAt(d + name, pat, k)
  {
    assert |d + name| - |pat| == |d + stem|;
  }

  /** `ReplaceOnlyAtEnd` for a string already known to end in the pattern. */
  lemma ReplaceEnd(s: string, prefix: string, pat: string, rep: string)
    requires |pat| > 0 && s == prefix + pat
    requires forall k | 0 <= k < |prefix| :: !OccursAt(s, pat, k)
    ensures ReplaceAll(s, pat, rep) == prefix + rep
  {
    ReplaceOnlyAtEnd(prefix, pat, rep);
  }

  lemma {:induction false} ReplaceOnlyAtEnd(prefix: string, pat: string, rep: string)
    requires |pat| > 0
    requires forall k | 0 <= k < |prefix| :: !OccursAt(prefix + pat, pat, k)
    ensures ReplaceAll(prefix + pat, pat, rep) == prefix + rep
    decreases |prefix|
  {
    if |prefix| == 0 {
      assert prefix + pat == pat;
      ReplaceWhole(pat, rep);
    } else {
      var s := prefix + pat;
      var rest := prefix[1..];
      assert s[1..] == rest + pat;
      forall k | 0 <= k < |rest|
        ensures !OccursAt(rest + pat, pat, k)
      {
        assert !OccursAt(s, pat, k + 1);
        assert (rest + pat)[k..k + |pat|] == s[k + 1..k + 1 + |pat|];
      }
      assert ReplaceAll(rest + pat, pat, rep) == rest + rep by {
        ReplaceOnlyAtEnd(rest, pat, rep);
      }
      assert ReplaceAll(s, pat, rep) == [s[0]] + ReplaceAll(s[1..], pat, rep) by {
        assert !OccursAt(s, pat, 0);
        ReplaceNoMatch(s, pat, rep);
      }
      assert [prefix[0]] + (rest + rep) == prefix + rep;
    }
  }

  /** A front that is not an occurrence keeps its first character. */
  lemma ReplaceNoMatch(s: string, pat: string, rep: string)
    requires |pat| > 0 && |s| > 0 && !OccursAt(s, pat, 0)
    ensures ReplaceAll(s, pat, rep) == [s[0]] + ReplaceAll(s[1..], pat, rep)
  {
  }

  /** An archive folder whose name contains the extension: with the archive
      at `a.jpg/` and an occupied `a.jpg/no_exif_data/t.jpg` (the place
      `--addNoExif` gives an image `t.jpg` without a timestamp), every probe
      as written is `a_NN.jpg/no_exif_data/t_NN.jpg`, a file in another
      folder, while `Candidate` probes `a.jpg/no_exif_data/t_NN.jpg`. */
  lemma AsWrittenLeavesDirectory(i: nat)
    ensures var p := Path(["a.jpg", "no_exif_data"], "t.jpg");
      var suffix := "_" + Padded(i, 2) + ".jpg";
      && AsWrittenCandidate(p, i) == "a" + suffix + "/no_exif_data/t" + suffix
      && PathString(Candidate(p, i)) == "a.jpg/no_exif_data/t" + suffix
      && AsWrittenCandidate(p, i) != PathString(Candidate(p, i))
  {
    ExampleName();
    ExamplePath();
    ExampleWith(Padded(i, 2));
  }

  /** The example with the probe number's text left open. */
  lemma ExampleWith(n: string)
    ensures var suffix := "_" + n + ".jpg";
      && ReplaceAll("a.jpg/no_exif_data/t.jpg", ".jpg", suffix) == "a" + suffix + "/no_exif_data/t" + suffix
      && JoinSlash(["a.jpg", "no_exif_data"]) + ("t" + "_" + n + ".jpg") == "a.jpg/no_exif_data/t" + suffix
      && "a" + suffix + "/no_exif_data/t" + suffix != "a.jpg/no_exif_data/t" + suffix
  {
    var suffix := "_" + n + ".jpg";
    ExampleReplace("a.jpg/no_exif_data/t.jpg", ".jpg", suffix);
    ExampleCandidatePath(n);
    ExampleDiffers(suffix);
  }

  lemma ExampleCandidatePath(n: string)
    ensures JoinSlash(["a.jpg", "no_exif_data"]) + ("t" + "_" + n + ".jpg")
            == "a.jpg/no_exif_data/t" + ("_" + n + ".jpg")
  {
    ExampleFolders();
    assert "a.jpg/no_exif_data/" + ("t" + "_" + n + ".jpg")
           == ("a.jpg/no_exif_data/" + "t") + ("_" + n + ".jpg");
    assert "a.jpg/no_exif_data/" + "t" == "a.jpg/no_exif_data/t";
  }

  lemma ExampleDiffers(suffix: string)
    requires |suffix| > 0 && suffix[0] == '_'
    ensures "a" + suffix + "/no_exif_data/t" + suffix != "a.jpg/no_exif_data/t" + suffix
  {
    assert ("a" + suffix + "/no_exif_data/t" + suffix)[1] == '_';
    assert ("a.jpg/no_exif_data/t" + suffix)[1] == '.';
  }

  lemma ExampleName()
    ensures Stem("t.jpg") == "t" && Ext("t.jpg") == ".jpg"
  {
    assert ExtShape("t", ".jpg") by {
      assert "t"[0] != '.';
    }
    SplitExtOfShape("t", ".jpg");
    assert "t" + ".jpg" == "t.jpg";
  }

  lemma ExampleFolders()
    ensures JoinSlash(["a.jpg", "no_exif_data"]) == "a.jpg/no_exif_data/"
  {
    var d := ["a.jpg", "no_exif_data"];
    assert d[1..] == ["no_exif_data"];
    assert d[1..][1..] == [];
    assert JoinSlash(["no_exif_data"]) == "no_exif_data/";
  }

  lemma ExamplePath()
    ensures PathString(Path(["a.jpg", "no_exif_data"], "t.jpg")) == "a.jpg/no_exif_data/t.jpg"
  {
    ExampleFolders();
    assert "a.jpg/no_exif_data/" + "t.jpg" == "a.jpg/no_exif_data/t.jpg";
  }

  /** `replace` on the example path string: both occurrences of the
      extension are rewritten. */
  lemma ExampleReplace(path: string, pat: string, rep: string)
    requires path == "a.jpg/no_exif_data/t.jpg" && pat == ".jpg"
    ensures ReplaceAll(path, pat, rep) == "a" + rep + "/no_exif_data/t" + rep
  {
    ExampleSplit(path, pat, "a", "/no_exif_data/t");
    ReplaceTwice("a", "/no_exif_data/t", pat, rep);
    assert "a" + (rep + ("/no_exif_data/t" + rep)) == "a" + rep + "/no_exif_data/t" + rep;
  }

  /** The example path string is two dot-free pieces each followed by the
      extension. */
  lemma ExampleSplit(path: string, pat: string, x: string, y: string)
    requires path == "a.jpg/no_exif_data/t.jpg" && pat == ".jpg"
    requires x == "a" && y == "/no_exif_data/t"
    ensures path == x + (pat + (y + pat))
    ensures |pat| > 0
    ensures forall k | 0 <= k < |x| :: x[k] != pat[0]
    ensures forall k | 0 <= k < |y| :: y[k] != pat[0]
  {
  }

  /** A string with the pattern twice, each time after text that cannot
      start it, has both occurrences replaced. */
  lemma ReplaceTwice(x: string, y: string, pat: string, rep: string)
    requires |pat| > 0
    requires forall k | 0 <= k < |x| :: x[k] != pat[0]
    requires forall k | 0 <= k < |y| :: y[k] != pat[0]
    ensures ReplaceAll(x + (pat + (y + pat)), pat, rep) == x + (rep + (y + rep))
  {
    assert ReplaceAll(y + pat, pat, rep) == y + rep by {
      ReplaceSkips(y, pat, pat, rep);
      ReplaceWhole(pat, rep);
    }
    ReplaceSkipThenHit(x, y + pat, pat, rep);
  }

  /** The pattern alone is replaced by `rep`. */
  lemma ReplaceWhole(pat: string, rep: string)
    requires |pat| > 0
    ensures ReplaceAll(pat, pat, rep) == rep
  {
    assert pat[..|pat|] == pat;
    assert ReplaceAll(pat[|pat|..], pat, rep) == "";
  }

  /** Text none of whose characters can start the pattern is kept, and the
      occurrence after it is replaced. */
  lemma ReplaceSkipThenHit(x: string, s: string, pat: string, rep: string)
    requires |pat| > 0
    requires forall k | 0 <= k < |x| :: x[k] != pat[0]
    ensures ReplaceAll(x + (pat + s), pat, rep) == x + (rep + ReplaceAll(s, pat, rep))
  {
    assert ReplaceAll(pat + s, pat, rep) == rep + ReplaceAll(s, pat, rep) by {
      ReplaceHit(pat, s, rep);
    }
    ReplaceSkips(x, pat + s, pat, rep);
  }

  /** Text none of whose characters can start the pattern passes through
      `replace` unchanged. */
  lemma {:induction false} ReplaceSkips(x: string, s: string, pat: string, rep: string)
    requires |pat| > 0
    requires forall k | 0 <= k < |x| :: x[k] != pat[0]
    ensures ReplaceAll(x + s, pat, rep) == x + ReplaceAll(s, pat, rep)
    decreases |x|
  {
    if |x| > 0 {
      var rest := x[1..];
      var r := ReplaceAll(s, pat, rep);
      assert x + s == [x[0]] + (rest + s) by {
        assert x == [x[0]] + rest;
      }
      assert ReplaceAll(rest + s, pat, rep) == rest + r by {
        ReplaceSkips(rest, s, pat, rep);
      }
      assert ReplaceAll([x[0]] + (rest + s), pat, rep) == [x[0]] + (rest + r) by {
        ReplaceMiss(x[0], rest + s, pat, rep);
      }
      assert [x[0]] + (rest + r) == x + r by {
        assert x == [x[0]] + rest;
      }
    } else {
      assert x + s == s;
    }
  }

  /** An occurrence at the front is replaced and the scan goes on after it. */
  lemma ReplaceHit(pat: string, s: string, rep: string)
    requires |pat| > 0
    ensures ReplaceAll(pat + s, pat, rep) == rep + ReplaceAll(s, pat, rep)
  {
    assert (pat + s)[..|pat|] == pat;
    assert (pat + s)[|pat|..] == s;
  }

  /** A first character that cannot start an occurrence is kept. */
  lemma ReplaceMiss(c: char, s: string, pat: string, rep: string)
    requires |pat| > 0 && c != pat[0]
    ensures ReplaceAll([c] + s, pat, rep) == [c] + ReplaceAll(s, pat, rep)
  {
    assert ([c] + s)[1..] == s;
    if |[c] + s| >= |pat| {
      assert ([c] + s)[..|pat|][0] == c;
    }
  }
}
