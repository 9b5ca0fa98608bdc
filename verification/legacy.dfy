/** The older stand-alone script (`ArchiveImages` in the repository root):
    the same timestamp rule, a `YYYY-MM-DD_HH-MM-SS.mmm` file name with the
    extension kept as written, no suffixing and no duplicates folder. An
    image is written only when its target is free; otherwise it is left
    where it is. */
module Legacy {
  import opened Results
  import opened Calendar
  import opened DateFormat
  import opened Text
  import opened Paths
  import opened FileSystem
  import opened Timestamps

  /** `--imageArchive` as path components, `--mode` and `--deleteDuplicates`. */
  datatype LegacyConfig = LegacyConfig(root: seq<string>, mode: Mode, deleteDuplicates: bool)

  /** What happened to one image. */
  datatype LegacyOutcome =
    | Archived(target: Path)         // the target was free and received the image
    | DuplicateKept(target: Path)    // the target holds the same bytes; nothing is done
    | LeftUnarchived(target: Path)   // the target holds other bytes; nothing is done
    | SkippedNoTimestamp             // no timestamp

  /** `ArchiveImages.get_timestamp`: the same rule as the packaged tool,
      except that an image format without an Exif reader raises. */
  function LegacyResolve(meta: Metadata): (r: Result<Option<DateTime>>)
    ensures r.Success? && r.value.Some? ==> Valid(r.value.value)
    ensures meta.Unsupported? <==> r == Failure(NoExifCapability)
    ensures !meta.Unsupported? ==> r == Resolve(meta)
  {
    match meta
    case Unreadable => Failure(UnreadableImage)
    case Unsupported => Failure(NoExifCapability)
    case NoExif => Success(None)
    case Exif(tags) => ResolveTags(tags)
  }

  /** The target of `archive_image`: `root/YYYY/MM/YYYY-MM-DD_HH-MM-SS.mmm`
      followed by the source extension exactly as written. */
  function LegacyTarget(cfg: LegacyConfig, src: Path, t: DateTime): (r: Path)
    requires Valid(t)
    ensures |r.name| >= 23 && r.dirs == cfg.root + [r.name[..4], r.name[5..7]]
    ensures Ext(src.name) != "" ==> SplitExt(r.name) == (Stamp(t, LegacyLayout), Ext(src.name))
    ensures Ext(src.name) == "" ==> r.name == Stamp(t, LegacyLayout)
  {
    var stamp := Stamp(t, LegacyLayout);
    var name := stamp + Ext(src.name);
    StampFolders(t, LegacyLayout, Ext(src.name));
    assert Ext(src.name) != "" ==> SplitExt(name) == (stamp, Ext(src.name)) by {
      if Ext(src.name) != "" {
        assert ExtShape(Stem(src.name), Ext(src.name));
        SplitExtOfShape(stamp, Ext(src.name));
      }
    }
    Path(cfg.root + [FixedDigits(t.year, 4), FixedDigits(t.month, 2)], name)
  }

  /** `ArchiveImages.archive_image` once its target is computed (see
      `LegacyTarget`): write only into a free path, never over an existing
      file. A target that exists as a directory makes the byte comparison
      raise. */
  function ArchiveImage(mode: Mode, fs: Fs, src: Path, target: Path): (r: Result<(Fs, LegacyOutcome)>)
    requires src in fs.files
    ensures r.Failure? <==>
              || (!Exists(fs, target) && BlockedByFile(fs, target.dirs))
              || (Exists(fs, target) && target !in fs.files)
    ensures r.Failure? ==> r.error == (if Exists(fs, target) then IsADirectory else NotADirectory)
    ensures r.Success? ==> !r.value.1.SkippedNoTimestamp? && r.value.1.target == target
    ensures r.Success? ==> KeepsFiles(fs, r.value.0, Removable(mode, src))
    // an existing target is never written to, and nothing else changes either
    ensures Exists(fs, target) && r.Success? ==> r.value.0 == fs
    ensures r.Success? && r.value.1.Archived? <==> r.Success? && !Exists(fs, target)
    ensures r.Success? && r.value.1.Archived? ==>
              Stores(fs, r.value.0, mode, src, target) && (mode == Copy <==> src in r.value.0.files)
    // identical bytes: the source stays, whatever `--deleteDuplicates` says
    ensures r.Success? && r.value.1.DuplicateKept? <==>
              r.Success? && target in fs.files && fs.files[target] == fs.files[src]
    ensures r.Success? && r.value.1.LeftUnarchived? <==>
              r.Success? && target in fs.files && fs.files[target] != fs.files[src]
  {
    if !Exists(fs, target) then
      var made :- MakeDirs(fs, target.dirs);
      Success((Transfer(made, mode, src, target), Archived(target)))
    else if target !in fs.files then Failure(IsADirectory)
    else if fs.files[target] == fs.files[src] then Success((fs, DuplicateKept(target)))
    else Success((fs, LeftUnarchived(target)))
  }

  /** One pass of the loop in `ArchiveImages.__init__`. */
  function LegacyProcess(cfg: LegacyConfig, fs: Fs, img: Path, meta: Metadata): (r: Result<(Fs, LegacyOutcome)>)
    ensures img !in fs.files ==> r == Failure(UnreadableImage)
    ensures img in fs.files && LegacyResolve(meta).Failure? ==> r == Failure(LegacyResolve(meta).error)
    ensures r.Success? ==> (r.value.1.SkippedNoTimestamp? <==> LegacyResolve(meta) == Success(None))
    ensures r.Success? && r.value.1.SkippedNoTimestamp? ==> r.value.0 == fs
    ensures img in fs.files && LegacyResolve(meta) == Success(None) ==> r == Success((fs, SkippedNoTimestamp))
    ensures r.Success? ==> KeepsFiles(fs, r.value.0, Removable(cfg.mode, img))
    // an image is only ever written to a path that did not exist
    ensures r.Success? && r.value.1.Archived? ==>
              !Exists(fs, r.value.1.target) && Stores(fs, r.value.0, cfg.mode, img, r.value.1.target)
    ensures img in fs.files && LegacyResolve(meta).Success? && LegacyResolve(meta).value.Some? ==>
              r == ArchiveImage(cfg.mode, fs, img, LegacyTarget(cfg, img, LegacyResolve(meta).value.value))
  {
    if img !in fs.files then Failure(UnreadableImage)
    else
      var ts :- LegacyResolve(meta);
      match ts
      case None => Success((fs, SkippedNoTimestamp))
      case Some(t) => ArchiveImage(cfg.mode, fs, img, LegacyTarget(cfg, img, t))
  }

  /** Running the script again over an archived image (copy mode) finds
      the identical copy and changes nothing. */
  lemma LegacyRerunKeepsArchive(cfg: LegacyConfig, fs: Fs, img: Path, meta: Metadata)
    requires cfg.mode == Copy
    requires LegacyProcess(cfg, fs, img, meta).Success?
    requires LegacyProcess(cfg, fs, img, meta).value.1.Archived?
    ensures var fs2 := LegacyProcess(cfg, fs, img, meta).value.0;
      LegacyProcess(cfg, fs2, img, meta) == Success((fs2, DuplicateKept(LegacyProcess(cfg, fs, img, meta).value.1.target)))
  {
    var fs2 := LegacyProcess(cfg, fs, img, meta).value.0;
    var t := LegacyResolve(meta).value.value;
    var target := LegacyTarget(cfg, img, t);
    assert LegacyProcess(cfg, fs, img, meta) == ArchiveImage(cfg.mode, fs, img, target);
    assert img in fs2.files && fs2.files[img] == fs.files[img];
    assert target in fs2.files && fs2.files[target] == fs.files[img];
    assert LegacyProcess(cfg, fs2, img, meta) == ArchiveImage(cfg.mode, fs2, img, target);
  }

  /** The result of the older script's loop. */
  datatype LegacyRunResult = LegacyRunResult(fs: Fs, outcomes: seq<LegacyOutcome>, fault: Option<Fault>)

  /** The images a run is given. */
  function LegacySources(imgs: seq<(Path, Metadata)>): (s: set<Path>)
    ensures forall i | 0 <= i < |imgs| :: imgs[i].0 in s
    ensures forall q | q in s :: exists i | 0 <= i < |imgs| :: imgs[i].0 == q
  {
    set i | 0 <= i < |imgs| :: imgs[i].0
  }

  /** The loop of `ArchiveImages.__init__` over the found images, each with
      its metadata. */
  function LegacyRun(cfg: LegacyConfig, fs: Fs, imgs: seq<(Path, Metadata)>): (r: LegacyRunResult)
    ensures r.fault.None? ==> |r.outcomes| == |imgs|
    ensures r.fault.Some? ==> |r.outcomes| < |imgs|
    // no existing file is ever overwritten; only sources disappear, and only in move mode
    ensures KeepsFiles(fs, r.fs, if cfg.mode == Move then LegacySources(imgs) else {})
    decreases |imgs|
  {
    if |imgs| == 0 then LegacyRunResult(fs, [], None)
    else
      match LegacyProcess(cfg, fs, imgs[0].0, imgs[0].1)
      case Failure(e) => LegacyRunResult(fs, [], Some(e))
      case Success((fs1, o)) =>
        var rest := LegacyRun(cfg, fs1, imgs[1..]);
        LegacyKeepsChain(fs, fs1, rest.fs, cfg.mode, imgs);
        LegacyRunResult(rest.fs, [o] + rest.outcomes, rest.fault)
  }

  /** One step followed by the rest of the run keeps what the whole run keeps. */
  lemma LegacyKeepsChain(fs: Fs, fs1: Fs, fs2: Fs, mode: Mode, imgs: seq<(Path, Metadata)>)
    requires |imgs| > 0
    requires KeepsFiles(fs, fs1, Removable(mode, imgs[0].0))
    requires KeepsFiles(fs1, fs2, if mode == Move then LegacySources(imgs[1..]) else {})
    ensures KeepsFiles(fs, fs2, if mode == Move then LegacySources(imgs) else {})
  {
    LegacySourcesTail(imgs);
  }

  lemma LegacySourcesTail(imgs: seq<(Path, Metadata)>)
    requires |imgs| > 0
    ensures LegacySources(imgs[1..]) <= LegacySources(imgs)
  {
    forall q | q in LegacySources(imgs[1..])
      ensures q in LegacySources(imgs)
    {
      var i :| 0 <= i < |imgs[1..]| && imgs[1..][i].0 == q;
      assert imgs[i + 1].0 == q;
    }
  }

  /** The run and its first step: a fault of the first image's step ends
      the run with nothing recorded; otherwise that step's outcome comes
      first. */
  lemma LegacyRunFirstStep(cfg: LegacyConfig, fs: Fs, imgs: seq<(Path, Metadata)>)
    requires |imgs| > 0
    ensures var step := LegacyProcess(cfg, fs, imgs[0].0, imgs[0].1);
      var r := LegacyRun(cfg, fs, imgs);
      && (step.Failure? ==> r == LegacyRunResult(fs, [], Some(step.error)))
      && (step.Success? ==> |r.outcomes| > 0 && r.outcomes[0] == step.value.1)
  { }

  /** A run whose first step succeeds records that step's outcome and
      continues from the file system it left. */
  lemma LegacyRunStep(cfg: LegacyConfig, fs: Fs, imgs: seq<(Path, Metadata)>)
    requires |imgs| > 0 && LegacyProcess(cfg, fs, imgs[0].0, imgs[0].1).Success?
    ensures var s := LegacyProcess(cfg, fs, imgs[0].0, imgs[0].1).value;
      var rest := LegacyRun(cfg, s.0, imgs[1..]);
      LegacyRun(cfg, fs, imgs) == LegacyRunResult(rest.fs, [s.1] + rest.outcomes, rest.fault)
  { }

  /** Running over `a + b` is running over `a` and then, unless a fault
      stopped it, over `b` from the file system `a` left behind. */
  lemma {:induction false} LegacyRunSplit(cfg: LegacyConfig, fs: Fs, a: seq<(Path, Metadata)>, b: seq<(Path, Metadata)>)
    ensures var ra := LegacyRun(cfg, fs, a);
      var rb := LegacyRun(cfg, ra.fs, b);
      LegacyRun(cfg, fs, a + b)
        == if ra.fault.Some? then ra else LegacyRunResult(rb.fs, ra.outcomes + rb.outcomes, rb.fault)
    decreases |a|
  {
    if |a| == 0 {
      assert a + b == b;
    } else {
      var ab := a + b;
      assert ab[0] == a[0] && ab[1..] == a[1..] + b;
      var step := LegacyProcess(cfg, fs, a[0].0, a[0].1);
      if step.Success? {
        var fs1, o := step.value.0, step.value.1;
        LegacyRunStep(cfg, fs, a);
        LegacyRunStep(cfg, fs, ab);
        LegacyRunSplit(cfg, fs1, a[1..], b);
        var ra1 := LegacyRun(cfg, fs1, a[1..]);
        var rb := LegacyRun(cfg, ra1.fs, b);
        ConsAssoc(o, ra1.outcomes, rb.outcomes);
      }
    }
  }

  /** `t` is none of the images' source paths. */
  predicate LegacyNotASource(t: Path, imgs: seq<(Path, Metadata)>)
  {
    forall j | 0 <= j < |imgs| :: imgs[j].0 != t
  }

  /** The source paths are pairwise distinct, as the glob reports them. */
  predicate LegacyDistinctPaths(imgs: seq<(Path, Metadata)>)
  {
    forall j, k | 0 <= j < k < |imgs| :: imgs[j].0 != imgs[k].0
  }

  /** An image the run archives still has its bytes at its target when the
      run ends, unless that target is a source a later move takes away. */
  lemma {:induction false} LegacyRunKeepsArchived(cfg: LegacyConfig, fs: Fs, imgs: seq<(Path, Metadata)>, i: nat)
    requires cfg.mode == Move ==> LegacyDistinctPaths(imgs)
    requires i < |LegacyRun(cfg, fs, imgs).outcomes| && LegacyRun(cfg, fs, imgs).outcomes[i].Archived?
    requires cfg.mode == Move ==> LegacyNotASource(LegacyRun(cfg, fs, imgs).outcomes[i].target, imgs)
    requires imgs[i].0 in fs.files
    ensures var r := LegacyRun(cfg, fs, imgs);
      r.outcomes[i].target in r.fs.files && r.fs.files[r.outcomes[i].target] == fs.files[imgs[i].0]
    decreases |imgs|, 1
  {
    if i == 0 {
      LegacyRunKeepsFirst(cfg, fs, imgs);
    } else {
      LegacyRunKeepsLater(cfg, fs, imgs, i);
    }
  }

  lemma {:induction false} LegacyRunKeepsLater(cfg: LegacyConfig, fs: Fs, imgs: seq<(Path, Metadata)>, i: nat)
    requires cfg.mode == Move ==> LegacyDistinctPaths(imgs)
    requires 0 < i < |LegacyRun(cfg, fs, imgs).outcomes| && LegacyRun(cfg, fs, imgs).outcomes[i].Archived?
    requires cfg.mode == Move ==> LegacyNotASource(LegacyRun(cfg, fs, imgs).outcomes[i].target, imgs)
    requires imgs[i].0 in fs.files
    ensures var r := LegacyRun(cfg, fs, imgs);
      r.outcomes[i].target in r.fs.files && r.fs.files[r.outcomes[i].target] == fs.files[imgs[i].0]
    decreases |imgs|, 0
  {
    var fs1 := LegacyRunShift(cfg, fs, imgs, i);
    LegacyTailFacts(cfg.mode, imgs, i, LegacyRun(cfg, fs, imgs).outcomes[i].target);
    KeptEntry(fs, fs1, cfg.mode, imgs[0].0, imgs[i].0);
    LegacyRunKeepsArchived(cfg, fs1, imgs[1..], i - 1);
  }

  /** What the Move-mode side conditions say about the images after the first. */
  lemma LegacyTailFacts(mode: Mode, imgs: seq<(Path, Metadata)>, i: nat, t: Path)
    requires 0 < i < |imgs|
    requires mode == Move ==> LegacyDistinctPaths(imgs) && LegacyNotASource(t, imgs)
    ensures imgs[1..][i - 1] == imgs[i]
    ensures mode == Move ==> LegacyDistinctPaths(imgs[1..]) && LegacyNotASource(t, imgs[1..]) && imgs[i].0 != imgs[0].0
  {
    if mode == Move {
      forall j, k | 0 <= j < k < |imgs[1..]|
        ensures imgs[1..][j].0 != imgs[1..][k].0
      {
        assert imgs[1..][j] == imgs[j + 1] && imgs[1..][k] == imgs[k + 1];
      }
      LegacyNotASourceTail(t, imgs);
    }
  }

  lemma LegacyNotASourceTail(t: Path, imgs: seq<(Path, Metadata)>)
    requires |imgs| > 0 && LegacyNotASource(t, imgs)
    ensures LegacyNotASource(t, imgs[1..]) && t !in LegacySources(imgs[1..])
  {
    forall j | 0 <= j < |imgs[1..]|
      ensures imgs[1..][j].0 != t
    {
      assert imgs[1..][j] == imgs[j + 1];
    }
  }

  lemma LegacyRunKeepsFirst(cfg: LegacyConfig, fs: Fs, imgs: seq<(Path, Metadata)>)
    requires 0 < |LegacyRun(cfg, fs, imgs).outcomes| && LegacyRun(cfg, fs, imgs).outcomes[0].Archived?
    requires cfg.mode == Move ==> LegacyNotASource(LegacyRun(cfg, fs, imgs).outcomes[0].target, imgs)
    ensures var r := LegacyRun(cfg, fs, imgs);
      r.outcomes[0].target in r.fs.files && r.fs.files[r.outcomes[0].target] == fs.files[imgs[0].0]
  {
    var fs1, o := LegacyRunUncons(cfg, fs, imgs);
    var rest := LegacyRun(cfg, fs1, imgs[1..]);
    if cfg.mode == Move {
      LegacyNotASourceTail(o.target, imgs);
    }
    StoredThenKept(fs, fs1, rest.fs, cfg.mode, imgs[0].0, o.target, if cfg.mode == Move then LegacySources(imgs[1..]) else {});
  }

  /** The first step of a run that recorded an outcome, with only what the
      inductive proofs need of it. */
  lemma LegacyRunUncons(cfg: LegacyConfig, fs: Fs, imgs: seq<(Path, Metadata)>) returns (fs1: Fs, o: LegacyOutcome)
    requires |LegacyRun(cfg, fs, imgs).outcomes| > 0
    ensures |imgs| > 0
    ensures var rest := LegacyRun(cfg, fs1, imgs[1..]);
      LegacyRun(cfg, fs, imgs) == LegacyRunResult(rest.fs, [o] + rest.outcomes, rest.fault)
    ensures KeepsFiles(fs, fs1, Removable(cfg.mode, imgs[0].0))
    ensures o.Archived? ==> Stores(fs, fs1, cfg.mode, imgs[0].0, o.target)
  {
    var step := LegacyProcess(cfg, fs, imgs[0].0, imgs[0].1);
    fs1, o := step.value.0, step.value.1;
    LegacyRunStep(cfg, fs, imgs);
  }

  /** The outcomes after the first are those of the rest of the run, which
      starts from the file system the first step left. */
  lemma LegacyRunShift(cfg: LegacyConfig, fs: Fs, imgs: seq<(Path, Metadata)>, i: nat) returns (fs1: Fs)
    requires 0 < i < |LegacyRun(cfg, fs, imgs).outcomes|
    ensures |imgs| > 0 && i - 1 < |LegacyRun(cfg, fs1, imgs[1..]).outcomes|
    ensures LegacyRun(cfg, fs, imgs).outcomes[i] == LegacyRun(cfg, fs1, imgs[1..]).outcomes[i - 1]
    ensures LegacyRun(cfg, fs, imgs).fs == LegacyRun(cfg, fs1, imgs[1..]).fs
    ensures KeepsFiles(fs, fs1, Removable(cfg.mode, imgs[0].0))
  {
    var o;
    fs1, o := LegacyRunUncons(cfg, fs, imgs);
    ConsIndex(o, LegacyRun(cfg, fs1, imgs[1..]).outcomes, i);
  }
}
