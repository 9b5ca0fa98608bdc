/** The per-image loop of the packaged tool (`main`) and its last step
    (`add_image_to_archive`): resolve the timestamp, plan the target, check
    for duplicates, add a suffix, then copy or move the image unless the
    user declines. */
module Pipeline {
  import opened Results
  import opened Text
  import opened Paths
  import opened FileSystem
  import opened Timestamps
  import opened Settings
  import opened Planner
  import opened Duplicates
  import opened Suffix

  /** A source image: where it lies and what its metadata reader reports. */
  datatype Image = Image(path: Path, meta: Metadata)

  /** What happened to one image. */
  datatype Outcome =
    | Archived(target: Path)            // copied or moved to its planned place (maybe suffixed)
    | ArchivedDuplicate(target: Path)   // an identical copy existed; collected in the duplicates folder
    | SkippedDuplicate                  // an identical copy existed; left out
    | SkippedNoTimestamp                // no timestamp and no `--addNoExif`
    | Declined(target: Path)            // `--confirm` and the answer was exactly "n"

  /** The user answered the confirmation prompt with exactly "n". */
  predicate Declines(cfg: Config, answer: string)
  {
    cfg.confirm && answer == "n"
  }

  /** `add_image_to_archive` for a target that does not exist yet. */
  function Place(cfg: Config, fs: Fs, src: Path, target: Path, answer: string): (r: Result<Fs>)
    requires src in fs.files && !Exists(fs, target)
    ensures Declines(cfg, answer) ==> r == Success(fs)
    ensures !Declines(cfg, answer) ==> (r.Failure? <==> BlockedByFile(fs, target.dirs))
    ensures r.Failure? ==> r.error == NotADirectory
    ensures r.Success? && !Declines(cfg, answer) ==> Stores(fs, r.value, cfg.mode, src, target)
    ensures r.Success? ==> KeepsFiles(fs, r.value, Removable(cfg.mode, src))
  {
    if Declines(cfg, answer) then Success(fs)
    else
      var made :- MakeDirs(fs, target.dirs);
      Success(Transfer(made, cfg.mode, src, target))
  }

  /** The target `get_image_target` plans for an image whose timestamp
      resolves without a fault; `None` when it is skipped or faults. */
  function Planned(cfg: Config, img: Image): Option<Path>
  {
    match Resolve(img.meta)
    case Failure(_) => None
    case Success(ts) => PlanTarget(cfg, img.path, ts)
  }

  /** One pass of the loop in `main` for one image. An unreadable or
      missing source, a malformed timestamp and a directory that cannot be
      created end the run with a fault. */
  function ProcessImage(cfg: Config, fs: Fs, img: Image, answer: string): (r: Result<(Fs, Outcome)>)
    ensures img.path !in fs.files ==> r == Failure(UnreadableImage)
    ensures img.path in fs.files && Resolve(img.meta).Failure? ==> r == Failure(Resolve(img.meta).error)
    ensures r.Failure? ==> Resolve(img.meta).Failure? || img.path !in fs.files || r.error == NotADirectory
    ensures r.Success? ==> KeepsFiles(fs, r.value.0, Removable(cfg.mode, img.path))
    ensures r.Success? ==> (r.value.1.SkippedNoTimestamp? <==> Resolve(img.meta) == Success(None) && !cfg.addNoExif)
    ensures img.path in fs.files && Resolve(img.meta) == Success(None) && !cfg.addNoExif ==>
              r == Success((fs, SkippedNoTimestamp))
    ensures r.Success? && r.value.1.SkippedDuplicate? ==> !cfg.addDuplicates
    ensures r.Success? && r.value.1.Declined? ==> Declines(cfg, answer)
    ensures r.Success? && (r.value.1.SkippedNoTimestamp? || r.value.1.SkippedDuplicate? || r.value.1.Declined?) ==>
              r.value.0 == fs
    // an image is only ever written to a path that did not exist
    ensures r.Success? && (r.value.1.Archived? || r.value.1.ArchivedDuplicate?) ==>
              && !Exists(fs, r.value.1.target)
              && !Declines(cfg, answer)
              && Stores(fs, r.value.0, cfg.mode, img.path, r.value.1.target)
    ensures r.Success? && r.value.1.ArchivedDuplicate? ==>
              cfg.addDuplicates && r.value.1.target.dirs == cfg.root + [DuplicateFolder]
    // where the bytes go: the suffixed planned path, or the suffixed name in the duplicates folder
    ensures r.Success? && r.value.1.Archived? ==>
              && Planned(cfg, img).Some?
              && CheckDuplicate(cfg, fs, fs.files[img.path], Planned(cfg, img).value).Keep?
              && r.value.1.target == AddSuffix(fs, Planned(cfg, img).value)
    ensures r.Success? && r.value.1.ArchivedDuplicate? ==>
              && Planned(cfg, img).Some?
              && CheckDuplicate(cfg, fs, fs.files[img.path], Planned(cfg, img).value).Reroute?
              && r.value.1.target == AddSuffix(fs, Path(cfg.root + [DuplicateFolder], Planned(cfg, img).value.name))
    ensures r.Success? && r.value.1.SkippedDuplicate? ==>
              Planned(cfg, img).Some? && CheckDuplicate(cfg, fs, fs.files[img.path], Planned(cfg, img).value) == Skip
  {
    if img.path !in fs.files then Failure(UnreadableImage)
    else
      var ts :- Resolve(img.meta);
      match PlanTarget(cfg, img.path, ts)
      case None => Success((fs, SkippedNoTimestamp))
      case Some(planned) =>
        match CheckDuplicate(cfg, fs, fs.files[img.path], planned)
        case Skip => Success((fs, SkippedDuplicate))
        case Keep(t) => Finish(cfg, fs, img.path, AddSuffix(fs, t), answer, false)
        case Reroute(t) => Finish(cfg, fs, img.path, AddSuffix(fs, t), answer, true)
  }

  /** The tail of the loop body: place the image under its free target and
      name what happened. */
  function Finish(cfg: Config, fs: Fs, src: Path, target: Path, answer: string, rerouted: bool)
    : (r: Result<(Fs, Outcome)>)
    requires src in fs.files && !Exists(fs, target)
    ensures r.Failure? <==> !Declines(cfg, answer) && BlockedByFile(fs, target.dirs)
    ensures r.Failure? ==> r.error == NotADirectory
    ensures r.Success? ==> KeepsFiles(fs, r.value.0, Removable(cfg.mode, src))
    ensures r.Success? ==> (r.value.1.Declined? <==> Declines(cfg, answer))
    ensures r.Success? && r.value.1.Declined? ==> r.value.0 == fs && r.value.1.target == target
    ensures r.Success? && !r.value.1.Declined? ==>
              && r.value.1 == (if rerouted then ArchivedDuplicate(target) else Archived(target))
              && Stores(fs, r.value.0, cfg.mode, src, target)
  {
    var placed :- Place(cfg, fs, src, target, answer);
    if Declines(cfg, answer) then Success((fs, Declined(target)))
    else if rerouted then Success((placed, ArchivedDuplicate(target)))
    else Success((placed, Archived(target)))
  }

  /** Byte-identical files are routed, never archived in place: when the
      planned target's folder already holds a stem-matching identical copy,
      the image is either skipped or collected in the duplicates folder. */
  lemma DuplicatesAreRouted(cfg: Config, fs: Fs, img: Image, answer: string, planned: Path)
    requires img.path in fs.files && Resolve(img.meta).Success?
    requires PlanTarget(cfg, img.path, Resolve(img.meta).value) == Some(planned)
    requires planned.dirs in fs.dirs && HasCopy(fs, planned.dirs, Stem(planned.name), fs.files[img.path])
    ensures var r := ProcessImage(cfg, fs, img, answer);
      && (r.Success? ==> !r.value.1.Archived?)
      && (!cfg.addDuplicates ==> r == Success((fs, SkippedDuplicate)))
  {
  }

  /** Archiving an image and then processing it again (copy mode, same
      metadata) never archives it a second time in its regular place: the
      first copy is found as a duplicate, so the image is skipped or, with
      `--addDuplicates`, collected in the duplicates folder. */
  lemma RerunFindsCopy(cfg: Config, fs: Fs, img: Image, a1: string, a2: string)
    requires cfg.mode == Copy
    requires ProcessImage(cfg, fs, img, a1).Success?
    requires ProcessImage(cfg, fs, img, a1).value.1.Archived?
    ensures var fs2 := ProcessImage(cfg, fs, img, a1).value.0;
      var r := ProcessImage(cfg, fs2, img, a2);
      && (r.Success? ==> !r.value.1.Archived?)
      && (!cfg.addDuplicates ==> r == Success((fs2, SkippedDuplicate)))
  {
    var first := ProcessImage(cfg, fs, img, a1);
    var fs2 := first.value.0;
    var t := first.value.1.target;
    var planned := PlanTarget(cfg, img.path, Resolve(img.meta).value).value;
    var bytes := fs.files[img.path];
    assert t == AddSuffix(fs, planned) by {
      assert CheckDuplicate(cfg, fs, bytes, planned) == Keep(planned);
    }
    assert t in fs2.files && fs2.files[t] == bytes;
    assert img.path in fs2.files && fs2.files[img.path] == bytes;
    assert planned.dirs in fs2.dirs;
    assert IsCopy(fs2, planned.dirs, Stem(planned.name), bytes, t.name);
    assert t.name in FileNames(fs2, planned.dirs);
    DuplicatesAreRouted(cfg, fs2, img, a2, planned);
  }

  /** Images taken at the same millisecond: when the planned path is
      taken by different bytes, the image is archived under the first free
      probe `_NN`; with `_01` free, that is `_01`. */
  lemma SameInstantGetsFirstFreeSuffix(cfg: Config, fs: Fs, img: Image, answer: string, planned: Path, k: nat)
    requires img.path in fs.files && Resolve(img.meta).Success?
    requires PlanTarget(cfg, img.path, Resolve(img.meta).value) == Some(planned)
    requires !(planned.dirs in fs.dirs && HasCopy(fs, planned.dirs, Stem(planned.name), fs.files[img.path]))
    requires planned in fs.files
    requires k >= 1 && TakenBelow(fs, planned, k) && !Exists(fs, Candidate(planned, k))
    requires !Declines(cfg, answer) && !BlockedByFile(fs, planned.dirs)
    ensures ProcessImage(cfg, fs, img, answer).Success?
    ensures ProcessImage(cfg, fs, img, answer).value.1 == Archived(Candidate(planned, k))
  {
    var c := Candidate(planned, k);
    assert AddSuffix(fs, planned) == c by {
      ProbeStopsAtFirstFree(fs, planned, k);
    }
    assert ProcessImage(cfg, fs, img, answer) == Finish(cfg, fs, img.path, c, answer, false) by {
      assert CheckDuplicate(cfg, fs, fs.files[img.path], planned) == Keep(planned);
      ProcessCases(cfg, fs, img, answer);
    }
    assert c.dirs == planned.dirs;
  }

  /** Once an image has a planned target, the duplicate decision picks the
      branch: a skip changes nothing, and a keep or a reroute is suffixed
      and placed by `Finish`. */
  lemma ProcessCases(cfg: Config, fs: Fs, img: Image, answer: string)
    requires img.path in fs.files && Planned(cfg, img).Some?
    ensures var d := CheckDuplicate(cfg, fs, fs.files[img.path], Planned(cfg, img).value);
      var r := ProcessImage(cfg, fs, img, answer);
      && (d.Skip? ==> r == Success((fs, SkippedDuplicate)))
      && (d.Keep? ==> r == Finish(cfg, fs, img.path, AddSuffix(fs, d.target), answer, false))
      && (d.Reroute? ==> r == Finish(cfg, fs, img.path, AddSuffix(fs, d.target), answer, true))
  {
  }

  /** Placing an image with a planned target fails: it is not skipped as a
      duplicate, the user did not decline, and a folder on the way to the
      chosen target (planned or in the duplicates folder) is a file. */
  predicate PlacementBlocked(cfg: Config, fs: Fs, img: Image, answer: string)
  {
    && img.path in fs.files
    && Planned(cfg, img).Some?
    && var d := CheckDuplicate(cfg, fs, fs.files[img.path], Planned(cfg, img).value);
    && !d.Skip?
    && !Declines(cfg, answer)
    && BlockedByFile(fs, d.target.dirs)
  }

  /** The step fails exactly on a missing source, a timestamp fault, or a
      blocked folder, and it fails with NotADirectory exactly in the last
      case: a skipped image, a declined one and a rerouted one with a free
      folder all go on with the run. */
  lemma ProcessFailsExactly(cfg: Config, fs: Fs, img: Image, answer: string)
    ensures var r := ProcessImage(cfg, fs, img, answer);
      && (r.Failure? <==>
            img.path !in fs.files || Resolve(img.meta).Failure? || PlacementBlocked(cfg, fs, img, answer))
      && (r == Failure(NotADirectory) <==> PlacementBlocked(cfg, fs, img, answer))
  {
    if img.path in fs.files && Planned(cfg, img).Some? {
      ProcessCases(cfg, fs, img, answer);
      var d := CheckDuplicate(cfg, fs, fs.files[img.path], Planned(cfg, img).value);
      if !d.Skip? {
        assert AddSuffix(fs, d.target).dirs == d.target.dirs;
      }
    }
  }

  /** The result of the whole loop: the final file system, one outcome per
      image handled, and the fault that ended the run early, if any. */
  datatype RunResult = RunResult(fs: Fs, outcomes: seq<Outcome>, fault: Option<Fault>)

  /** The paths of the source images. */
  function Sources(imgs: seq<Image>): (s: set<Path>)
    ensures forall i | 0 <= i < |imgs| :: imgs[i].path in s
    ensures forall q | q in s :: exists i | 0 <= i < |imgs| :: imgs[i].path == q
  {
    set i | 0 <= i < |imgs| :: imgs[i].path
  }

  /** The loop of `main` over the found images, with the answer the user
      gives at each confirmation prompt. */
  function Run(cfg: Config, fs: Fs, imgs: seq<Image>, answers: seq<string>): (r: RunResult)
    requires |answers| == |imgs|
    ensures r.fault.None? ==> |r.outcomes| == |imgs|
    ensures r.fault.Some? ==> |r.outcomes| < |imgs|
    // no existing file is ever overwritten; only sources disappear, and only in move mode
    ensures KeepsFiles(fs, r.fs, if cfg.mode == Move then Sources(imgs) else {})
    ensures fs.dirs <= r.fs.dirs
    decreases |imgs|
  {
    if |imgs| == 0 then RunResult(fs, [], None)
    else
      match ProcessImage(cfg, fs, imgs[0], answers[0])
      case Failure(e) => RunResult(fs, [], Some(e))
      case Success((fs1, o)) =>
        var rest := Run(cfg, fs1, imgs[1..], answers[1..]);
        KeepsChain(fs, fs1, rest.fs, cfg.mode, imgs);
        RunResult(rest.fs, [o] + rest.outcomes, rest.fault)
  }

  /** One step followed by the rest of the run keeps what the whole run keeps. */
  lemma KeepsChain(fs: Fs, fs1: Fs, fs2: Fs, mode: Mode, imgs: seq<Image>)
    requires |imgs| > 0
    requires KeepsFiles(fs, fs1, Removable(mode, imgs[0].path))
    requires KeepsFiles(fs1, fs2, if mode == Move then Sources(imgs[1..]) else {})
    ensures KeepsFiles(fs, fs2, if mode == Move then Sources(imgs) else {})
  {
    SourcesTail(imgs);
  }

  lemma SourcesTail(imgs: seq<Image>)
    requires |imgs| > 0
    ensures Sources(imgs[1..]) <= Sources(imgs)
  {
    forall q | q in Sources(imgs[1..])
      ensures q in Sources(imgs)
    {
      var i :| 0 <= i < |imgs[1..]| && imgs[1..][i].path == q;
      assert imgs[i + 1].path == q;
    }
  }

  /** The run and its first step: a fault of the first image's step ends
      the run with nothing recorded; otherwise that step's outcome comes
      first and the run goes on from the file system the step left. */
  lemma RunFirstStep(cfg: Config, fs: Fs, imgs: seq<Image>, answers: seq<string>)
    requires |answers| == |imgs| > 0
    ensures var step := ProcessImage(cfg, fs, imgs[0], answers[0]);
      var r := Run(cfg, fs, imgs, answers);
      && (step.Failure? ==> r == RunResult(fs, [], Some(step.error)))
      && (step.Success? ==> |r.outcomes| > 0 && r.outcomes[0] == step.value.1)
  { }

  /** A run whose first step succeeds records that step's outcome and
      continues from the file system it left. */
  lemma RunStep(cfg: Config, fs: Fs, imgs: seq<Image>, answers: seq<string>)
    requires |answers| == |imgs| > 0 && ProcessImage(cfg, fs, imgs[0], answers[0]).Success?
    ensures var s := ProcessImage(cfg, fs, imgs[0], answers[0]).value;
      var rest := Run(cfg, s.0, imgs[1..], answers[1..]);
      Run(cfg, fs, imgs, answers) == RunResult(rest.fs, [s.1] + rest.outcomes, rest.fault)
  { }

  /** Running over `a + b` is running over `a` and then, unless a fault
      stopped it, over `b` from the file system `a` left behind. */
  lemma {:induction false} RunSplit(cfg: Config, fs: Fs, a: seq<Image>, b: seq<Image>, aa: seq<string>, ab: seq<string>)
    requires |aa| == |a| && |ab| == |b|
    ensures var ra := Run(cfg, fs, a, aa);
      var rb := Run(cfg, ra.fs, b, ab);
      Run(cfg, fs, a + b, aa + ab)
        == if ra.fault.Some? then ra else RunResult(rb.fs, ra.outcomes + rb.outcomes, rb.fault)
    decreases |a|
  {
    if |a| == 0 {
      assert a + b == b && aa + ab == ab;
    } else {
      var ab0, aab := a + b, aa + ab;
      assert ab0[0] == a[0] && ab0[1..] == a[1..] + b;
      assert aab[0] == aa[0] && aab[1..] == aa[1..] + ab;
      var step := ProcessImage(cfg, fs, a[0], aa[0]);
      if step.Success? {
        var fs1, o := step.value.0, step.value.1;
        RunStep(cfg, fs, a, aa);
        RunStep(cfg, fs, ab0, aab);
        RunSplit(cfg, fs1, a[1..], b, aa[1..], ab);
        var ra1 := Run(cfg, fs1, a[1..], aa[1..]);
        var rb := Run(cfg, ra1.fs, b, ab);
        ConsAssoc(o, ra1.outcomes, rb.outcomes);
      }
    }
  }

  /** `t` is none of the images' source paths. */
  predicate NotASource(t: Path, imgs: seq<Image>)
  {
    forall j | 0 <= j < |imgs| :: imgs[j].path != t
  }

  lemma NotASourceTail(t: Path, imgs: seq<Image>)
    requires |imgs| > 0 && NotASource(t, imgs)
    ensures NotASource(t, imgs[1..]) && t !in Sources(imgs[1..])
  {
    forall j | 0 <= j < |imgs[1..]|
      ensures imgs[1..][j].path != t
    {
      assert imgs[1..][j] == imgs[j + 1];
    }
  }

  /** The source paths are pairwise distinct, as the glob reports them. */
  predicate DistinctPaths(imgs: seq<Image>)
  {
    forall j, k | 0 <= j < k < |imgs| :: imgs[j].path != imgs[k].path
  }

  /** An image the run archives still has its bytes at its target when the
      run ends, unless that target is a source a later move takes away. */
  lemma {:induction false} RunKeepsArchived(cfg: Config, fs: Fs, imgs: seq<Image>, answers: seq<string>, i: nat)
    requires |answers| == |imgs| && (cfg.mode == Move ==> DistinctPaths(imgs))
    requires i < |Run(cfg, fs, imgs, answers).outcomes|
    requires Run(cfg, fs, imgs, answers).outcomes[i].Archived? || Run(cfg, fs, imgs, answers).outcomes[i].ArchivedDuplicate?
    requires cfg.mode == Move ==> NotASource(Run(cfg, fs, imgs, answers).outcomes[i].target, imgs)
    requires imgs[i].path in fs.files
    ensures var r := Run(cfg, fs, imgs, answers);
      r.outcomes[i].target in r.fs.files && r.fs.files[r.outcomes[i].target] == fs.files[imgs[i].path]
    decreases |imgs|, 1
  {
    if i == 0 {
      RunKeepsFirst(cfg, fs, imgs, answers);
    } else {
      RunKeepsLater(cfg, fs, imgs, answers, i);
    }
  }

  lemma {:induction false} RunKeepsLater(cfg: Config, fs: Fs, imgs: seq<Image>, answers: seq<string>, i: nat)
    requires |answers| == |imgs| && (cfg.mode == Move ==> DistinctPaths(imgs))
    requires 0 < i < |Run(cfg, fs, imgs, answers).outcomes|
    requires Run(cfg, fs, imgs, answers).outcomes[i].Archived? || Run(cfg, fs, imgs, answers).outcomes[i].ArchivedDuplicate?
    requires cfg.mode == Move ==> NotASource(Run(cfg, fs, imgs, answers).outcomes[i].target, imgs)
    requires imgs[i].path in fs.files
    ensures var r := Run(cfg, fs, imgs, answers);
      r.outcomes[i].target in r.fs.files && r.fs.files[r.outcomes[i].target] == fs.files[imgs[i].path]
    decreases |imgs|, 0
  {
    var fs1 := RunShift(cfg, fs, imgs, answers, i);
    TailFacts(cfg.mode, imgs, i, Run(cfg, fs, imgs, answers).outcomes[i].target);
    KeptEntry(fs, fs1, cfg.mode, imgs[0].path, imgs[i].path);
    RunKeepsArchived(cfg, fs1, imgs[1..], answers[1..], i - 1);
  }

  /** What the Move-mode side conditions say about the images after the first. */
  lemma TailFacts(mode: Mode, imgs: seq<Image>, i: nat, t: Path)
    requires 0 < i < |imgs|
    requires mode == Move ==> DistinctPaths(imgs) && NotASource(t, imgs)
    ensures imgs[1..][i - 1] == imgs[i]
    ensures mode == Move ==> DistinctPaths(imgs[1..]) && NotASource(t, imgs[1..]) && imgs[i].path != imgs[0].path
  {
    if mode == Move {
      DistinctTail(imgs, i);
      NotASourceTail(t, imgs);
    }
  }

  lemma RunKeepsFirst(cfg: Config, fs: Fs, imgs: seq<Image>, answers: seq<string>)
    requires |answers| == |imgs| && 0 < |Run(cfg, fs, imgs, answers).outcomes|
    requires Run(cfg, fs, imgs, answers).outcomes[0].Archived? || Run(cfg, fs, imgs, answers).outcomes[0].ArchivedDuplicate?
    requires cfg.mode == Move ==> NotASource(Run(cfg, fs, imgs, answers).outcomes[0].target, imgs)
    ensures var r := Run(cfg, fs, imgs, answers);
      r.outcomes[0].target in r.fs.files && r.fs.files[r.outcomes[0].target] == fs.files[imgs[0].path]
  {
    var fs1, o := RunUncons(cfg, fs, imgs, answers);
    var rest := Run(cfg, fs1, imgs[1..], answers[1..]);
    if cfg.mode == Move {
      NotASourceTail(o.target, imgs);
      assert o.target !in Sources(imgs[1..]);
    }
    StoredThenKept(fs, fs1, rest.fs, cfg.mode, imgs[0].path, o.target, if cfg.mode == Move then Sources(imgs[1..]) else {});
  }

  lemma DistinctTail(imgs: seq<Image>, i: nat)
    requires 0 < i < |imgs| && DistinctPaths(imgs)
    ensures DistinctPaths(imgs[1..]) && imgs[i].path != imgs[0].path
  {
    forall j, k | 0 <= j < k < |imgs[1..]|
      ensures imgs[1..][j].path != imgs[1..][k].path
    {
      assert imgs[1..][j] == imgs[j + 1] && imgs[1..][k] == imgs[k + 1];
    }
  }

  /** The first step of a run that recorded an outcome, with only what the
      inductive proofs need of it. */
  lemma RunUncons(cfg: Config, fs: Fs, imgs: seq<Image>, answers: seq<string>) returns (fs1: Fs, o: Outcome)
    requires |answers| == |imgs| && |Run(cfg, fs, imgs, answers).outcomes| > 0
    ensures |imgs| > 0
    ensures var rest := Run(cfg, fs1, imgs[1..], answers[1..]);
      Run(cfg, fs, imgs, answers) == RunResult(rest.fs, [o] + rest.outcomes, rest.fault)
    ensures KeepsFiles(fs, fs1, Removable(cfg.mode, imgs[0].path))
    ensures o.Archived? || o.ArchivedDuplicate? ==> Stores(fs, fs1, cfg.mode, imgs[0].path, o.target)
  {
    var step := ProcessImage(cfg, fs, imgs[0], answers[0]);
    fs1, o := step.value.0, step.value.1;
    RunStep(cfg, fs, imgs, answers);
  }

  /** The outcomes after the first are those of the rest of the run, which
      starts from the file system the first step left. */
  lemma RunShift(cfg: Config, fs: Fs, imgs: seq<Image>, answers: seq<string>, i: nat) returns (fs1: Fs)
    requires |answers| == |imgs| && 0 < i < |Run(cfg, fs, imgs, answers).outcomes|
    ensures |imgs| > 0 && i - 1 < |Run(cfg, fs1, imgs[1..], answers[1..]).outcomes|
    ensures Run(cfg, fs, imgs, answers).outcomes[i] == Run(cfg, fs1, imgs[1..], answers[1..]).outcomes[i - 1]
    ensures Run(cfg, fs, imgs, answers).fs == Run(cfg, fs1, imgs[1..], answers[1..]).fs
    ensures KeepsFiles(fs, fs1, Removable(cfg.mode, imgs[0].path))
  {
    var o;
    fs1, o := RunUncons(cfg, fs, imgs, answers);
    ConsIndex(o, Run(cfg, fs1, imgs[1..], answers[1..]).outcomes, i);
  }
}
