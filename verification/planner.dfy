/** Target-path planning (`get_image_target`): a timestamped image goes to
    `root/YYYY/MM/YYYY_MM_DD_HH_MM_SS.mmm` plus its lower-cased extension;
    an image without a timestamp goes to `root/no_exif_data/<basename>` or
    is skipped. */
module Planner {
  import opened Results
  import opened Text
  import opened Calendar
  import opened DateFormat
  import opened Paths
  import opened Settings

  /** The archive file name of an image taken at `t` with extension `ext`. */
  function ArchiveName(t: DateTime, ext: string): string
    requires Valid(t)
  {
    Stamp(t, ArchiveLayout) + Lower(ext)
  }

  /** `get_image_target`. */
  function PlanTarget(cfg: Config, source: Path, ts: Option<DateTime>): (r: Option<Path>)
    requires ts.Some? ==> Valid(ts.value)
    ensures ts.Some? ==> r.Some?
    // the year and month folders repeat the first two fields of the file name
    ensures ts.Some? ==> |r.value.name| >= 23
                         && r.value.dirs == cfg.root + [r.value.name[..4], r.value.name[5..7]]
    // the file name is the stamp followed by the lower-cased source extension
    ensures ts.Some? && Ext(source.name) != "" ==>
              SplitExt(r.value.name) == (Stamp(ts.value, ArchiveLayout), Lower(Ext(source.name)))
    ensures ts.Some? && Ext(source.name) == "" ==> r.value.name == Stamp(ts.value, ArchiveLayout)
    ensures ts.None? ==> (r.Some? <==> cfg.addNoExif)
    ensures ts.None? && r.Some? ==> r.value == Path(cfg.root + [NoExifFolder], source.name)
  {
    match ts
    case Some(t) =>
      var name := ArchiveName(t, Ext(source.name));
      var stamp := Stamp(t, ArchiveLayout);
      StampFolders(t, ArchiveLayout, Lower(Ext(source.name)));
      assert Ext(source.name) != "" ==> SplitExt(name) == (stamp, Lower(Ext(source.name))) by {
        if Ext(source.name) != "" {
          LowerShape(stamp, Ext(source.name));
        }
      }
      Some(Path(cfg.root + [FixedDigits(t.year, 4), FixedDigits(t.month, 2)], name))
    case None =>
      if cfg.addNoExif then Some(Path(cfg.root + [NoExifFolder], source.name)) else None
  }

  /** A stamp followed by a lower-cased extension still splits at the extension. */
  lemma LowerShape(stamp: string, ext: string)
    requires |stamp| == 23 && stamp[0] != '.'
    requires |ext| >= 1 && ext[0] == '.' && forall i | 1 <= i < |ext| :: ext[i] != '.'
    ensures SplitExt(stamp + Lower(ext)) == (stamp, Lower(ext))
  {
    LowerKeepsDots(ext);
    SplitExtOfShape(stamp, Lower(ext));
  }

  /** The planned path of a timestamped image depends on the timestamp and
      the extension only, never on the rest of the source path. */
  lemma TargetIgnoresSourceName(cfg: Config, a: Path, b: Path, t: DateTime)
    requires Valid(t) && Ext(a.name) == Ext(b.name)
    ensures PlanTarget(cfg, a, Some(t)) == PlanTarget(cfg, b, Some(t))
  {
  }

  /** Two timestamped images share a planned path exactly when they were
      taken at the same millisecond and have the same extension up to case. */
  lemma SamePlanSameInstant(cfg: Config, a: Path, b: Path, ta: DateTime, tb: DateTime)
    requires Valid(ta) && Valid(tb)
    ensures PlanTarget(cfg, a, Some(ta)) == PlanTarget(cfg, b, Some(tb))
            <==> ta == tb && Lower(Ext(a.name)) == Lower(Ext(b.name))
  {
    var na := ArchiveName(ta, Ext(a.name));
    var nb := ArchiveName(tb, Ext(b.name));
    if na == nb {
      assert Stamp(ta, ArchiveLayout) == na[..23] == nb[..23] == Stamp(tb, ArchiveLayout);
      StampInjective(ta, tb, ArchiveLayout);
      assert Lower(Ext(a.name)) == na[23..] == nb[23..] == Lower(Ext(b.name));
    }
  }
}
