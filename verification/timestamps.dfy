/** Timestamp resolution (`get_timestamp` with `read_exif`): the first Exif
    tag group in a fixed priority order whose primary date/time tag is
    present decides the capture instant; its sub-second tag is read as a
    whole number of milliseconds and added to that instant. */
module Timestamps {
  import opened Results
  import opened Text
  import opened Calendar
  import opened DateFormat

  type Tags = map<int, string>

  /** What reading an image's metadata yields. */
  datatype Metadata =
    | Unreadable          // the file cannot be opened as an image
    | Unsupported         // the opened image has no Exif reader (e.g. PNG)
    | NoExif              // the reader reports no Exif data
    | Exif(tags: Tags)    // Exif tag values by tag number

  /** A primary date/time tag and the sub-second tag that goes with it. */
  datatype TagGroup = TagGroup(primary: int, subSecond: int)

  /** DateTimeOriginal/SubSecTimeOriginal, DateTimeDigitized/SubSecTimeDigitized,
      DateTime/SubSecTime, in priority order. */
  const Groups: seq<TagGroup> := [TagGroup(36867, 37521), TagGroup(36868, 37522), TagGroup(306, 37520)]

  /** The first group at or after `i` whose primary tag is present, or 3 when there is none. */
  function FirstPrimaryFrom(tags: Tags, i: nat): (k: nat)
    requires i <= 3
    ensures i <= k <= 3
    ensures k < 3 ==> Groups[k].primary in tags
    ensures forall j | i <= j < k :: Groups[j].primary !in tags
    decreases 3 - i
  {
    if i == 3 then 3 else if Groups[i].primary in tags then i else FirstPrimaryFrom(tags, i + 1)
  }

  function FirstPrimary(tags: Tags): nat
  {
    FirstPrimaryFrom(tags, 0)
  }

  /** `int(exif.get(sub, 0))` succeeds for group `j`. */
  predicate SubSecondOk(tags: Tags, j: nat)
    requires j < 3
  {
    Groups[j].subSecond !in tags || IsIntLiteral(tags[Groups[j].subSecond])
  }

  /** The milliseconds group `j` contributes: the sub-second tag's value, or 0 without one. */
  function SubSecondMillis(tags: Tags, j: nat): int
    requires j < 3 && SubSecondOk(tags, j)
  {
    var sub := Groups[j].subSecond;
    if sub in tags then ParseInt(tags[sub]).value else 0
  }

  /** The loop over the tag groups from group `i` on. The sub-second tag of
      every group visited is converted before the primary tag is looked at,
      so a malformed one stops the loop even in a group that is then passed
      over. Yields the primary text and the milliseconds of the first group
      with a primary tag. */
  function ScanGroups(tags: Tags, i: nat): (r: Result<Option<(string, int)>>)
    requires i <= 3
    ensures var k := FirstPrimaryFrom(tags, i);
      && (r.Failure? <==> !SubSecondsOkBetween(tags, i, k))
      && (r.Failure? ==> r.error == MalformedSubSecond)
      && (r.Success? ==> (r.value.None? <==> k == 3))
      && (r.Success? && k < 3 ==>
            r.value == Some((tags[Groups[k].primary], SubSecondMillis(tags, k))))
    decreases 3 - i
  {
    if i == 3 then Success(None)
    else
      var g := Groups[i];
      var sub := if g.subSecond in tags then ParseInt(tags[g.subSecond]) else Some(0);
      if sub.None? then
        assert !SubSecondOk(tags, i) && i <= FirstPrimaryFrom(tags, i);
        Failure(MalformedSubSecond)
      else if g.primary in tags then Success(Some((tags[g.primary], sub.value)))
      else ScanGroups(tags, i + 1)
  }

  /** The sub-second tag of every group up to and including group `k`
      converts with `int()`: the loop gets past all of them. */
  predicate SubSecondsOkUpTo(tags: Tags, k: nat)
  {
    SubSecondsOkBetween(tags, 0, k)
  }

  /** The sub-second tags of groups `i` to `k` all convert. */
  predicate SubSecondsOkBetween(tags: Tags, i: nat, k: nat)
  {
    forall j | i <= j <= k && j < 3 :: SubSecondOk(tags, j)
  }

  /** `strptime(text, "%Y:%m:%d %H:%M:%S") + timedelta(0, millis / 1000)`. */
  function ParseExif(text: string, millis: int): (r: Result<DateTime>)
    ensures r == Failure(MalformedDateTime) <==> Parse(text, ExifLayout).None?
    ensures r == Failure(DateOutOfRange) <==>
              Parse(text, ExifLayout).Some? && !(0 <= ToMillis(Parse(text, ExifLayout).value) + millis < MillisLimit())
    ensures r.Success? <==>
              Parse(text, ExifLayout).Some? && 0 <= ToMillis(Parse(text, ExifLayout).value) + millis < MillisLimit()
    ensures r.Success? ==>
              Valid(r.value) && ToMillis(r.value) == ToMillis(Parse(text, ExifLayout).value) + millis
  {
    match Parse(text, ExifLayout)
    case None => Failure(MalformedDateTime)
    case Some(base) =>
      match AddMillis(base, millis)
      case None => Failure(DateOutOfRange)
      case Some(t) => Success(t)
  }

  /** `get_timestamp` once Exif tags are at hand. With `k` the first group
      whose primary tag is present: a malformed sub-second tag up to group
      `k` is a fault; no primary tag at all is no timestamp; otherwise the
      timestamp is group `k`'s date plus its milliseconds, and the two ways
      that can fail are faults. */
  function ResolveTags(tags: Tags): (r: Result<Option<DateTime>>)
    ensures r.Success? && r.value.Some? ==> Valid(r.value.value)
    ensures r.Failure? ==> r.error in {MalformedSubSecond, MalformedDateTime, DateOutOfRange}
    ensures var k := FirstPrimary(tags);
      && (r == Failure(MalformedSubSecond) <==> !SubSecondsOkUpTo(tags, k))
      && (r == Success(None) <==> k == 3 && SubSecondsOkUpTo(tags, k))
      && (k < 3 && SubSecondsOkUpTo(tags, k) ==>
            var base := Parse(tags[Groups[k].primary], ExifLayout);
            var millis := SubSecondMillis(tags, k);
            && (r == Failure(MalformedDateTime) <==> base.None?)
            && (r == Failure(DateOutOfRange) <==>
                  base.Some? && !(0 <= ToMillis(base.value) + millis < MillisLimit()))
            && (r.Success? && r.value.Some? <==>
                  base.Some? && 0 <= ToMillis(base.value) + millis < MillisLimit())
            && (r.Success? && r.value.Some? ==> ToMillis(r.value.value) == ToMillis(base.value) + millis))
  {
    match ScanGroups(tags, 0)
    case Failure(e) => Failure(e)
    case Success(None) => Success(None)
    case Success(Some((text, millis))) =>
      match ParseExif(text, millis)
      case Failure(e) => Failure(e)
      case Success(t) => Success(Some(t))
  }

  /** `get_timestamp(image)` of the packaged tool: an image that cannot be
      opened ends the run; no Exif reader or no Exif data means no timestamp. */
  function Resolve(meta: Metadata): (r: Result<Option<DateTime>>)
    ensures r.Success? && r.value.Some? ==> Valid(r.value.value)
    ensures r == Failure(UnreadableImage) <==> meta.Unreadable?
    ensures r.Failure? ==> r.error in {UnreadableImage, MalformedSubSecond, MalformedDateTime, DateOutOfRange}
    ensures meta.Unsupported? || meta.NoExif? ==> r == Success(None)
    ensures meta.Exif? ==> r == ResolveTags(meta.tags)
  {
    match meta
    case Unreadable => Failure(UnreadableImage)
    case Unsupported => Success(None)
    case NoExif => Success(None)
    case Exif(tags) => ResolveTags(tags)
  }

  /** An image whose DateTimeOriginal is a well-formed Exif date-time, with
      SubSecTimeOriginal absent or the decimal text of a number below 1000,
      gets that instant at that millisecond as its timestamp. */
  lemma ValidOriginalResolves(tags: Tags, t: DateTime, ms: nat)
    requires Valid(t) && t.milli == 0 && ms < 1000
    requires Groups[0].primary in tags && tags[Groups[0].primary] == Render(t, ExifLayout)
    requires if Groups[0].subSecond in tags then tags[Groups[0].subSecond] == Padded(ms, 1) else ms == 0
    ensures Resolve(Exif(tags)) == Success(Some(t.(milli := ms)))
  {
    ParseRender(t, ExifLayout);
    ParseIntRoundTrip(ms);
    assert SubSecondOk(tags, 0);
    assert SubSecondsOkUpTo(tags, 0);
    assert SubSecondMillis(tags, 0) == ms;
    var v := t.(milli := ms);
    MillisRoundTrip(v);
    assert ToMillis(v) == ToMillis(t) + ms;
    var r := ResolveTags(tags);
    assert r.Success? && r.value.Some? && ToMillis(r.value.value) == ToMillis(v);
    ToMillisInjective(r.value.value, v);
  }

  /** Tag groups after the first one with a primary tag are never consulted:
      two tag maps that agree on that group and every group before it
      resolve alike, whatever the later groups hold. */
  lemma LaterGroupsIgnored(tags1: Tags, tags2: Tags, k: nat)
    requires k < 3 && Groups[k].primary in tags1
    requires forall j | 0 <= j <= k ::
      && (Groups[j].primary in tags1 <==> Groups[j].primary in tags2)
      && (Groups[j].primary in tags1 ==> tags1[Groups[j].primary] == tags2[Groups[j].primary])
      && (Groups[j].subSecond in tags1 <==> Groups[j].subSecond in tags2)
      && (Groups[j].subSecond in tags1 ==> tags1[Groups[j].subSecond] == tags2[Groups[j].subSecond])
    ensures ResolveTags(tags1) == ResolveTags(tags2)
  {
    ScanAgrees(tags1, tags2, k, 0);
  }

  lemma {:induction false} ScanAgrees(tags1: Tags, tags2: Tags, k: nat, i: nat)
    requires i <= k < 3 && Groups[k].primary in tags1
    requires forall j | 0 <= j <= k ::
      && (Groups[j].primary in tags1 <==> Groups[j].primary in tags2)
      && (Groups[j].primary in tags1 ==> tags1[Groups[j].primary] == tags2[Groups[j].primary])
      && (Groups[j].subSecond in tags1 <==> Groups[j].subSecond in tags2)
      && (Groups[j].subSecond in tags1 ==> tags1[Groups[j].subSecond] == tags2[Groups[j].subSecond])
    ensures ScanGroups(tags1, i) == ScanGroups(tags2, i)
    decreases 3 - i
  {
    if Groups[i].primary !in tags1 {
      ScanAgrees(tags1, tags2, k, i + 1);
    }
  }

  /** The original-capture group wins over digitized and file-modified
      times: with DateTimeOriginal present the result is what that tag and
      its SubSecTimeOriginal alone give. */
  lemma OriginalCaptureWins(tags: Tags)
    requires Groups[0].primary in tags
    ensures ResolveTags(tags)
            == ResolveTags(map t | t in tags && (t == Groups[0].primary || t == Groups[0].subSecond) :: tags[t])
  {
    var only := map t | t in tags && (t == Groups[0].primary || t == Groups[0].subSecond) :: tags[t];
    LaterGroupsIgnored(tags, only, 0);
  }
}
