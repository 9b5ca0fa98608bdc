/** Fixed-width date-time text: `strptime`/`strftime` with the patterns
    `%Y<d>%m<d>%d<m>%H<t>%M<t>%S`, where only the three separators differ
    between the Exif tag format and the two archive file-name formats. */
module DateFormat {
  import opened Results
  import opened Text
  import opened Calendar

  /** The separators of one pattern: between date fields, between the date
      and the time, and between time fields. */
  datatype Layout = Layout(dateSep: char, middle: char, timeSep: char)

  /** `"%Y:%m:%d %H:%M:%S"`, the Exif 2.3 DateTime format (CIPA DC-008, section 4.6). */
  const ExifLayout := Layout(':', ' ', ':')
  /** `"%Y_%m_%d_%H_%M_%S"`, the archive file names of the packaged tool. */
  const ArchiveLayout := Layout('_', '_', '_')
  /** `"%Y-%m-%d_%H-%M-%S"`, the archive file names of the older script. */
  const LegacyLayout := Layout('-', '_', '-')

  /** `strftime` of the six fields; the sub-second field is not part of it. */
  function Render(t: DateTime, l: Layout): (s: string)
    requires Valid(t)
    ensures |s| == 19
  {
    Join3(FixedDigits(t.year, 4), FixedDigits(t.month, 2), FixedDigits(t.day, 2), l.dateSep)
      + [l.middle]
      + Join3(FixedDigits(t.hour, 2), FixedDigits(t.minute, 2), FixedDigits(t.second, 2), l.timeSep)
  }

  /** Three fields with a separator between each two. */
  function Join3(a: string, b: string, c: string, sep: char): (s: string)
    ensures |s| == |a| + |b| + |c| + 2
  {
    a + [sep] + b + [sep] + c
  }

  /** Where the fields and separators of `Join3` sit, and that they
      determine it. */
  lemma Join3Parts(s: string, a: string, b: string, c: string, sep: char)
    requires |s| == |a| + |b| + |c| + 2
    ensures s == Join3(a, b, c, sep) <==>
      && s[..|a|] == a && s[|a|] == sep
      && s[|a| + 1..|a| + 1 + |b|] == b && s[|a| + 1 + |b|] == sep
      && s[|a| + 2 + |b|..] == c
  {
    if s[..|a|] == a && s[|a|] == sep && s[|a| + 1..|a| + 1 + |b|] == b && s[|a| + 1 + |b|] == sep
       && s[|a| + 2 + |b|..] == c {
      assert s == s[..|a|] + [s[|a|]] + s[|a| + 1..|a| + 1 + |b|] + [s[|a| + 1 + |b|]] + s[|a| + 2 + |b|..];
    }
  }

  /** The numeric field of `s` at `[lo, hi)`, if it is all digits. */
  function Field(s: string, lo: nat, hi: nat): Option<nat>
    requires lo <= hi <= |s|
  {
    if AllDigits(s[lo..hi]) then Some(DigitsValue(s[lo..hi])) else None
  }

  /** Strict `strptime`: exactly 19 characters, digits where the pattern has
      fields, the layout's separators elsewhere, and a date and time that
      exist in the Gregorian calendar. The sub-second part is zero. */
  function Parse(s: string, l: Layout): (r: Option<DateTime>)
    ensures r.Some? ==> Valid(r.value) && r.value.milli == 0 && Render(r.value, l) == s
  {
    if |s| != 19 || s[4] != l.dateSep || s[7] != l.dateSep || s[10] != l.middle
       || s[13] != l.timeSep || s[16] != l.timeSep then None
    else
      var y := Field(s, 0, 4);
      var mo := Field(s, 5, 7);
      var d := Field(s, 8, 10);
      var h := Field(s, 11, 13);
      var mi := Field(s, 14, 16);
      var sec := Field(s, 17, 19);
      if y.None? || mo.None? || d.None? || h.None? || mi.None? || sec.None? then None
      else
        var t := DateTime(y.value, mo.value, d.value, h.value, mi.value, sec.value, 0);
        if !Valid(t) then None
        else
          FieldsWritten(s, t);
          RenderOfFields(s, l, t);
          Some(t)
  }

  /** The text a date-time's fields were read from is its rendering. */
  lemma RenderOfFields(s: string, l: Layout, t: DateTime)
    requires |s| == 19 && s[4] == l.dateSep && s[7] == l.dateSep && s[10] == l.middle
    requires s[13] == l.timeSep && s[16] == l.timeSep
    requires Valid(t)
    requires s[0..4] == FixedDigits(t.year, 4) && s[5..7] == FixedDigits(t.month, 2)
    requires s[8..10] == FixedDigits(t.day, 2) && s[11..13] == FixedDigits(t.hour, 2)
    requires s[14..16] == FixedDigits(t.minute, 2) && s[17..19] == FixedDigits(t.second, 2)
    ensures Render(t, l) == s
  {
    LayoutShape(s, l, FixedDigits(t.year, 4), FixedDigits(t.month, 2), FixedDigits(t.day, 2),
                FixedDigits(t.hour, 2), FixedDigits(t.minute, 2), FixedDigits(t.second, 2));
  }

  /** A 19-character text is the layout's joining of the six field texts
      exactly when they and the separators sit at their places in it. */
  lemma LayoutShape(s: string, l: Layout, y: string, mo: string, d: string, h: string, mi: string, sec: string)
    requires |s| == 19 && |y| == 4 && |mo| == 2 && |d| == 2 && |h| == 2 && |mi| == 2 && |sec| == 2
    ensures s == Join3(y, mo, d, l.dateSep) + [l.middle] + Join3(h, mi, sec, l.timeSep) <==>
      && s[0..4] == y && s[4] == l.dateSep && s[5..7] == mo && s[7] == l.dateSep
      && s[8..10] == d && s[10] == l.middle && s[11..13] == h && s[13] == l.timeSep
      && s[14..16] == mi && s[16] == l.timeSep && s[17..19] == sec
  {
    var date := s[..10];
    var time := s[11..];
    assert date[..4] == s[0..4] && date[5..7] == s[5..7] && date[8..] == s[8..10];
    assert time[..2] == s[11..13] && time[3..5] == s[14..16] && time[6..] == s[17..19];
    assert date[4] == s[4] && date[7] == s[7] && time[2] == s[13] && time[5] == s[16];
    Join3Parts(date, y, mo, d, l.dateSep);
    Join3Parts(time, h, mi, sec, l.timeSep);
    assert s == date + [s[10]] + time;
    var r := Join3(y, mo, d, l.dateSep) + [l.middle] + Join3(h, mi, sec, l.timeSep);
    if s == r {
      assert date == Join3(y, mo, d, l.dateSep) && time == Join3(h, mi, sec, l.timeSep);
    }
  }

  /** The converse of `FieldsRead`: fields that read as the date-time's
      numbers are their fixed-width spellings. */
  lemma FieldsWritten(s: string, t: DateTime)
    requires |s| == 19 && Valid(t)
    requires Field(s, 0, 4) == Some(t.year) && Field(s, 5, 7) == Some(t.month)
    requires Field(s, 8, 10) == Some(t.day) && Field(s, 11, 13) == Some(t.hour)
    requires Field(s, 14, 16) == Some(t.minute) && Field(s, 17, 19) == Some(t.second)
    ensures s[0..4] == FixedDigits(t.year, 4) && s[5..7] == FixedDigits(t.month, 2)
    ensures s[8..10] == FixedDigits(t.day, 2) && s[11..13] == FixedDigits(t.hour, 2)
    ensures s[14..16] == FixedDigits(t.minute, 2) && s[17..19] == FixedDigits(t.second, 2)
  {
    FixedDigitsOfValue(s[0..4]);
    FixedDigitsOfValue(s[5..7]);
    FixedDigitsOfValue(s[8..10]);
    FixedDigitsOfValue(s[11..13]);
    FixedDigitsOfValue(s[14..16]);
    FixedDigitsOfValue(s[17..19]);
  }

  /** Every valid second is read back from its own rendering. Together with
      `Parse`'s contract: `Parse` accepts exactly the renderings of valid
      date-times. */
  lemma ParseRender(t: DateTime, l: Layout)
    requires Valid(t) && t.milli == 0
    ensures Parse(Render(t, l), l) == Some(t)
  {
    var s := Render(t, l);
    RenderParts(t, l);
    FieldsRead(s, t);
  }

  /** Fields written with `FixedDigits` at their widths read back as the
      date-time's numbers. */
  lemma FieldsRead(s: string, t: DateTime)
    requires Valid(t) && |s| == 19
    requires s[0..4] == FixedDigits(t.year, 4) && s[5..7] == FixedDigits(t.month, 2)
    requires s[8..10] == FixedDigits(t.day, 2) && s[11..13] == FixedDigits(t.hour, 2)
    requires s[14..16] == FixedDigits(t.minute, 2) && s[17..19] == FixedDigits(t.second, 2)
    ensures Field(s, 0, 4) == Some(t.year) && Field(s, 5, 7) == Some(t.month)
    ensures Field(s, 8, 10) == Some(t.day) && Field(s, 11, 13) == Some(t.hour)
    ensures Field(s, 14, 16) == Some(t.minute) && Field(s, 17, 19) == Some(t.second)
  {
    FieldOfFixed(s, 0, 4, t.year);
    FieldOfFixed(s, 5, 7, t.month);
    FieldOfFixed(s, 8, 10, t.day);
    FieldOfFixed(s, 11, 13, t.hour);
    FieldOfFixed(s, 14, 16, t.minute);
    FieldOfFixed(s, 17, 19, t.second);
  }

  /** Where each field and separator sits in a rendering. */
  lemma RenderParts(t: DateTime, l: Layout)
    requires Valid(t)
    ensures var s := Render(t, l);
      && s[0..4] == FixedDigits(t.year, 4) && s[4] == l.dateSep
      && s[5..7] == FixedDigits(t.month, 2) && s[7] == l.dateSep
      && s[8..10] == FixedDigits(t.day, 2) && s[10] == l.middle
      && s[11..13] == FixedDigits(t.hour, 2) && s[13] == l.timeSep
      && s[14..16] == FixedDigits(t.minute, 2) && s[16] == l.timeSep
      && s[17..19] == FixedDigits(t.second, 2)
  {
    LayoutShape(Render(t, l), l, FixedDigits(t.year, 4), FixedDigits(t.month, 2), FixedDigits(t.day, 2),
                FixedDigits(t.hour, 2), FixedDigits(t.minute, 2), FixedDigits(t.second, 2));
  }

  /** A field written with `FixedDigits` at its own width reads back as the
      number written. */
  lemma FieldOfFixed(s: string, lo: nat, hi: nat, n: nat)
    requires lo <= hi <= |s| && s[lo..hi] == FixedDigits(n, hi - lo) && n < Pow10(hi - lo)
    ensures Field(s, lo, hi) == Some(n)
  {
    DivModUnique(n, Pow10(hi - lo), 0, n);
  }

  /** The six fields are read back from a rendering, so the rendering
      determines them. */
  lemma RenderInjective(a: DateTime, b: DateTime, l: Layout)
    requires Valid(a) && Valid(b) && Render(a, l) == Render(b, l)
    ensures a.(milli := 0) == b.(milli := 0)
  {
    var a0 := a.(milli := 0);
    var b0 := b.(milli := 0);
    assert Render(a0, l) == Render(a, l) && Render(b0, l) == Render(b, l);
    ParseRender(a0, l);
    ParseRender(b0, l);
  }

  /** `strftime(pattern + ".%f")[:-3]`: the six fields, a dot, and the
      milliseconds as three digits. */
  function Stamp(t: DateTime, l: Layout): (s: string)
    requires Valid(t)
    ensures |s| == 23 && s[19] == '.'
  {
    Render(t, l) + "." + FixedDigits(t.milli, 3)
  }

  /** A stamp followed by anything starts with the four year digits and
      has the two month digits after the first separator. */
  lemma StampFolders(t: DateTime, l: Layout, tail: string)
    requires Valid(t)
    ensures var n := Stamp(t, l) + tail;
      && n[..4] == FixedDigits(t.year, 4) && n[5..7] == FixedDigits(t.month, 2)
      && n[0] != '.'
  {
    var r := Render(t, l);
    var rest := "." + FixedDigits(t.milli, 3) + tail;
    RenderParts(t, l);
    assert Stamp(t, l) + tail == r + rest;
    KeepsLeadingSlices(r, rest);
    assert r[0] == r[0..4][0];
  }

  /** Appending leaves the first seven characters of a string in place. */
  lemma KeepsLeadingSlices(a: string, b: string)
    requires |a| >= 7
    ensures (a + b)[..4] == a[0..4] && (a + b)[5..7] == a[5..7] && (a + b)[0] == a[0]
  {
  }

  /** Distinct instants never share a file-name stamp, so two images get the
      same archive name only when their timestamps agree to the millisecond. */
  lemma StampInjective(a: DateTime, b: DateTime, l: Layout)
    requires Valid(a) && Valid(b) && Stamp(a, l) == Stamp(b, l)
    ensures a == b
  {
    assert Render(a, l) == Stamp(a, l)[..19] == Stamp(b, l)[..19] == Render(b, l);
    RenderInjective(a, b, l);
    assert FixedDigits(a.milli, 3) == Stamp(a, l)[20..] == Stamp(b, l)[20..] == FixedDigits(b.milli, 3);
    DivModUnique(a.milli, 1000, 0, a.milli);
    DivModUnique(b.milli, 1000, 0, b.milli);
  }
}
