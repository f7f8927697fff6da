/**
 * The filter preparation the scan button of `src/app.py` performs before it calls
 * the lister: the MIME-group presets expanded into MIME types, the guard against
 * an inverted date range, the date bounds written as RFC 3339 `date-time` strings
 * in UTC, and the minimum size converted from MB to bytes. The scan itself runs
 * the lister and keeps its records as the session's inventory only when the whole
 * listing succeeded.
 */
module AppFilters {
  import opened Wrappers
  import Decimal
  import Text
  import Utils
  import InventoryLister
  import Seqs

  // ---------------------------------------------------------------------------
  // MIME groups

  const ImageTypes: seq<string> := ["image/jpeg", "image/png", "image/gif", "image/webp"]
  const VideoTypes: seq<string> := ["video/mp4", "video/quicktime", "video/x-matroska"]
  const DocumentTypes: seq<string> :=
    ["application/pdf",
     "application/vnd.openxmlformats-" + "officedocument." + "wordprocessingml.document",
     "application/msword"]
  const ArchiveTypes: seq<string> :=
    ["application/zip", "application/x-tar", "application/x-7z-compressed", "application/x-rar-compressed"]

  /** `mime_map`: the preset groups offered in the sidebar and the types each stands for. */
  const MimeMap: map<string, seq<string>> :=
    map["images" := ImageTypes, "videos" := VideoTypes, "documents" := DocumentTypes,
        "archives" := ArchiveTypes, "other" := []]

  /** `mime_map.get(grp, [])`. */
  function GroupTypes(grp: string): seq<string>
  {
    if grp in MimeMap then MimeMap[grp] else []
  }

  /** What `selected_mime_types` holds once every group in `groups` has extended it. */
  function Expansion(groups: seq<string>): seq<string>
  {
    ExpandBy(GroupTypes, groups)
  }

  /** Each group's types, looked up by `lookup`, concatenated in the order of the groups. */
  function ExpandBy(lookup: string -> seq<string>, groups: seq<string>): seq<string>
    decreases |groups|
  {
    if groups == [] then [] else ExpandBy(lookup, groups[..|groups| - 1]) + lookup(groups[|groups| - 1])
  }

  /** The `for grp in mime_preset: selected_mime_types.extend(...)` loop. */
  method ExpandMimeGroups(preset: seq<string>) returns (selected: seq<string>)
    ensures selected == Expansion(preset)
  {
    selected := [];
    for i := 0 to |preset|
      invariant selected == Expansion(preset[..i])
    {
      assert preset[..i + 1][..i] == preset[..i];
      selected := selected + GroupTypes(preset[i]);
    }
    assert preset[..|preset|] == preset;
  }

  /** Selecting groups one after the other concatenates their expansions, in that order. */
  lemma ExpansionAppend(a: seq<string>, b: seq<string>)
    ensures Expansion(a + b) == Expansion(a) + Expansion(b)
  {
    ExpandByAppend(GroupTypes, a, b);
  }

  lemma {:induction false} ExpandByAppend(lookup: string -> seq<string>, a: seq<string>, b: seq<string>)
    ensures ExpandBy(lookup, a + b) == ExpandBy(lookup, a) + ExpandBy(lookup, b)
    decreases |b|
  {
    if b == [] {
      assert a + b == a;
    } else {
      var b', g := b[..|b| - 1], b[|b| - 1];
      assert (a + b)[..|a + b| - 1] == a + b' && (a + b)[|a + b| - 1] == g;
      ExpandByAppend(lookup, a, b');
      Seqs.Associative(ExpandBy(lookup, a), ExpandBy(lookup, b'), lookup(g));
    }
  }

  /** A type is selected exactly when one of the selected groups lists it. */
  lemma ExpansionMember(groups: seq<string>, t: string)
    ensures t in Expansion(groups) <==> exists i :: 0 <= i < |groups| && t in GroupTypes(groups[i])
  {
    ExpandByMember(GroupTypes, groups, t);
    if t in Expansion(groups) {
      var i :| 0 <= i < |groups| && t in GroupTypes(groups[i]);
    }
  }

  lemma {:induction false} ExpandByMember(lookup: string -> seq<string>, groups: seq<string>, t: string)
    ensures t in ExpandBy(lookup, groups) <==> exists i :: 0 <= i < |groups| && t in lookup(groups[i])
    decreases |groups|
  {
    if groups != [] {
      var init, last := groups[..|groups| - 1], groups[|groups| - 1];
      ExpandByMember(lookup, init, t);
      Seqs.InConcat(ExpandBy(lookup, init), lookup(last), t);
      if t in ExpandBy(lookup, groups) {
        if t in ExpandBy(lookup, init) {
          var i :| 0 <= i < |init| && t in lookup(init[i]);
          assert groups[i] == init[i];
        } else {
          assert t in lookup(groups[|groups| - 1]);
        }
      }
      if exists i :: 0 <= i < |groups| && t in lookup(groups[i]) {
        var i :| 0 <= i < |groups| && t in lookup(groups[i]);
        if i < |init| {
          assert init[i] == groups[i];
        }
      }
    }
  }

  /** Only the four named media groups stand for any type; `other` and unknown names do not. */
  lemma GroupTypesNonEmpty(grp: string)
    ensures GroupTypes(grp) != [] <==> grp in {"images", "videos", "documents", "archives"}
    ensures GroupTypes("other") == []
  {
  }

  /** A group that stands for no type can be dropped from the selection without effect. */
  lemma SkipEmptyGroup(a: seq<string>, grp: string, b: seq<string>)
    requires GroupTypes(grp) == []
    ensures Expansion(a + [grp] + b) == Expansion(a + b)
  {
    ExpansionAppend(a + [grp], b);
    ExpansionAppend(a, b);
    assert (a + [grp])[..|a + [grp]| - 1] == a;
  }

  /** The expansion is empty exactly when every selected group stands for no type. */
  lemma ExpansionEmpty(groups: seq<string>)
    ensures Expansion(groups) == [] <==> forall i :: 0 <= i < |groups| ==> GroupTypes(groups[i]) == []
  {
    if Expansion(groups) == [] {
      forall i | 0 <= i < |groups|
        ensures GroupTypes(groups[i]) == []
      {
        if GroupTypes(groups[i]) != [] {
          ExpansionMember(groups, GroupTypes(groups[i])[0]);
        }
      }
    } else {
      ExpansionMember(groups, Expansion(groups)[0]);
    }
  }

  /** Videos then other then images: the video types, then the image types. */
  lemma ExpansionExample()
    ensures Expansion(["videos", "other", "images"]) == VideoTypes + ImageTypes
  {
    var g := ["videos", "other", "images"];
    assert g[..2][..1] == ["videos"];
    assert g[..2] == ["videos", "other"];
    assert Expansion(["videos"]) == VideoTypes by { assert ["videos"][..0] == []; }
  }

  // ---------------------------------------------------------------------------
  // Dates

  /** A `datetime.date` picked in the sidebar. */
  datatype Date = Date(year: int, month: int, day: int)

  /** The wall-clock part of a `datetime`. */
  datatype Time = Time(hour: int, minute: int, second: int)

  predicate LeapYear(year: int) { year % 4 == 0 && (year % 100 != 0 || year % 400 == 0) }

  function DaysInMonth(year: int, month: int): int
  {
    if month == 2 then (if LeapYear(year) then 29 else 28)
    else if month == 4 || month == 6 || month == 9 || month == 11 then 30
    else 31
  }

  lemma DaysAtMost31(year: int, month: int)
    ensures 28 <= DaysInMonth(year, month) <= 31
  {
  }

  /** A calendar date as section 5.7 of RFC 3339 bounds it: years 0000 to 9999. */
  predicate CalendarDate(d: Date)
  {
    0 <= d.year <= 9999 && 1 <= d.month <= 12 && 1 <= d.day <= DaysInMonth(d.year, d.month)
  }

  /** A date Python's `date` accepts: years 1 to 9999. */
  predicate ValidDate(d: Date) { CalendarDate(d) && 1 <= d.year }

  /** A time Python's `datetime` accepts. */
  predicate ValidTime(t: Time) { 0 <= t.hour <= 23 && 0 <= t.minute <= 59 && 0 <= t.second <= 59 }

  /** `a > b` on dates: year first, then month, then day. */
  predicate DateLater(a: Date, b: Date)
  {
    a.year > b.year || (a.year == b.year && (a.month > b.month || (a.month == b.month && a.day > b.day)))
  }

  /** `modified_after and modified_before and modified_after > modified_before`. */
  predicate RangeInverted(after: Option<Date>, before: Option<Date>)
  {
    after.Some? && before.Some? && DateLater(after.value, before.value)
  }

  /** A strictly earlier instant: compared field by field, from the year down to the second. */
  predicate Earlier(d1: Date, t1: Time, d2: Date, t2: Time)
  {
    if d1.year != d2.year then d1.year < d2.year
    else if d1.month != d2.month then d1.month < d2.month
    else if d1.day != d2.day then d1.day < d2.day
    else if t1.hour != t2.hour then t1.hour < t2.hour
    else if t1.minute != t2.minute then t1.minute < t2.minute
    else t1.second < t2.second
  }

  const StartOfDay: Time := Time(0, 0, 0)
  const EndOfDay: Time := Time(23, 59, 59)

  /** `datetime(y, m, d, hh, mm, ss).isoformat()`: zero-padded fields, no fraction. */
  function IsoFormat(d: Date, t: Time): string
    requires ValidDate(d) && ValidTime(t)
  {
    Decimal.ZeroPad(d.year, 4) + "-" + Decimal.ZeroPad(d.month, 2) + "-" + Decimal.ZeroPad(d.day, 2)
      + "T" + Decimal.ZeroPad(t.hour, 2) + ":" + Decimal.ZeroPad(t.minute, 2) + ":" + Decimal.ZeroPad(t.second, 2)
  }

  /**
   * `to_rfc3339(d, end)`: no bound for no date; otherwise the first second of the
   * day for a lower bound and the last second for an upper bound, in UTC.
   */
  function ToRfc3339(d: Option<Date>, end: bool): (r: Option<string>)
    requires d.Some? ==> ValidDate(d.value)
    ensures r.Some? <==> d.Some?
    ensures r.Some? ==> |r.value| == 20
  {
    if d.None? then None
    else
      var t := if end then EndOfDay else StartOfDay;
      FormatShape(d.value, t);
      Some(IsoFormat(d.value, t) + "Z")
  }

  /** Where each field of a formatted instant sits. */
  lemma FormatShape(d: Date, t: Time)
    requires ValidDate(d) && ValidTime(t)
    ensures var s := IsoFormat(d, t) + "Z";
      && |s| == 20
      && s[..4] == Decimal.ZeroPad(d.year, 4) && s[5..7] == Decimal.ZeroPad(d.month, 2)
      && s[8..10] == Decimal.ZeroPad(d.day, 2) && s[11..13] == Decimal.ZeroPad(t.hour, 2)
      && s[14..16] == Decimal.ZeroPad(t.minute, 2) && s[17..19] == Decimal.ZeroPad(t.second, 2)
      && s[4] == '-' && s[7] == '-' && s[10] == 'T' && s[13] == ':' && s[16] == ':' && s[19] == 'Z'
  {
    assert Decimal.Pow10(2) == 100 && Decimal.Pow10(4) == 10000 by {
      assert Decimal.Pow10(1) == 10;
      assert Decimal.Pow10(3) == 1000;
    }
    Decimal.ZeroPadWidth(d.year, 4);
    Decimal.ZeroPadWidth(d.month, 2);
    Decimal.ZeroPadWidth(d.day, 2);
    Decimal.ZeroPadWidth(t.hour, 2);
    Decimal.ZeroPadWidth(t.minute, 2);
    Decimal.ZeroPadWidth(t.second, 2);
    Layout(Decimal.ZeroPad(d.year, 4), Decimal.ZeroPad(d.month, 2), Decimal.ZeroPad(d.day, 2),
           Decimal.ZeroPad(t.hour, 2), Decimal.ZeroPad(t.minute, 2), Decimal.ZeroPad(t.second, 2));
  }

  /** The positions of six fixed-width fields laid out as `YYYY-MM-DDTHH:MM:SSZ`. */
  lemma Layout(y: string, mo: string, dd: string, hh: string, mi: string, ss: string)
    requires |y| == 4 && |mo| == 2 && |dd| == 2 && |hh| == 2 && |mi| == 2 && |ss| == 2
    ensures var s := y + "-" + mo + "-" + dd + "T" + hh + ":" + mi + ":" + ss + "Z";
      && |s| == 20
      && s[..4] == y && s[5..7] == mo && s[8..10] == dd && s[11..13] == hh && s[14..16] == mi && s[17..19] == ss
      && s[4] == '-' && s[7] == '-' && s[10] == 'T' && s[13] == ':' && s[16] == ':' && s[19] == 'Z'
  {
    var date := y + "-" + mo + "-" + dd;
    var time := hh + ":" + mi + ":" + ss;
    var s := y + "-" + mo + "-" + dd + "T" + hh + ":" + mi + ":" + ss + "Z";
    assert s == date + "T" + time + "Z";
    assert date[..4] == y && date[4] == '-' && date[5..7] == mo && date[7] == '-' && date[8..10] == dd;
    assert time[..2] == hh && time[2] == ':' && time[3..5] == mi && time[5] == ':' && time[6..8] == ss;
    assert s[..10] == date;
    assert s[11..19] == time;
    assert s[..4] == date[..4] && s[5..7] == date[5..7] && s[8..10] == date[8..10];
    assert s[11..13] == time[..2] && s[14..16] == time[3..5] && s[17..19] == time[6..8];
  }

  /**
   * Reads a `date-time` of section 5.6 of RFC 3339 in the form `to_rfc3339` writes:
   * `full-date "T" partial-time "Z"` with no fraction of a second, the field ranges
   * checked as section 5.7 asks (a leap second 60 included).
   */
  function ParseUtc(s: string): (r: Option<(Date, Time)>)
    ensures r.Some? ==>
      && CalendarDate(r.value.0) && 0 <= r.value.1.hour <= 23
      && 0 <= r.value.1.minute <= 59 && 0 <= r.value.1.second <= 60
  {
    if |s| == 20 && s[4] == '-' && s[7] == '-' && s[10] == 'T' && s[13] == ':' && s[16] == ':' && s[19] == 'Z'
       && Decimal.AllDigits(s[..4]) && Decimal.AllDigits(s[5..7]) && Decimal.AllDigits(s[8..10])
       && Decimal.AllDigits(s[11..13]) && Decimal.AllDigits(s[14..16]) && Decimal.AllDigits(s[17..19])
    then
      var d := Date(Decimal.DigitsValue(s[..4]), Decimal.DigitsValue(s[5..7]), Decimal.DigitsValue(s[8..10]));
      var t := Time(Decimal.DigitsValue(s[11..13]), Decimal.DigitsValue(s[14..16]), Decimal.DigitsValue(s[17..19]));
      if CalendarDate(d) && t.hour <= 23 && t.minute <= 59 && t.second <= 60 then Some((d, t)) else None
    else None
  }

  /** Reading back a formatted instant gives the date and the time it was written from. */
  lemma ParseFormat(d: Date, t: Time)
    requires ValidDate(d) && ValidTime(t)
    ensures ParseUtc(IsoFormat(d, t) + "Z") == Some((d, t))
  {
    FormatShape(d, t);
  }

  /** The bounds sent to the lister denote the first and the last second of the chosen days. */
  lemma BoundsDenoteDays(after: Date, before: Date)
    requires ValidDate(after) && ValidDate(before)
    ensures ParseUtc(ToRfc3339(Some(after), false).value) == Some((after, StartOfDay))
    ensures ParseUtc(ToRfc3339(Some(before), true).value) == Some((before, EndOfDay))
  {
    ParseFormat(after, StartOfDay);
    ParseFormat(before, EndOfDay);
  }

  /**
   * One more separator and fixed-width field behind prefixes of one length: the
   * prefixes decide unless they are equal, and then the field values do.
   */
  lemma ExtendField(x: string, x': string, sep: string, f: nat, f': nat, w: nat, less: bool, same: bool)
    requires |x| == |x'| && 1 <= w && f < Decimal.Pow10(w) && f' < Decimal.Pow10(w)
    requires Text.LexLess(x, x') <==> less
    requires x == x' <==> same
    ensures |x + sep + Decimal.ZeroPad(f, w)| == |x' + sep + Decimal.ZeroPad(f', w)|
    ensures Text.LexLess(x + sep + Decimal.ZeroPad(f, w), x' + sep + Decimal.ZeroPad(f', w))
      <==> less || (same && f < f')
    ensures x + sep + Decimal.ZeroPad(f, w) == x' + sep + Decimal.ZeroPad(f', w) <==> same && f == f'
  {
    var z, z' := Decimal.ZeroPad(f, w), Decimal.ZeroPad(f', w);
    Decimal.ZeroPadWidth(f, w);
    Decimal.ZeroPadWidth(f', w);
    assert x + sep + z == x + (sep + z) && x' + sep + z' == x' + (sep + z');
    Text.LexSplit(x, sep + z, x', sep + z');
    Text.LexSplit(sep, z, sep, z');
    Text.LexIrreflexive(sep);
    Decimal.DigitsOrder(z, z');
    if x + sep + z == x' + sep + z' {
      assert (x + (sep + z))[..|x|] == x && (x' + (sep + z'))[..|x|] == x';
      assert (x + (sep + z))[|x| + |sep|..] == z && (x' + (sep + z'))[|x| + |sep|..] == z';
    }
  }

  /** The `full-date` part of a formatted instant. */
  function DatePart(d: Date): string
    requires ValidDate(d)
  {
    Decimal.ZeroPad(d.year, 4) + "-" + Decimal.ZeroPad(d.month, 2) + "-" + Decimal.ZeroPad(d.day, 2)
  }

  /** Dates sort as text in calendar order, and their texts are equal only for equal dates. */
  lemma DatePartOrder(d1: Date, d2: Date)
    requires ValidDate(d1) && ValidDate(d2)
    ensures |DatePart(d1)| == |DatePart(d2)|
    ensures Text.LexLess(DatePart(d1), DatePart(d2)) <==> DateLater(d2, d1)
    ensures DatePart(d1) == DatePart(d2) <==> d1 == d2
  {
    assert Decimal.Pow10(2) == 100 && Decimal.Pow10(4) == 10000 by {
      assert Decimal.Pow10(1) == 10;
      assert Decimal.Pow10(3) == 1000;
    }
    var y1, y2 := Decimal.ZeroPad(d1.year, 4), Decimal.ZeroPad(d2.year, 4);
    assert "" + "" + y1 == y1 && "" + "" + y2 == y2;
    Text.LexIrreflexive("");
    ExtendField("", "", "", d1.year, d2.year, 4, false, true);
    var p1, p2 := y1 + "-" + Decimal.ZeroPad(d1.month, 2), y2 + "-" + Decimal.ZeroPad(d2.month, 2);
    ExtendField(y1, y2, "-", d1.month, d2.month, 2, d1.year < d2.year, d1.year == d2.year);
    var less, same := d1.year < d2.year || (d1.year == d2.year && d1.month < d2.month),
                      d1.year == d2.year && d1.month == d2.month;
    DaysAtMost31(d1.year, d1.month);
    DaysAtMost31(d2.year, d2.month);
    ExtendField(p1, p2, "-", d1.day, d2.day, 2, less, same);
  }

  /**
   * Section 5.1 of RFC 3339: timestamps written in this one format and one time
   * zone sort as text in the order of the instants they denote.
   */
  lemma FormatOrder(d1: Date, t1: Time, d2: Date, t2: Time)
    requires ValidDate(d1) && ValidTime(t1) && ValidDate(d2) && ValidTime(t2)
    ensures Text.LexLess(IsoFormat(d1, t1) + "Z", IsoFormat(d2, t2) + "Z") <==> Earlier(d1, t1, d2, t2)
  {
    assert Decimal.Pow10(2) == 100 by {
      assert Decimal.Pow10(1) == 10;
    }
    var q1, q2 := DatePart(d1), DatePart(d2);
    DatePartOrder(d1, d2);
    var lessD, sameD := DateLater(d2, d1), d1 == d2;
    var r1, r2 := q1 + "T" + Decimal.ZeroPad(t1.hour, 2), q2 + "T" + Decimal.ZeroPad(t2.hour, 2);
    ExtendField(q1, q2, "T", t1.hour, t2.hour, 2, lessD, sameD);
    var lessH, sameH := lessD || (sameD && t1.hour < t2.hour), sameD && t1.hour == t2.hour;
    var u1, u2 := r1 + ":" + Decimal.ZeroPad(t1.minute, 2), r2 + ":" + Decimal.ZeroPad(t2.minute, 2);
    ExtendField(r1, r2, ":", t1.minute, t2.minute, 2, lessH, sameH);
    var lessI, sameI := lessH || (sameH && t1.minute < t2.minute), sameH && t1.minute == t2.minute;
    var v1, v2 := u1 + ":" + Decimal.ZeroPad(t1.second, 2), u2 + ":" + Decimal.ZeroPad(t2.second, 2);
    ExtendField(u1, u2, ":", t1.second, t2.second, 2, lessI, sameI);
    assert v1 == IsoFormat(d1, t1) && v2 == IsoFormat(d2, t2);
    Text.LexSplit(v1, "Z", v2, "Z");
    Text.LexIrreflexive("Z");
  }

  /**
   * The guard and the bounds agree: the range is not inverted exactly when the
   * lower bound sent to the lister sorts before the upper one.
   */
  lemma GuardMatchesBounds(after: Date, before: Date)
    requires ValidDate(after) && ValidDate(before)
    ensures !DateLater(after, before) <==>
      Text.LexLess(ToRfc3339(Some(after), false).value, ToRfc3339(Some(before), true).value)
  {
    FormatOrder(after, StartOfDay, before, EndOfDay);
  }

  // ---------------------------------------------------------------------------
  // Sizes in MB

  /** `min_size_mb*1024*1024` and `chunk_size_mb * 1024 * 1024`. */
  function MbToBytes(mb: int): (bytes: int)
    ensures bytes % Utils.Pow1024(2) == 0 && bytes / Utils.Pow1024(2) == mb
  {
    assert Utils.Pow1024(2) == 1048576 by { assert Utils.Pow1024(1) == 1024; }
    mb * 1024 * 1024
  }

  /** A whole number of MB below 1024 reads back through `human_size` as that many MB. */
  lemma MbShownAsMb(mb: nat)
    requires 1 <= mb < 1024
    ensures Utils.HumanSize(Some(MbToBytes(mb)), "B") == Ok(Decimal.NatToString(mb) + ".0MB")
  {
    var num := MbToBytes(mb);
    MbScaled(mb);
    Utils.HumanSizeShape(num, "B");
    Utils.WholeHundredths(mb);
    assert Utils.Units[2] == "M";
    var x := Decimal.NatToString(mb);
    assert x + ".0" + "M" + "B" == x + ".0MB";
  }

  /** Such a size is in the mebibyte range and scales to exactly `100 * mb` hundredths. */
  lemma MbScaled(mb: nat)
    requires 1 <= mb < 1024
    ensures 1 <= MbToBytes(mb) < Utils.Pow1024(6)
    ensures Utils.UnitIndex(MbToBytes(mb)) == 2 && Utils.ScaledHundredths(MbToBytes(mb)) == 100 * mb
  {
    var num := MbToBytes(mb);
    var p := Utils.Pow1024(2);
    assert p == 1048576 && Utils.Pow1024(3) == 1024 * p by { assert Utils.Pow1024(1) == 1024; }
    assert num == mb * p;
    Utils.PowMonotone(3, 6);
    Utils.HumanSizeShape(num, "B");
    var idx, h := Utils.UnitIndex(num), Utils.ScaledHundredths(num);
    if idx < 2 {
      Utils.PowMonotone(idx + 1, 2);
    } else if idx > 2 {
      Utils.PowMonotone(3, idx);
    }
    assert idx == 2;
    assert 200 * mb * p <= (2 * h + 1) * p && (2 * h - 1) * p <= 200 * mb * p;
    CancelFactor(200 * mb, 2 * h + 1, p);
    CancelFactor(2 * h - 1, 200 * mb, p);
  }

  lemma CancelFactor(a: int, b: int, p: int)
    requires p > 0 && a * p <= b * p
    ensures a <= b
  {
  }

  // ---------------------------------------------------------------------------
  // Scan

  /** The Streamlit session state the scan writes: the inventory of listed files. */
  class Session {
    var inventory: seq<InventoryLister.FileRecord>

    constructor()
      ensures inventory == []
    {
      inventory := [];
    }
  }

  /** What the scan shows the user. */
  datatype Notice =
    | AuthenticateFirst                                  // `st.warning`: no Drive service yet
    | InvertedRange                                      // `st.error`: After is later than Before
    | Scanning                                           // `st.info`: the listing starts
    | QueryFailed(failure: InventoryLister.ListFailure)  // `st.error`: the listing raised
    | NoMatches                                          // `st.warning`: nothing was listed

  /** The sidebar filter widgets the scan reads. */
  datatype Sidebar = Sidebar(
    minSizeMb: int,
    nameContains: string,
    after: Option<Date>,
    before: Option<Date>,
    preset: seq<string>)

  /** Dates come from a date picker, so they are real calendar dates. */
  predicate ValidSidebar(s: Sidebar)
  {
    (s.after.Some? ==> ValidDate(s.after.value)) && (s.before.Some? ==> ValidDate(s.before.value))
  }

  /** The keyword arguments the scan passes to `list_files_generator`. */
  function ScanFilters(s: Sidebar): (f: InventoryLister.Filters)
    requires ValidSidebar(s)
    ensures f.pageSize == InventoryLister.DefaultPageSize && f.minSize == s.minSizeMb * 1024 * 1024
    ensures f.mimeTypes.GetOr([]) == Expansion(s.preset) && f.mimeTypes != Some([])
    ensures f.modifiedAfter == ToRfc3339(s.after, false) && f.modifiedBefore == ToRfc3339(s.before, true)
    ensures f.nameContains.GetOr("") == s.nameContains && f.nameContains != Some("")
  {
    var types := Expansion(s.preset);
    InventoryLister.Filters(
      InventoryLister.DefaultPageSize,
      MbToBytes(s.minSizeMb),
      if types == [] then None else Some(types),
      ToRfc3339(s.after, false),
      ToRfc3339(s.before, true),
      if s.nameContains == "" then None else Some(s.nameContains))
  }

  /**
   * What the query of a scan filters on: a MIME clause exactly when some selected
   * group stands for types, listing them in selection order; a bound exactly for each
   * date given; a name clause exactly when the name text is not empty; and the
   * minimum size in bytes.
   */
  lemma ScanQueryClauses(s: Sidebar)
    requires ValidSidebar(s)
    ensures var f := ScanFilters(s); var cs := InventoryLister.QueryClauses(f);
      && f.minSize == MbToBytes(s.minSizeMb)
      && (InventoryLister.MimeClause(Expansion(s.preset)) in cs <==>
          exists i :: 0 <= i < |s.preset| && GroupTypes(s.preset[i]) != [])
      && (f.mimeTypes.None? <==> forall i :: 0 <= i < |s.preset| ==> GroupTypes(s.preset[i]) == [])
      && (s.after.Some? <==> InventoryLister.AfterClause(ToRfc3339(s.after, false).GetOr("")) in cs)
      && (s.before.Some? <==> InventoryLister.BeforeClause(ToRfc3339(s.before, true).GetOr("")) in cs)
      && (s.nameContains != "" <==> InventoryLister.NameClause(s.nameContains) in cs)
      && (f.nameContains.None? <==> s.nameContains == "")
  {
    var f := ScanFilters(s);
    InventoryLister.ClausePresence(f);
    ExpansionEmpty(s.preset);
    assert f.mimeTypes.GetOr([]) == Expansion(s.preset);
    assert f.nameContains.GetOr("") == s.nameContains;
  }

  /**
   * The scan button: warns without a Drive service; reports an inverted range and
   * lists nothing; otherwise lists with the sidebar's filters and, only when the
   * whole listing succeeds, replaces the inventory with its records, warning when
   * there are none. A failed listing keeps the previous inventory.
   */
  method Scan(session: Session, service: Option<seq<InventoryLister.Response>>, s: Sidebar)
      returns (notices: seq<Notice>, requests: seq<InventoryLister.Request>)
    requires ValidSidebar(s)
    modifies session
    ensures service.None? ==>
      notices == [AuthenticateFirst] && requests == [] && session.inventory == old(session.inventory)
    ensures service.Some? && RangeInverted(s.after, s.before) ==>
      notices == [InvertedRange] && requests == [] && session.inventory == old(session.inventory)
    ensures service.Some? && !RangeInverted(s.after, s.before) ==>
      var l := InventoryLister.ListingOf(service.value, MbToBytes(s.minSizeMb));
      && |requests| == l.requests
      && (forall k :: 0 <= k < |requests| ==> requests[k].query == InventoryLister.Query(ScanFilters(s)))
      && (l.failure.None? ==>
            session.inventory == l.records
            && notices == [Scanning] + (if l.records == [] then [NoMatches] else []))
      && (l.failure.Some? ==>
            session.inventory == old(session.inventory) && notices == [Scanning, QueryFailed(l.failure.value)])
  {
    requests := [];
    if service.None? {
      notices := [AuthenticateFirst];
      return;
    }
    var inverted := s.after.Some? && s.before.Some? && DateLater(s.after.value, s.before.value);
    notices := if inverted then [InvertedRange] else [Scanning];
    var selected := ExpandMimeGroups(s.preset);
    var afterRfc := ToRfc3339(s.after, false);
    var beforeRfc := ToRfc3339(s.before, true);
    if inverted {
      return;
    }
    var filters := InventoryLister.Filters(
      InventoryLister.DefaultPageSize,
      MbToBytes(s.minSizeMb),
      if selected == [] then None else Some(selected),
      afterRfc,
      beforeRfc,
      if s.nameContains == "" then None else Some(s.nameContains));
    assert filters == ScanFilters(s);
    var outcome;
    outcome, requests := ListInto(session, service.value, filters);
    notices := notices + outcome;
  }

  /**
   * The `try` around the listing: the inventory takes the records only when the
   * whole listing succeeds, and the notices say how it ended.
   */
  method ListInto(session: Session, service: seq<InventoryLister.Response>, filters: InventoryLister.Filters)
      returns (notices: seq<Notice>, requests: seq<InventoryLister.Request>)
    modifies session
    ensures var l := InventoryLister.ListingOf(service, filters.minSize);
      && |requests| == l.requests
      && (forall k :: 0 <= k < |requests| ==> requests[k].query == InventoryLister.Query(filters))
      && (l.failure.None? ==>
            session.inventory == l.records && notices == (if l.records == [] then [NoMatches] else []))
      && (l.failure.Some? ==>
            session.inventory == old(session.inventory) && notices == [QueryFailed(l.failure.value)])
  {
    var records, failure;
    requests, records, failure := InventoryLister.ListFiles(service, filters);
    notices := [];
    if failure.None? {
      session.inventory := records;
      if records == [] {
        notices := [NoMatches];
      }
    } else {
      notices := [QueryFailed(failure.value)];
    }
  }
}
