/**
 * The date formatters of the dashboard. Each takes the date text of a row;
 * an empty text gives "", a text that does not parse gives 無効な日付, and a
 * valid date is laid out from its local fields with two-digit padding.
 * Parsing and the clock are parameters.
 */
module DateUtils {
  import opened Wrappers
  import opened Decimal
  import opened Calendar
  import opened JsDate

  const InvalidText: string := "無効な日付"

  /** `${year}/${month}/${day}`. */
  function DayPart(year: string, month: string, day: string): string
  {
    year + "/" + month + "/" + day
  }

  /** ` ${hours}:${minutes}`. */
  function ClockPart(hours: string, minutes: string): string
  {
    " " + hours + ":" + minutes
  }

  /** `${year}/${month}/${day} ${hours}:${minutes}`. */
  function DateLayout(year: string, month: string, day: string, hours: string, minutes: string): string
  {
    DayPart(year, month, day) + ClockPart(hours, minutes)
  }

  /** The day part of a date: the year, then the month counted from 1 and the day, two digits each. */
  function DayOfDate(d: DateTime): string
  {
    DayPart(IntToString(d.year), Pad2(d.month + 1), Pad2(d.day))
  }

  /** The clock part of a date: two-digit hours and minutes. */
  function ClockOfDate(d: DateTime): string
  {
    ClockPart(Pad2(d.hours), Pad2(d.minutes))
  }

  /** The `formatDate` text of a date. */
  function DateText(d: DateTime): string
  {
    DayOfDate(d) + ClockOfDate(d)
  }

  /** The `formatDateTime` text: the same with `:${seconds}` at the end. */
  function DateTimeText(d: DateTime): string
  {
    DayOfDate(d) + ClockOfDate(d) + ":" + Pad2(d.seconds)
  }

  const WeekdayNames: seq<string> := ["日", "月", "火", "水", "木", "金", "土"]

  /** The "(曜)" of a date. */
  function WeekdayTag(d: DateTime): string
  {
    "(" + WeekdayNames[d.weekday] + ")"
  }

  /** The `formatDateWithWeekday` text. */
  function WeekdayText(d: DateTime): string
  {
    DayOfDate(d) + WeekdayTag(d) + ClockOfDate(d)
  }

  /** What every formatter does before the layout: "" for an empty text, 無効な日付 for an invalid date. */
  function Formatted(text: string, parse: DateParser, layout: DateTime -> string): (r: string)
    ensures text == "" ==> r == ""
    ensures text != "" && parse(text).None? ==> r == InvalidText
    ensures text != "" && parse(text).Some? ==> r == layout(parse(text).value)
  {
    if text == "" then ""
    else match parse(text)
      case None => InvalidText
      case Some(d) => layout(d)
  }

  /** `formatDate`. */
  function FormatDate(text: string, parse: DateParser): string
  {
    Formatted(text, parse, DateText)
  }

  /** `formatDateTime`. */
  function FormatDateTime(text: string, parse: DateParser): string
  {
    Formatted(text, parse, DateTimeText)
  }

  /** `formatDateWithWeekday`. */
  function FormatDateWithWeekday(text: string, parse: DateParser): string
  {
    Formatted(text, parse, WeekdayText)
  }

  /** The fields `formatDate` shows. */
  datatype Stamp = Stamp(year: int, month: nat, day: nat, hours: nat, minutes: nat)

  /** Reads a YYYY/MM/DD HH:mm text back: the year is everything before the last twelve characters. */
  function ReadStamp(r: string): Option<Stamp>
  {
    if |r| < 13 then None else ReadFields(r[..|r| - 12], r[|r| - 12..])
  }

  /** The year text and the twelve characters /MM/DD HH:mm after it. */
  function ReadFields(year: string, tail: string): Option<Stamp>
    requires |tail| == 12
  {
    var y := ParseInt(year);
    var mm, dd := TwoDigits(tail[1], tail[2]), TwoDigits(tail[4], tail[5]);
    var hh, mi := TwoDigits(tail[7], tail[8]), TwoDigits(tail[10], tail[11]);
    if y.None? || tail[0] != '/' || tail[3] != '/' || tail[6] != ' ' || tail[9] != ':'
      || mm.None? || dd.None? || hh.None? || mi.None?
    then None
    else Some(Stamp(y.value, mm.value, dd.value, hh.value, mi.value))
  }

  /**
   * `formatDate` loses nothing down to the minute: its text reads back as the
   * year, the month counted from 1, the day, the hour and the minute.
   */
  lemma FormatDateReadsBack(text: string, parse: DateParser)
    requires text != "" && parse(text).Some?
    ensures var d := parse(text).value;
      ReadStamp(FormatDate(text, parse)) == Some(Stamp(d.year, d.month + 1, d.day, d.hours, d.minutes))
  {
    var d := parse(text).value;
    Pad2ReadsBack(d.month + 1);
    Pad2ReadsBack(d.day);
    Pad2ReadsBack(d.hours);
    Pad2ReadsBack(d.minutes);
    IntToStringRoundTrip(d.year);
    ReadStampOf(IntToString(d.year), Pad2(d.month + 1), Pad2(d.day), Pad2(d.hours), Pad2(d.minutes));
  }

  lemma ReadStampOf(y: string, mm: string, dd: string, hh: string, mi: string)
    requires ParseInt(y).Some? && |y| >= 1
    requires |mm| == 2 && |dd| == 2 && |hh| == 2 && |mi| == 2
    requires TwoDigits(mm[0], mm[1]).Some? && TwoDigits(dd[0], dd[1]).Some?
    requires TwoDigits(hh[0], hh[1]).Some? && TwoDigits(mi[0], mi[1]).Some?
    ensures ReadStamp(DateLayout(y, mm, dd, hh, mi)) == Some(Stamp(
      ParseInt(y).value, TwoDigits(mm[0], mm[1]).value, TwoDigits(dd[0], dd[1]).value,
      TwoDigits(hh[0], hh[1]).value, TwoDigits(mi[0], mi[1]).value))
  {
    var tail := ['/', mm[0], mm[1], '/', dd[0], dd[1], ' ', hh[0], hh[1], ':', mi[0], mi[1]];
    TailChars(y, mm, dd, hh, mi);
    SplitYear(y, tail);
  }

  lemma TailChars(y: string, mm: string, dd: string, hh: string, mi: string)
    requires |mm| == 2 && |dd| == 2 && |hh| == 2 && |mi| == 2
    ensures DateLayout(y, mm, dd, hh, mi)
         == y + ['/', mm[0], mm[1], '/', dd[0], dd[1], ' ', hh[0], hh[1], ':', mi[0], mi[1]]
  {
    assert mm == [mm[0], mm[1]] && dd == [dd[0], dd[1]];
    assert hh == [hh[0], hh[1]] && mi == [mi[0], mi[1]];
    assert DayPart(y, mm, dd) == y + ['/', mm[0], mm[1], '/', dd[0], dd[1]];
    assert ClockPart(hh, mi) == [' ', hh[0], hh[1], ':', mi[0], mi[1]];
  }

  lemma SplitYear(y: string, tail: string)
    requires |tail| == 12
    ensures |y + tail| >= 12
    ensures (y + tail)[..|y + tail| - 12] == y && (y + tail)[|y + tail| - 12..] == tail
  {
  }

  /** `formatDateTime` is the `formatDate` text followed by ':' and the two-digit seconds. */
  lemma FormatDateTimeExtends(text: string, parse: DateParser)
    requires text != "" && parse(text).Some?
    ensures FormatDateTime(text, parse) == FormatDate(text, parse) + ":" + Pad2(parse(text).value.seconds)
    ensures |FormatDateTime(text, parse)| == |FormatDate(text, parse)| + 3
  {
    Pad2ReadsBack(parse(text).value.seconds);
  }

  /** `s` with `t` inserted at position `k`. */
  function InsertAt(s: string, k: nat, t: string): string
    requires k <= |s|
  {
    s[..k] + t + s[k..]
  }

  /**
   * `formatDateWithWeekday` is the `formatDate` text with "(曜)" inserted
   * after the day, 曜 being the name of the day of the week (which a
   * `DateTime` holds as the calendar's `Weekday` of its date).
   */
  lemma FormatDateWithWeekdayInserts(text: string, parse: DateParser)
    requires text != "" && parse(text).Some?
    ensures DayEnd(parse(text).value) <= |FormatDate(text, parse)|
    ensures FormatDateWithWeekday(text, parse)
         == InsertAt(FormatDate(text, parse), DayEnd(parse(text).value), WeekdayTag(parse(text).value))
  {
    FormatsOf(text, parse);
    WeekdayTextInserts(parse(text).value);
  }

  lemma FormatsOf(text: string, parse: DateParser)
    requires text != "" && parse(text).Some?
    ensures FormatDate(text, parse) == DateText(parse(text).value)
    ensures FormatDateWithWeekday(text, parse) == WeekdayText(parse(text).value)
  {
  }

  lemma WeekdayTextInserts(d: DateTime)
    ensures DayEnd(d) <= |DateText(d)|
    ensures WeekdayText(d) == InsertAt(DateText(d), DayEnd(d), WeekdayTag(d))
  {
    InsertBetween(DayOfDate(d), ClockOfDate(d), WeekdayTag(d));
  }

  /** Inserting at the seam of `a + b` puts `t` between them. */
  lemma InsertBetween(a: string, b: string, t: string)
    ensures InsertAt(a + b, |a|, t) == a + t + b
  {
    assert (a + b)[..|a|] == a;
    assert (a + b)[|a|..] == b;
  }

  /** Where "(曜)" goes: after the year and the six characters "/MM/DD". */
  function DayEnd(d: DateTime): (k: nat)
    ensures k == |IntToString(d.year)| + 6
  {
    Pad2Length(d.month + 1);
    Pad2Length(d.day);
    |DayOfDate(d)|
  }

  lemma Pad2Length(n: nat)
    requires n < 100
    ensures |Pad2(n)| == 2
  {
    Pad2ReadsBack(n);
  }

  /** The bucket `getRelativeTime` picks. */
  datatype Relative = JustNow | MinutesAgo(minutes: nat) | HoursAgo(hours: nat) | DaysAgo(days: nat) | Absolute

  /**
   * The cascade of `getRelativeTime` on the difference `now - date` in
   * milliseconds: floor-divided minutes, then hours from minutes, then days from hours.
   */
  function RelativeBucket(diffInMs: int): Relative
  {
    var diffInMinutes := diffInMs / 60000;
    var diffInHours := diffInMinutes / 60;
    var diffInDays := diffInHours / 24;
    if diffInMinutes < 1 then JustNow
    else if diffInMinutes < 60 then MinutesAgo(diffInMinutes)
    else if diffInHours < 24 then HoursAgo(diffInHours)
    else if diffInDays < 7 then DaysAgo(diffInDays)
    else Absolute
  }

  /** Floor division in steps is floor division by the product. */
  lemma NestedFloorDiv(x: int)
    ensures x / 60000 / 60 == x / 3600000
    ensures x / 3600000 / 24 == x / 86400000
  {
    var m := x / 60000;
    assert x == 60000 * m + x % 60000;
    var h := m / 60;
    assert m == 60 * h + m % 60;
    assert x == 3600000 * h + (60000 * (m % 60) + x % 60000);
    var d := h / 24;
    assert h == 24 * d + h % 24;
    assert x == 86400000 * d + (3600000 * (h % 24) + 60000 * (m % 60) + x % 60000);
  }

  /**
   * The buckets by the elapsed time itself: under a minute (every future date
   * too) is "just now"; then whole minutes 1..59, whole hours 1..23, whole
   * days 1..6; a week or more falls back to the absolute date.
   */
  lemma RelativeBucketSpec(diffInMs: int)
    ensures diffInMs < 60000 ==> RelativeBucket(diffInMs) == JustNow
    ensures 60000 <= diffInMs < 3600000 ==>
      RelativeBucket(diffInMs) == MinutesAgo(diffInMs / 60000) && 1 <= diffInMs / 60000 <= 59
    ensures 3600000 <= diffInMs < 86400000 ==>
      RelativeBucket(diffInMs) == HoursAgo(diffInMs / 3600000) && 1 <= diffInMs / 3600000 <= 23
    ensures 86400000 <= diffInMs < 604800000 ==>
      RelativeBucket(diffInMs) == DaysAgo(diffInMs / 86400000) && 1 <= diffInMs / 86400000 <= 6
    ensures 604800000 <= diffInMs ==> RelativeBucket(diffInMs) == Absolute
  {
    NestedFloorDiv(diffInMs);
  }

  /** `getRelativeTime(text)` with the clock reading `now` (milliseconds). */
  function GetRelativeTime(text: string, parse: DateParser, now: int): (r: string)
    ensures text == "" ==> r == ""
    ensures text != "" && parse(text).None? ==> r == InvalidText
  {
    if text == "" then ""
    else match parse(text)
      case None => InvalidText
      case Some(d) =>
        var bucket := RelativeBucket(now - d.time);
        if bucket.Absolute? then FormatDate(text, parse) else BucketText(bucket)
  }

  /** The text of a relative bucket: たった今, or the count followed by its unit. */
  function BucketText(b: Relative): string
    requires !b.Absolute?
  {
    if b.JustNow? then "たった今" else NatToString(BucketCount(b)) + BucketUnit(b)
  }

  /** The count a bucket shows. */
  function BucketCount(b: Relative): nat
    requires !b.Absolute? && !b.JustNow?
  {
    match b
    case MinutesAgo(n) => n
    case HoursAgo(n) => n
    case DaysAgo(n) => n
  }

  /** The unit a bucket shows after its count. */
  function BucketUnit(b: Relative): string
    requires !b.Absolute? && !b.JustNow?
  {
    match b
    case MinutesAgo(_) => "分前"
    case HoursAgo(_) => "時間前"
    case DaysAgo(_) => "日前"
  }

  /** Different buckets have different texts. */
  lemma BucketTextInjective(b1: Relative, b2: Relative)
    requires !b1.Absolute? && !b2.Absolute?
    ensures BucketText(b1) == BucketText(b2) <==> b1 == b2
  {
    var r1, r2 := BucketText(b1), BucketText(b2);
    if !b1.JustNow? {
      CountTextIsNotJustNow(b1);
    }
    if !b2.JustNow? {
      CountTextIsNotJustNow(b2);
    }
    if r1 == r2 {
      if !b1.JustNow? && !b2.JustNow? {
        var s1, s2 := NatToString(BucketCount(b1)), NatToString(BucketCount(b2));
        assert r1[..|s1|] == s1 && r2[..|s2|] == s2;
        assert |s1| < |r1| && r1[|s1|] == BucketUnit(b1)[0];
        assert |s2| < |r2| && r2[|s2|] == BucketUnit(b2)[0];
        DigitPrefix(r1, s1, s2);
        NatToStringInjective(BucketCount(b1), BucketCount(b2));
        assert BucketUnit(b1) == r1[|s1|..] == r2[|s2|..] == BucketUnit(b2);
      }
    }
  }

  /** A count text starts with a digit, so it is never たった今. */
  lemma CountTextIsNotJustNow(b: Relative)
    requires !b.Absolute? && !b.JustNow?
    ensures BucketText(b) != "たった今"
  {
    assert BucketText(b)[0] == NatToString(BucketCount(b))[0];
  }

  /**
   * Within a week the relative text determines the bucket: two clock readings
   * give the same text exactly when they fall in the same bucket.
   */
  lemma RelativeTextDeterminesBucket(text: string, parse: DateParser, now1: int, now2: int)
    requires text != "" && parse(text).Some?
    requires RelativeBucket(now1 - parse(text).value.time) != Absolute
    requires RelativeBucket(now2 - parse(text).value.time) != Absolute
    ensures GetRelativeTime(text, parse, now1) == GetRelativeTime(text, parse, now2) <==>
      RelativeBucket(now1 - parse(text).value.time) == RelativeBucket(now2 - parse(text).value.time)
  {
    var t := parse(text).value.time;
    RelativeTimeWithinWeek(text, parse, now1);
    RelativeTimeWithinWeek(text, parse, now2);
    BucketTextInjective(RelativeBucket(now1 - t), RelativeBucket(now2 - t));
  }

  lemma RelativeTimeWithinWeek(text: string, parse: DateParser, now: int)
    requires text != "" && parse(text).Some?
    requires RelativeBucket(now - parse(text).value.time) != Absolute
    ensures GetRelativeTime(text, parse, now) == BucketText(RelativeBucket(now - parse(text).value.time))
  {
  }

  /** A week or more after the date, the relative text is the `formatDate` text. */
  lemma RelativeTimeAfterWeek(text: string, parse: DateParser, now: int)
    requires text != "" && parse(text).Some?
    requires now - parse(text).value.time >= 604800000
    ensures GetRelativeTime(text, parse, now) == FormatDate(text, parse)
  {
    RelativeBucketSpec(now - parse(text).value.time);
  }

  /** Two digit strings that start the same text, each followed by a non-digit, are equal. */
  lemma DigitPrefix(r: string, s1: string, s2: string)
    requires AllDigits(s1) && AllDigits(s2)
    requires |s1| <= |r| && |s2| <= |r| && r[..|s1|] == s1 && r[..|s2|] == s2
    requires |s1| < |r| ==> !IsDigit(r[|s1|])
    requires |s2| < |r| ==> !IsDigit(r[|s2|])
    ensures s1 == s2
  {
  }
}
