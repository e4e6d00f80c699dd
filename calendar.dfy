/**
 * Python's `date`, `time` and `datetime` values as far as the task manager
 * uses them: Gregorian validity, the `"%Y-%m-%d %H:%M:%S"` layout that
 * `save_task` stores, and the `YYYY-MM-DD` date layout that the extraction
 * prompt asks the language model to produce, read back into a date.
 */
module Calendar {
  import opened Wrappers
  import opened Text
  import opened Digits

  datatype Date = Date(year: int, month: int, day: int)

  datatype Time = Time(hour: int, minute: int, second: int)

  /** `datetime.combine(date, time)` */
  datatype DateTime = DateTime(date: Date, time: Time)

  /** `time(0, 0)` */
  const Midnight: Time := Time(0, 0, 0)

  predicate IsLeapYear(y: int) {
    y % 4 == 0 && (y % 100 != 0 || y % 400 == 0)
  }

  function DaysInMonth(y: int, m: int): (r: int)
    requires 1 <= m <= 12
    ensures 28 <= r <= 31
    ensures r == 29 <==> m == 2 && IsLeapYear(y)
  {
    if m == 2 then (if IsLeapYear(y) then 29 else 28)
    else if m == 4 || m == 6 || m == 9 || m == 11 then 30
    else 31
  }

  /** The dates Python's `date` accepts: years 1 to 9999 (`MINYEAR`, `MAXYEAR`). */
  predicate ValidDate(d: Date) {
    1 <= d.year <= 9999 && 1 <= d.month <= 12 && 1 <= d.day <= DaysInMonth(d.year, d.month)
  }

  predicate ValidTime(t: Time) {
    0 <= t.hour < 24 && 0 <= t.minute < 60 && 0 <= t.second < 60
  }

  predicate ValidDateTime(dt: DateTime) {
    ValidDate(dt.date) && ValidTime(dt.time)
  }

  /** `date.strftime("%Y-%m-%d")` */
  function FormatDate(d: Date): (r: string)
    requires ValidDate(d)
    ensures |r| == 10
  {
    Pad(d.year, 4) + "-" + Pad(d.month, 2) + "-" + Pad(d.day, 2)
  }

  /** `time.strftime("%H:%M:%S")` */
  function FormatTime(t: Time): (r: string)
    requires ValidTime(t)
    ensures |r| == 8
  {
    Pad(t.hour, 2) + ":" + Pad(t.minute, 2) + ":" + Pad(t.second, 2)
  }

  /** `datetime.strftime("%Y-%m-%d %H:%M:%S")`, the layout of the stored due date. */
  function Strftime(dt: DateTime): (r: string)
    requires ValidDateTime(dt)
    ensures |r| == 19
  {
    FormatDate(dt.date) + " " + FormatTime(dt.time)
  }

  /** Three digit fields of widths `w1`, `2`, `2` separated by `sep`, read as numbers. */
  function ReadFields(s: string, w1: nat, sep: char): (r: Option<(nat, nat, nat)>)
    ensures r.Some? ==> |s| == w1 + 6
  {
    if |s| == w1 + 6 && s[w1] == sep && s[w1 + 3] == sep
       && AllDigits(s[..w1]) && AllDigits(s[w1 + 1..w1 + 3]) && AllDigits(s[w1 + 4..])
    then Some((NumberOf(s[..w1]), NumberOf(s[w1 + 1..w1 + 3]), NumberOf(s[w1 + 4..])))
    else None
  }

  /** Reading back what `Pad` wrote gives the three numbers. */
  lemma ReadWrittenFields(a: nat, b: nat, c: nat, w1: nat, sep: char)
    requires a < Pow10(w1) && b < 100 && c < 100
    ensures ReadFields(Pad(a, w1) + [sep] + Pad(b, 2) + [sep] + Pad(c, 2), w1, sep) == Some((a, b, c))
  {
    var s := Pad(a, w1) + [sep] + Pad(b, 2) + [sep] + Pad(c, 2);
    assert s[..w1] == Pad(a, w1);
    assert s[w1 + 1..w1 + 3] == Pad(b, 2);
    assert s[w1 + 4..] == Pad(c, 2);
    NumberOfPad(a, w1);
    NumberOfPad(b, 2);
    NumberOfPad(c, 2);
  }

  /** A text that reads as three fields is the padded form of the numbers read. */
  lemma {:induction false} FieldsWritten(s: string, w1: nat, sep: char)
    requires ReadFields(s, w1, sep).Some?
    ensures var (a, b, c) := ReadFields(s, w1, sep).value;
      a < Pow10(w1) && b < 100 && c < 100
      && s == Pad(a, w1) + [sep] + Pad(b, 2) + [sep] + Pad(c, 2)
  {
    PadNumberOf(s[..w1]);
    PadNumberOf(s[w1 + 1..w1 + 3]);
    PadNumberOf(s[w1 + 4..]);
    assert s == s[..w1] + [sep] + s[w1 + 1..w1 + 3] + [sep] + s[w1 + 4..];
  }

  /** The `YYYY-MM-DD` date reader: exactly four, two and two digits joined
      by `-`, forming a valid Gregorian date; anything else is the
      `ValueError` of the date parser. */
  function ParseIsoDate(s: string): (r: Option<Date>)
    ensures r.Some? ==> ValidDate(r.value) && |s| == 10
  {
    match ReadFields(s, 4, '-')
    case None => None
    case Some((y, m, d)) => if ValidDate(Date(y, m, d)) then Some(Date(y, m, d)) else None
  }

  /** The `HH:MM:SS` reader, the time half of a stored due date. */
  function ParseClock(s: string): (r: Option<Time>)
    ensures r.Some? ==> ValidTime(r.value) && |s| == 8
  {
    match ReadFields(s, 2, ':')
    case None => None
    case Some((h, m, sec)) => if ValidTime(Time(h, m, sec)) then Some(Time(h, m, sec)) else None
  }

  /** Reads a stored due date back: a date, one space, a time. */
  function ParseTimestamp(s: string): (r: Option<DateTime>)
    ensures r.Some? ==> ValidDateTime(r.value) && |s| == 19
  {
    if |s| == 19 && s[10] == ' ' then
      match (ParseIsoDate(s[..10]), ParseClock(s[11..]))
      case (Some(d), Some(t)) => Some(DateTime(d, t))
      case _ => None
    else None
  }

  lemma ParseFormatDate(d: Date)
    requires ValidDate(d)
    ensures ParseIsoDate(FormatDate(d)) == Some(d)
  {
    ReadWrittenFields(d.year, d.month, d.day, 4, '-');
  }

  lemma FormatParseDate(s: string)
    requires ParseIsoDate(s).Some?
    ensures FormatDate(ParseIsoDate(s).value) == s
  {
    FieldsWritten(s, 4, '-');
  }

  lemma ParseFormatTime(t: Time)
    requires ValidTime(t)
    ensures ParseClock(FormatTime(t)) == Some(t)
  {
    ReadWrittenFields(t.hour, t.minute, t.second, 2, ':');
  }

  lemma FormatParseTime(s: string)
    requires ParseClock(s).Some?
    ensures FormatTime(ParseClock(s).value) == s
  {
    FieldsWritten(s, 2, ':');
  }

  /** A stored due date reads back as the date and time that were stored. */
  lemma ParseStrftime(dt: DateTime)
    requires ValidDateTime(dt)
    ensures ParseTimestamp(Strftime(dt)) == Some(dt)
  {
    var s := Strftime(dt);
    assert s[..10] == FormatDate(dt.date);
    assert s[11..] == FormatTime(dt.time);
    ParseFormatDate(dt.date);
    ParseFormatTime(dt.time);
  }

  /** Every text that reads as a due date is the stored form of what it reads as. */
  lemma StrftimeParse(s: string)
    requires ParseTimestamp(s).Some?
    ensures Strftime(ParseTimestamp(s).value) == s
  {
    FormatParseDate(s[..10]);
    FormatParseTime(s[11..]);
    assert s == s[..10] + " " + s[11..];
  }

  /** Midnight is stored as `00:00:00`. */
  lemma FormatMidnight()
    ensures FormatTime(Midnight) == "00:00:00"
  {
    assert Pad(0, 1) == "0";
    assert Pad(0, 2) == "00";
  }

  /** Chronological order of dates. */
  predicate DateBefore(a: Date, b: Date) {
    a.year < b.year || (a.year == b.year && (a.month < b.month || (a.month == b.month && a.day < b.day)))
  }

  /** Order of times within a day. */
  predicate TimeBefore(a: Time, b: Time) {
    a.hour < b.hour || (a.hour == b.hour && (a.minute < b.minute || (a.minute == b.minute && a.second < b.second)))
  }

  /** Chronological order of date-times. */
  predicate Before(a: DateTime, b: DateTime) {
    DateBefore(a.date, b.date) || (a.date == b.date && TimeBefore(a.time, b.time))
  }

  /** Three fields written by `Pad` compare as strings the way the numbers
      compare lexicographically. */
  lemma {:induction false} FieldsOrder(a1: nat, b1: nat, c1: nat, a2: nat, b2: nat, c2: nat, w1: nat, sep: string)
    requires a1 < Pow10(w1) && a2 < Pow10(w1) && b1 < 100 && b2 < 100 && c1 < 100 && c2 < 100
    ensures Less(Pad(a1, w1) + sep + Pad(b1, 2) + sep + Pad(c1, 2), Pad(a2, w1) + sep + Pad(b2, 2) + sep + Pad(c2, 2))
        <==> a1 < a2 || (a1 == a2 && (b1 < b2 || (b1 == b2 && c1 < c2)))
    ensures Pad(a1, w1) + sep + Pad(b1, 2) + sep + Pad(c1, 2) == Pad(a2, w1) + sep + Pad(b2, 2) + sep + Pad(c2, 2)
        <==> a1 == a2 && b1 == b2 && c1 == c2
  {
    var p1, p2 := Pad(a1, w1), Pad(a2, w1);
    var x1, x2 := p1 + sep + Pad(b1, 2), p2 + sep + Pad(b2, 2);
    PadOrder(a1, a2, w1);
    PadInjective(a1, a2, w1);
    LessField(p1, p2, sep, b1, b2, 2);
    assert Less(x1, x2) <==> a1 < a2 || (a1 == a2 && b1 < b2);
    assert x1 == x2 <==> a1 == a2 && b1 == b2;
    LessField(x1, x2, sep, c1, c2, 2);
  }

  /** The stored due dates sort, as text, in chronological order (so `ORDER
      BY due_date` sorts tasks by when they are due), and distinct date-times
      are stored as distinct texts. */
  lemma {:induction false} StrftimeOrder(a: DateTime, b: DateTime)
    requires ValidDateTime(a) && ValidDateTime(b)
    ensures Less(Strftime(a), Strftime(b)) <==> Before(a, b)
    ensures Strftime(a) == Strftime(b) <==> a == b
  {
    var da, db := a.date, b.date;
    var ta, tb := a.time, b.time;
    FieldsOrder(da.year, da.month, da.day, db.year, db.month, db.day, 4, "-");
    FieldsOrder(ta.hour, ta.minute, ta.second, tb.hour, tb.minute, tb.second, 2, ":");
    LessConcat(FormatDate(da) + " ", FormatTime(ta), FormatDate(db) + " ", FormatTime(tb));
    LessConcat(FormatDate(da), " ", FormatDate(db), " ");
    LessIrreflexive(" ");
    ConcatEqual(FormatDate(da) + " ", FormatTime(ta), FormatDate(db) + " ", FormatTime(tb));
    ConcatEqual(FormatDate(da), " ", FormatDate(db), " ");
  }
}
