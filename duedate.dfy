/**
 * `parse_due_date_and_time` (the second definition in main.py, which replaces
 * the first one): the due date of an extracted task, with the time of day
 * taken from the first `H:MM a.m.` / `H:MM p.m.` fragment of its details, or
 * midnight when there is none.
 *
 * `dateutil.parser.parse` is modelled by two restricted readers: the
 * `YYYY-MM-DD` layout for the date (`Calendar.ParseIsoDate`) and the 12-hour
 * clock conversion for the matched fragment (`To24Hour`).
 */
module DueDate {
  import opened Wrappers
  import opened Text
  import opened Digits
  import opened Calendar

  /** The extracted task as `parse_due_date_and_time` and `save_task` read it:
      the `task`, `timeframe` and `details` keys are present; `due_date` may be
      missing or null (`None`). */
  datatype Task = Task(task: string, timeframe: string, details: string, dueDate: Option<string>)

  /** A clock reading as written in the details: one or two digits of hour,
      two digits of minute, and `a.m.` or `p.m.`. */
  datatype ClockReading = ClockReading(hour: nat, minute: nat, pm: bool)

  /** The match of `\d{1,2}:\d{2}\s*(?:a\.m\.|p\.m\.)` (case ignored) that
      starts at index `p`, if any. The hour takes two digits whenever a second
      digit follows the first: backtracking to one digit cannot help, since a
      `:` would then have to be that second digit. */
  function FragmentAt(s: string, p: nat): (r: Option<ClockReading>)
    ensures r.Some? ==> p < |s| && IsDigit(s[p]) && r.value.hour < 100 && r.value.minute < 100
  {
    if p < |s| && IsDigit(s[p]) then
      var c := if p + 1 < |s| && IsDigit(s[p + 1]) then p + 2 else p + 1;
      if c + 2 < |s| && s[c] == ':' && IsDigit(s[c + 1]) && IsDigit(s[c + 2]) then
        var h := if c == p + 2 then 10 * DigitValue(s[p]) + DigitValue(s[p + 1]) else DigitValue(s[p]);
        var m := 10 * DigitValue(s[c + 1]) + DigitValue(s[c + 2]);
        var e := SkipSpaces(s, c + 3);
        if MatchesAt(s, e, "a.m.") then Some(ClockReading(h, m, false))
        else if MatchesAt(s, e, "p.m.") then Some(ClockReading(h, m, true))
        else None
      else None
    else None
  }

  /** The leftmost index at or after `from` where a time fragment starts (`re.search`). */
  function FindFragment(s: string, from: nat): (r: Option<nat>)
    ensures r.Some? ==> from <= r.value && FragmentAt(s, r.value).Some?
    ensures r.Some? ==> forall q :: from <= q < r.value ==> FragmentAt(s, q).None?
    ensures r.None? ==> forall q :: from <= q ==> FragmentAt(s, q).None?
    decreases |s| - from
  {
    if from >= |s| then None
    else if FragmentAt(s, from).Some? then Some(from)
    else FindFragment(s, from + 1)
  }

  /** The clock reading of the first time fragment of the details, if any. */
  function FirstTimeFragment(details: string): (r: Option<ClockReading>)
    ensures r.Some? ==> exists p: nat :: FragmentAt(details, p) == r && forall q :: 0 <= q < p ==> FragmentAt(details, q).None?
    ensures r.None? ==> forall p :: FragmentAt(details, p).None?
  {
    match FindFragment(details, 0)
    case None => None
    case Some(p) => FragmentAt(details, p)
  }

  /** `parse(fragment).time()`: a 12-hour reading becomes a time of day; an
      hour above 12 or a minute above 59 is a `ValueError`. */
  function To24Hour(c: ClockReading): (r: Option<Time>)
    ensures r.None? <==> c.hour > 12 || c.minute > 59
    ensures r.Some? ==> ValidTime(r.value) && r.value.minute == c.minute && r.value.second == 0
    ensures r.Some? ==> (r.value.hour >= 12 <==> c.pm) && r.value.hour % 12 == c.hour % 12
  {
    if c.hour > 12 || c.minute > 59 then None
    else Some(Time(if c.pm then c.hour % 12 + 12 else c.hour % 12, c.minute, 0))
  }

  /** How a time of day is read out on a 12-hour clock: 0 h is 12 a.m., 12 h is 12 p.m. */
  function TwelveHourOf(t: Time): (c: ClockReading)
    requires ValidTime(t)
    ensures 1 <= c.hour <= 12 && c.minute == t.minute
  {
    var h := t.hour % 12;
    ClockReading(if h == 0 then 12 else h, t.minute, t.hour >= 12)
  }

  /** Every time of day, to the minute, is what some clock reading converts to. */
  lemma To24HourTwelveHourOf(t: Time)
    requires ValidTime(t)
    ensures To24Hour(TwelveHourOf(t)) == Some(Time(t.hour, t.minute, 0))
  {
  }

  /** The text of a clock reading: `H:MM a.m.` or `HH:MM p.m.`. */
  function WriteClock(c: ClockReading): (s: string)
    requires c.hour < 100 && c.minute < 100
  {
    (if c.hour < 10 then Pad(c.hour, 1) else Pad(c.hour, 2))
      + ":" + Pad(c.minute, 2) + " " + (if c.pm then "p.m." else "a.m.")
  }

  /** The resolver: no due date (missing, `None` or empty) gives `None`; so does
      a due date or a time fragment that fails to parse. Otherwise the date is
      the due date, at the time of the first fragment of the details, or at
      midnight. */
  function ParseDueDateAndTime(t: Task): (r: Option<DateTime>)
    ensures r.Some? ==> t.dueDate.Some? && ParseIsoDate(t.dueDate.value) == Some(r.value.date)
    ensures r.Some? ==> ValidDateTime(r.value) && r.value.time.second == 0
    ensures r.Some? && FirstTimeFragment(t.details).None? ==> r.value.time == Midnight
    ensures r.Some? && FirstTimeFragment(t.details).Some? ==>
      To24Hour(FirstTimeFragment(t.details).value) == Some(r.value.time)
    ensures r.None? <==>
      || t.dueDate.None?
      || ParseIsoDate(t.dueDate.value).None?
      || (FirstTimeFragment(t.details).Some? && To24Hour(FirstTimeFragment(t.details).value).None?)
  {
    match t.dueDate
    case None => None
    case Some(text) =>
      if text == "" then None
      else
        match ParseIsoDate(text)
        case None => None
        case Some(d) =>
          match FirstTimeFragment(t.details)
          case None => Some(DateTime(d, Midnight))
          case Some(c) =>
            match To24Hour(c)
            case None => None
            case Some(time) => Some(DateTime(d, time))
  }

  /** `MatchesAt` for `a.m.` or `p.m.` needs a `.` right after the letter. */
  lemma MeridiemNeedsPeriod(s: string, e: int, w: string)
    requires w == "a.m." || w == "p.m."
    requires MatchesAt(s, e, w)
    ensures s[e + 1] == '.'
  {
    MatchesAtChars(s, e, w);
    assert LowerChar(s[e + 1]) == w[1];
  }

  /** The periods are required: a text without `.` (such as `3:30 pm`) holds no
      time fragment, so the time defaults to midnight. */
  lemma NoFragmentWithoutPeriods(s: string)
    requires forall i :: 0 <= i < |s| ==> s[i] != '.'
    ensures FirstTimeFragment(s).None?
  {
    if FindFragment(s, 0).Some? {
      var p := FindFragment(s, 0).value;
      var c := if p + 1 < |s| && IsDigit(s[p + 1]) then p + 2 else p + 1;
      var e := SkipSpaces(s, c + 3);
      if MatchesAt(s, e, "a.m.") {
        MeridiemNeedsPeriod(s, e, "a.m.");
      } else {
        MeridiemNeedsPeriod(s, e, "p.m.");
      }
    }
  }

  /** A clock reading written out after text without digits is the first
      fragment found, and reads back as itself. */
  lemma ReadWrittenClock(before: string, c: ClockReading, after: string)
    requires forall i :: 0 <= i < |before| ==> !IsDigit(before[i])
    requires c.hour < 100 && c.minute < 100
    ensures FirstTimeFragment(before + WriteClock(c) + after) == Some(c)
  {
    var s := before + WriteClock(c) + after;
    var p := |before|;
    forall q | 0 <= q < p ensures FragmentAt(s, q).None? {
      assert s[q] == before[q];
    }
    WrittenClockAt(before, c, after);
    FindFragmentSkips(s, 0, p);
  }

  /** `FindFragment` passes over indices where no fragment starts. */
  lemma {:induction false} FindFragmentSkips(s: string, from: nat, p: nat)
    requires from <= p && FragmentAt(s, p).Some?
    requires forall q :: from <= q < p ==> FragmentAt(s, q).None?
    ensures FindFragment(s, from) == Some(p)
    decreases p - from
  {
    if from < p {
      FindFragmentSkips(s, from + 1, p);
    }
  }

  /** The value of a run of one or two digits. */
  lemma ShortNumber(d: string)
    requires (|d| == 1 || |d| == 2) && AllDigits(d)
    ensures |d| == 1 ==> NumberOf(d) == DigitValue(d[0])
    ensures |d| == 2 ==> NumberOf(d) == 10 * DigitValue(d[0]) + DigitValue(d[1])
  {
    assert d[..|d| - 1][..0] == [];
    if |d| == 2 {
      assert d[..1][..0] == [];
    }
  }

  /** The text at `p` is a time fragment reading `c`: `n` (one or two) hour
      digits, a `:`, two minute digits, whitespace up to index `e`, and the
      meridiem `a.m.` or `p.m.` in any case at `e`; the hour and the minute are
      the values of the digits. */
  predicate FragmentLaidOut(s: string, p: nat, n: nat, e: nat, c: ClockReading) {
    && (n == 1 || n == 2) && p + n + 3 <= e && e + 4 <= |s|
    && AllDigits(s[p..p + n]) && s[p + n] == ':' && AllDigits(s[p + n + 1..p + n + 3])
    && (forall k :: p + n + 3 <= k < e ==> IsSpace(s[k]))
    && MatchesAt(s, e, if c.pm then "p.m." else "a.m.")
    && c.hour == NumberOf(s[p..p + n]) && c.minute == NumberOf(s[p + n + 1..p + n + 3])
  }

  /** `FragmentAt` finds exactly the laid-out fragments, with the readings
      they spell. */
  lemma FragmentAtLayout(s: string, p: nat, c: ClockReading)
    ensures FragmentAt(s, p) == Some(c) <==> exists n, e :: FragmentLaidOut(s, p, n, e, c)
  {
    if FragmentAt(s, p) == Some(c) {
      var n, e := FragmentIsLaidOut(s, p, c);
    }
    if exists n, e :: FragmentLaidOut(s, p, n, e, c) {
      var n, e :| FragmentLaidOut(s, p, n, e, c);
      LaidOutIsFragment(s, p, n, e, c);
    }
  }

  lemma FragmentIsLaidOut(s: string, p: nat, c: ClockReading) returns (n: nat, e: nat)
    requires FragmentAt(s, p) == Some(c)
    ensures FragmentLaidOut(s, p, n, e, c)
  {
    n := if p + 1 < |s| && IsDigit(s[p + 1]) then 2 else 1;
    e := SkipSpaces(s, p + n + 3);
    var hd, mm := s[p..p + n], s[p + n + 1..p + n + 3];
    assert hd[0] == s[p];
    assert n == 2 ==> hd[1] == s[p + 1];
    assert mm[0] == s[p + n + 1] && mm[1] == s[p + n + 2];
    ShortNumber(hd);
    ShortNumber(mm);
  }

  lemma LaidOutIsFragment(s: string, p: nat, n: nat, e: nat, c: ClockReading)
    requires FragmentLaidOut(s, p, n, e, c)
    ensures FragmentAt(s, p) == Some(c)
  {
    var hd, mm := s[p..p + n], s[p + n + 1..p + n + 3];
    assert s[p] == hd[0];
    assert n == 2 ==> s[p + 1] == hd[1];
    assert s[p + n + 1] == mm[0] && s[p + n + 2] == mm[1];
    ShortNumber(hd);
    ShortNumber(mm);
    var w := if c.pm then "p.m." else "a.m.";
    MatchesAtChars(s, e, w);
    MatchesAtChars(s, e, "a.m.");
    assert LowerChar(s[e]) == w[0];
    assert SkipSpaces(s, p + n + 3) == e;
  }

  /** A written clock reading is read back, as itself, where it was written. */
  lemma {:induction false} WrittenClockAt(before: string, c: ClockReading, after: string)
    requires c.hour < 100 && c.minute < 100
    ensures FragmentAt(before + WriteClock(c) + after, |before|) == Some(c)
  {
    var hd := if c.hour < 10 then Pad(c.hour, 1) else Pad(c.hour, 2);
    var mm := Pad(c.minute, 2);
    var w := if c.pm then "p.m." else "a.m.";
    var u := hd + ":" + mm + " " + w;
    assert WriteClock(c) == u;
    var s := before + u + after;
    var p := |before|;
    forall i | 0 <= i < |u| ensures s[p + i] == u[i] {
    }
    forall i | 0 <= i < |hd| ensures s[p + i] == hd[i] {
      assert u[i] == hd[i];
    }
    forall i | 0 <= i < 4 ensures s[p + |hd| + 4 + i] == w[i] {
      assert u[|hd| + 4 + i] == w[i];
    }
    assert u[|hd|] == ':' && u[|hd| + 1] == mm[0] && u[|hd| + 2] == mm[1] && u[|hd| + 3] == ' ';
    NumberOfPad(c.minute, 2);
    if c.hour < 10 {
      NumberOfPad(c.hour, 1);
    } else {
      NumberOfPad(c.hour, 2);
    }
    PiecesAt(s, p, hd, mm, w, c);
  }

  /** Hour digits `hd`, `:`, minute digits `mm`, one space and the meridiem `w`,
      found character by character at `p`, are a fragment. */
  lemma {:induction false} PiecesAt(s: string, p: nat, hd: string, mm: string, w: string, c: ClockReading)
    requires (|hd| == 1 || |hd| == 2) && AllDigits(hd) && |mm| == 2 && AllDigits(mm)
    requires w == (if c.pm then "p.m." else "a.m.")
    requires c.hour == NumberOf(hd) && c.minute == NumberOf(mm)
    requires p + |hd| + 8 <= |s|
    requires forall i :: 0 <= i < |hd| ==> s[p + i] == hd[i]
    requires s[p + |hd|] == ':' && s[p + |hd| + 1] == mm[0] && s[p + |hd| + 2] == mm[1] && s[p + |hd| + 3] == ' '
    requires forall i :: 0 <= i < 4 ==> s[p + |hd| + 4 + i] == w[i]
    ensures FragmentAt(s, p) == Some(c)
  {
    var n := |hd|;
    assert s[p..p + n] == hd;
    assert s[p + n + 1..p + n + 3] == mm;
    MatchesAtChars(s, p + n + 4, w);
    LaidOutIsFragment(s, p, n, p + n + 4, c);
  }

  /** A due date in `YYYY-MM-DD` form resolves to that date at the time of
      the first fragment of the details, whenever that fragment converts. */
  lemma ResolveWrittenClock(d: Date, task: string, timeframe: string, details: string, c: ClockReading)
    requires ValidDate(d)
    requires FirstTimeFragment(details) == Some(c) && To24Hour(c).Some?
    ensures ParseDueDateAndTime(Task(task, timeframe, details, Some(FormatDate(d))))
         == Some(DateTime(d, To24Hour(c).value))
  {
    ParseFormatDate(d);
  }

  /** Without a time fragment in the details, a valid due date resolves to midnight. */
  lemma ResolveDateOnly(d: Date, task: string, timeframe: string, details: string)
    requires ValidDate(d)
    requires FirstTimeFragment(details).None?
    ensures ParseDueDateAndTime(Task(task, timeframe, details, Some(FormatDate(d)))) == Some(DateTime(d, Midnight))
  {
    ParseFormatDate(d);
  }
}
