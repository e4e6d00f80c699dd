/**
 * The row that `save_task` (the second definition in main.py) inserts into
 * the `tasks` table: the task's `task`, `timeframe` and `details` and its
 * resolved due date written as `%Y-%m-%d %H:%M:%S`. When the due date does
 * not resolve, `strftime` is called on `None` and fails before the INSERT,
 * so no row is written.
 */
module TaskRow {
  import opened Wrappers
  import opened Digits
  import opened Calendar
  import opened DueDate

  /** The values bound to `INSERT INTO tasks (task, timeframe, details, due_date)`. */
  datatype Row = Row(task: string, timeframe: string, details: string, dueDate: string)

  /** The `AttributeError` raised by `None.strftime(...)`. */
  datatype SaveError = DueDateUnresolved

  /** The row `save_task` would insert, or the error that stops it first. */
  function SaveTaskRow(t: Task): (r: Result<Row, SaveError>)
    ensures r.Failure? <==> ParseDueDateAndTime(t).None?
    ensures r.Success? ==>
      r.value.task == t.task && r.value.timeframe == t.timeframe && r.value.details == t.details
    ensures r.Success? ==> |r.value.dueDate| == 19 && ParseTimestamp(r.value.dueDate) == ParseDueDateAndTime(t)
  {
    match ParseDueDateAndTime(t)
    case None => Failure(DueDateUnresolved)
    case Some(dt) =>
      ParseStrftime(dt);
      Success(Row(t.task, t.timeframe, t.details, Strftime(dt)))
  }

  /** A stored due date is exactly the text `strftime` writes for what it reads as. */
  lemma StoredDueDateCanonical(t: Task)
    requires SaveTaskRow(t).Success?
    ensures var s := SaveTaskRow(t).value.dueDate;
      ParseTimestamp(s).Some? && Strftime(ParseTimestamp(s).value) == s
  {
    StrftimeParse(SaveTaskRow(t).value.dueDate);
  }

  /** Sorting saved rows by their `due_date` text sorts them by when the tasks
      are due, and two rows share a `due_date` text exactly when their tasks
      are due at the same moment. */
  lemma RowsSortByDueDate(t1: Task, t2: Task)
    requires SaveTaskRow(t1).Success? && SaveTaskRow(t2).Success?
    ensures Less(SaveTaskRow(t1).value.dueDate, SaveTaskRow(t2).value.dueDate)
        <==> Before(ParseDueDateAndTime(t1).value, ParseDueDateAndTime(t2).value)
    ensures SaveTaskRow(t1).value.dueDate == SaveTaskRow(t2).value.dueDate
        <==> ParseDueDateAndTime(t1) == ParseDueDateAndTime(t2)
  {
    StrftimeOrder(ParseDueDateAndTime(t1).value, ParseDueDateAndTime(t2).value);
  }

  /** A task with a valid `YYYY-MM-DD` due date and no time fragment in its
      details is saved due at midnight of that date. */
  lemma SaveDateOnly(d: Date, task: string, timeframe: string, details: string)
    requires ValidDate(d)
    requires FirstTimeFragment(details).None?
    ensures SaveTaskRow(Task(task, timeframe, details, Some(FormatDate(d))))
         == Success(Row(task, timeframe, details, FormatDate(d) + " 00:00:00"))
  {
    ResolveDateOnly(d, task, timeframe, details);
    FormatMidnight();
    assert Strftime(DateTime(d, Midnight)) == FormatDate(d) + " 00:00:00";
  }

  /** A task whose details name a time of day in their first fragment is saved
      due at that time on its due date. */
  lemma SaveWrittenClock(d: Date, task: string, timeframe: string, details: string, c: ClockReading)
    requires ValidDate(d)
    requires FirstTimeFragment(details) == Some(c) && To24Hour(c).Some?
    ensures SaveTaskRow(Task(task, timeframe, details, Some(FormatDate(d))))
         == Success(Row(task, timeframe, details, Strftime(DateTime(d, To24Hour(c).value))))
  {
    ResolveWrittenClock(d, task, timeframe, details, c);
  }
}
