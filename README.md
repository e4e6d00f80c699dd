# Voice task manager: the decision logic of `main.py`

The task manager listens for spoken commands. A language model turns "create
task" requests into a task record (task, timeframe, details, due date), which
is saved to the SQLite table `tasks`. It turns "retrieve tasks" requests into a
SQL statement, which is run against that table. This project models the
deterministic code between those collaborators and proves what it guarantees:

- `query.dfy` (module `Query`): the safety gate `ensure_valid_query`, which
  decides which statement is run. It also holds the unused extractor
  `clean_sql_query`, modelled as an explicit index search that does what its
  regular expression does, plus a corrected extractor.
- `duedate.dfy` (module `DueDate`): `parse_due_date_and_time` (the second
  definition, which replaces the first). The time comes from the first
  `H:MM a.m.` / `H:MM p.m.` fragment of the details, or is midnight.
- `taskrow.dfy` (module `TaskRow`): the row that `save_task` (the second
  definition) inserts, with the due date formatted by `strftime`.
- `dispatch.dfy` (module `Dispatch`): the intent classifier of `main`, and its
  `while True` loop as a method over the stream of recognised utterances. A
  request is answered by saving the extracted task or by passing the reply
  through the gate.
- Supporting modules:
  - `text.dfy` (`Text`): ASCII `strip`, `lower`, substring search that
    ignores case, `\d` and `\s`.
  - `digits.dfy` (`Digits`): zero-padded decimal fields, and Python's string
    order.
  - `calendar.dfy` (`Calendar`): Gregorian dates, the `%Y-%m-%d %H:%M:%S`
    layout and its reader.
  - `wrappers.dfy` (`Wrappers`): `Option` and `Result`.

`dateutil.parser.parse` is replaced by two restricted readers, which are the
assumptions of this model:

- A due date is read only in the `YYYY-MM-DD` layout that the extraction prompt
  asks for (main.py:98, main.py:109). It must be a valid Gregorian date with a
  year from 1 to 9999.
- A time fragment is converted from the 12-hour clock: `a.m.` gives `h % 12`
  and `p.m.` gives `h % 12 + 12`. An hour above 12 or a minute above 59 is the
  parser's `ValueError`, so the due date resolves to `None`.

What the gate and the loop do not do (the model follows the code):

- A reply with an explanatory preamble before its `SELECT` is replaced by the
  default `SELECT * FROM tasks;`. The statement is not recovered
  (`Query.PreambleGivesDefault`).
- The gate tests only that the stripped reply starts with the six letters
  `select`, in any case, and whether it ends with `;`. A reply such as
  `SELECT 1; DROP TABLE tasks;` passes unchanged, and so does `selection;`
  (`Query.SecondStatementPasses`).
- Code fences and other decorations are not stripped.
- Neither `save_task` nor `ensure_valid_query` is called inside a `try`. A
  task whose due date does not resolve is not saved, and the exception ends
  the program; so does a reply of a type the gate rejects
  (`Dispatch.UnresolvedDueDateEndsSession`, `Dispatch.EndIsLast`).

## Model

| member | source | states |
|---|---|---|
| `Query.ValidateQueryText` | main.py:160-164 | The result always starts with `select` (any case) and ends with `;` once stripped. A text whose stripped form does not start with `select` gives exactly `SELECT * FROM tasks;`. A `select` text lacking the final `;` gives its stripped form plus `;`. An already terminated `select` text is returned untouched, surrounding whitespace included. |
| `Query.EnsureValidQuery` | main.py:152-164 | A chat message contributes its content and a plain string itself. Any other value is the `ValueError` failure, and only those fail. Every success is a terminated `select` statement. |
| `Query.EnsureValidQueryIdempotent` | main.py:152-164 | Feeding the gate's output back through the gate changes nothing. |
| `Query.ValidateFixedPoints` | main.py:160-164 | The texts the gate returns unchanged are exactly the terminated `select` statements. |
| `Query.StartsWithSelectIff` | main.py:160 | The gate's first test holds exactly when the first six characters of the stripped, lower-cased text are `select`. |
| `Query.DefaultQueryIsTerminated` | main.py:161 | The fallback statement itself passes the gate's checks. |
| `Query.TerminatedSelect` | main.py:162-163 | Appending `;` to the stripped text of a `select` statement produces a terminated statement. |
| `Query.PreambleGivesDefault` | main.py:160-161 | A reply whose first non-space character is not `s` (a preamble, a `DROP`, an `UPDATE`) is replaced by the default query. |
| `Query.SecondStatementPasses` | main.py:160-164 | A text that starts with `select` and ends with `;` passes unchanged, whatever lies between. |
| `Query.SqlMatch` | main.py:175-176 | Describes the regex match as an index search. It exists exactly when some `select` is later followed by a `from`. It starts at the leftmost `select` and covers the first `from` at least six characters after that. It extends only by an immediately adjacent `where` and then an optional `;`, and a `;` right after the matched part is always taken. |
| `Query.SqlMatchExtends` | main.py:175-176 | Text appended after the matched part does not move the match's `select` or `from`. |
| `Query.MatchedText` | main.py:176-178 | The matched text starts with `select` and has no surrounding whitespace. |
| `Query.CleanSqlQuery` | main.py:173-184 | No `select … from` gives the `ValueError` failure, and only then. Otherwise the result is the matched text, with `;` appended exactly when it does not already end with one, so it always starts with `select` and ends with `;`. |
| `Query.CleanSqlQueryDropsCondition` | main.py:175-182 | As written, a statement whose `from` is followed by anything other than `where` or `;` is cut right after `from`, losing its table and condition. |
| `Query.ExtractSqlStatement` | main.py:173-184 | The corrected extractor fails exactly when the original does. Otherwise it returns the whole statement from the leftmost `select`: up to and including the first `;` after its `from`, or, when there is none, to the end of the text less all of its trailing whitespace, plus `;`. |
| `Query.StatementFrom` | main.py:176-182 | The statement cut from a matched `select` starts with `select` and is the statement described for `ExtractSqlStatement`. |
| `Query.ExtractKeepsStatement` | main.py:173-184 | A single unterminated statement is returned whole with `;` appended. The terminated statement is returned as it is, so extraction of a terminated statement is stable. |
| `Query.ExtractUnterminated` | main.py:173-184 | A single statement without `;` is returned whole with `;` appended. |
| `Query.ExtractTerminated` | main.py:173-184 | A single statement ending in its only `;` is returned as it is, whitespace before the `;` included. |
| `Query.SelectThenFromExtends` | main.py:176-177 | Appending text cannot make a match disappear. |
| `Text.Strip` | main.py:160-163 | `strip()` returns the infix left after dropping leading and trailing whitespace. It neither starts nor ends with whitespace. |
| `Text.StripIdempotent` | main.py:162-163 | Stripping twice is stripping once. |
| `Text.Find` | main.py:176 | Leftmost occurrence, ignoring case: the returned index matches, and no earlier index at or after the start does. No result means no occurrence anywhere at or after the start. |
| `Text.ContainsIff` | main.py:305 | The `in` test holds exactly when the word occurs at some index. |
| `Text.MatchesAtLower` | main.py:160 | Lower-casing the text does not change where a lower-case word occurs. |
| `Text.ContainsInContext` | main.py:305 | A word contained in a text is contained in any text around it. |
| `DueDate.FragmentAt` | main.py:195-196 | A fragment starts with a digit and carries an hour and a minute of at most two digits each. |
| `DueDate.FragmentAtLayout` | main.py:195-196 | A reading is found at an index exactly when one or two digits, `:`, two digits, any run of whitespace and `a.m.` or `p.m.` (any case) are written there, and the reading holds those digits' values and that meridiem. |
| `DueDate.FragmentIsLaidOut` | main.py:195-196 | A reading found at an index is laid out there as the pattern describes. |
| `DueDate.LaidOutIsFragment` | main.py:195-196 | A layout written as the pattern describes is read at its index. |
| `DueDate.FindFragment` | main.py:195-196 | `re.search` finds the leftmost index where a fragment starts. No result means no fragment at any index. |
| `DueDate.FirstTimeFragment` | main.py:195-200 | A found reading is the one at the leftmost index of the details where a fragment starts. No reading means no index starts a fragment. |
| `DueDate.To24Hour` | main.py:208 | A 12-hour reading converts to a valid time of day, keeping the minute, at second 0, in the afternoon exactly for `p.m.`, with the same hour modulo 12. It fails exactly when the hour exceeds 12 or the minute exceeds 59. |
| `DueDate.To24HourTwelveHourOf` | main.py:208 | Every time of day, to the minute, is what some 12-hour reading converts to. |
| `DueDate.ParseDueDateAndTime` | main.py:187-220 | A result is a valid full date-time whose date is read from `due_date` alone, never from the details. Its time is the first fragment's, or midnight without one. The result is `None` exactly when `due_date` is missing or empty, the date fails to parse, or the fragment fails to convert. |
| `DueDate.NoFragmentWithoutPeriods` | main.py:195-196 | The periods are required: details without `.`, such as `3:30 pm`, hold no time fragment. |
| `DueDate.ReadWrittenClock` | main.py:195-196 | A written `H:MM a.m.`/`HH:MM p.m.` after text without digits is the first fragment and reads back as itself. |
| `DueDate.WrittenClockAt` | main.py:195-196 | A written clock reading is recognised where it was written. |
| `DueDate.ResolveWrittenClock` | main.py:204-213 | A `YYYY-MM-DD` due date with any details whose first fragment converts resolves to that date at the converted time. |
| `DueDate.ResolveDateOnly` | main.py:204-213 | A valid due date with details that hold no time fragment at all resolves to midnight of that date. |
| `DueDate.MeridiemNeedsPeriod` | main.py:196 | An `a.m.`/`p.m.` match has a period right after the letter. |
| `Calendar.Strftime` | main.py:238-239 | A stored due date is always 19 characters; `Calendar.ParseStrftime` and `Calendar.StrftimeParse` show it is the `%Y-%m-%d %H:%M:%S` text of the date-time, both ways. |
| `Calendar.DaysInMonth` | main.py:206 | Months have 28 to 31 days, and 29 exactly for February of a leap year. |
| `Calendar.ParseIsoDate` | main.py:206 | A date read from text is a valid Gregorian date, read from exactly ten characters. |
| `Calendar.ParseFormatDate` | main.py:206 | A written date reads back as itself. |
| `Calendar.FormatParseDate` | main.py:206 | Every text that reads as a date is the written form of that date. |
| `Calendar.ParseStrftime` | main.py:239-241 | A stored due date reads back as the date and time that were stored. |
| `Calendar.StrftimeParse` | main.py:239-241 | Every text that reads as a stored due date is exactly what `strftime` writes for it. |
| `Calendar.StrftimeOrder` | main.py:239-241 | Stored due dates compare as strings in chronological order, and equal texts mean equal date-times. |
| `Calendar.ParseFormatTime` | main.py:240-241 | A written time of day reads back as itself. |
| `Calendar.FormatParseTime` | main.py:240-241 | Every text that reads as a time of day is its written form. |
| `Digits.NumberOfPad` | main.py:240-241 | A zero-padded field reads back as the number written. |
| `Digits.PadNumberOf` | main.py:240-241 | A run of digits is the padded form of its own value. |
| `Digits.PadOrder` | main.py:240-241 | Zero padding makes string order agree with numeric order. |
| `TaskRow.SaveTaskRow` | main.py:235-244 | No row exactly when the due date does not resolve (the failing `strftime` call precedes the INSERT). Otherwise the row copies `task`, `timeframe` and `details`, and its due date is a 19-character text that reads back as the resolved date-time. |
| `TaskRow.StoredDueDateCanonical` | main.py:239-244 | A stored due date is the canonical text of the moment it denotes. |
| `TaskRow.RowsSortByDueDate` | main.py:239-244 | Ordering saved rows by their `due_date` text orders them by when they are due, and equal texts mean equal due moments. |
| `TaskRow.SaveDateOnly` | main.py:235-244 | A task with a valid due date and details that hold no time fragment is saved with `due_date` equal to that date followed by ` 00:00:00`. |
| `TaskRow.SaveWrittenClock` | main.py:235-244 | A task whose details' first fragment converts is saved at that time on its due date. |
| `Dispatch.ClassifyIntent` | main.py:305-344 | `create task` wins over `retrieve tasks`, which wins over `exit`, each tested as a substring of the lower-cased utterance. Anything else is not understood. |
| `Dispatch.ClassifyIgnoresCase` | main.py:305-339 | The classification ignores ASCII case. |
| `Dispatch.CreateTaskWins` | main.py:305 | An utterance containing `create task` anywhere creates a task, whatever else it contains. |
| `Dispatch.RetrieveTasksWins` | main.py:315 | An utterance containing `retrieve tasks`, but not `create task`, retrieves tasks. |
| `Dispatch.SessionFrom` | main.py:295-344 | The rounds from a given input on produce at most one action per input consumed. |
| `Dispatch.Session` | main.py:295-344 | A run produces at most one action per input. |
| `Dispatch.RunSession` | main.py:295-344 | The loop's actions, with the request answered by the two chains, `save_task` and the gate, are exactly the session's actions for the same inputs. |
| `Dispatch.RunLoop` | main.py:295-344 | The loop's actions are exactly the session function's actions for the same inputs and the same way of answering requests. |
| `Dispatch.Handle` | main.py:312-323 | A create request gives either the row `save_task` inserts for the extracted task or the save failure, which happens exactly when its due date does not resolve. A retrieve request gives either the statement the gate returns for the reply or the rejection, which happens exactly when the reply is neither a message nor a string. |
| `Dispatch.ExitQuits` | main.py:339-341 | An utterance classified `exit` ends the run with `Quit`, and nothing after it is heard. |
| `Dispatch.NotUnderstoodApologizes` | main.py:343-344 | An utterance that names no command gets the apology, and the loop goes on with the next utterance. |
| `Dispatch.EndIsLast` | main.py:305-341 | `exit`, a failing `save_task` and a rejected reply each end `main`, so such an action can only be the last one. A failure while the retrieved rows are printed is not modelled (see "Left out"). |
| `Dispatch.EndedSessionIgnoresMore` | main.py:305-341 | Once the session has ended, later utterances change nothing. |
| `Dispatch.ActionsAnswer` | main.py:295-344 | Every action is a fixed reaction of the loop or the answer to some request. |
| `Dispatch.ActionsWellFormed` | main.py:305-327 | Every statement a run executes starts with `select` and ends with `;`, and every saved row's due date is 19 characters that read back as a date and time. |
| `Dispatch.UnheardSkipped` | main.py:302-303 | An utterance that was not recognised is skipped and the loop starts over. |
| `Dispatch.FollowUpUnheard` | main.py:305-320 | A follow-up request that was not recognised skips the command, and the loop starts over. |
| `Dispatch.RequestNotClassified` | main.py:305-323 | The request after `create task` or `retrieve tasks` goes to the language model as it is and is never classified, even when it says `exit`. The session goes on after it unless `save_task` or the gate raised. |
| `Dispatch.UnresolvedDueDateEndsSession` | main.py:305-313 | A created task whose due date does not resolve is not saved, and nothing after it happens. |
| `Dispatch.ResolvedTaskSaved` | main.py:305-313 | A created task whose due date resolves is saved as `save_task`'s row, and the loop goes on. |
| `Dispatch.SessionFromSuffix` | main.py:295-300 | Each round depends only on the utterances still to come. |

## Left out

- `speech_to_text` (main.py:223-232) is not part of this model. The microphone
  and the speech recogniser become the input stream of `Dispatch.RunSession`,
  where `None` stands for speech that was not understood.
- The language-model chains, prompts and output parser (main.py:86-149,
  main.py:167-170) are not part of this model. The extractor's output is the
  `DueDate.Task` value, and the retrieval reply is the `Query.Message` value.
  A missing `task`, `timeframe` or `details` key (a `KeyError`) and non-string
  values are not modelled.
- SQLite access is not part of this model: the schema update, the
  connect/execute/commit in `save_task`, `retrieve_tasks` with its
  `sqlite3.Error` fallback, and `log_all_tasks`. Only the inserted row
  (`TaskRow.SaveTaskRow`) is modelled. Executing the retrieved statement is
  not modelled.
- The general behaviour of `dateutil.parser.parse` is not modelled: other
  layouts, day/month swapping, fuzzy tokens, fields filled in from the current
  date, and its uncaught `OverflowError`. Due dates are read only as
  `YYYY-MM-DD`, and time fragments only as described above.
- The first definitions of `parse_due_date_and_time` and `save_task`
  (main.py:22-64) are not modelled. They are rebound before use, so they never
  run.
- Unicode semantics are not modelled. `strip`, `lower`, `\d`, `\s` and case
  folding are taken on ASCII only; for example, the long s `ſ` is not treated
  as matching `s`.
- Console output (`print`) and the import-time side effects (`load_dotenv`,
  schema creation) are not modelled.
- Dispatch.SessionFrom: `main` loops forever. The model stops when the finite
  input stream ends, including in the middle of a round whose follow-up
  request is still missing.
- The two language-model chains (`Dispatch.Chains`) are fixed functions of
  the request text. Different replies to the same request within one run are not
  modelled.
- Dispatch.RunSession: the retrieved statement is recorded as an action and
  is not run. The uncaught exception that ends `main` is an action that ends
  the session; the traceback is not modelled. Running and printing the
  statement can also end `main`, and the model does not capture that. The
  printing loop reads `task['due_date']` (main.py:331-332) from every row.
  The `except` at main.py:336 catches only `sqlite3.Error`. So a statement
  that passes the gate but returns rows without a `due_date` column raises
  an uncaught `KeyError`; an example is `SELECT COUNT(*) FROM tasks;`. In the
  model the session always goes on after `Retrieved`.
- Calendar.Strftime: `%Y` is written as four digits. For years below 1000,
  some C libraries under Python write fewer digits; that platform-dependent
  case is not modelled.

## Findings

| source | as written | input that shows it | evidently intended | confidence | as-written member | corrected member |
|---|---|---|---|---|---|---|
| main.py:175-182 | The lazy `.*?` after `FROM` matches nothing unless `WHERE` or `;` follows at once, so the match stops right after `FROM`. | `SELECT * FROM tasks WHERE x` gives `SELECT * FROM;` | the whole statement up to its `;` (or the end of the text), terminated with `;` | not executed | `Query.CleanSqlQueryDropsCondition` | `Query.ExtractKeepsStatement` |
