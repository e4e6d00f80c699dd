/**
 * The retrieval side of the task manager: the gate that turns the language
 * model's reply into the statement run against the `tasks` table
 * (`ensure_valid_query`), and the regex-based extractor `clean_sql_query`,
 * together with a corrected extractor that keeps the whole statement.
 */
module Query {
  import opened Wrappers
  import opened Text

  /** The reply of the language model as the gate receives it: a chat message
      object (`AIMessage`, whose `content` is text), a plain `str`, or a value
      of any other type. */
  datatype Message = AIMessage(content: string) | PlainText(text: string) | OtherValue

  /** `ValueError` raised by the gate (wrong reply type) or by the extractor
      (no `SELECT ... FROM` in the text). */
  datatype QueryError = UnexpectedType | NoSqlFound

  /** The safe default statement, which returns every task. */
  const DefaultQuery: string := "SELECT * FROM tasks;"

  /** `query.strip().lower().startswith("select")` */
  predicate StartsWithSelect(q: string) {
    MatchesAt(Strip(q), 0, "select")
  }

  /** The gate's first test read as Python spells it: the first six
      characters of the stripped, lower-cased text are `select`. */
  lemma StartsWithSelectIff(q: string)
    ensures StartsWithSelect(q) <==> |Strip(q)| >= 6 && Lower(Strip(q))[..6] == "select"
  {
    var t := Strip(q);
    MatchesAtChars(t, 0, "select");
    if |t| >= 6 && Lower(t)[..6] == "select" {
      forall k | 0 <= k < 6 ensures LowerChar(t[k]) == "select"[k] {
        assert Lower(t)[..6][k] == Lower(t)[k];
      }
    }
    if StartsWithSelect(q) {
      assert forall k :: 0 <= k < 6 ==> Lower(t)[..6][k] == "select"[k];
    }
  }

  /** A statement the gate lets through unchanged: once stripped, it starts
      with `select` (in any case) and ends with `;`. */
  predicate IsTerminatedSelect(q: string) {
    StartsWithSelect(q) && EndsWithChar(Strip(q), ';')
  }

  /** The two checks of the gate applied to the reply's text: a text that
      does not start with `select` is replaced by the default statement, and a
      statement that lacks the final `;` gets one after its surrounding
      whitespace is dropped. */
  function ValidateQueryText(q: string): (r: string)
    ensures IsTerminatedSelect(r)
    ensures !StartsWithSelect(q) ==> r == DefaultQuery
    ensures StartsWithSelect(q) && !EndsWithChar(Strip(q), ';') ==> r == Strip(q) + ";"
    ensures IsTerminatedSelect(q) ==> r == q
  {
    DefaultQueryIsTerminated();
    var query := if StartsWithSelect(q) then q else DefaultQuery;
    if EndsWithChar(Strip(query), ';') then query
    else
      TerminatedSelect(query);
      Strip(query) + ";"
  }

  lemma DefaultQueryIsTerminated()
    ensures IsTerminatedSelect(DefaultQuery)
  {
    StripTrimmed(DefaultQuery);
    SelectAtStart(DefaultQuery);
  }

  /** A text whose first six characters spell `select` in any case starts with `select`. */
  lemma SelectAtStart(q: string)
    requires |q| >= 6
    requires LowerChar(q[0]) == 's' && LowerChar(q[1]) == 'e' && LowerChar(q[2]) == 'l'
    requires LowerChar(q[3]) == 'e' && LowerChar(q[4]) == 'c' && LowerChar(q[5]) == 't'
    ensures MatchesAt(q, 0, "select")
  {
  }

  /** Appending `;` to the stripped text of a `select` statement terminates it. */
  lemma TerminatedSelect(q: string)
    requires StartsWithSelect(q)
    ensures IsTerminatedSelect(Strip(q) + ";")
  {
    StripAppend(q, ';');
    SelectPrefixAppend(Strip(q), ";");
  }

  lemma SelectPrefixAppend(t: string, u: string)
    requires MatchesAt(t, 0, "select")
    ensures MatchesAt(t + u, 0, "select")
  {
    assert forall k :: 0 <= k < 6 ==> (t + u)[k] == t[k];
  }

  /** `ensure_valid_query`: a message object contributes its content, a plain
      text itself, and any other value is refused with `ValueError`. */
  function EnsureValidQuery(m: Message): (r: Result<string, QueryError>)
    ensures r.Failure? <==> m.OtherValue?
    ensures r.Failure? ==> r.error == UnexpectedType
    ensures r.Success? ==> IsTerminatedSelect(r.value)
    ensures m.AIMessage? ==> r == Success(ValidateQueryText(m.content))
    ensures m.PlainText? ==> r == Success(ValidateQueryText(m.text))
  {
    match m
    case AIMessage(content) => Success(ValidateQueryText(content))
    case PlainText(text) => Success(ValidateQueryText(text))
    case OtherValue => Failure(UnexpectedType)
  }

  /** Passing the gate twice is the same as passing it once. */
  lemma EnsureValidQueryIdempotent(m: Message)
    requires EnsureValidQuery(m).Success?
    ensures EnsureValidQuery(PlainText(EnsureValidQuery(m).value)) == EnsureValidQuery(m)
  {
  }

  /** The texts the gate returns unchanged are exactly the terminated `select` statements. */
  lemma ValidateFixedPoints(q: string)
    ensures ValidateQueryText(q) == q <==> IsTerminatedSelect(q)
  {
  }

  /** A reply with an explanatory preamble before the statement (its first
      visible character, after any leading whitespace, is not an `s`) is not
      recovered: the gate substitutes the default statement, whatever follows. */
  lemma PreambleGivesDefault(preamble: string, statement: string)
    requires Strip(preamble) != [] && LowerChar(Strip(preamble)[0]) != 's'
    ensures EnsureValidQuery(PlainText(preamble + statement)) == Success(DefaultQuery)
  {
    var q := preamble + statement;
    var a := SkipSpaces(preamble, 0);
    SkipSpacesPrefix(preamble, statement, 0);
    assert Strip(q)[0] == q[a] == preamble[a] == Strip(preamble)[0];
    MatchesAtChars(Strip(q), 0, "select");
  }

  /** Only the first word and the last character are checked: anything at all
      between a leading `select` and a final `;` (a second statement, say)
      passes the gate unchanged. */
  lemma SecondStatementPasses(first: string, rest: string)
    requires MatchesAt(first, 0, "select")
    requires EndsWithChar(rest, ';')
    ensures EnsureValidQuery(PlainText(first + rest)) == Success(first + rest)
  {
    var q := first + rest;
    MatchesAtChars(first, 0, "select");
    MatchesAtChars(q, 0, "select");
    assert LowerChar(q[0]) == 's';
    assert q[|q| - 1] == ';';
    StripTrimmed(q);
  }

  // ---------------------------------------------------------------------------
  // clean_sql_query

  /** The part of the text that `re.search(r'SELECT.*?FROM.*?(WHERE.*?)?;?',
      q, re.IGNORECASE | re.DOTALL)` matches: `q[start..end]`, where `from` is
      the index of the matched `FROM`. */
  datatype Span = Span(start: nat, from: nat, end: nat)

  /** Some `select` is followed, later on, by a `from` (case ignored). */
  ghost predicate SelectThenFrom(q: string) {
    exists i, j :: MatchesAt(q, i, "select") && i + 6 <= j && MatchesAt(q, j, "from")
  }

  lemma SelectThenFromAt(q: string, i: int, j: int)
    requires MatchesAt(q, i, "select") && i + 6 <= j && MatchesAt(q, j, "from")
    ensures SelectThenFrom(q)
  {
  }

  /** When the leftmost `select` has no `from` after it, no `select` has. */
  lemma NoFromAfterSelect(q: string, s: nat)
    requires forall k :: 0 <= k < s ==> !MatchesAt(q, k, "select")
    requires forall k :: s + 6 <= k ==> !MatchesAt(q, k, "from")
    ensures !SelectThenFrom(q)
  {
  }

  lemma SelectThenFromExtends(q: string, u: string)
    requires SelectThenFrom(q)
    ensures SelectThenFrom(q + u)
  {
    var i, j :| MatchesAt(q, i, "select") && i + 6 <= j && MatchesAt(q, j, "from");
    MatchesAtAppend(q, u, i, "select");
    MatchesAtAppend(q, u, j, "from");
    SelectThenFromAt(q + u, i, j);
  }

  /** The regex match: the lazy `.*?` quantifiers make it run from the leftmost
      `select` to the first `from` after it; the optional `WHERE` group and the
      optional `;` then extend it only by text immediately adjacent. */
  function SqlMatch(q: string): (m: Option<Span>)
    ensures m.Some? ==> SelectThenFrom(q)
    ensures m.None? ==> !SelectThenFrom(q)
    ensures m.Some? ==> m.value.start + 6 <= m.value.from && m.value.from + 4 <= m.value.end <= |q|
    ensures m.Some? ==> MatchesAt(q, m.value.start, "select")
    ensures m.Some? ==> forall k :: 0 <= k < m.value.start ==> !MatchesAt(q, k, "select")
    ensures m.Some? ==> MatchesAt(q, m.value.from, "from")
    ensures m.Some? ==> forall k :: m.value.start + 6 <= k < m.value.from ==> !MatchesAt(q, k, "from")
    ensures m.Some? ==> m.value.end - m.value.from - 4 in {0, 1, 5, 6}
    ensures m.Some? ==> (m.value.end >= m.value.from + 9 <==> MatchesAt(q, m.value.from + 4, "where"))
    ensures m.Some? ==> (m.value.end - m.value.from - 4 in {1, 6} <==> q[m.value.end - 1] == ';')
    ensures m.Some? && m.value.end - m.value.from - 4 in {0, 5} ==> m.value.end == |q| || q[m.value.end] != ';'
  {
    match Find(q, "select", 0)
    case None =>
      None
    case Some(s) =>
      match Find(q, "from", s + 6)
      case None =>
        NoFromAfterSelect(q, s);
        None
      case Some(f) =>
        var w := if MatchesAt(q, f + 4, "where") then f + 9 else f + 4;
        var e := if w < |q| && q[w] == ';' then w + 1 else w;
        assert LowerChar(q[f + 3]) == "from"[3];
        assert w == f + 9 ==> LowerChar(q[f + 8]) == "where"[4];
        SelectThenFromAt(q, s, f);
        Some(Span(s, f, e))
  }

  /** Text appended after a match does not move its `select` or its `from`. */
  lemma SqlMatchExtends(q: string, u: string)
    requires SqlMatch(q).Some?
    ensures SqlMatch(q + u).Some?
    ensures SqlMatch(q + u).value.start == SqlMatch(q).value.start
    ensures SqlMatch(q + u).value.from == SqlMatch(q).value.from
  {
    var m := SqlMatch(q).value;
    FindAppend(q, u, "select", 0);
    FindAppend(q, u, "from", m.start + 6);
  }

  /** The matched text is its own `strip()` and starts with `select`. */
  lemma MatchedText(q: string, m: Span)
    requires SqlMatch(q) == Some(m)
    ensures Strip(q[m.start..m.end]) == q[m.start..m.end]
    ensures MatchesAt(q[m.start..m.end], 0, "select")
  {
    SpanText(q, m);
  }

  /** A span from a `select` to just after its `from`, its `where` or a `;`
      is its own `strip()` and starts with `select`. */
  lemma SpanText(q: string, m: Span)
    requires MatchesAt(q, m.start, "select") && MatchesAt(q, m.from, "from")
    requires m.start + 6 <= m.from && m.from + 4 <= m.end <= |q|
    requires m.end == m.from + 4 || q[m.end - 1] == ';' || (m.end == m.from + 9 && MatchesAt(q, m.from + 4, "where"))
    ensures Strip(q[m.start..m.end]) == q[m.start..m.end]
    ensures MatchesAt(q[m.start..m.end], 0, "select")
  {
    var c := q[m.start..m.end];
    MatchesAtChars(q, m.start, "select");
    MatchesAtChars(q, m.from, "from");
    if m.end == m.from + 9 && q[m.end - 1] != ';' {
      MatchesAtChars(q, m.from + 4, "where");
      assert LowerChar(q[m.from + 8]) == "where"[4];
    } else if m.end == m.from + 4 {
      assert LowerChar(q[m.from + 3]) == "from"[3];
    }
    assert LowerChar(c[0]) == "select"[0];
    NotSpace(c[0]);
    NotSpace(c[|c| - 1]);
    StripTrimmed(c);
    forall k | 0 <= k < 6 ensures LowerChar(c[k]) == "select"[k] {
      assert c[k] == q[m.start + k];
    }
    MatchesAtChars(c, 0, "select");
  }

  lemma NotSpace(c: char)
    requires c == ';' || LowerChar(c) in {'m', 'e', 's'}
    ensures !IsSpace(c)
  {
  }

  /** `clean_sql_query`: the regex match, with a `;` appended when its stripped
      form does not already end with one; no match raises `ValueError`. */
  function CleanSqlQuery(q: string): (r: Result<string, QueryError>)
    ensures r.Failure? ==> !SelectThenFrom(q) && r.error == NoSqlFound
    ensures r.Success? ==> SelectThenFrom(q)
    ensures r.Success? ==> MatchesAt(r.value, 0, "select") && EndsWithChar(r.value, ';')
    ensures r.Success? ==>
      var m := SqlMatch(q).value;
      && (r.value == q[m.start..m.end] || r.value == q[m.start..m.end] + ";")
      && (q[m.end - 1] == ';' ==> r.value == q[m.start..m.end])
  {
    match SqlMatch(q)
    case None => Failure(NoSqlFound)
    case Some(m) =>
      var clean := q[m.start..m.end];
      MatchedText(q, m);
      if EndsWithChar(Strip(clean), ';') then Success(clean)
      else
        SelectPrefixAppend(clean, ";");
        Success(clean + ";")
  }

  /** As written, the extractor drops everything after the first `from` (the
      table name and any condition) unless `where` or `;` follows it
      immediately. */
  lemma CleanSqlQueryDropsCondition(q: string)
    requires SqlMatch(q).Some?
    requires SqlMatch(q).value.from + 4 < |q|
    requires q[SqlMatch(q).value.from + 4] != ';' && !MatchesAt(q, SqlMatch(q).value.from + 4, "where")
    ensures CleanSqlQuery(q) == Success(q[SqlMatch(q).value.start..SqlMatch(q).value.from + 4] + ";")
  {
    var m := SqlMatch(q).value;
    MatchesAtChars(q, m.from, "from");
    assert q[m.end - 1] != ';';
  }

  /** `r` is the statement of `q` that starts at the matched `select`,
      terminated by a `;`: its body runs from the `select` through the `from`
      and on up to the first `;` after the `from`; when there is no such `;`,
      up to the end of the text, less the trailing whitespace (none of which
      is kept before the appended `;`). */
  ghost predicate StatementOf(q: string, m: Span, r: string) {
    var n := |r| - 1;
    && EndsWithChar(r, ';')
    && m.from + 4 <= m.start + n <= |q|
    && r[..n] == q[m.start..m.start + n]
    && (forall k :: m.from + 4 <= k < m.start + n ==> q[k] != ';')
    && (m.start + n == |q| || q[m.start + n] == ';' || forall k :: m.start + n <= k < |q| ==> IsSpace(q[k]))
    && (m.start + n == |q| || q[m.start + n] != ';' ==>
          m.start + n == m.from + 4 || (0 < n && !IsSpace(r[n - 1])))
  }

  /** The extractor as evidently intended: from the leftmost `select` up to and
      including the first `;` after the `from`, or, when there is none, to the
      end of the text without its trailing whitespace, followed by a `;`. */
  function ExtractSqlStatement(q: string): (r: Result<string, QueryError>)
    ensures r.Failure? ==> !SelectThenFrom(q) && r.error == NoSqlFound
    ensures r.Success? ==> SelectThenFrom(q)
    ensures r.Success? ==> MatchesAt(r.value, 0, "select")
    ensures r.Success? ==> StatementOf(q, SqlMatch(q).value, r.value)
  {
    match SqlMatch(q)
    case None => Failure(NoSqlFound)
    case Some(m) => Success(StatementFrom(q, m))
  }

  /** The statement that starts at the `select` of `m`. */
  function StatementFrom(q: string, m: Span): (r: string)
    requires MatchesAt(q, m.start, "select") && m.start + 6 <= m.from && m.from + 4 <= |q|
    ensures MatchesAt(r, 0, "select") && StatementOf(q, m, r)
  {
    match Find(q, ";", m.from + 4)
    case Some(k) =>
      SemicolonAt(q, m.from + 4, k);
      StatementUpToSemicolon(q, m, k);
      q[m.start..k + 1]
    case None =>
      var e := SkipSpacesBack(q, m.from + 4, |q|);
      NoSemicolonFrom(q, m.from + 4);
      StatementToEnd(q, m, e);
      q[m.start..e] + ";"
  }

  lemma SemicolonAt(q: string, from: nat, k: nat)
    requires Find(q, ";", from) == Some(k)
    ensures from <= k < |q| && q[k] == ';'
    ensures forall j :: from <= j < k ==> q[j] != ';'
  {
    MatchesAtChars(q, k, ";");
    forall j | from <= j < k ensures q[j] != ';' {
      MatchesAtChars(q, j, ";");
    }
  }

  lemma NoSemicolonFrom(q: string, from: nat)
    requires Find(q, ";", from).None?
    ensures forall j :: from <= j < |q| ==> q[j] != ';'
  {
    forall j | from <= j < |q| ensures q[j] != ';' {
      MatchesAtChars(q, j, ";");
    }
  }

  /** A prefix of the text from a `select` on, possibly extended, still starts with `select`. */
  lemma SelectSlice(q: string, i: nat, j: nat, u: string)
    requires MatchesAt(q, i, "select") && i + 6 <= j <= |q|
    ensures MatchesAt(q[i..j] + u, 0, "select")
  {
    MatchesAtChars(q, i, "select");
    MatchesAtChars(q[i..j] + u, 0, "select");
  }

  lemma StatementUpToSemicolon(q: string, m: Span, k: nat)
    requires MatchesAt(q, m.start, "select") && m.start + 6 <= m.from
    requires m.from + 4 <= k < |q| && q[k] == ';'
    requires forall j :: m.from + 4 <= j < k ==> q[j] != ';'
    ensures MatchesAt(q[m.start..k + 1], 0, "select")
    ensures StatementOf(q, m, q[m.start..k + 1])
  {
    SelectSlice(q, m.start, k + 1, []);
    assert q[m.start..k + 1] + [] == q[m.start..k + 1];
  }

  lemma StatementToEnd(q: string, m: Span, e: nat)
    requires MatchesAt(q, m.start, "select") && m.start + 6 <= m.from
    requires m.from + 4 <= e <= |q|
    requires forall j :: m.from + 4 <= j < |q| ==> q[j] != ';'
    requires forall k :: e <= k < |q| ==> IsSpace(q[k])
    requires e > m.from + 4 ==> !IsSpace(q[e - 1])
    ensures MatchesAt(q[m.start..e] + ";", 0, "select")
    ensures StatementOf(q, m, q[m.start..e] + ";")
  {
    var r := q[m.start..e] + ";";
    SelectSlice(q, m.start, e, ";");
    assert r[..|r| - 1] == q[m.start..e];
  }

  /** The corrected extractor keeps a whole statement, condition included: a
      text that starts with `select`, has a `from` and no `;`, and does not end
      in whitespace comes back with a `;` appended, and so does the same text
      already terminated. */
  lemma ExtractKeepsStatement(stmt: string)
    requires MatchesAt(stmt, 0, "select") && SelectThenFrom(stmt)
    requires forall k :: 0 <= k < |stmt| ==> stmt[k] != ';'
    requires !IsSpace(stmt[|stmt| - 1])
    ensures ExtractSqlStatement(stmt) == Success(stmt + ";")
    ensures ExtractSqlStatement(stmt + ";") == Success(stmt + ";")
  {
    ExtractUnterminated(stmt);
    ExtractTerminated(stmt);
  }

  lemma ExtractUnterminated(stmt: string)
    requires MatchesAt(stmt, 0, "select") && SelectThenFrom(stmt)
    requires forall k :: 0 <= k < |stmt| ==> stmt[k] != ';'
    requires !IsSpace(stmt[|stmt| - 1])
    ensures ExtractSqlStatement(stmt) == Success(stmt + ";")
  {
    var m := MatchAtStart(stmt);
    StatementFixed(stmt, m, StatementFrom(stmt, m), |stmt|);
    assert stmt[..|stmt|] == stmt;
  }

  /** A single statement ending in its only `;` is returned as it is,
      whitespace before the `;` included. */
  lemma ExtractTerminated(stmt: string)
    requires MatchesAt(stmt, 0, "select") && SelectThenFrom(stmt)
    requires forall k :: 0 <= k < |stmt| ==> stmt[k] != ';'
    ensures ExtractSqlStatement(stmt + ";") == Success(stmt + ";")
  {
    var t := stmt + ";";
    var m0 := MatchAtStart(stmt);
    SelectThenFromExtends(stmt, ";");
    MatchesAtAppend(stmt, ";", 0, "select");
    SqlMatchExtends(stmt, ";");
    var m := MatchAtStart(t);
    assert m.from == m0.from;
    StatementFixed(t, m, StatementFrom(t, m), |stmt|);
    assert t[..|stmt|] == stmt;
  }

  /** A text that starts with `select` and has a `from` after it is matched
      from its first character. */
  lemma MatchAtStart(q: string) returns (m: Span)
    requires MatchesAt(q, 0, "select") && SelectThenFrom(q)
    ensures SqlMatch(q) == Some(m) && m.start == 0
    ensures MatchesAt(q, m.start, "select") && m.start + 6 <= m.from && m.from + 4 <= |q|
  {
    m := SqlMatch(q).value;
  }

  /** The statement of a text that has no `;` before index `len`, and then
      either ends or holds a single `;`, is its first `len` characters and a `;`. */
  lemma StatementFixed(q: string, m: Span, r: string, len: nat)
    requires m.start == 0 && m.from + 4 <= len
    requires len == |q| || (len == |q| - 1 && q[len] == ';')
    requires |q| > 0 && !IsSpace(q[|q| - 1])
    requires forall j :: 0 <= j < len ==> q[j] != ';'
    requires StatementOf(q, m, r)
    ensures r == q[..len] + ";"
  {
    var n := |r| - 1;
    assert n == len;
    assert r[..n] == q[..len];
    assert r == r[..n] + [r[n]];
  }
}
