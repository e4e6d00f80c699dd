/**
 * The ASCII part of Python's string primitives that the task manager relies on:
 * `str.strip()`, `str.lower()`, `startswith`/`endswith`, the `in` substring test,
 * and the `\d` / `\s` character classes of its regular expressions.
 */
module Text {
  import opened Wrappers

  /** Python's `str.isspace` (and the regex class `\s`) restricted to ASCII:
      tab, line feed, vertical tab, form feed, carriage return, the four
      information separators 0x1C..0x1F, and space. */
  predicate IsSpace(c: char) {
    c == ' ' || '\t' <= c <= '\r' || '\U{1C}' <= c <= '\U{1F}'
  }

  /** The regex class `\d`, restricted to ASCII. */
  predicate IsDigit(c: char) {
    '0' <= c <= '9'
  }

  /** `str.lower()` on one ASCII character; every other character is kept. */
  function LowerChar(c: char): char {
    if 'A' <= c <= 'Z' then (c as int + 32) as char else c
  }

  function Lower(s: string): (r: string)
    ensures |r| == |s|
    ensures forall i :: 0 <= i < |s| ==> r[i] == LowerChar(s[i])
  {
    seq(|s|, i requires 0 <= i < |s| => LowerChar(s[i]))
  }

  /** The lower-case word `w` occurs in `s` at index `i` when ASCII case is
      ignored: the regex flag `re.IGNORECASE`, or a search in `s.lower()`. */
  predicate MatchesAt(s: string, i: int, w: string) {
    0 <= i && i + |w| <= |s| && MatchesFrom(s, i, w, 0)
  }

  /** The characters of `w` from index `k` on occur in `s` from index `i + k` on. */
  predicate MatchesFrom(s: string, i: nat, w: string, k: nat)
    requires i + |w| <= |s|
    decreases |w| - k
  {
    k >= |w| || (LowerChar(s[i + k]) == w[k] && MatchesFrom(s, i, w, k + 1))
  }

  /** Character-by-character reading of `MatchesAt`. */
  lemma MatchesAtChars(s: string, i: int, w: string)
    ensures MatchesAt(s, i, w) <==>
      0 <= i && i + |w| <= |s| && forall k :: 0 <= k < |w| ==> LowerChar(s[i + k]) == w[k]
  {
    if 0 <= i && i + |w| <= |s| {
      MatchesFromChars(s, i, w, 0);
    }
  }

  lemma {:induction false} MatchesFromChars(s: string, i: nat, w: string, k: nat)
    requires i + |w| <= |s|
    ensures MatchesFrom(s, i, w, k) <==> forall j :: k <= j < |w| ==> LowerChar(s[i + j]) == w[j]
    decreases |w| - k
  {
    if k < |w| {
      MatchesFromChars(s, i, w, k + 1);
    }
  }

  /** Leftmost index at or after `from` where `w` occurs in `s`, ignoring case. */
  function Find(s: string, w: string, from: nat): (r: Option<nat>)
    ensures r.Some? ==> from <= r.value && MatchesAt(s, r.value, w)
    ensures r.Some? ==> forall k :: from <= k < r.value ==> !MatchesAt(s, k, w)
    ensures r.None? ==> forall k :: from <= k ==> !MatchesAt(s, k, w)
    decreases |s| - from
  {
    if from + |w| > |s| then None
    else if MatchesAt(s, from, w) then Some(from)
    else Find(s, w, from + 1)
  }

  /** Text appended after an occurrence does not change it. */
  lemma MatchesAtAppend(s: string, u: string, i: int, w: string)
    requires i + |w| <= |s|
    ensures MatchesAt(s + u, i, w) <==> MatchesAt(s, i, w)
  {
    MatchesAtChars(s + u, i, w);
    MatchesAtChars(s, i, w);
  }

  /** Text appended after the leftmost occurrence does not move it. */
  lemma {:induction false} FindAppend(s: string, u: string, w: string, from: nat)
    requires Find(s, w, from).Some?
    ensures Find(s + u, w, from) == Find(s, w, from)
    decreases |s| - from
  {
    MatchesAtAppend(s, u, from, w);
    if !MatchesAt(s, from, w) {
      FindAppend(s, u, w, from + 1);
    }
  }

  /** Python's `w in s.lower()`, for a lower-case `w`. */
  predicate Contains(s: string, w: string) {
    Find(s, w, 0).Some?
  }

  lemma ContainsIff(s: string, w: string)
    ensures Contains(s, w) <==> exists i :: MatchesAt(s, i, w)
  {
    if Contains(s, w) {
      var i: int := Find(s, w, 0).value;
      assert MatchesAt(s, i, w);
      assert exists j :: MatchesAt(s, j, w);
    }
  }

  /** The text is not empty and its last character is `c` (`s.endswith(c)`). */
  predicate EndsWithChar(s: string, c: char) {
    |s| > 0 && s[|s| - 1] == c
  }

  /** Index of the first non-whitespace character at or after `i`, or `|s|`. */
  function SkipSpaces(s: string, i: nat): (r: nat)
    requires i <= |s|
    ensures i <= r <= |s|
    ensures forall k :: i <= k < r ==> IsSpace(s[k])
    ensures r < |s| ==> !IsSpace(s[r])
    decreases |s| - i
  {
    if i < |s| && IsSpace(s[i]) then SkipSpaces(s, i + 1) else i
  }

  /** End of `s[lo..j]` once its trailing whitespace is dropped. */
  function SkipSpacesBack(s: string, lo: nat, j: nat): (r: nat)
    requires lo <= j <= |s|
    ensures lo <= r <= j
    ensures forall k :: r <= k < j ==> IsSpace(s[k])
    ensures r > lo ==> !IsSpace(s[r - 1])
    decreases j
  {
    if lo < j && IsSpace(s[j - 1]) then SkipSpacesBack(s, lo, j - 1) else j
  }

  /** Text appended after a visible character does not move the first one. */
  lemma {:induction false} SkipSpacesPrefix(s: string, u: string, i: nat)
    requires i <= |s| && SkipSpaces(s, i) < |s|
    ensures SkipSpaces(s + u, i) == SkipSpaces(s, i)
    decreases |s| - i
  {
    assert (s + u)[i] == s[i];
    if IsSpace(s[i]) {
      SkipSpacesPrefix(s, u, i + 1);
    }
  }

  /** Python's `str.strip()` with no argument: the infix of `s` left once the
      leading and the trailing whitespace are dropped. */
  function Strip(s: string): (r: string)
    ensures SkipSpaces(s, 0) + |r| <= |s| && r == s[SkipSpaces(s, 0)..SkipSpaces(s, 0) + |r|]
    ensures forall k :: SkipSpaces(s, 0) + |r| <= k < |s| ==> IsSpace(s[k])
    ensures r != [] ==> !IsSpace(r[0]) && !IsSpace(r[|r| - 1])
  {
    var a := SkipSpaces(s, 0);
    s[a..SkipSpacesBack(s, a, |s|)]
  }

  /** A text that neither starts nor ends with whitespace is its own `strip()`. */
  lemma StripTrimmed(s: string)
    requires s == [] || (!IsSpace(s[0]) && !IsSpace(s[|s| - 1]))
    ensures Strip(s) == s
  {
  }

  /** `strip()` is idempotent. */
  lemma StripIdempotent(s: string)
    ensures Strip(Strip(s)) == Strip(s)
  {
    StripTrimmed(Strip(s));
  }

  /** Appending a non-space character to a stripped, non-empty text keeps it stripped. */
  lemma StripAppend(s: string, c: char)
    requires Strip(s) != [] && !IsSpace(c)
    ensures Strip(Strip(s) + [c]) == Strip(s) + [c]
  {
    var t := Strip(s) + [c];
    assert t[0] == Strip(s)[0];
    StripTrimmed(t);
  }

  /** Lower-casing does not change where a lower-case word occurs. */
  lemma MatchesAtLower(s: string, i: int, w: string)
    ensures MatchesAt(Lower(s), i, w) <==> MatchesAt(s, i, w)
  {
    MatchesAtChars(Lower(s), i, w);
    MatchesAtChars(s, i, w);
  }

  /** An occurrence inside `u` is an occurrence inside any text that contains `u`. */
  lemma ContainsInContext(a: string, u: string, b: string, w: string)
    requires Contains(u, w)
    ensures Contains(a + u + b, w)
  {
    var i := Find(u, w, 0).value;
    var t := a + u + b;
    MatchesAtChars(u, i, w);
    MatchesAtChars(t, |a| + i, w);
    forall k | 0 <= k < |w| ensures LowerChar(t[|a| + i + k]) == w[k] {
      assert t[|a| + i + k] == u[i + k];
    }
    assert MatchesAt(t, |a| + i, w);
    ContainsIff(t, w);
  }
}
