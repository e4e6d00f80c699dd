/**
 * Decimal fields as `strftime` writes them (`%Y`, `%m`, `%d`, `%H`, `%M`,
 * `%S`: zero-padded to a fixed width) and as a date parser reads them back,
 * together with Python's ordering of strings (`str.__lt__`, code point by
 * code point), which is also SQLite's default `BINARY` collation for ASCII
 * text.
 */
module Digits {
  import opened Text

  function Pow10(w: nat): (r: nat)
    ensures r >= 1
  {
    if w == 0 then 1 else 10 * Pow10(w - 1)
  }

  function DigitChar(d: int): (c: char)
    requires 0 <= d < 10
    ensures IsDigit(c)
  {
    ('0' as int + d) as char
  }

  function DigitValue(c: char): int {
    c as int - '0' as int
  }

  predicate AllDigits(s: string) {
    forall i :: 0 <= i < |s| ==> IsDigit(s[i])
  }

  /** `n` written in decimal with exactly `w` digits, leading zeros included. */
  function Pad(n: nat, w: nat): (r: string)
    requires n < Pow10(w)
    ensures |r| == w && AllDigits(r)
    decreases w
  {
    if w == 0 then [] else Pad(n / 10, w - 1) + [DigitChar(n % 10)]
  }

  /** The value of a run of decimal digits. */
  function NumberOf(s: string): (r: nat)
    requires AllDigits(s)
    ensures r < Pow10(|s|)
    decreases |s|
  {
    if s == [] then 0 else NumberOf(s[..|s| - 1]) * 10 + DigitValue(s[|s| - 1])
  }

  /** Reading back a padded field gives the number that was written. */
  lemma {:induction false} NumberOfPad(n: nat, w: nat)
    requires n < Pow10(w)
    ensures NumberOf(Pad(n, w)) == n
    decreases w
  {
    if w > 0 {
      var s := Pad(n, w);
      assert s[..w - 1] == Pad(n / 10, w - 1);
      NumberOfPad(n / 10, w - 1);
    }
  }

  /** A run of digits is the padded form of its own value. */
  lemma {:induction false} PadNumberOf(s: string)
    requires AllDigits(s)
    ensures Pad(NumberOf(s), |s|) == s
    decreases |s|
  {
    if s != [] {
      var t := s[..|s| - 1];
      PadNumberOf(t);
      assert NumberOf(s) / 10 == NumberOf(t);
      assert DigitChar(NumberOf(s) % 10) == s[|s| - 1];
      assert s == t + [s[|s| - 1]];
    }
  }

  lemma {:induction false} PadInjective(x: nat, y: nat, w: nat)
    requires x < Pow10(w) && y < Pow10(w)
    ensures Pad(x, w) == Pad(y, w) <==> x == y
  {
    NumberOfPad(x, w);
    NumberOfPad(y, w);
  }

  /** Python's `s < t` on strings: the first differing character decides, and
      a proper prefix comes first. */
  predicate Less(s: string, t: string)
    decreases |s|
  {
    if s == [] then t != []
    else if t == [] then false
    else s[0] < t[0] || (s[0] == t[0] && Less(s[1..], t[1..]))
  }

  lemma {:induction false} LessIrreflexive(s: string)
    ensures !Less(s, s)
    decreases |s|
  {
    if s != [] {
      LessIrreflexive(s[1..]);
    }
  }

  /** Comparing two texts whose first parts have the same length compares the
      first parts, and the second parts only when the first parts are equal. */
  lemma {:induction false} LessConcat(a: string, b: string, c: string, d: string)
    requires |a| == |c|
    ensures Less(a + b, c + d) <==> Less(a, c) || (a == c && Less(b, d))
    decreases |a|
  {
    if a == [] {
      assert a + b == b && c + d == d;
    } else {
      assert (a + b)[0] == a[0] && (c + d)[0] == c[0];
      assert (a + b)[1..] == a[1..] + b && (c + d)[1..] == c[1..] + d;
      LessConcat(a[1..], b, c[1..], d);
      LessIrreflexive(a[1..]);
      assert a == c <==> a[0] == c[0] && a[1..] == c[1..] by {
        if a[0] == c[0] && a[1..] == c[1..] {
          assert a == [a[0]] + a[1..] && c == [c[0]] + c[1..];
        }
      }
    }
  }

  /** Concatenations whose first parts have the same length are equal exactly
      when both parts are. */
  lemma {:induction false} ConcatEqual(a: string, b: string, c: string, d: string)
    requires |a| == |c|
    ensures a + b == c + d <==> a == c && b == d
  {
    if a + b == c + d {
      assert a == (a + b)[..|a|] && c == (c + d)[..|c|];
      assert b == (a + b)[|a|..] && d == (c + d)[|c|..];
    }
  }

  lemma DivModOrder(x: nat, y: nat)
    ensures x < y <==> x / 10 < y / 10 || (x / 10 == y / 10 && x % 10 < y % 10)
  {
  }

  /** Zero padding makes string order agree with numeric order. */
  lemma {:induction false} PadOrder(x: nat, y: nat, w: nat)
    requires x < Pow10(w) && y < Pow10(w)
    ensures Less(Pad(x, w), Pad(y, w)) <==> x < y
    decreases w
  {
    if w > 0 {
      var dx, dy := DigitChar(x % 10), DigitChar(y % 10);
      LessConcat(Pad(x / 10, w - 1), [dx], Pad(y / 10, w - 1), [dy]);
      PadOrder(x / 10, y / 10, w - 1);
      PadInjective(x / 10, y / 10, w - 1);
      assert Less([dx], [dy]) <==> x % 10 < y % 10 by {
        assert [dx][1..] == [] && [dy][1..] == [];
      }
      DivModOrder(x, y);
    }
  }

  /** One more field: comparing `prefix + sep + field` texts with prefixes of
      equal length compares the prefixes, then the numbers in the fields. */
  lemma {:induction false} LessField(p: string, q: string, sep: string, x: nat, y: nat, w: nat)
    requires |p| == |q| && x < Pow10(w) && y < Pow10(w)
    ensures Less(p + sep + Pad(x, w), q + sep + Pad(y, w)) <==> Less(p, q) || (p == q && x < y)
    ensures p + sep + Pad(x, w) == q + sep + Pad(y, w) <==> p == q && x == y
  {
    LessConcat(p + sep, Pad(x, w), q + sep, Pad(y, w));
    LessConcat(p, sep, q, sep);
    LessIrreflexive(sep);
    ConcatEqual(p + sep, Pad(x, w), q + sep, Pad(y, w));
    ConcatEqual(p, sep, q, sep);
    PadOrder(x, y, w);
    PadInjective(x, y, w);
  }
}
