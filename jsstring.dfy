/**
 * The JavaScript string operations the application relies on: `includes`,
 * `indexOf`, `startsWith`, `endsWith`, `split` with a string separator,
 * `Array.prototype.join`, `toLowerCase` on ASCII letters, `String(n)` for a
 * non-negative integer and `Number.parseInt(s, 10)`. Strings are sequences of
 * characters; JavaScript's UTF-16 code units are not modelled separately.
 */
module JsString {
  import opened Wrappers

  /** `s.startsWith(p)` */
  predicate StartsWith(s: string, p: string)
  {
    |p| <= |s| && s[..|p|] == p
  }

  /** `s.endsWith(p)` */
  predicate EndsWith(s: string, p: string)
  {
    |p| <= |s| && s[|s| - |p|..] == p
  }

  /** `t` occurs in `s` starting at position `j`. */
  predicate OccursAt(s: string, t: string, j: int)
  {
    0 <= j && j + |t| <= |s| && s[j..j + |t|] == t
  }

  /** `s.indexOf(t, i)`: the first position at or after `i` where `t` occurs, or -1. */
  function IndexFrom(s: string, t: string, i: nat): (r: int)
    requires i <= |s|
    ensures r == -1 || (i <= r && OccursAt(s, t, r))
    ensures r == -1 ==> forall j :: i <= j ==> !OccursAt(s, t, j)
    ensures r != -1 ==> forall j :: i <= j < r ==> !OccursAt(s, t, j)
    decreases |s| - i
  {
    if i + |t| > |s| then -1
    else if s[i..i + |t|] == t then i
    else IndexFrom(s, t, i + 1)
  }

  /** `s.indexOf(t)` */
  function IndexOf(s: string, t: string): int
  {
    IndexFrom(s, t, 0)
  }

  /** `s.includes(t)` */
  predicate Contains(s: string, t: string)
  {
    IndexOf(s, t) >= 0
  }

  /** An occurrence of `t` at position `i` makes `s.includes(t)` true. */
  lemma ContainsAt(s: string, t: string, i: nat)
    requires i + |t| <= |s| && s[i..i + |t|] == t
    ensures Contains(s, t)
  {
    assert OccursAt(s, t, i);
  }

  /** `s.includes(t)` is false when the first character of `t` never occurs in `s`. */
  lemma NotContainsFirstChar(s: string, t: string)
    requires |t| > 0
    requires forall k :: 0 <= k < |s| ==> s[k] != t[0]
    ensures !Contains(s, t)
  {
    forall j | 0 <= j && j + |t| <= |s|
      ensures !OccursAt(s, t, j)
    {
      assert s[j..j + |t|][0] == s[j];
    }
  }

  /** A pattern whose first two characters never appear side by side in `s` does not occur in `s`. */
  lemma NotContainsFirstPair(s: string, t: string)
    requires |t| >= 2
    requires forall k :: 0 <= k < |s| - 1 ==> !(s[k] == t[0] && s[k + 1] == t[1])
    ensures !Contains(s, t)
  {
    forall j | 0 <= j && j + |t| <= |s|
      ensures !OccursAt(s, t, j)
    {
      assert s[j..j + |t|][0] == s[j] && s[j..j + |t|][1] == s[j + 1];
    }
  }

  /** The part of `s` before the first occurrence of a non-empty `t` does not include `t`. */
  lemma NotContainsBeforeFirst(s: string, t: string, i: nat)
    requires |t| > 0 && i <= |s|
    requires forall j :: 0 <= j < i ==> !OccursAt(s, t, j)
    ensures !Contains(s[..i], t)
  {
    forall j | 0 <= j && j + |t| <= i
      ensures !OccursAt(s[..i], t, j)
    {
      assert s[..i][j..j + |t|] == s[j..j + |t|];
      assert !OccursAt(s, t, j);
    }
  }

  /**
   * When `t` first occurs in `s` at `i`, no occurrence begins before `i`, even
   * one that would overlap the occurrence at `i`.
   */
  lemma NoOccurrenceStartsBefore(s: string, t: string, i: nat)
    requires |t| > 0 && OccursAt(s, t, i)
    requires forall j :: 0 <= j < i ==> !OccursAt(s, t, j)
    ensures !Contains(s[..i] + t[..|t| - 1], t)
  {
    var u := s[..i] + t[..|t| - 1];
    assert u == s[..i + |t| - 1] by {
      assert s[i..i + |t|][..|t| - 1] == t[..|t| - 1];
    }
    forall j | 0 <= j && j + |t| <= |u|
      ensures !OccursAt(u, t, j)
    {
      assert j < i;
      var a, b := u[j..j + |t|], s[j..j + |t|];
      forall m | 0 <= m < |t|
        ensures a[m] == b[m]
      {
        assert a[m] == u[j + m] == s[j + m];
      }
      assert a == b;
      assert !OccursAt(s, t, j);
    }
  }

  /** Every string includes the empty string. */
  lemma ContainsEmpty(s: string)
    ensures Contains(s, "")
  {
    ContainsAt(s, "", 0);
  }

  /** A string includes whatever a prefix or suffix of it includes. */
  lemma ContainsInConcat(a: string, t: string, b: string, u: string)
    requires Contains(t, u)
    ensures Contains(a + t + b, u)
  {
    var i := IndexOf(t, u);
    var s := a + t + b;
    assert s[|a| + i..|a| + i + |u|] == t[i..i + |u|];
    ContainsAt(s, u, |a| + i);
  }

  /** A string ends with what was appended to it. */
  lemma EndsWithAppended(a: string, t: string)
    ensures EndsWith(a + t, t)
  {
    assert (a + t)[|a|..] == t;
  }

  /** A string includes each of its suffixes. */
  lemma ContainsSuffix(s: string, p: string)
    requires EndsWith(s, p)
    ensures Contains(s, p)
  {
    ContainsAt(s, p, |s| - |p|);
  }

  /**
   * `s.split(sep)` for a non-empty separator: the pieces between the
   * occurrences of `sep`, found left to right without overlap.
   */
  function Split(s: string, sep: string): (r: seq<string>)
    requires |sep| > 0
    ensures |r| >= 1
    decreases |s|
  {
    var i := IndexOf(s, sep);
    if i < 0 then [s] else [s[..i]] + Split(s[i + |sep|..], sep)
  }

  /**
   * No piece of a split includes the separator; there is a single piece exactly
   * when the input does not include the separator, and otherwise the first
   * piece ends where the first occurrence of the separator begins. No
   * occurrence of the separator begins inside a piece that is followed by
   * one, so the pieces and their join determine each other.
   */
  lemma {:induction false} SplitPieces(s: string, sep: string)
    requires |sep| > 0
    ensures var r := Split(s, sep);
      && (forall k :: 0 <= k < |r| ==> !Contains(r[k], sep))
      && (forall k :: 0 <= k < |r| - 1 ==> !Contains(r[k] + sep[..|sep| - 1], sep))
      && (|r| == 1 <==> !Contains(s, sep))
      && (|r| > 1 ==> IndexOf(s, sep) == |r[0]|)
    decreases |s|
  {
    var i := IndexOf(s, sep);
    if i >= 0 {
      var rest := s[i + |sep|..];
      SplitPieces(rest, sep);
      NotContainsBeforeFirst(s, sep, i);
      NoOccurrenceStartsBefore(s, sep, i);
      SplitAtFirst(s, sep);
      var r := Split(s, sep);
      assert r[0] == s[..i] && r[1..] == Split(rest, sep);
      assert forall k :: 1 <= k < |r| ==> r[k] == Split(rest, sep)[k - 1];
    } else {
      assert Split(s, sep) == [s];
    }
  }

  /** `xs.join(sep)`; the join of no strings is the empty string. */
  function Join(xs: seq<string>, sep: string): string
  {
    if |xs| == 0 then ""
    else if |xs| == 1 then xs[0]
    else xs[0] + sep + Join(xs[1..], sep)
  }

  /** A join of at least one string ends with the last of them. */
  lemma {:induction false} JoinEndsWithLast(xs: seq<string>, sep: string)
    requires |xs| > 0
    ensures EndsWith(Join(xs, sep), xs[|xs| - 1])
  {
    if |xs| == 1 {
      assert Join(xs, sep) == xs[0] + "";
    } else {
      JoinEndsWithLast(xs[1..], sep);
      var tail := Join(xs[1..], sep);
      var last := xs[|xs| - 1];
      assert Join(xs, sep) == (xs[0] + sep) + tail;
      assert tail[|tail| - |last|..] == last;
      assert Join(xs, sep)[|Join(xs, sep)| - |last|..] == tail[|tail| - |last|..];
    }
  }

  /** Every joined string occurs in the join. */
  lemma {:induction false} JoinContainsEach(xs: seq<string>, sep: string, k: nat)
    requires k < |xs|
    ensures Contains(Join(xs, sep), xs[k])
  {
    if |xs| == 1 {
      ContainsInConcat("", xs[0], "", xs[0]) by {
        ContainsAt(xs[0], xs[0], 0);
      }
      assert "" + xs[0] + "" == xs[0];
    } else if k == 0 {
      ContainsAt(xs[0], xs[0], 0);
      ContainsInConcat("", xs[0], sep + Join(xs[1..], sep), xs[0]);
      assert "" + xs[0] + (sep + Join(xs[1..], sep)) == Join(xs, sep);
    } else {
      JoinContainsEach(xs[1..], sep, k - 1);
      ContainsInConcat(xs[0] + sep, Join(xs[1..], sep), "", xs[k]);
      assert (xs[0] + sep) + Join(xs[1..], sep) + "" == Join(xs, sep);
    }
  }

  /** Joining one more string appends the separator and that string. */
  lemma {:induction false} JoinAppend(xs: seq<string>, x: string, sep: string)
    requires |xs| > 0
    ensures Join(xs + [x], sep) == Join(xs, sep) + sep + x
  {
    if |xs| == 1 {
      assert xs + [x] == [xs[0], x];
      assert [xs[0], x][1..] == [x];
    } else {
      assert (xs + [x])[1..] == xs[1..] + [x];
      JoinAppend(xs[1..], x, sep);
    }
  }

  /** The first piece of a split at an occurrence of the separator, and the rest. */
  lemma SplitAtFirst(s: string, sep: string)
    requires |sep| > 0 && IndexOf(s, sep) >= 0
    ensures Split(s, sep) == [s[..IndexOf(s, sep)]] + Split(s[IndexOf(s, sep) + |sep|..], sep)
  {
  }

  /** Splitting and joining with the same separator gives back the input. */
  lemma {:induction false} SplitJoin(s: string, sep: string)
    requires |sep| > 0
    ensures Join(Split(s, sep), sep) == s
    decreases |s|
  {
    var i := IndexOf(s, sep);
    if i >= 0 {
      var pieces := [s[..i]] + Split(s[i + |sep|..], sep);
      SplitJoin(s[i + |sep|..], sep);
      SplitAtFirst(s, sep);
      assert pieces[1..] == Split(s[i + |sep|..], sep);
      assert Join(pieces, sep) == s[..i] + sep + s[i + |sep|..];
      assert s == s[..i] + s[i..i + |sep|] + s[i + |sep|..];
    } else {
      assert Split(s, sep) == [s];
    }
  }

  /** A string without any occurrence of the separator splits into itself alone. */
  lemma SplitWithoutSeparator(s: string, sep: string)
    requires |sep| > 0 && !Contains(s, sep)
    ensures Split(s, sep) == [s]
  {
  }

  /** A frame `a` free of the separator's first character, followed by the separator, splits into `a` and "". */
  lemma SplitTerminated(a: string, sep: string)
    requires |sep| > 0
    requires forall k :: 0 <= k < |a| ==> a[k] != sep[0]
    ensures Split(a + sep, sep) == [a, ""]
  {
    var s := a + sep;
    assert s[|a|..|a| + |sep|] == sep;
    assert OccursAt(s, sep, |a|);
    forall j | 0 <= j < |a|
      ensures !OccursAt(s, sep, j)
    {
      if j + |sep| <= |s| {
        assert s[j..j + |sep|][0] == a[j];
      }
    }
    assert IndexOf(s, sep) == |a|;
    assert s[..|a|] == a;
    assert s[|a| + |sep|..] == "";
    assert IndexOf("", sep) == -1;
  }

  /** The ASCII lower-case form of one character. */
  function LowerChar(c: char): (d: char)
  {
    if 'A' <= c <= 'Z' then (c as int + 32) as char else c
  }

  /** `s.toLowerCase()` restricted to ASCII letters. */
  function ToLower(s: string): (r: string)
    ensures |r| == |s|
    ensures forall k :: 0 <= k < |s| ==> r[k] == LowerChar(s[k])
  {
    seq(|s|, k requires 0 <= k < |s| => LowerChar(s[k]))
  }

  /** Lower-casing twice is lower-casing once, and the result has no upper-case ASCII letter. */
  lemma ToLowerIdempotent(s: string)
    ensures ToLower(ToLower(s)) == ToLower(s)
    ensures forall k :: 0 <= k < |s| ==> !('A' <= ToLower(s)[k] <= 'Z')
  {
  }

  /** ASCII case-insensitive equality, as a regular expression with the `i` flag compares letters. */
  predicate EqualsIgnoreCase(a: string, b: string)
  {
    ToLower(a) == ToLower(b)
  }

  /** `s` ends with `p` when letter case is ignored. */
  predicate EndsWithIgnoreCase(s: string, p: string)
  {
    |p| <= |s| && EqualsIgnoreCase(s[|s| - |p|..], p)
  }

  predicate IsDigit(c: char)
  {
    '0' <= c <= '9'
  }

  function DigitChar(d: nat): (c: char)
    requires d < 10
    ensures IsDigit(c)
  {
    ('0' as int + d) as char
  }

  function DigitValue(c: char): (d: nat)
    requires IsDigit(c)
    ensures d < 10
  {
    c as int - '0' as int
  }

  predicate AllDigits(s: string)
  {
    forall k :: 0 <= k < |s| ==> IsDigit(s[k])
  }

  /** The number a string of decimal digits denotes. */
  function DecimalValue(s: string): nat
    requires AllDigits(s)
  {
    if |s| == 0 then 0 else 10 * DecimalValue(s[..|s| - 1]) + DigitValue(s[|s| - 1])
  }

  /** `String(n)` for a non-negative integer: its decimal digits, without leading zeros. */
  function NatToString(n: nat): (r: string)
    ensures |r| >= 1 && AllDigits(r)
    ensures r[0] == '0' ==> n == 0
  {
    if n < 10 then [DigitChar(n)] else NatToString(n / 10) + [DigitChar(n % 10)]
  }

  /** Reading back the digits of `String(n)` gives `n`. */
  lemma {:induction false} NatToStringValue(n: nat)
    ensures DecimalValue(NatToString(n)) == n
  {
    if n >= 10 {
      NatToStringValue(n / 10);
      var s := NatToString(n);
      assert s[..|s| - 1] == NatToString(n / 10);
    }
  }

  /**
   * The white space `Number.parseInt` skips before the number: the WhiteSpace
   * and LineTerminator characters of ECMAScript (tab, line feed, vertical
   * tab, form feed, carriage return, the byte-order mark, the line and
   * paragraph separators, and the Unicode space separators).
   */
  predicate IsJsWhiteSpace(c: char)
  {
    c == '\t' || c == '\n' || c == '\U{B}' || c == '\U{C}' || c == '\r' || c == ' '
    || c == '\U{A0}' || c == '\U{1680}' || ('\U{2000}' <= c <= '\U{200A}')
    || c == '\U{2028}' || c == '\U{2029}' || c == '\U{202F}' || c == '\U{205F}'
    || c == '\U{3000}' || c == '\U{FEFF}'
  }

  function TrimStart(s: string): (r: string)
    ensures |r| <= |s| && r == s[|s| - |r|..]
    ensures |r| > 0 ==> !IsJsWhiteSpace(r[0])
    ensures forall k :: 0 <= k < |s| - |r| ==> IsJsWhiteSpace(s[k])
  {
    if |s| > 0 && IsJsWhiteSpace(s[0]) then
      var r := TrimStart(s[1..]);
      assert forall k :: 1 <= k < |s| - |r| ==> s[1..][k - 1] == s[k];
      r
    else s
  }

  /** The longest prefix of `s` made of decimal digits. */
  function LeadingDigits(s: string): (r: string)
    ensures StartsWith(s, r) && AllDigits(r)
    ensures |r| < |s| ==> !IsDigit(s[|r|])
  {
    if |s| > 0 && IsDigit(s[0]) then [s[0]] + LeadingDigits(s[1..]) else ""
  }

  /**
   * `Number.parseInt(s, 10)`: skip leading white space, read an optional sign
   * and then the longest run of decimal digits; `None` stands for `NaN`, the
   * result when no digit follows. The integer is exact: for the values this
   * application compares, the double the source computes is the same number.
   */
  function ParseInt(s: string): Option<int>
  {
    var t := TrimStart(s);
    var negative := |t| > 0 && t[0] == '-';
    var body := if |t| > 0 && (t[0] == '-' || t[0] == '+') then t[1..] else t;
    var digits := LeadingDigits(body);
    if digits == "" then None
    else if negative then Some(-(DecimalValue(digits) as int))
    else Some(DecimalValue(digits))
  }

  /** The run of digits at the front of `d + rest`, when `rest` does not start with a digit, is `d`. */
  lemma {:induction false} LeadingDigitsOfConcat(d: string, rest: string)
    requires AllDigits(d)
    requires |rest| > 0 ==> !IsDigit(rest[0])
    ensures LeadingDigits(d + rest) == d
    decreases |d|
  {
    if |d| > 0 {
      assert (d + rest)[1..] == d[1..] + rest;
      LeadingDigitsOfConcat(d[1..], rest);
    } else {
      assert d + rest == rest;
    }
  }

  /**
   * `parseInt(String(n) + rest)` is `n` whenever `rest` does not continue the
   * number with another digit: "3" and "3abc" read as the same key.
   */
  lemma ParseIntOfNatString(n: nat, rest: string)
    requires |rest| > 0 ==> !IsDigit(rest[0])
    ensures ParseInt(NatToString(n) + rest) == Some(n)
  {
    var d := NatToString(n);
    LeadingDigitsOfConcat(d, rest);
    NatToStringValue(n);
    ParseIntOfDigitStart(d + rest);
  }

  /** A string that starts with a digit reads as the value of its leading digits. */
  lemma ParseIntOfDigitStart(s: string)
    requires |s| > 0 && IsDigit(s[0])
    ensures ParseInt(s) == Some(DecimalValue(LeadingDigits(s)) as int)
  {
    assert !IsJsWhiteSpace(s[0]);
    assert TrimStart(s) == s;
    assert s[0] != '-' && s[0] != '+';
    assert LeadingDigits(s) != "";
  }
}
