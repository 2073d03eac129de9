/**
 * Character- and string-level helpers with Python's meaning: substring tests,
 * `str.strip()`, `str.lower()`, `str.replace(c, d)` for single characters,
 * `str.split(sep)` and `str(n)` for natural numbers.
 */
module Text {

  /** `t` occurs in `s` starting at index `p`. */
  predicate OccursAt(s: string, t: string, p: nat) {
    p + |t| <= |s| && s[p..p + |t|] == t
  }

  /** Python's `t in s`. */
  predicate Contains(s: string, t: string) {
    exists p: nat | p <= |s| :: OccursAt(s, t, p)
  }

  lemma OccursAtPrefix(a: string, b: string, t: string, p: nat)
    requires p + |t| <= |a|
    ensures OccursAt(a + b, t, p) <==> OccursAt(a, t, p)
  {
    assert (a + b)[p..p + |t|] == a[p..p + |t|];
  }

  lemma OccursAtShift(a: string, b: string, t: string, p: nat)
    ensures OccursAt(a + b, t, |a| + p) <==> OccursAt(b, t, p)
  {
    if |a| + p + |t| <= |a + b| {
      assert (a + b)[|a| + p..|a| + p + |t|] == b[p..p + |t|];
    }
  }

  /** Python's `str.isspace()` for one character: the Unicode whitespace set it accepts. */
  predicate IsSpace(c: char) {
    var n := c as int;
    || (9 <= n <= 13) || (28 <= n <= 32) || n == 0x85 || n == 0xA0 || n == 0x1680
    || (0x2000 <= n <= 0x200A) || n == 0x2028 || n == 0x2029 || n == 0x202F
    || n == 0x205F || n == 0x3000
  }

  /** ASCII decimal digit. */
  predicate IsDigit(c: char) {
    '0' <= c <= '9'
  }

  /** `s.lstrip()`: the suffix left after dropping the leading whitespace. */
  function StripLeft(s: string): (r: string)
    ensures |r| <= |s| && r == s[|s| - |r|..]
    ensures forall i :: 0 <= i < |s| - |r| ==> IsSpace(s[i])
    ensures r == [] || !IsSpace(r[0])
  {
    if |s| > 0 && IsSpace(s[0]) then StripLeft(s[1..]) else s
  }

  /** `s.rstrip()`: the prefix left after dropping the trailing whitespace. */
  function StripRight(s: string): (r: string)
    ensures |r| <= |s| && r == s[..|r|]
    ensures forall i :: |r| <= i < |s| ==> IsSpace(s[i])
    ensures r == [] || !IsSpace(r[|r| - 1])
  {
    if |s| > 0 && IsSpace(s[|s| - 1]) then StripRight(s[..|s| - 1]) else s
  }

  /** `s.strip()`: the longest infix with no whitespace at either end. */
  function Strip(s: string): (r: string)
    ensures exists i, j :: 0 <= i <= j <= |s| && r == s[i..j]
    ensures r == [] || (!IsSpace(r[0]) && !IsSpace(r[|r| - 1]))
  {
    var l := StripLeft(s);
    var r := StripRight(l);
    assert r == s[|s| - |l|..|s| - |l| + |r|];
    r
  }

  /** A string with no whitespace at either end is its own strip. */
  lemma StripTrimmed(s: string)
    requires s == [] || (!IsSpace(s[0]) && !IsSpace(s[|s| - 1]))
    ensures Strip(s) == s
  {
  }

  /** Python's `str.lower()` on one character, for the ASCII letters. */
  function LowerChar(c: char): (d: char)
    ensures 'A' <= c <= 'Z' ==> 'a' <= d <= 'z' && d as int - c as int == 32
    ensures !('A' <= c <= 'Z') ==> d == c
  {
    if 'A' <= c <= 'Z' then (c as int + 32) as char else c
  }

  /** `s.lower()`, character by character. */
  function Lower(s: string): (r: string)
    ensures |r| == |s|
    ensures forall i :: 0 <= i < |s| ==> r[i] == LowerChar(s[i])
  {
    seq(|s|, i requires 0 <= i < |s| => LowerChar(s[i]))
  }

  /** `s.replace(old, new)` for single characters. */
  function ReplaceChar(s: string, from: char, to: char): (r: string)
    ensures |r| == |s|
    ensures forall i :: 0 <= i < |s| ==> r[i] == (if s[i] == from then to else s[i])
    ensures from != to ==> from !in r
  {
    seq(|s|, i requires 0 <= i < |s| => if s[i] == from then to else s[i])
  }

  /**
   * The first index at or after `i` that holds `stop`, or `|s|` if there is
   * none: the end of the maximal run of characters other than `stop`
   * (what a regex class `[^stop]+` consumes).
   */
  function RunEnd(s: string, i: nat, stop: char): (j: nat)
    requires i <= |s|
    ensures i <= j <= |s|
    ensures j < |s| ==> s[j] == stop
    ensures forall k :: i <= k < j ==> s[k] != stop
    decreases |s| - i
  {
    if i == |s| || s[i] == stop then i else RunEnd(s, i + 1, stop)
  }

  /** A run that consists of `w` and then meets `stop` ends right after `w`. */
  lemma RunEndOver(s: string, i: nat, stop: char, w: string)
    requires i + |w| < |s| && s[i..i + |w|] == w && stop !in w && s[i + |w|] == stop
    ensures RunEnd(s, i, stop) == i + |w|
  {
    assert forall k :: i <= k < i + |w| ==> s[k] == w[k - i];
  }

  /** A run that meets `stop` inside `a` ends at the same place in any extension of `a`. */
  lemma RunEndExtend(a: string, b: string, i: nat, stop: char)
    requires i <= |a|
    requires RunEnd(a, i, stop) < |a|
    ensures RunEnd(a + b, i, stop) == RunEnd(a, i, stop)
  {
    var j := RunEnd(a, i, stop);
    var j' := RunEnd(a + b, i, stop);
    assert (a + b)[j] == stop;
  }

  /** A run that starts in `b` ends at the same place, shifted, in `a + b`. */
  lemma RunEndShift(a: string, b: string, i: nat, stop: char)
    requires i <= |b|
    ensures RunEnd(a + b, |a| + i, stop) == |a| + RunEnd(b, i, stop)
  {
    var j := RunEnd(b, i, stop);
    var j' := RunEnd(a + b, |a| + i, stop);
    if j < |b| {
      assert (a + b)[|a| + j] == b[j];
    }
  }

  /** `sep.join(parts)` for a one-character separator. */
  function Join(parts: seq<string>, sep: char): string
  {
    if |parts| == 0 then ""
    else if |parts| == 1 then parts[0]
    else parts[0] + [sep] + Join(parts[1..], sep)
  }

  /** `s.split(sep)` for a one-character separator: always at least one piece. */
  function Split(s: string, sep: char): (r: seq<string>)
    ensures |r| >= 1
    ensures forall k :: 0 <= k < |r| ==> sep !in r[k]
    ensures Join(r, sep) == s
    decreases |s|
  {
    var j := RunEnd(s, 0, sep);
    if j == |s| then
      assert s[..j] == s;
      [s]
    else
      var rest := Split(s[j + 1..], sep);
      assert s == s[..j] + [sep] + s[j + 1..];
      [s[..j]] + rest
  }

  /** Splitting a join of separator-free pieces gives the pieces back. */
  lemma {:induction false} SplitJoin(parts: seq<string>, sep: char)
    requires |parts| >= 1
    requires forall k :: 0 <= k < |parts| ==> sep !in parts[k]
    ensures Split(Join(parts, sep), sep) == parts
    decreases |parts|
  {
    var s := Join(parts, sep);
    var j := RunEnd(s, 0, sep);
    if |parts| == 1 {
      assert s == parts[0];
    } else {
      var tail := Join(parts[1..], sep);
      assert s == parts[0] + [sep] + tail;
      assert forall k :: 0 <= k < |parts[0]| ==> s[k] == parts[0][k];
      assert s[|parts[0]|] == sep;
      assert j == |parts[0]|;
      assert s[j + 1..] == tail;
      assert s[..j] == parts[0];
      SplitJoin(parts[1..], sep);
    }
  }

  /** Joining one more piece adds a separator and the piece at the end. */
  lemma {:induction false} JoinSnoc(parts: seq<string>, last: string, sep: char)
    requires |parts| >= 1
    ensures Join(parts + [last], sep) == Join(parts, sep) + [sep] + last
    decreases |parts|
  {
    if |parts| > 1 {
      assert (parts + [last])[1..] == parts[1..] + [last];
      JoinSnoc(parts[1..], last, sep);
    }
  }

  /** Stripping the right end of `a + b` leaves `a` alone when `b` starts with a non-space. */
  lemma {:induction false} StripRightAppend(a: string, b: string)
    requires |b| > 0 && !IsSpace(b[0])
    ensures StripRight(a + b) == a + StripRight(b)
    decreases |b|
  {
    if IsSpace(b[|b| - 1]) {
      assert (a + b)[..|a + b| - 1] == a + b[..|b| - 1];
      StripRightAppend(a, b[..|b| - 1]);
    }
  }

  /** One decimal digit, `0 <= d < 10`. */
  function DigitChar(d: nat): (c: char)
    requires d < 10
    ensures IsDigit(c) && c as int - '0' as int == d
  {
    ('0' as int + d) as char
  }

  /** `str(n)` for a natural number: its decimal digits, most significant first. */
  function NatToString(n: nat): (r: string)
    ensures |r| >= 1
    ensures forall i :: 0 <= i < |r| ==> IsDigit(r[i])
    ensures n >= 10 ==> r[0] != '0'
    ensures DigitsValue(r) == n
    decreases n
  {
    if n < 10 then [DigitChar(n)] else NatToString(n / 10) + [DigitChar(n % 10)]
  }

  /** The number a string of decimal digits denotes (Python's `int(s)` on such a string). */
  function DigitsValue(s: string): nat
    requires forall i :: 0 <= i < |s| ==> IsDigit(s[i])
  {
    if |s| == 0 then 0
    else
      assert IsDigit(s[|s| - 1]);
      10 * DigitsValue(s[..|s| - 1]) + (s[|s| - 1] as int - '0' as int)
  }
}
