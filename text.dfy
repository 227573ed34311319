/**
 * The parts of Python's `str` that the two scripts rely on: `find`, `split(sep)`,
 * `split(sep, 1)`, `sep.join`, `strip()`, `startswith`, and decimal formatting of
 * non-negative integers.
 */
module Text {
  import opened Wrappers

  /** `sep` occurs in `s` starting at index `j`. */
  predicate IsAt(s: string, sep: string, j: int) {
    0 <= j && j + |sep| <= |s| && s[j..j + |sep|] == sep
  }

  /** Python's `sep in s`. */
  predicate Contains(s: string, sep: string) {
    exists j :: 0 <= j <= |s| && IsAt(s, sep, j)
  }

  /** For a one-character separator, containment is membership. */
  lemma ContainsChar(s: string, c: char)
    ensures Contains(s, [c]) <==> c in s
  {
    if c in s {
      var j :| 0 <= j < |s| && s[j] == c;
      assert s[j..j + 1] == [c];
      assert IsAt(s, [c], j);
    }
    forall j | IsAt(s, [c], j) ensures c in s {
      assert s[j] == s[j..j + 1][0];
    }
  }

  /** Python's `s.startswith(prefix)`. */
  predicate StartsWith(s: string, prefix: string) {
    |prefix| <= |s| && s[..|prefix|] == prefix
  }

  lemma IsAtShiftOne(s: string, sep: string, j: int)
    requires |s| > 0 && 1 <= j
    ensures IsAt(s, sep, j) <==> IsAt(s[1..], sep, j - 1)
  {
    if j + |sep| <= |s| {
      assert s[1..][j - 1..j - 1 + |sep|] == s[j..j + |sep|];
    }
  }

  /** Occurrences in `s[1..]` are the occurrences in `s` after index 0, shifted by one. */
  lemma IsAtShift(s: string, sep: string)
    requires |s| > 0
    ensures forall j {:trigger IsAt(s, sep, j)} :: 1 <= j ==> (IsAt(s, sep, j) <==> IsAt(s[1..], sep, j - 1))
  {
    forall j | 1 <= j ensures IsAt(s, sep, j) <==> IsAt(s[1..], sep, j - 1) {
      IsAtShiftOne(s, sep, j);
    }
  }

  /** Index of the first occurrence of `sep` in `s` (Python's `s.find(sep)`, None for -1). */
  function IndexOf(s: string, sep: string): (r: Option<nat>)
    ensures r.Some? ==> IsAt(s, sep, r.value)
    ensures r.Some? ==> forall j :: 0 <= j < r.value ==> !IsAt(s, sep, j)
    ensures r.None? <==> !Contains(s, sep)
    decreases |s|
  {
    if |s| < |sep| then None
    else if s[..|sep|] == sep then Some(0)
    else
      IsAtShift(s, sep);
      match IndexOf(s[1..], sep)
      case None => None
      case Some(k) => Some(k + 1)
  }

  /** A prefix of `s` that ends before the first occurrence of `sep` does not contain `sep`. */
  lemma PrefixBeforeFirst(s: string, sep: string, i: nat)
    requires |sep| > 0 && i <= |s|
    requires forall j :: 0 <= j < i ==> !IsAt(s, sep, j)
    ensures !Contains(s[..i], sep)
  {
    forall j | 0 <= j <= i ensures !IsAt(s[..i], sep, j) {
      if j + |sep| <= i {
        assert s[..i][j..j + |sep|] == s[j..j + |sep|];
        assert !IsAt(s, sep, j);
      }
    }
  }

  /**
   * Python's `s.split(sep)` for a non-empty separator: cut at every occurrence of
   * `sep`, scanning from the left, without overlaps.
   */
  function Split(s: string, sep: string): (parts: seq<string>)
    requires |sep| > 0
    ensures |parts| >= 1
    decreases |s|
  {
    match IndexOf(s, sep)
    case None => [s]
    case Some(i) => [s[..i]] + Split(s[i + |sep|..], sep)
  }

  /** No part of `s.split(sep)` contains `sep`. */
  lemma {:induction false} SplitPartsLackSeparator(s: string, sep: string)
    requires |sep| > 0
    ensures forall k :: 0 <= k < |Split(s, sep)| ==> !Contains(Split(s, sep)[k], sep)
    decreases |s|
  {
    var found := IndexOf(s, sep);
    SplitUnfold(s, sep);
    if found.Some? {
      var i := found.value;
      var rest := s[i + |sep|..];
      PrefixBeforeFirst(s, sep, i);
      SplitPartsLackSeparator(rest, sep);
      var parts := Split(s, sep);
      forall k | 0 <= k < |parts| ensures !Contains(parts[k], sep) {
        if k > 0 {
          assert parts[k] == Split(rest, sep)[k - 1];
        }
      }
    }
  }

  /** Python's `sep.join(parts)`. */
  function Join(parts: seq<string>, sep: string): string
    decreases |parts|
  {
    if |parts| == 0 then ""
    else if |parts| == 1 then parts[0]
    else parts[0] + sep + Join(parts[1..], sep)
  }

  /** Splitting loses nothing: joining the parts with the separator gives the input back. */
  lemma {:induction false} SplitThenJoin(s: string, sep: string)
    requires |sep| > 0
    ensures Join(Split(s, sep), sep) == s
    decreases |s|
  {
    var found := IndexOf(s, sep);
    SplitUnfold(s, sep);
    if found.Some? {
      var i := found.value;
      var rest := s[i + |sep|..];
      var tail := Split(rest, sep);
      SplitThenJoin(rest, sep);
      assert Join([s[..i]] + tail, sep) == s[..i] + sep + Join(tail, sep) by {
        assert ([s[..i]] + tail)[1..] == tail;
      }
      assert s[i..i + |sep|] == sep;
      assert s == s[..i] + s[i..i + |sep|] + rest;
    }
  }

  /** When no occurrence starts inside `a`, the first one is the `sep` that follows `a`. */
  lemma FirstOccurrence(a: string, sep: string, b: string)
    requires forall j :: 0 <= j < |a| ==> !IsAt(a + sep + b, sep, j)
    ensures IndexOf(a + sep + b, sep) == Some(|a|)
  {
    var s := a + sep + b;
    assert s[|a|..|a| + |sep|] == sep;
    assert IsAt(s, sep, |a|);
  }

  /** No proper prefix of `sep` is also a suffix of it, so two occurrences never overlap. */
  predicate NoBorder(sep: string) {
    forall k :: 0 < k < |sep| ==> sep[k..] != sep[..|sep| - k]
  }

  /**
   * For a border-free separator, the occurrence of `sep` written right after a part
   * that does not contain it is the first one.
   */
  lemma SeparatorAfterPart(a: string, sep: string, b: string)
    requires NoBorder(sep) && !Contains(a, sep)
    ensures IndexOf(a + sep + b, sep) == Some(|a|)
  {
    var s := a + sep + b;
    forall j | 0 <= j < |a| ensures !IsAt(s, sep, j) {
      if j + |sep| <= |s| {
        var w := s[j..j + |sep|];
        if j + |sep| <= |a| {
          assert w == a[j..j + |sep|];
          assert !IsAt(a, sep, j);
        } else {
          var k := |a| - j;
          assert w[k..] == sep[..|sep| - k];
          assert sep[k..] != sep[..|sep| - k];
        }
      }
    }
    FirstOccurrence(a, sep, b);
  }

  /** Joining parts that do not contain a border-free separator, then splitting, gives the parts back. */
  lemma {:induction false} JoinThenSplit(parts: seq<string>, sep: string)
    requires |sep| > 0 && NoBorder(sep) && |parts| > 0
    requires forall i :: 0 <= i < |parts| ==> !Contains(parts[i], sep)
    ensures Split(Join(parts, sep), sep) == parts
    decreases |parts|
  {
    if |parts| == 1 {
      assert !Contains(parts[0], sep);
      SplitUnfold(parts[0], sep);
    } else {
      var rest := Join(parts[1..], sep);
      var s := parts[0] + sep + rest;
      SeparatorAfterPart(parts[0], sep, rest);
      SplitUnfold(s, sep);
      assert s[..|parts[0]|] == parts[0];
      assert s[|parts[0]| + |sep|..] == rest;
      JoinThenSplit(parts[1..], sep);
      assert parts == [parts[0]] + parts[1..];
    }
  }

  /** Python's `s.split(sep)` has exactly two parts iff `sep` occurs once, counting from the left without overlaps. */
  lemma {:induction false} SplitInTwo(s: string, sep: string)
    requires |sep| > 0
    ensures |Split(s, sep)| == 2 <==>
              IndexOf(s, sep).Some? && !Contains(s[IndexOf(s, sep).value + |sep|..], sep)
  {
    var found := IndexOf(s, sep);
    SplitUnfold(s, sep);
    if found.Some? {
      SplitSingle(s[found.value + |sep|..], sep);
    }
  }

  /** `s.split(sep)` has a single part exactly when `sep` does not occur in `s`. */
  lemma SplitSingle(s: string, sep: string)
    requires |sep| > 0
    ensures |Split(s, sep)| == 1 <==> !Contains(s, sep)
  {
    SplitUnfold(s, sep);
  }

  /** One step of `Split`: cut at the first occurrence, if any. */
  lemma {:induction false} SplitUnfold(s: string, sep: string)
    requires |sep| > 0
    ensures IndexOf(s, sep).None? ==> Split(s, sep) == [s]
    ensures IndexOf(s, sep).Some? ==>
              Split(s, sep) == [s[..IndexOf(s, sep).value]] + Split(s[IndexOf(s, sep).value + |sep|..], sep)
  {
  }

  /** Python's `str.isspace()` for one character: the Unicode whitespace that `strip()` removes. */
  predicate IsSpace(c: char) {
    var n := c as int;
    (0x09 <= n <= 0x0D) || (0x1C <= n <= 0x20) || n == 0x85 || n == 0xA0 || n == 0x1680
    || (0x2000 <= n <= 0x200A) || n == 0x2028 || n == 0x2029 || n == 0x202F || n == 0x205F
    || n == 0x3000
  }

  /** How many whitespace characters `s` starts with. */
  function LeadingSpaces(s: string): (n: nat)
    ensures n <= |s|
    ensures forall k {:trigger IsSpace(s[k])} :: 0 <= k < n ==> IsSpace(s[k])
    ensures n < |s| ==> !IsSpace(s[n])
    decreases |s|
  {
    if |s| > 0 && IsSpace(s[0]) then 1 + LeadingSpaces(s[1..]) else 0
  }

  /** How many whitespace characters `s` ends with. */
  function TrailingSpaces(s: string): (n: nat)
    ensures n <= |s|
    ensures forall k {:trigger IsSpace(s[k])} :: |s| - n <= k < |s| ==> IsSpace(s[k])
    ensures n < |s| ==> !IsSpace(s[|s| - n - 1])
    decreases |s|
  {
    if |s| > 0 && IsSpace(s[|s| - 1]) then 1 + TrailingSpaces(s[..|s| - 1]) else 0
  }

  /** Python's `s.lstrip()`. */
  function StripLeft(s: string): string {
    s[LeadingSpaces(s)..]
  }

  /** Python's `s.rstrip()`. */
  function StripRight(s: string): string {
    s[..|s| - TrailingSpaces(s)]
  }

  /** Python's `s.strip()`. */
  function Strip(s: string): (r: string)
    ensures r == [] || (!IsSpace(r[0]) && !IsSpace(r[|r| - 1]))
    ensures forall c :: c in r ==> c in s
  {
    var l := StripLeft(s);
    var r := StripRight(l);
    assert forall c :: c in r ==> c in l by {
      forall c | c in r ensures c in l {
        var k :| 0 <= k < |r| && r[k] == c;
        assert l[k] == c;
      }
    }
    assert forall c :: c in l ==> c in s by {
      forall c | c in l ensures c in s {
        var k :| 0 <= k < |l| && l[k] == c;
        assert s[LeadingSpaces(s) + k] == c;
      }
    }
    r
  }

  predicate AllSpace(s: string) {
    forall k :: 0 <= k < |s| ==> IsSpace(s[k])
  }

  /** `lstrip()` skips leading whitespace. */
  lemma {:induction false} LeadingSpacesSkip(w: string, y: string)
    requires AllSpace(w)
    ensures LeadingSpaces(w + y) == |w| + LeadingSpaces(y)
    decreases |w|
  {
    if w != [] {
      assert (w + y)[1..] == w[1..] + y;
      LeadingSpacesSkip(w[1..], y);
    } else {
      assert w + y == y;
    }
  }

  /** `rstrip()` skips trailing whitespace. */
  lemma {:induction false} TrailingSpacesSkip(y: string, w: string)
    requires AllSpace(w)
    ensures TrailingSpaces(y + w) == |w| + TrailingSpaces(y)
    decreases |w|
  {
    if w != [] {
      assert (y + w)[..|y + w| - 1] == y + w[..|w| - 1];
      TrailingSpacesSkip(y, w[..|w| - 1]);
    } else {
      assert y + w == y;
    }
  }

  /** `strip()` removes exactly the whitespace padding around a text that has none at its ends. */
  lemma StripPadded(pre: string, x: string, post: string)
    requires AllSpace(pre) && AllSpace(post)
    requires x == [] || (!IsSpace(x[0]) && !IsSpace(x[|x| - 1]))
    ensures Strip(pre + x + post) == x
  {
    var s := pre + x + post;
    assert s == pre + (x + post);
    LeadingSpacesSkip(pre, x + post);
    if x == [] {
      assert x + post == post + [];
      LeadingSpacesSkip(post, []);
      assert StripLeft(s) == [];
    } else {
      assert LeadingSpaces(x + post) == 0;
      assert StripLeft(s) == x + post;
      TrailingSpacesSkip(x, post);
      assert TrailingSpaces(x) == 0;
    }
  }

  /** Stripping twice is stripping once. */
  lemma StripIdempotent(s: string)
    ensures Strip(Strip(s)) == Strip(s)
  {
    StripPadded([], Strip(s), []);
    assert [] + Strip(s) + [] == Strip(s);
  }

  predicate IsDigit(c: char) {
    '0' <= c <= '9'
  }

  predicate AllDigits(s: string) {
    forall k :: 0 <= k < |s| ==> IsDigit(s[k])
  }

  function DigitChar(d: nat): (c: char)
    requires d < 10
    ensures IsDigit(c) && c as int - '0' as int == d
  {
    ('0' as int + d) as char
  }

  function DigitValue(c: char): nat
    requires IsDigit(c)
  {
    c as int - '0' as int
  }

  /** Python's `'{}'.format(n)` for a non-negative integer: decimal, no leading zeros. */
  function Decimal(n: nat): (r: string)
    ensures |r| >= 1 && AllDigits(r)
    ensures r[0] == '0' <==> n == 0
    decreases n
  {
    if n < 10 then [DigitChar(n)] else Decimal(n / 10) + [DigitChar(n % 10)]
  }

  /** The value of a string of decimal digits (leading zeros allowed). */
  function DigitsValue(s: string): nat
    requires AllDigits(s)
    decreases |s|
  {
    if s == [] then 0 else DigitsValue(s[..|s| - 1]) * 10 + DigitValue(s[|s| - 1])
  }

  /** Reading back a formatted number gives the number. */
  lemma {:induction false} DecimalRoundTrip(n: nat)
    ensures DigitsValue(Decimal(n)) == n
    decreases n
  {
    if n >= 10 {
      DecimalRoundTrip(n / 10);
      var s := Decimal(n);
      assert s[..|s| - 1] == Decimal(n / 10);
    }
  }

  /** Python's `'{:02}'.format(n)` for `0 <= n < 100`: two digits, zero-padded. */
  function TwoDigits(n: nat): (r: string)
    requires n < 100
    ensures |r| == 2 && AllDigits(r) && DigitsValue(r) == n
  {
    var r := [DigitChar(n / 10), DigitChar(n % 10)];
    assert r[..1] == [DigitChar(n / 10)] && r[..1][..0] == [];
    assert DigitsValue(r[..1]) == n / 10;
    r
  }
}
