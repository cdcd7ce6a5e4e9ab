/**
 * The System.String operations the scanners rely on: ordinal StartsWith,
 * Split on a single character, Trim, and int.Parse restricted to ASCII digits.
 */
module Text {
  import opened Wrappers

  /** `s.StartsWith(prefix)`, compared character by character. */
  predicate StartsWith(s: string, prefix: string) {
    prefix <= s
  }

  // ---------------------------------------------------------------------------
  // Split(char) and its inverse

  /** Glues pieces back together with `sep` between neighbours (String.Join). */
  function Join(parts: seq<string>, sep: char): string {
    if parts == [] then ""
    else if |parts| == 1 then parts[0]
    else parts[0] + [sep] + Join(parts[1..], sep)
  }

  /**
   * `s.Split(sep)` with no options: every occurrence of `sep` ends a piece,
   * empty pieces are kept, and there is always at least one piece.
   */
  function Split(s: string, sep: char): (parts: seq<string>)
    ensures |parts| >= 1
  {
    if s == [] then [""]
    else if s[0] == sep then [""] + Split(s[1..], sep)
    else
      var rest := Split(s[1..], sep);
      [[s[0]] + rest[0]] + rest[1..]
  }

  /** Split loses nothing: joining the pieces with `sep` gives `s` back, and no piece holds `sep`. */
  lemma {:induction false} SplitJoin(s: string, sep: char)
    ensures Join(Split(s, sep), sep) == s
    ensures forall k :: 0 <= k < |Split(s, sep)| ==> sep !in Split(s, sep)[k]
  {
    if s != [] {
      var rest := Split(s[1..], sep);
      SplitJoin(s[1..], sep);
      if s[0] == sep {
        assert Split(s, sep)[1..] == rest;
        assert s == [sep] + s[1..];
      } else {
        var parts := Split(s, sep);
        assert parts[1..] == rest[1..];
        assert forall k :: 1 <= k < |parts| ==> parts[k] == rest[k];
        assert s == [s[0]] + s[1..];
        if |rest| > 1 {
          assert Join(parts, sep) == parts[0] + [sep] + Join(rest[1..], sep);
          assert Join(rest, sep) == rest[0] + [sep] + Join(rest[1..], sep);
        }
      }
    }
  }

  /** A string holding the separator is cut into at least two pieces. */
  lemma {:induction false} SplitAtSeparator(s: string, sep: char, k: nat)
    requires k < |s| && s[k] == sep
    ensures |Split(s, sep)| >= 2
  {
    if k > 0 {
      SplitAtSeparator(s[1..], sep, k - 1);
    }
  }

  /** A string without the separator is not cut. */
  lemma {:induction false} SplitWithoutSeparator(s: string, sep: char)
    requires sep !in s
    ensures Split(s, sep) == [s]
  {
    if s != [] {
      assert sep !in s[1..];
      SplitWithoutSeparator(s[1..], sep);
      assert Split(s, sep) == [[s[0]] + s[1..]] + [s[1..]][1..];
      assert [s[0]] + s[1..] == s;
    }
  }

  /** A separator in the middle splits the two sides independently. */
  lemma {:induction false} SplitAround(a: string, b: string, sep: char)
    ensures Split(a + [sep] + b, sep) == Split(a, sep) + Split(b, sep)
  {
    if a == [] {
      assert a + [sep] + b == [sep] + b;
    } else {
      assert (a + [sep] + b)[1..] == a[1..] + [sep] + b;
      SplitAround(a[1..], b, sep);
    }
  }

  /** The first piece ends at the first separator. */
  lemma SplitFirst(a: string, c: string, sep: char)
    requires sep !in a
    ensures Split(a + [sep] + c, sep) == [a] + Split(c, sep)
  {
    SplitAround(a, c, sep);
    SplitWithoutSeparator(a, sep);
  }

  /** The first piece of `t + c` is `t` when `t` has no separator and `c` is empty or starts with one. */
  lemma SplitLeading(t: string, c: string, sep: char)
    requires sep !in t
    requires c == [] || c[0] == sep
    ensures Split(t + c, sep)[0] == t
  {
    if c == [] {
      assert t + c == t;
      SplitWithoutSeparator(t, sep);
    } else {
      assert t + c == t + [sep] + c[1..];
      SplitFirst(t, c[1..], sep);
    }
  }

  /** The second piece is what lies between the first separator and the next one (or the end). */
  lemma SplitSecond(head: string, mid: string, tail: string, sep: char)
    requires sep !in head && sep !in mid
    requires tail == [] || tail[0] == sep
    ensures |Split(head + [sep] + mid + tail, sep)| >= 2
    ensures Split(head + [sep] + mid + tail, sep)[1] == mid
  {
    assert head + [sep] + mid + tail == head + [sep] + (mid + tail);
    SplitFirst(head, mid + tail, sep);
    SplitLeading(mid, tail, sep);
  }

  // ---------------------------------------------------------------------------
  // Trim()

  /** `char.IsWhiteSpace`: the Unicode white-space characters. */
  predicate IsWhiteSpace(c: char) {
    || c == ' '
    || ('\t' <= c <= '\r')
    || c == '\U{85}' || c == '\U{A0}' || c == '\U{1680}'
    || ('\U{2000}' <= c <= '\U{200A}')
    || c == '\U{2028}' || c == '\U{2029}' || c == '\U{202F}' || c == '\U{205F}' || c == '\U{3000}'
  }

  predicate AllWhiteSpace(s: string) {
    forall k :: 0 <= k < |s| ==> IsWhiteSpace(s[k])
  }

  /** Removes leading white space: the result is the longest suffix that does not start with it. */
  function TrimStart(s: string): (r: string)
    ensures |r| <= |s| && r == s[|s| - |r|..]
    ensures AllWhiteSpace(s[..|s| - |r|])
    ensures r != [] ==> !IsWhiteSpace(r[0])
  {
    if s != [] && IsWhiteSpace(s[0]) then
      var r := TrimStart(s[1..]);
      assert s[1..][|s| - 1 - |r|..] == s[|s| - |r|..];
      assert forall k :: 1 <= k < |s| - |r| ==> s[k] == s[1..][..|s| - 1 - |r|][k - 1];
      r
    else
      s
  }

  /** Removes trailing white space: the result is the longest prefix that does not end with it. */
  function TrimEnd(s: string): (r: string)
    ensures |r| <= |s| && r == s[..|r|]
    ensures AllWhiteSpace(s[|r|..])
    ensures r != [] ==> !IsWhiteSpace(r[|r| - 1])
  {
    if s != [] && IsWhiteSpace(s[|s| - 1]) then
      var r := TrimEnd(s[..|s| - 1]);
      assert s[..|s| - 1][..|r|] == s[..|r|];
      assert forall k :: |r| <= k < |s| - 1 ==> s[k] == s[..|s| - 1][|r|..][k - |r|];
      r
    else
      s
  }

  /** `s.Trim()`: white space removed from both ends. */
  function Trim(s: string): (r: string)
    ensures |r| <= |s|
    ensures r != [] ==> !IsWhiteSpace(r[0]) && !IsWhiteSpace(r[|r| - 1])
  {
    var t := TrimStart(s);
    var r := TrimEnd(t);
    assert r != [] ==> r[0] == t[0];
    r
  }

  lemma {:induction false} TrimStartOf(w: string, m: string)
    requires AllWhiteSpace(w)
    requires m == [] || !IsWhiteSpace(m[0])
    ensures TrimStart(w + m) == m
  {
    if w != [] {
      assert (w + m)[1..] == w[1..] + m;
      TrimStartOf(w[1..], m);
    } else {
      assert w + m == m;
    }
  }

  lemma {:induction false} TrimEndOf(m: string, w: string)
    requires AllWhiteSpace(w)
    requires m == [] || !IsWhiteSpace(m[|m| - 1])
    ensures TrimEnd(m + w) == m
  {
    if w != [] {
      assert (m + w)[..|m + w| - 1] == m + w[..|w| - 1];
      TrimEndOf(m, w[..|w| - 1]);
    } else {
      assert m + w == m;
    }
  }

  /**
   * Trim is exactly "drop the white-space margins": whatever white space
   * surrounds a core that neither starts nor ends with white space, Trim
   * gives back that core.
   */
  lemma TrimMargins(a: string, m: string, b: string)
    requires AllWhiteSpace(a) && AllWhiteSpace(b)
    requires m != [] ==> !IsWhiteSpace(m[0]) && !IsWhiteSpace(m[|m| - 1])
    ensures Trim(a + m + b) == m
  {
    if m == [] {
      assert a + m + b == a + b;
      TrimStartOf(a + b, []);
      assert a + b + [] == a + b;
      TrimEndOf([], []);
    } else {
      assert a + m + b == a + (m + b);
      TrimStartOf(a, m + b);
      TrimEndOf(m, b);
    }
  }

  /** A leading blank makes no difference to Trim. */
  lemma TrimLeadingBlank(a: string)
    ensures Trim([' '] + a) == Trim(a)
  {
    assert ([' '] + a)[1..] == a;
  }

  /** Trimming twice changes nothing more than trimming once. */
  lemma TrimIdempotent(s: string)
    ensures Trim(Trim(s)) == Trim(s)
  {
    var t := Trim(s);
    if t == [] {
      assert Trim(t) == TrimEnd(TrimStart([]));
    } else {
      TrimStartOf([], t);
      assert [] + t == t;
      TrimEndOf(t, []);
      assert t + [] == t;
    }
  }

  // ---------------------------------------------------------------------------
  // int.Parse on decimal digits, and int.ToString as its partner

  /** The largest value of a C# `int`; int.Parse throws OverflowException above it. */
  const MaxInt32: int := 2147483647

  predicate IsDigit(c: char) {
    '0' <= c <= '9'
  }

  predicate AllDigits(s: string) {
    forall k :: 0 <= k < |s| ==> IsDigit(s[k])
  }

  function DigitValue(c: char): nat
    requires IsDigit(c)
  {
    c as int - '0' as int
  }

  function DigitChar(d: nat): char
    requires d < 10
  {
    ('0' as int + d) as char
  }

  /** The number a digit string denotes, read most significant digit first. */
  function DigitsValue(s: string): nat
    requires AllDigits(s)
  {
    if s == [] then 0 else 10 * DigitsValue(s[..|s| - 1]) + DigitValue(s[|s| - 1])
  }

  /**
   * `int.Parse(s)` on a string of ASCII digits: `None` stands for the
   * FormatException (empty string, any other character) and the
   * OverflowException (a value above MaxInt32).
   */
  function ParseInt32(s: string): (r: Option<int>)
    ensures r.Some? ==> 0 <= r.value <= MaxInt32
  {
    if s != [] && AllDigits(s) && DigitsValue(s) <= MaxInt32 then Some(DigitsValue(s)) else None
  }

  /** `n.ToString()` for a non-negative number. */
  function Digits(n: nat): (s: string)
    ensures s != [] && AllDigits(s)
  {
    if n < 10 then [DigitChar(n)] else Digits(n / 10) + [DigitChar(n % 10)]
  }

  lemma {:induction false} DigitsValueOfDigits(n: nat)
    ensures DigitsValue(Digits(n)) == n
  {
    var s := Digits(n);
    if n >= 10 {
      assert s[..|s| - 1] == Digits(n / 10);
      DigitsValueOfDigits(n / 10);
    }
  }

  /** Parsing what ToString printed gives the number back, and overflows exactly above MaxInt32. */
  lemma ParseDigits(n: nat)
    ensures ParseInt32(Digits(n)) == if n <= MaxInt32 then Some(n) else None
  {
    DigitsValueOfDigits(n);
  }

  /** A string holding anything but a digit, or nothing at all, never parses. */
  lemma ParseNeedsDigits(s: string, k: nat)
    requires k < |s| && !IsDigit(s[k])
    ensures ParseInt32(s) == None && ParseInt32("") == None
  {
  }
}
