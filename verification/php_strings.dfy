/**
 * The PHP string builtins that MailCatcher.php relies on, written out:
 *   - the byte-wise order of `>` on two non-numeric strings (strcmp order),
 *   - the decimal text of an integer produced by `.` concatenation,
 *   - `strpos`, used only to ask whether a needle occurs at all,
 *   - `trim($s, '/')`.
 * Strings are `seq<char>`; a character stands for one byte, and comparing two
 * characters compares their codes, which is the unsigned byte order of strcmp.
 */
module PhpStrings {

  datatype Option<T> = None | Some(value: T)

  // ---------------------------------------------------------------------------
  // String order

  /**
   * `a < b` on two non-numeric PHP strings: the first differing character
   * decides, and a proper prefix is smaller than the longer string.
   */
  predicate LexLess(a: string, b: string)
    decreases |a|
  {
    if |b| == 0 then false
    else if |a| == 0 then true
    else a[0] < b[0] || (a[0] == b[0] && LexLess(a[1..], b[1..]))
  }

  lemma {:induction false} LexLessIrreflexive(a: string)
    ensures !LexLess(a, a)
    decreases |a|
  {
    if |a| > 0 {
      LexLessIrreflexive(a[1..]);
    }
  }

  lemma {:induction false} LexLessAsymmetric(a: string, b: string)
    ensures LexLess(a, b) ==> !LexLess(b, a)
    decreases |a|
  {
    if |a| > 0 && |b| > 0 && a[0] == b[0] {
      LexLessAsymmetric(a[1..], b[1..]);
    }
  }

  lemma {:induction false} LexLessTransitive(a: string, b: string, c: string)
    requires LexLess(a, b) && LexLess(b, c)
    ensures LexLess(a, c)
    decreases |a|
  {
    if |a| > 0 && a[0] == b[0] && b[0] == c[0] {
      LexLessTransitive(a[1..], b[1..], c[1..]);
    }
  }

  /** Any two different strings are ordered one way or the other. */
  lemma {:induction false} LexLessTotal(a: string, b: string)
    ensures a == b || LexLess(a, b) || LexLess(b, a)
    decreases |a|
  {
    if |a| > 0 && |b| > 0 && a[0] == b[0] {
      LexLessTotal(a[1..], b[1..]);
      if a[1..] == b[1..] {
        assert a == [a[0]] + a[1..] && b == [b[0]] + b[1..];
      }
    }
  }

  /** "Not smaller" is transitive; this is what makes a non-increasing list sorted. */
  lemma NotLessTransitive(a: string, b: string, c: string)
    requires !LexLess(a, b) && !LexLess(b, c)
    ensures !LexLess(a, c)
  {
    if LexLess(a, c) {
      LexLessTotal(a, b);
      if a != b {
        LexLessTransitive(b, a, c);
      }
    }
  }

  /** A common prefix does not change the order of two strings. */
  lemma {:induction false} LexLessCommonPrefix(p: string, x: string, y: string)
    ensures LexLess(p + x, p + y) <==> LexLess(x, y)
    decreases |p|
  {
    if |p| == 0 {
      assert p + x == x && p + y == y;
    } else {
      assert (p + x)[1..] == p[1..] + x;
      assert (p + y)[1..] == p[1..] + y;
      LexLessCommonPrefix(p[1..], x, y);
    }
  }

  /** Between two prefixes of equal length, the prefixes alone decide. */
  lemma {:induction false} LexLessEqualLengthPrefix(x: string, y: string, u: string, v: string)
    requires |x| == |y| && LexLess(x, y)
    ensures LexLess(x + u, y + v)
    decreases |x|
  {
    if x[0] == y[0] {
      assert (x + u)[1..] == x[1..] + u;
      assert (y + v)[1..] == y[1..] + v;
      LexLessEqualLengthPrefix(x[1..], y[1..], u, v);
    }
  }

  // ---------------------------------------------------------------------------
  // Integer to decimal text

  predicate IsDigit(c: char) {
    '0' <= c <= '9'
  }

  function DigitChar(d: nat): (c: char)
    requires d < 10
    ensures IsDigit(c)
  {
    "0123456789"[d]
  }

  function DigitValue(c: char): (d: nat)
    requires IsDigit(c)
    ensures d < 10 && DigitChar(d) == c
  {
    (c as int - '0' as int)
  }

  /** The decimal digits of `n`, most significant first, with no leading zero. */
  function Digits(n: nat): (s: string)
    ensures |s| > 0 && forall i :: 0 <= i < |s| ==> IsDigit(s[i])
    ensures n == 0 ==> s == "0"
    ensures n > 0 ==> s[0] != '0'
    decreases n
  {
    if n < 10 then [DigitChar(n)] else Digits(n / 10) + [DigitChar(n % 10)]
  }

  /**
   * The text PHP gives an integer that is concatenated to a string: a '-'
   * exactly for negative numbers, then digits without a leading zero.
   */
  function DecimalString(n: int): (r: string)
    ensures |r| > 0 && (r[0] == '-' <==> n < 0)
    ensures n < 0 ==> |r| > 1
    ensures forall i :: 0 < i < |r| ==> IsDigit(r[i])
    ensures n != 0 ==> r[if n < 0 then 1 else 0] != '0'
  {
    if n < 0 then "-" + Digits(-n) else Digits(n)
  }

  /** Reads back a run of decimal digits; the empty run reads as 0. */
  function DigitsValue(s: string): nat
    requires forall i :: 0 <= i < |s| ==> IsDigit(s[i])
    decreases |s|
  {
    if |s| == 0 then 0 else 10 * DigitsValue(s[..|s| - 1]) + DigitValue(s[|s| - 1])
  }

  /** Reads back the text of `DecimalString`: an optional '-' and digits. */
  function ParseDecimal(s: string): Option<int> {
    if |s| > 0 && s[0] == '-' then
      if |s| > 1 && forall i :: 1 <= i < |s| ==> IsDigit(s[i]) then
        var magnitude: int := DigitsValue(s[1..]);
        Some(-magnitude)
      else None
    else if |s| > 0 && forall i :: 0 <= i < |s| ==> IsDigit(s[i]) then Some(DigitsValue(s))
    else None
  }

  lemma {:induction false} DigitsRoundTrip(n: nat)
    ensures DigitsValue(Digits(n)) == n
    decreases n
  {
    if n >= 10 {
      DigitsRoundTrip(n / 10);
      var s := Digits(n);
      assert s[..|s| - 1] == Digits(n / 10);
    }
  }

  /** The decimal text of an integer reads back as that integer. */
  lemma DecimalStringRoundTrip(n: int)
    ensures ParseDecimal(DecimalString(n)) == Some(n)
  {
    var s := DecimalString(n);
    if n < 0 {
      var d := Digits(-n);
      DigitsRoundTrip(-n);
      assert s == "-" + d;
      assert s[1..] == d;
      assert forall i :: 1 <= i < |s| ==> IsDigit(s[i]) by {
        forall i | 1 <= i < |s| ensures IsDigit(s[i]) {
          assert s[i] == d[i - 1];
        }
      }
    } else {
      DigitsRoundTrip(n);
      assert IsDigit(s[0]);
    }
  }

  /** Different integers have different decimal texts. */
  lemma DecimalStringInjective(m: int, n: int)
    requires DecimalString(m) == DecimalString(n)
    ensures m == n
  {
    DecimalStringRoundTrip(m);
    DecimalStringRoundTrip(n);
  }

  // ---------------------------------------------------------------------------
  // strpos

  predicate OccursAt(haystack: string, needle: string, i: nat) {
    i + |needle| <= |haystack| && haystack[i..i + |needle|] == needle
  }

  /**
   * `strpos($haystack, $needle)`: the first position at which the needle
   * occurs, or None for PHP's `false`. As in PHP 8, the empty needle occurs at 0.
   */
  function Strpos(haystack: string, needle: string): (r: Option<nat>)
    ensures r.Some? ==> OccursAt(haystack, needle, r.value)
    ensures r.Some? ==> forall j :: 0 <= j < r.value ==> !OccursAt(haystack, needle, j)
    ensures r.Some? <==> Contains(haystack, needle)
  {
    StrposFrom(haystack, needle, 0)
  }

  function StrposFrom(haystack: string, needle: string, from: nat): (r: Option<nat>)
    requires from <= |haystack|
    ensures r.Some? ==> from <= r.value && OccursAt(haystack, needle, r.value)
    ensures r.Some? ==> forall j :: from <= j < r.value ==> !OccursAt(haystack, needle, j)
    ensures r.None? <==> forall j :: from <= j <= |haystack| ==> !OccursAt(haystack, needle, j)
    decreases |haystack| - from
  {
    if OccursAt(haystack, needle, from) then Some(from)
    else if from == |haystack| then None
    else StrposFrom(haystack, needle, from + 1)
  }

  /** The needle occurs somewhere in the haystack. */
  predicate Contains(haystack: string, needle: string) {
    exists i :: 0 <= i <= |haystack| && OccursAt(haystack, needle, i)
  }

  // ---------------------------------------------------------------------------
  // trim($s, '/')

  predicate AllSlashes(s: string) {
    forall i :: 0 <= i < |s| ==> s[i] == '/'
  }

  function TrimLeadingSlashes(s: string): (r: string)
    ensures |r| <= |s| && r == s[|s| - |r|..]
    ensures AllSlashes(s[..|s| - |r|])
    ensures r == [] || r[0] != '/'
    decreases |s|
  {
    if |s| > 0 && s[0] == '/' then TrimLeadingSlashes(s[1..]) else s
  }

  function TrimTrailingSlashes(s: string): (r: string)
    ensures |r| <= |s| && r == s[..|r|]
    ensures AllSlashes(s[|r|..])
    ensures r == [] || r[|r| - 1] != '/'
    decreases |s|
  {
    if |s| > 0 && s[|s| - 1] == '/' then TrimTrailingSlashes(s[..|s| - 1]) else s
  }

  /**
   * `trim($s, '/')`: strips every leading and every trailing '/'. Nothing is
   * left exactly when `s` is made of slashes only.
   */
  function TrimSlashes(s: string): (r: string)
    ensures |r| <= |s|
    ensures r == [] <==> AllSlashes(s)
  {
    var l := TrimLeadingSlashes(s);
    assert l == [] ==> s[..|s|] == s;
    TrimTrailingSlashes(l)
  }

  /** `s` is `r` with the slashes `s[..i]` before it and a run of slashes after it. */
  predicate SlashPadded(s: string, r: string, i: nat) {
    i + |r| <= |s| && s[i..i + |r|] == r && AllSlashes(s[..i]) && AllSlashes(s[i + |r|..])
  }

  /**
   * `TrimSlashes(s)` is the piece of `s` between a run of leading slashes and a
   * run of trailing slashes, and it neither starts nor ends with a slash.
   */
  lemma TrimSlashesShape(s: string)
    ensures exists i :: SlashPadded(s, TrimSlashes(s), i)
    ensures var r := TrimSlashes(s);
            r == [] || (r[0] != '/' && r[|r| - 1] != '/')
  {
    var l := TrimLeadingSlashes(s);
    var r := TrimTrailingSlashes(l);
    var i := |s| - |l|;
    assert l == s[i..];
    assert s[i..i + |r|] == l[..|r|] == r;
    assert s[i + |r|..] == l[|r|..];
    assert r == TrimSlashes(s);
    assert SlashPadded(s, r, i);
    if r != [] {
      assert r[0] == l[0];
    }
  }
}
