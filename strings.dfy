/** The handful of Python string operations the feeder relies on:
    `str.endswith`, `str.replace`, the `in` substring test,
    `os.path.join` with two arguments, and `'%0Nd'` integer formatting. */
module Strings {

  /** `s.endswith(suffix)`. */
  predicate EndsWith(s: string, suffix: string) {
    |suffix| <= |s| && s[|s| - |suffix|..] == suffix
  }

  /** `s.startswith(prefix)`. */
  predicate StartsWith(s: string, prefix: string) {
    |prefix| <= |s| && s[..|prefix|] == prefix
  }

  /** `needle in s` for two strings: `needle` starts at some position of `s`. */
  predicate IsSubstring(needle: string, s: string)
    decreases |s|
  {
    StartsWith(s, needle) || (|s| > 0 && IsSubstring(needle, s[1..]))
  }

  /** `s.replace(old, new)`: every non-overlapping occurrence of `old`,
      scanning left to right, is replaced by `new`. */
  function ReplaceAll(s: string, pat: string, rep: string): (r: string)
    requires |pat| > 0
    ensures |rep| == |pat| ==> |r| == |s|
    ensures rep == pat ==> r == s
    decreases |s|
  {
    if |s| < |pat| then s
    else if s[..|pat|] == pat then
      assert s == s[..|pat|] + s[|pat|..];
      rep + ReplaceAll(s[|pat|..], pat, rep)
    else [s[0]] + ReplaceAll(s[1..], pat, rep)
  }

  /** A string without the first character of `old` has no occurrence of
      `old`, so `replace` leaves it untouched. */
  lemma {:induction false} ReplaceAbsent(s: string, pat: string, rep: string)
    requires |pat| > 0 && pat[0] !in s
    ensures ReplaceAll(s, pat, rep) == s
    decreases |s|
  {
    if |s| >= |pat| {
      assert s[..|pat|][0] == s[0];
      ReplaceAbsent(s[1..], pat, rep);
      assert [s[0]] + s[1..] == s;
    }
  }

  /** Appended to such a string, `old` is the one occurrence replaced. */
  lemma {:induction false} ReplaceOnlySuffix(s: string, pat: string, rep: string)
    requires |pat| > 0 && pat[0] !in s
    ensures ReplaceAll(s + pat, pat, rep) == s + rep
    decreases |s|
  {
    var t := s + pat;
    if s == [] {
      assert t[..|pat|] == pat;
      assert t[|pat|..] == [];
    } else {
      assert t[..|pat|][0] == s[0];
      assert t[1..] == s[1..] + pat;
      ReplaceOnlySuffix(s[1..], pat, rep);
      assert [s[0]] + (s[1..] + rep) == s + rep;
    }
  }

  /** `os.path.join(a, b)` on POSIX, for two arguments. */
  function Join(a: string, b: string): (r: string)
    ensures EndsWith(r, b)
  {
    if |b| > 0 && b[0] == '/' then b
    else if a == [] || a[|a| - 1] == '/' then a + b
    else a + "/" + b
  }

  // ---------------------------------------------------------------- numbers

  function Pow10(k: nat): (r: nat)
    ensures r >= 1
  {
    if k == 0 then 1 else 10 * Pow10(k - 1)
  }

  predicate IsDigit(c: char) { '0' <= c <= '9' }

  predicate AllDigits(s: string) {
    forall i :: 0 <= i < |s| ==> IsDigit(s[i])
  }

  function DigitChar(d: nat): (c: char)
    requires d < 10
    ensures IsDigit(c) && (c as int) - ('0' as int) == d
  {
    (('0' as int) + d) as char
  }

  function DigitValue(c: char): (d: nat)
    requires IsDigit(c)
  {
    (c as int) - ('0' as int)
  }

  /** `str(n)` for a non-negative integer: shortest decimal form. */
  function Decimal(n: nat): (s: string)
    decreases n
  {
    if n < 10 then [DigitChar(n)] else Decimal(n / 10) + [DigitChar(n % 10)]
  }

  /** The value of a string of decimal digits (`int(s)`, empty string read as 0). */
  function ParseDecimal(s: string): (n: nat)
    requires AllDigits(s)
    decreases |s|
  {
    if s == [] then 0
    else ParseDecimal(s[..|s| - 1]) * 10 + DigitValue(s[|s| - 1])
  }

  function Zeros(k: nat): (z: string)
    ensures |z| == k && AllDigits(z)
    ensures forall i :: 0 <= i < k ==> z[i] == '0'
  {
    seq(k, _ => '0')
  }

  /** Left-pads `s` with zeros to at least `width` characters. */
  function PadZeros(s: string, width: nat): (r: string)
    ensures |r| == if |s| >= width then |s| else width
  {
    if |s| >= width then s else Zeros(width - |s|) + s
  }

  /** `'%0wd' % n`: the decimal form of `n`, zero-padded to at least `width`
      characters; for a negative `n` the sign comes first and the zeros go
      between the sign and the digits. */
  function FormatZeroPadded(n: int, width: nat): (t: string)
    ensures |t| >= width
    ensures n >= 0 ==> AllDigits(t) && (|Decimal(n)| <= width ==> |t| == width)
    ensures n < 0 ==> |t| > 0 && t[0] == '-'
  {
    if n >= 0 then
      PaddedDecimal(n, width);
      PadZeros(Decimal(n), width)
    else "-" + PadZeros(Decimal(-n), if width == 0 then 0 else width - 1)
  }

  /** `int(t)` for an optionally signed string of digits. */
  function ParseSigned(t: string): (n: int)
    requires (|t| > 0 && t[0] == '-' && AllDigits(t[1..])) || AllDigits(t)
  {
    if |t| > 0 && t[0] == '-' then -(ParseDecimal(t[1..]) as int)
    else ParseDecimal(t)
  }

  lemma {:induction false} DecimalDigits(n: nat)
    ensures AllDigits(Decimal(n)) && |Decimal(n)| >= 1
    ensures ParseDecimal(Decimal(n)) == n
    decreases n
  {
    if n >= 10 {
      DecimalDigits(n / 10);
      var s := Decimal(n);
      assert s[..|s| - 1] == Decimal(n / 10);
    }
  }

  /** Numbers below 10^k need at most k digits (k >= 1). */
  lemma {:induction false} DecimalLength(n: nat, k: nat)
    requires k >= 1 && n < Pow10(k)
    ensures |Decimal(n)| <= k
    decreases k
  {
    if n >= 10 {
      assert k >= 2;
      assert n / 10 < Pow10(k - 1);
      DecimalLength(n / 10, k - 1);
    }
  }

  /** Leading zeros do not change the value of a digit string. */
  lemma {:induction false} LeadingZeros(k: nat, s: string)
    requires AllDigits(s)
    ensures AllDigits(Zeros(k) + s)
    ensures ParseDecimal(Zeros(k) + s) == ParseDecimal(s)
    decreases |s| + k
  {
    var t := Zeros(k) + s;
    if s == [] {
      assert t == Zeros(k);
      if k > 0 {
        assert t[..|t| - 1] == Zeros(k - 1);
        LeadingZeros(k - 1, []);
        assert Zeros(k - 1) + [] == Zeros(k - 1);
      }
    } else {
      assert t[..|t| - 1] == Zeros(k) + s[..|s| - 1];
      LeadingZeros(k, s[..|s| - 1]);
    }
  }

  /** A zero-padded decimal is a non-empty digit string with the same value. */
  lemma PaddedDecimal(m: nat, w: nat)
    ensures AllDigits(PadZeros(Decimal(m), w)) && |PadZeros(Decimal(m), w)| >= 1
    ensures ParseDecimal(PadZeros(Decimal(m), w)) == m
  {
    DecimalDigits(m);
    if |Decimal(m)| < w {
      LeadingZeros(w - |Decimal(m)|, Decimal(m));
    }
  }

  /** `'%0wd'` formatting is undone by `int(...)`, for every integer. */
  lemma FormatZeroPaddedRoundTrip(n: int, width: nat)
    ensures var t := FormatZeroPadded(n, width);
      ((|t| > 0 && t[0] == '-' && AllDigits(t[1..])) || AllDigits(t)) && ParseSigned(t) == n
  {
    if n >= 0 {
      PaddedDecimal(n, width);
      var p := PadZeros(Decimal(n), width);
      assert IsDigit(p[0]);
    } else {
      var w: nat := if width == 0 then 0 else width - 1;
      PaddedDecimal(-n, w);
      var p := PadZeros(Decimal(-n), w);
      assert ("-" + p)[1..] == p;
    }
  }

  /** A non-negative number formatted with `'%0wd'` is all digits, exactly
      `width` long when it has at most `width` digits, and never shorter. */
  lemma FormatZeroPaddedShape(n: nat, width: nat)
    ensures AllDigits(FormatZeroPadded(n, width))
    ensures |FormatZeroPadded(n, width)| >= width
    ensures width >= 1 && n < Pow10(width) ==> |FormatZeroPadded(n, width)| == width
  {
    DecimalDigits(n);
    if |Decimal(n)| < width {
      LeadingZeros(width - |Decimal(n)|, Decimal(n));
    }
    if width >= 1 && n < Pow10(width) {
      DecimalLength(n, width);
    }
  }

  /** Formatted numbers hold only digits and at most a leading sign, so
      never a '.' nor a '/'. */
  lemma FormatZeroPaddedChars(n: int, width: nat)
    ensures '.' !in FormatZeroPadded(n, width) && '/' !in FormatZeroPadded(n, width)
  {
    var m: nat := if n >= 0 then n else -n;
    var w: nat := if n >= 0 || width == 0 then width else width - 1;
    PaddedDecimal(m, w);
    var p := PadZeros(Decimal(m), w);
    assert '.' !in p && '/' !in p by {
      forall i | 0 <= i < |p| ensures p[i] != '.' && p[i] != '/' {
        assert IsDigit(p[i]);
      }
    }
    assert FormatZeroPadded(n, width) == if n >= 0 then p else "-" + p;
  }
}
