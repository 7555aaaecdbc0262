/**
 * The handful of `java.lang` text operations the catalog relies on:
 * case-insensitive comparison and equality of strings, `Integer.toString`,
 * `Character.isWhitespace`, `String.trim`, and the padding and fixed-point
 * rendering performed by `String.format`.
 *
 * Case folding is restricted to ASCII: `Fold` maps 'A'..'Z' to 'a'..'z' and
 * leaves every other character alone.
 */
module JavaText {

  /** `Character.toLowerCase(Character.toUpperCase(c))`, on ASCII letters. */
  function Fold(c: char): (f: char)
    ensures ('A' <= c <= 'Z') ==> f as int == c as int + 32
    ensures !('A' <= c <= 'Z') ==> f == c
  {
    if 'A' <= c <= 'Z' then (c as int + 32) as char else c
  }

  /**
   * `String.compareToIgnoreCase`: at the first position where the folded
   * characters differ, their difference; otherwise the difference of the
   * lengths.
   */
  function CompareIgnoreCase(a: string, b: string): int
  {
    if a == [] || b == [] then |a| - |b|
    else if Fold(a[0]) != Fold(b[0]) then Fold(a[0]) as int - Fold(b[0]) as int
    else CompareIgnoreCase(a[1..], b[1..])
  }

  /** `String.equalsIgnoreCase`: same length, folded characters pairwise equal. */
  predicate EqualsIgnoreCase(a: string, b: string)
  {
    |a| == |b| && forall i :: 0 <= i < |a| ==> Fold(a[i]) == Fold(b[i])
  }

  lemma {:induction false} CompareIgnoreCaseZero(a: string, b: string)
    ensures CompareIgnoreCase(a, b) == 0 <==> EqualsIgnoreCase(a, b)
  {
    if a != [] && b != [] && Fold(a[0]) == Fold(b[0]) {
      CompareIgnoreCaseZero(a[1..], b[1..]);
      if EqualsIgnoreCase(a[1..], b[1..]) {
        forall i | 0 <= i < |a| ensures Fold(a[i]) == Fold(b[i]) {
          if i > 0 { assert a[i] == a[1..][i - 1] && b[i] == b[1..][i - 1]; }
        }
      }
      if EqualsIgnoreCase(a, b) {
        forall i | 0 <= i < |a[1..]| ensures Fold(a[1..][i]) == Fold(b[1..][i]) {
          assert a[1..][i] == a[i + 1] && b[1..][i] == b[i + 1];
        }
      }
    } else if a != [] && b != [] {
      assert !EqualsIgnoreCase(a, b) by { assert Fold(a[0]) != Fold(b[0]); }
    }
  }

  /** Swapping the arguments negates the result exactly. */
  lemma {:induction false} CompareIgnoreCaseAntisymmetric(a: string, b: string)
    ensures CompareIgnoreCase(b, a) == -CompareIgnoreCase(a, b)
  {
    if a != [] && b != [] && Fold(a[0]) == Fold(b[0]) {
      CompareIgnoreCaseAntisymmetric(a[1..], b[1..]);
    }
  }

  lemma {:induction false} CompareIgnoreCaseTransitive(a: string, b: string, c: string)
    requires CompareIgnoreCase(a, b) < 0 && CompareIgnoreCase(b, c) < 0
    ensures CompareIgnoreCase(a, c) < 0
  {
    if a != [] && b != [] && c != [] && Fold(a[0]) == Fold(b[0]) && Fold(b[0]) == Fold(c[0]) {
      CompareIgnoreCaseTransitive(a[1..], b[1..], c[1..]);
    }
  }

  /** Strings that are equal ignoring case compare identically against any third. */
  lemma {:induction false} CompareIgnoreCaseCongruent(a: string, b: string, c: string)
    requires EqualsIgnoreCase(a, b)
    ensures CompareIgnoreCase(a, c) == CompareIgnoreCase(b, c)
  {
    if a != [] && c != [] {
      assert Fold(a[0]) == Fold(b[0]);
      assert EqualsIgnoreCase(a[1..], b[1..]) by {
        forall i | 0 <= i < |a[1..]| ensures Fold(a[1..][i]) == Fold(b[1..][i]) {
          assert a[1..][i] == a[i + 1] && b[1..][i] == b[i + 1];
        }
      }
      CompareIgnoreCaseCongruent(a[1..], b[1..], c[1..]);
    }
  }

  predicate IsDigit(c: char) { '0' <= c <= '9' }

  function DigitChar(d: nat): (c: char)
    requires d < 10
    ensures IsDigit(c) && c as int - '0' as int == d
  {
    ('0' as int + d) as char
  }

  /** `Integer.toString` on a non-negative value: its decimal digits, most significant first. */
  function Digits(n: nat): (s: string)
    ensures 1 <= |s|
    ensures s[|s| - 1] == DigitChar(n % 10)
    ensures |s| == 1 <==> n < 10
    decreases n
  {
    if n < 10 then [DigitChar(n)] else Digits(n / 10) + [DigitChar(n % 10)]
  }

  /** Every character of a decimal string is a digit. */
  lemma {:induction false} DigitsAreDigits(n: nat)
    ensures forall i :: 0 <= i < |Digits(n)| ==> IsDigit(Digits(n)[i])
  {
    if 10 <= n {
      DigitsAreDigits(n / 10);
      var s, t := Digits(n), Digits(n / 10);
      assert s == t + [DigitChar(n % 10)];
      assert forall i :: 0 <= i < |t| ==> s[i] == t[i];
    }
  }

  function Pow10(k: nat): (p: nat)
    ensures p >= 1
  {
    if k == 0 then 1 else 10 * Pow10(k - 1)
  }

  /** A value below 10^k has at most k digits. */
  lemma {:induction false} DigitsBelowPow10(n: nat, k: nat)
    requires 1 <= k && n < Pow10(k)
    ensures |Digits(n)| <= k
  {
    if 10 <= n {
      assert 2 <= k;
      assert n / 10 < Pow10(k - 1);
      DigitsBelowPow10(n / 10, k - 1);
    }
  }

  /** Distinct values have distinct decimal strings. */
  lemma {:induction false} DigitsInjective(m: nat, n: nat)
    requires Digits(m) == Digits(n)
    ensures m == n
  {
    var s := Digits(m);
    assert m % 10 == n % 10 by {
      assert DigitChar(m % 10) == s[|s| - 1] == DigitChar(n % 10);
    }
    if 10 <= m {
      assert Digits(m / 10) == s[..|s| - 1] == Digits(n / 10);
      DigitsInjective(m / 10, n / 10);
    }
  }

  /** Folding leaves a decimal string unchanged, so comparing two of them ignoring case is plain comparison. */
  lemma DigitsEqualIgnoringCase(m: nat, n: nat)
    ensures EqualsIgnoreCase(Digits(m), Digits(n)) <==> m == n
  {
    if EqualsIgnoreCase(Digits(m), Digits(n)) {
      var a, b := Digits(m), Digits(n);
      DigitsAreDigits(m);
      DigitsAreDigits(n);
      assert forall i :: 0 <= i < |a| ==> Fold(a[i]) == a[i] && Fold(b[i]) == b[i];
      assert a == b;
      DigitsInjective(m, n);
    }
  }

  /** `Integer.toString` on any value: a minus sign before the digits of a negative one. */
  function IntToString(n: int): (s: string)
    ensures s != [] && IsDigit(s[|s| - 1])
    ensures n >= 0 ==> s == Digits(n)
  {
    if n < 0 then "-" + Digits(-n) else Digits(n)
  }

  /**
   * `Character.isWhitespace`: the space separators other than the no-break
   * spaces U+00A0, U+2007 and U+202F, the line and paragraph separators, and
   * the controls U+0009..U+000D and U+001C..U+001F.
   */
  predicate IsWhitespace(c: char)
  {
    || ('\U{0009}' <= c <= '\U{000D}')
    || ('\U{001C}' <= c <= '\U{0020}')
    || c == '\U{1680}'
    || ('\U{2000}' <= c <= '\U{2006}')
    || ('\U{2008}' <= c <= '\U{200A}')
    || c == '\U{2028}' || c == '\U{2029}'
    || c == '\U{205F}' || c == '\U{3000}'
  }

  /** Characters `String.trim` strips: code points up to U+0020. */
  predicate IsTrimmable(c: char) { c <= ' ' }

  /** The first index at or after `i` holding a character `String.trim` keeps, or `|s|`. */
  function KeptFrom(s: string, i: nat): (k: nat)
    requires i <= |s|
    ensures i <= k <= |s|
    ensures forall x :: i <= x < k ==> IsTrimmable(s[x])
    ensures k == |s| || !IsTrimmable(s[k])
    decreases |s| - i
  {
    if i < |s| && IsTrimmable(s[i]) then KeptFrom(s, i + 1) else i
  }

  /** The end, down from `j` but not below `lo`, of the characters `String.trim` keeps. */
  function KeptUntil(s: string, lo: nat, j: nat): (k: nat)
    requires lo <= j <= |s|
    ensures lo <= k <= j
    ensures forall x :: k <= x < j ==> IsTrimmable(s[x])
    ensures k == lo || !IsTrimmable(s[k - 1])
    decreases j - lo
  {
    if lo < j && IsTrimmable(s[j - 1]) then KeptUntil(s, lo, j - 1) else j
  }

  /**
   * `String.trim`: the slice of `s` left after dropping the characters up to
   * U+0020 at both ends; everything dropped is such a character, and what is
   * left neither starts nor ends with one.
   */
  function Trim(s: string): (r: string)
    ensures var a := KeptFrom(s, 0); var b := KeptUntil(s, a, |s|);
      r == s[a..b] && forall k :: 0 <= k < a || b <= k < |s| ==> IsTrimmable(s[k])
    ensures r == [] || (!IsTrimmable(r[0]) && !IsTrimmable(r[|r| - 1]))
  {
    var a := KeptFrom(s, 0);
    var b := KeptUntil(s, a, |s|);
    assert a < b ==> s[a..b][0] == s[a] && s[a..b][b - a - 1] == s[b - 1];
    s[a..b]
  }

  /** `String.trim` leaves alone a string that neither starts nor ends with a trimmable character. */
  lemma TrimUntrimmed(s: string)
    requires s == [] || (!IsTrimmable(s[0]) && !IsTrimmable(s[|s| - 1]))
    ensures Trim(s) == s
  {
    if s != [] {
      assert KeptFrom(s, 0) == 0;
      assert KeptUntil(s, 0, |s|) == |s|;
    }
  }

  /** Trimming twice is trimming once. */
  lemma TrimIdempotent(s: string)
    ensures Trim(Trim(s)) == Trim(s)
  {
    TrimUntrimmed(Trim(s));
  }

  function Repeat(c: char, n: nat): (s: string)
    ensures |s| == n && forall i :: 0 <= i < n ==> s[i] == c
  {
    if n == 0 then [] else Repeat(c, n - 1) + [c]
  }

  predicate IsBlank(s: string) { forall i :: 0 <= i < |s| ==> s[i] == ' ' }

  /** `%Ns`/`%Nd`: right-aligned in a field of at least `width` characters. */
  function PadLeft(s: string, width: nat): (r: string)
    decreases width - |s|
    ensures |r| == if |s| < width then width else |s|
  {
    if |s| < width then PadLeft([' '] + s, width) else s
  }

  /** Right alignment keeps the text at the end and fills the front with blanks. */
  lemma {:induction false} PadLeftKeepsText(s: string, width: nat)
    decreases width - |s|
    ensures var r := PadLeft(s, width); r[|r| - |s|..] == s && IsBlank(r[..|r| - |s|])
  {
    if |s| < width {
      var t := [' '] + s;
      PadLeftKeepsText(t, width);
      var r := PadLeft(t, width);
      assert r[|r| - |s|..] == r[|r| - |t|..][1..];
      assert r[..|r| - |s|] == r[..|r| - |t|] + [' '];
    }
  }

  /** `%-Ns`: left-aligned in a field of at least `width` characters. */
  function PadRight(s: string, width: nat): (r: string)
    decreases width - |s|
    ensures |r| == if |s| < width then width else |s|
  {
    if |s| < width then PadRight(s + [' '], width) else s
  }

  /** Left alignment keeps the text at the front and fills the end with blanks. */
  lemma {:induction false} PadRightKeepsText(s: string, width: nat)
    decreases width - |s|
    ensures var r := PadRight(s, width); r[..|s|] == s && IsBlank(r[|s|..])
  {
    if |s| < width {
      var t := s + [' '];
      PadRightKeepsText(t, width);
      var r := PadRight(t, width);
      assert r[..|s|] == r[..|t|][..|s|];
      assert r[|s|..] == [' '] + r[|t|..];
    }
  }

  /**
   * `%.5f` on a decimal value: the sign of a negative argument, the integral
   * digits, a point, and exactly five fractional digits, rounded half up, as
   * printed under a locale whose decimal separator is '.' and whose digits
   * are ASCII.
   */
  function Fixed5(x: real): (s: string)
    ensures |s| >= 7 && s[|s| - 6] == '.'
    ensures forall i :: |s| - 5 <= i < |s| ==> IsDigit(s[i])
    ensures (x < 0.0) <==> s[0] == '-'
  {
    var magnitude := if x < 0.0 then -x else x;
    var scaled: nat := (magnitude * 100000.0 + 0.5).Floor;
    var whole, fraction := Digits(scaled / 100000), Digits(scaled % 100000);
    assert |fraction| <= 5 by { DigitsBelowPow10(scaled % 100000, 5); }
    var tail := Repeat('0', 5 - |fraction|) + fraction;
    assert forall i :: 0 <= i < 5 ==> IsDigit(tail[i]) by {
      DigitsAreDigits(scaled % 100000);
    }
    assert IsDigit(whole[0]) by {
      DigitsAreDigits(scaled / 100000);
    }
    var s := (if x < 0.0 then "-" else "") + whole + "." + tail;
    assert s[|s| - 5..] == tail;
    s
  }
}
