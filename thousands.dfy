/** Python's `format(n, ',d')` for the non-negative row counts the
    dashboards show, and the `str.replace` that swaps its separator. */
module Thousands {

  predicate IsDigit(c: char)
  {
    '0' <= c <= '9'
  }

  function DigitChar(d: nat): (c: char)
    requires d < 10
    ensures IsDigit(c) && c as int - '0' as int == d
  {
    ('0' as int + d) as char
  }

  /** The decimal digits of `n`, without leading zeros. */
  function Digits(n: nat): (s: string)
    ensures 1 <= |s|
    ensures forall i :: 0 <= i < |s| ==> IsDigit(s[i])
    ensures n < 10 <==> |s| == 1
    ensures n < 1000 ==> |s| <= 3
    ensures s[0] == '0' ==> n == 0 && s == "0"
  {
    if n < 10 then [DigitChar(n)] else Digits(n / 10) + [DigitChar(n % 10)]
  }

  /** The three digits of a group after the first, zero-padded. */
  function Pad3(n: nat): (s: string)
    requires n < 1000
    ensures |s| == 3 && forall i :: 0 <= i < 3 ==> IsDigit(s[i])
  {
    [DigitChar(n / 100), DigitChar(n / 10 % 10), DigitChar(n % 10)]
  }

  /** `n` in decimal with `sep` between groups of three digits, counted from
      the right: `format(n, ',d')` when `sep` is a comma. */
  function Grouped(n: nat, sep: char): (s: string)
    requires !IsDigit(sep)
    ensures 1 <= |s|
    ensures forall i :: 0 <= i < |s| ==> (s[i] == sep <==> (|s| - i) % 4 == 0)
    ensures forall i :: 0 <= i < |s| ==> s[i] == sep || IsDigit(s[i])
    ensures |s| % 4 != 0
    ensures s[0] == '0' ==> n == 0 && s == "0"
  {
    if n < 1000 then Digits(n)
    else
      var g := Grouped(n / 1000, sep);
      GroupPositions(g, sep, Pad3(n % 1000));
      g + [sep] + Pad3(n % 1000)
  }

  /** Appending a separator and a group of three digits keeps the separators
      exactly every fourth place from the right. */
  lemma GroupPositions(g: string, sep: char, p: string)
    requires !IsDigit(sep) && |p| == 3 && forall i :: 0 <= i < 3 ==> IsDigit(p[i])
    requires forall i :: 0 <= i < |g| ==> (g[i] == sep <==> (|g| - i) % 4 == 0)
    requires forall i :: 0 <= i < |g| ==> g[i] == sep || IsDigit(g[i])
    ensures forall i :: 0 <= i < |g| ==> (g + [sep] + p)[i] == g[i]
    ensures forall i :: 0 <= i < |g + [sep] + p| ==> ((g + [sep] + p)[i] == sep <==> (|g + [sep] + p| - i) % 4 == 0)
    ensures forall i :: 0 <= i < |g + [sep] + p| ==> (g + [sep] + p)[i] == sep || IsDigit((g + [sep] + p)[i])
  {
    var s := g + [sep] + p;
    forall i | 0 <= i < |s|
      ensures s[i] == sep <==> (|s| - i) % 4 == 0
      ensures s[i] == sep || IsDigit(s[i])
    {
      if i < |g| {
        assert s[i] == g[i];
        assert (|s| - i) % 4 == (|g| - i) % 4;
      } else if i > |g| {
        assert s[i] == p[i - |g| - 1];
        assert 1 <= |s| - i <= 3;
      }
    }
  }

  /** Reads a number back, skipping the separators. */
  function ReadNumber(s: string, sep: char): nat
    requires forall i :: 0 <= i < |s| ==> s[i] == sep || IsDigit(s[i])
  {
    if s == [] then 0
    else
      var init := s[..|s| - 1];
      assert forall i :: 0 <= i < |init| ==> init[i] == s[i];
      if s[|s| - 1] == sep then ReadNumber(init, sep)
      else
        assert IsDigit(s[|s| - 1]);
        10 * ReadNumber(init, sep) + (s[|s| - 1] as int - '0' as int)
  }

  lemma {:induction false} ReadDigits(n: nat, sep: char)
    requires !IsDigit(sep)
    ensures ReadNumber(Digits(n), sep) == n
  {
    if n >= 10 {
      ReadDigits(n / 10, sep);
      assert Digits(n)[..|Digits(n)| - 1] == Digits(n / 10);
    }
  }

  lemma ReadGroup(a: string, sep: char, m: nat)
    requires !IsDigit(sep) && m < 1000
    requires forall i :: 0 <= i < |a| ==> a[i] == sep || IsDigit(a[i])
    ensures forall i :: 0 <= i < |a + [sep] + Pad3(m)| ==> (a + [sep] + Pad3(m))[i] == sep || IsDigit((a + [sep] + Pad3(m))[i])
    ensures ReadNumber(a + [sep] + Pad3(m), sep) == 1000 * ReadNumber(a, sep) + m
  {
    var p := Pad3(m);
    var s0 := a + [sep];
    assert s0[..|s0| - 1] == a;
    var s1 := s0 + [p[0]];
    assert s1[..|s1| - 1] == s0;
    var s2 := s1 + [p[1]];
    assert s2[..|s2| - 1] == s1;
    var s3 := s2 + [p[2]];
    assert s3[..|s3| - 1] == s2;
    assert a + [sep] + p == s3;
    var r := ReadNumber(a, sep);
    assert ReadNumber(s0, sep) == r;
    assert ReadNumber(s1, sep) == 10 * r + m / 100;
    assert ReadNumber(s2, sep) == 100 * r + 10 * (m / 100) + m / 10 % 10;
    assert ReadNumber(s3, sep) == 1000 * ReadNumber(a, sep) + 100 * (m / 100) + 10 * (m / 10 % 10) + m % 10;
  }

  /** Reading the formatted count back, separators skipped, gives the count. */
  lemma {:induction false} GroupedRoundTrip(n: nat, sep: char)
    requires !IsDigit(sep)
    ensures ReadNumber(Grouped(n, sep), sep) == n
  {
    if n < 1000 {
      ReadDigits(n, sep);
    } else {
      GroupedRoundTrip(n / 1000, sep);
      ReadGroup(Grouped(n / 1000, sep), sep, n % 1000);
    }
  }

  /** `s.replace(a, b)` for single characters. */
  function ReplaceChar(s: string, a: char, b: char): (r: string)
    ensures |r| == |s|
    ensures forall i :: 0 <= i < |s| ==> r[i] == (if s[i] == a then b else s[i])
  {
    if s == [] then [] else [if s[0] == a then b else s[0]] + ReplaceChar(s[1..], a, b)
  }

  /** Swapping the separator after formatting is formatting with the other
      separator. */
  lemma SwapSeparator(n: nat, a: char, b: char)
    requires !IsDigit(a) && !IsDigit(b)
    ensures ReplaceChar(Grouped(n, a), a, b) == Grouped(n, b)
  {
    var s, t := Grouped(n, a), Grouped(n, b);
    GroupedLength(n, a, b);
    forall i | 0 <= i < |s|
      ensures ReplaceChar(s, a, b)[i] == t[i]
    {
      GroupedDigitsAgree(n, a, b, i);
    }
  }

  lemma {:induction false} GroupedLength(n: nat, a: char, b: char)
    requires !IsDigit(a) && !IsDigit(b)
    ensures |Grouped(n, a)| == |Grouped(n, b)|
  {
    if n >= 1000 {
      GroupedLength(n / 1000, a, b);
    }
  }

  lemma {:induction false} GroupedDigitsAgree(n: nat, a: char, b: char, i: nat)
    requires !IsDigit(a) && !IsDigit(b)
    requires i < |Grouped(n, a)|
    ensures |Grouped(n, a)| == |Grouped(n, b)|
    ensures Grouped(n, a)[i] != a ==> Grouped(n, b)[i] == Grouped(n, a)[i]
  {
    GroupedLength(n, a, b);
    if n >= 1000 {
      var g := Grouped(n / 1000, a);
      GroupedLength(n / 1000, a, b);
      if i < |g| {
        GroupedDigitsAgree(n / 1000, a, b, i);
      }
    }
  }

  /** `f"{n:,d}".replace(",", ".")`: grouped with dots, and read back it is
      the count. */
  function DotGrouped(n: nat): (s: string)
    ensures s == Grouped(n, '.')
    ensures ReadNumber(s, '.') == n
  {
    SwapSeparator(n, ',', '.');
    GroupedRoundTrip(n, '.');
    ReplaceChar(Grouped(n, ','), ',', '.')
  }
}
