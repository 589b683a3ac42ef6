/**
 * The few pieces of Python's `str` that the frame pipeline relies on:
 * `strip()`, `isdigit()`, `int(...)` of a digit string, and `str(n)` /
 * f-string formatting of a non-negative integer.
 */
module PyText {

  /** The characters for which Python's `str.isspace()` holds; `strip()` removes them at both ends. */
  predicate IsSpace(c: char) {
    || c == ' '
    || ('\t' <= c <= '\r')
    || ('\U{1c}' <= c <= '\U{1f}')
    || c == '\U{85}' || c == '\U{a0}' || c == '\U{1680}'
    || ('\U{2000}' <= c <= '\U{200a}')
    || c == '\U{2028}' || c == '\U{2029}' || c == '\U{202f}' || c == '\U{205f}' || c == '\U{3000}'
  }

  predicate AllSpace(s: string) {
    forall i :: 0 <= i < |s| ==> IsSpace(s[i])
  }

  /** `s.lstrip()`: a suffix of `s` that does not start with whitespace. */
  function TrimStart(s: string): (r: string)
    ensures |r| <= |s| && r == s[|s| - |r|..]
    ensures r == [] || !IsSpace(r[0])
  {
    if s != [] && IsSpace(s[0]) then TrimStart(s[1..]) else s
  }

  /** `s.rstrip()`: a prefix of `s` that does not end with whitespace. */
  function TrimEnd(s: string): (r: string)
    ensures |r| <= |s| && r == s[..|r|]
    ensures r == [] || !IsSpace(r[|r| - 1])
  {
    if s != [] && IsSpace(s[|s| - 1]) then TrimEnd(s[..|s| - 1]) else s
  }

  /** `lstrip()` removes only whitespace. */
  lemma {:induction false} TrimStartRemovesSpace(s: string)
    ensures AllSpace(s[..|s| - |TrimStart(s)|])
  {
    if s != [] && IsSpace(s[0]) {
      TrimStartRemovesSpace(s[1..]);
      assert s[..|s| - |TrimStart(s)|] == [s[0]] + s[1..][..|s| - 1 - |TrimStart(s)|];
    }
  }

  /** `rstrip()` removes only whitespace. */
  lemma {:induction false} TrimEndRemovesSpace(s: string)
    ensures AllSpace(s[|TrimEnd(s)|..])
  {
    if s != [] && IsSpace(s[|s| - 1]) {
      TrimEndRemovesSpace(s[..|s| - 1]);
      assert s[|TrimEnd(s)|..] == s[..|s| - 1][|TrimEnd(s)|..] + [s[|s| - 1]];
    }
  }

  /** `s.strip()`: a text no longer than `s` that neither starts nor ends with whitespace. */
  function Strip(s: string): (r: string)
    ensures |r| <= |s|
    ensures r == [] || (!IsSpace(r[0]) && !IsSpace(r[|r| - 1]))
  {
    var t := TrimStart(s);
    var r := TrimEnd(t);
    assert r != [] ==> r[0] == t[0];
    r
  }

  /** What `lstrip()` removes, what `strip()` keeps and what `rstrip()` then removes make up `s`. */
  lemma StripSplits(s: string)
    ensures s == s[..|s| - |TrimStart(s)|] + Strip(s) + TrimStart(s)[|Strip(s)|..]
  {
    SuffixThenPrefix(s, TrimStart(s), Strip(s));
  }

  /** Cutting a suffix `t` off the front of `s`, then a prefix `r` off `t`, leaves three pieces that make up `s`. */
  lemma SuffixThenPrefix<T>(s: seq<T>, t: seq<T>, r: seq<T>)
    requires |t| <= |s| && t == s[|s| - |t|..]
    requires |r| <= |t| && r == t[..|r|]
    ensures s == s[..|s| - |t|] + r + t[|r|..]
  {
    assert s == s[..|s| - |t|] + t;
    assert t == r + t[|r|..];
  }

  /**
   * `strip()` splits `s` into leading whitespace, the text it keeps and
   * trailing whitespace (with Strip's own contract and StripPadded, this
   * pins the result: all the whitespace at both ends goes, and nothing else).
   */
  lemma StripSpec(s: string)
    ensures var pre, post := s[..|s| - |TrimStart(s)|], TrimStart(s)[|Strip(s)|..];
      s == pre + Strip(s) + post && AllSpace(pre) && AllSpace(post)
  {
    StripSplits(s);
    TrimStartRemovesSpace(s);
    TrimEndRemovesSpace(TrimStart(s));
  }

  lemma {:induction false} TrimStartPadded(pre: string, t: string)
    requires AllSpace(pre)
    requires t == [] || !IsSpace(t[0])
    ensures TrimStart(pre + t) == t
  {
    if pre != [] {
      assert (pre + t)[1..] == pre[1..] + t;
      TrimStartPadded(pre[1..], t);
    }
  }

  lemma {:induction false} TrimEndPadded(t: string, post: string)
    requires AllSpace(post)
    requires t == [] || !IsSpace(t[|t| - 1])
    ensures TrimEnd(t + post) == t
  {
    if post != [] {
      assert (t + post)[..|t + post| - 1] == t + post[..|post| - 1];
      TrimEndPadded(t, post[..|post| - 1]);
    }
  }

  /** Whitespace around a text that neither starts nor ends with whitespace is exactly what `strip()` removes. */
  lemma StripPadded(pre: string, t: string, post: string)
    requires AllSpace(pre) && AllSpace(post)
    requires t == [] || (!IsSpace(t[0]) && !IsSpace(t[|t| - 1]))
    ensures Strip(pre + t + post) == t
  {
    assert pre + t + post == pre + (t + post);
    if t == [] {
      assert t + post == post;
      TrimStartPadded(pre + post, []);
      assert pre + post + [] == pre + post;
      TrimEndPadded([], []);
    } else {
      TrimStartPadded(pre, t + post);
      TrimEndPadded(t, post);
    }
  }

  /** An ASCII decimal digit. */
  predicate IsDigit(c: char) {
    '0' <= c <= '9'
  }

  predicate AllDigits(s: string) {
    forall i :: 0 <= i < |s| ==> IsDigit(s[i])
  }

  /** `s.isdigit()`: true only for a non-empty string of digits. */
  predicate IsDigitString(s: string) {
    |s| > 0 && AllDigits(s)
  }

  function DigitValue(c: char): (d: nat)
    requires IsDigit(c)
    ensures d < 10
  {
    c as int - '0' as int
  }

  function DigitChar(d: nat): (c: char)
    requires d < 10
    ensures IsDigit(c) && DigitValue(c) == d
  {
    ('0' as int + d) as char
  }

  /** `int(s)` for a string of digits, leading zeros allowed. */
  function ParseDecimal(s: string): nat
    requires AllDigits(s)
  {
    if s == [] then 0 else 10 * ParseDecimal(s[..|s| - 1]) + DigitValue(s[|s| - 1])
  }

  /** `str(n)` for `n >= 0`: decimal digits with no leading zero. */
  function NatToString(n: nat): (r: string)
    ensures IsDigitString(r)
    ensures r[0] == '0' <==> n == 0
    ensures n < 10 <==> |r| == 1
  {
    if n < 10 then [DigitChar(n)] else NatToString(n / 10) + [DigitChar(n % 10)]
  }

  /** `int(str(n)) == n`. */
  lemma {:induction false} ParseNatToString(n: nat)
    ensures ParseDecimal(NatToString(n)) == n
  {
    var s := NatToString(n);
    if n >= 10 {
      assert s[..|s| - 1] == NatToString(n / 10);
      ParseNatToString(n / 10);
    }
  }

  /** Different numbers print differently. */
  lemma NatToStringInjective(a: nat, b: nat)
    requires a != b
    ensures NatToString(a) != NatToString(b)
  {
    ParseNatToString(a);
    ParseNatToString(b);
  }

  /** A digit string denotes a positive number exactly when one of its digits is not `0`. */
  lemma {:induction false} ParseDecimalPositive(s: string)
    requires AllDigits(s)
    ensures ParseDecimal(s) > 0 <==> exists i :: 0 <= i < |s| && s[i] != '0'
  {
    if s != [] {
      var init := s[..|s| - 1];
      ParseDecimalPositive(init);
      if ParseDecimal(s) > 0 {
        if ParseDecimal(init) > 0 {
          var i :| 0 <= i < |init| && init[i] != '0';
          assert s[i] != '0';
        } else {
          assert s[|s| - 1] != '0';
        }
      } else {
        forall i | 0 <= i < |s| ensures s[i] == '0' {
          if i < |s| - 1 {
            assert s[i] == init[i];
          }
        }
      }
    }
  }

  function Pow10(k: nat): (p: nat)
    ensures p >= 1
  {
    if k == 0 then 1 else 10 * Pow10(k - 1)
  }

  lemma {:induction false} Pow10Monotone(i: nat, j: nat)
    requires i <= j
    ensures Pow10(i) <= Pow10(j)
  {
    if i < j {
      Pow10Monotone(i, j - 1);
    }
  }

  /** `str(n)` has exactly as many digits as `n` needs: `10^(k-1) <= n < 10^k` for `k` digits (or `n == 0`). */
  lemma {:induction false} NatToStringLength(n: nat)
    ensures n < Pow10(|NatToString(n)|)
    ensures |NatToString(n)| > 1 ==> Pow10(|NatToString(n)| - 1) <= n
  {
    if n >= 10 {
      NatToStringLength(n / 10);
    }
  }

  /** A digit string denotes a number below `10^|s|`. */
  lemma {:induction false} ParseDecimalBound(s: string)
    requires AllDigits(s)
    ensures ParseDecimal(s) < Pow10(|s|)
  {
    if s != [] {
      ParseDecimalBound(s[..|s| - 1]);
    }
  }

  lemma ScaleByTen(d: int, p: int, x: int)
    ensures 10 * (d * p + x) == d * (10 * p) + 10 * x
  {
  }

  /** Reading a digit string from the front: its first digit weighs `10^(|s|-1)`. */
  lemma {:induction false} ParseDecimalFront(s: string)
    requires AllDigits(s) && s != []
    ensures ParseDecimal(s) == DigitValue(s[0]) * Pow10(|s| - 1) + ParseDecimal(s[1..])
  {
    if |s| > 1 {
      var init := s[..|s| - 1];
      ParseDecimalFront(init);
      assert init[1..] == s[1..][..|s[1..]| - 1];
      ScaleByTen(DigitValue(s[0]), Pow10(|s| - 2), ParseDecimal(init[1..]));
    }
  }

  /** Leading zeros do not change the value. */
  lemma {:induction false} ParseDecimalLeadingZeros(z: string, s: string)
    requires forall i :: 0 <= i < |z| ==> z[i] == '0'
    requires AllDigits(s)
    ensures AllDigits(z + s) && ParseDecimal(z + s) == ParseDecimal(s)
  {
    if z != [] {
      assert (z + s)[0] == '0' && (z + s)[1..] == z[1..] + s;
      ParseDecimalFront(z + s);
      ParseDecimalLeadingZeros(z[1..], s);
    } else {
      assert z + s == s;
    }
  }
}
