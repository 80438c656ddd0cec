/**
 * String helpers the selector code relies on from Python itself:
 * the `in` operator on strings (substring test) and `str(int)`.
 */
module Strings {
  import opened Wrappers

  /** `t` occurs somewhere in `s` as a contiguous piece. */
  ghost predicate IsSubstring(t: string, s: string) {
    exists i, j :: 0 <= i <= j <= |s| && s[i..j] == t
  }

  /** Python's `t in s` for strings: a scan over the start positions of `s`. */
  function Contains(s: string, t: string): (r: bool)
    ensures r <==> IsSubstring(t, s)
    decreases |s|
  {
    if |t| > |s| then
      assert !IsSubstring(t, s) by {
        forall i, j | 0 <= i <= j <= |s| ensures s[i..j] != t {
          assert |s[i..j]| <= |s|;
        }
      }
      false
    else if s[..|t|] == t then
      assert s[0..|t|] == t;
      true
    else
      var r := Contains(s[1..], t);
      assert r ==> IsSubstring(t, s) by {
        if r {
          var i, j :| 0 <= i <= j <= |s[1..]| && s[1..][i..j] == t;
          assert s[1..][i..j] == s[i + 1..j + 1];
        }
      }
      assert IsSubstring(t, s) ==> r by {
        if IsSubstring(t, s) {
          var i, j :| 0 <= i <= j <= |s| && s[i..j] == t;
          assert i != 0;
          assert s[1..][i - 1..j - 1] == t;
        }
      }
      r
  }

  predicate IsDigit(c: char) {
    '0' <= c <= '9'
  }

  predicate AllDigits(s: string) {
    forall k :: 0 <= k < |s| ==> IsDigit(s[k])
  }

  function DigitChar(d: nat): (c: char)
    requires d < 10
    ensures IsDigit(c)
  {
    ('0' as int + d) as char
  }

  function DigitValue(c: char): (d: nat)
    requires IsDigit(c)
    ensures d < 10 && DigitChar(d) == c
  {
    (c as int - '0' as int) as nat
  }

  /** Python's `str(n)` for a non-negative integer: shortest decimal digits. */
  function NatString(n: nat): (r: string)
    ensures |r| > 0 && AllDigits(r)
    ensures r[0] == '0' ==> n == 0 && r == "0"
  {
    if n < 10 then [DigitChar(n)] else NatString(n / 10) + [DigitChar(n % 10)]
  }

  /** Python's `str(i)` for any integer: a leading '-' for negatives. */
  function DecimalString(i: int): (r: string)
    ensures |r| > 0
    ensures r[0] == '-' <==> i < 0
  {
    if i < 0 then "-" + NatString(-i) else NatString(i)
  }

  /** The value of a string of decimal digits, most significant first. */
  function ParseNat(s: string): nat
    requires AllDigits(s)
  {
    if |s| == 0 then 0 else 10 * ParseNat(s[..|s| - 1]) + DigitValue(s[|s| - 1])
  }

  /** Reads back what `DecimalString` writes: an optional '-' and at least one digit. */
  function ParseDecimal(s: string): Option<int> {
    if |s| > 1 && s[0] == '-' && AllDigits(s[1..]) then Some(-(ParseNat(s[1..]) as int))
    else if |s| > 0 && AllDigits(s) then Some(ParseNat(s))
    else None
  }

  lemma {:induction false} NatStringRoundTrip(n: nat)
    ensures ParseNat(NatString(n)) == n
  {
    if n >= 10 {
      var s := NatString(n);
      var prefix := NatString(n / 10);
      assert s == prefix + [DigitChar(n % 10)];
      assert s[..|s| - 1] == prefix;
      NatStringRoundTrip(n / 10);
    }
  }

  lemma DecimalRoundTrip(i: int)
    ensures ParseDecimal(DecimalString(i)) == Some(i)
  {
    if i < 0 {
      var s := DecimalString(i);
      assert s[1..] == NatString(-i);
      NatStringRoundTrip(-i);
    } else {
      NatStringRoundTrip(i);
    }
  }

  /** Distinct integers print differently. */
  lemma DecimalStringInjective(i: int, j: int)
    requires DecimalString(i) == DecimalString(j)
    ensures i == j
  {
    DecimalRoundTrip(i);
    DecimalRoundTrip(j);
  }
}
