/**
 * Decimal rendering of integers, as Rust's `{}` formats an `i64`, together
 * with the reading it inverts. The error messages of the client embed an
 * error code rendered this way.
 */
module Decimal {
  import opened Wrappers

  predicate IsDigit(c: char) {
    '0' <= c <= '9'
  }

  predicate AllDigits(s: string) {
    forall i :: 0 <= i < |s| ==> IsDigit(s[i])
  }

  function DigitChar(d: nat): (c: char)
    requires d < 10
    ensures IsDigit(c) && c as int - '0' as int == d
  {
    ('0' as int + d) as char
  }

  /** The decimal digits of `n`, most significant first, with no leading zero. */
  function NatDigits(n: nat): (s: string)
    ensures |s| >= 1 && AllDigits(s)
    ensures s[0] == '0' ==> n == 0 && s == "0"
  {
    if n < 10 then [DigitChar(n)] else NatDigits(n / 10) + [DigitChar(n % 10)]
  }

  /** What `{}` prints for an integer: a '-' before the digits of the magnitude of a negative one. */
  function Show(n: int): (s: string)
    ensures |s| >= 1
    ensures forall i :: 0 <= i < |s| ==> IsDigit(s[i]) || s[i] == '-'
    ensures s[0] == '-' <==> n < 0
    ensures n < 0 ==> |s| >= 2 && s[1] != '0'
    ensures n >= 0 && s[0] == '0' ==> s == "0"
  {
    if n < 0 then "-" + NatDigits(-n) else NatDigits(n)
  }

  /** The number a run of digits denotes (0 for no digits). */
  function NatValue(s: string): nat
    requires AllDigits(s)
  {
    if s == [] then 0 else 10 * NatValue(s[..|s| - 1]) + (s[|s| - 1] as int - '0' as int)
  }

  /** Reads an optional '-' followed by at least one digit. */
  function Parse(s: string): Option<int> {
    if |s| > 0 && s[0] == '-' then
      if |s| > 1 && AllDigits(s[1..]) then Some(-(NatValue(s[1..]) as int)) else None
    else if |s| > 0 && AllDigits(s) then Some(NatValue(s))
    else None
  }

  lemma {:induction false} NatValueOfDigits(n: nat)
    ensures NatValue(NatDigits(n)) == n
  {
    if n >= 10 {
      var s := NatDigits(n);
      assert s[..|s| - 1] == NatDigits(n / 10);
      NatValueOfDigits(n / 10);
    }
  }

  /** Parse inverts Show. */
  lemma ParseShow(n: int)
    ensures Parse(Show(n)) == Some(n)
  {
    if n < 0 {
      assert Show(n)[1..] == NatDigits(-n);
      NatValueOfDigits(-n);
    } else {
      NatValueOfDigits(n);
    }
  }

  /** Distinct integers render differently. */
  lemma ShowInjective(a: int, b: int)
    requires Show(a) == Show(b)
    ensures a == b
  {
    ParseShow(a);
    ParseShow(b);
  }

  /**
   * Inside a text, a rendered integer that is followed by a character that
   * cannot occur in a rendering is read in one way only: two integers
   * rendered at the same position, each so followed, are equal.
   */
  lemma ShowAtUnique(t: string, i: nat, a: int, b: int)
    requires i + |Show(a)| < |t| && t[i..i + |Show(a)|] == Show(a)
    requires !IsDigit(t[i + |Show(a)|]) && t[i + |Show(a)|] != '-'
    requires i + |Show(b)| < |t| && t[i..i + |Show(b)|] == Show(b)
    requires !IsDigit(t[i + |Show(b)|]) && t[i + |Show(b)|] != '-'
    ensures a == b
  {
    var sa, sb := Show(a), Show(b);
    assert forall k :: 0 <= k < |sa| ==> t[i + k] == sa[k];
    assert forall k :: 0 <= k < |sb| ==> t[i + k] == sb[k];
    assert |sa| == |sb|;
    ShowInjective(a, b);
  }

  /** The code of the "insufficient funds" error of a node renders as "-32000". */
  lemma ShowMinus32000()
    ensures Show(-32000) == "-32000"
  {
    assert NatDigits(32) == "32";
    assert NatDigits(3200) == "3200";
    assert NatDigits(32000) == "32000";
  }
}
