/**
 * The address allow-list of the Bitbucket webhook middleware: the anchored
 * pattern  ^104\.192\.143\.(1?[0-9]{1,2}|2[0-4][0-9]|25[0-5])$  written out
 * as a predicate on strings, together with an independent decimal reading of
 * the last octet that says exactly which strings the pattern accepts.
 */
module BitbucketIp {

  /** The literal part of the pattern: the first three octets and their dots. */
  const Prefix: string := "104.192.143."

  predicate IsDigit(c: char) {
    '0' <= c <= '9'
  }

  predicate AllDigits(s: string) {
    forall i :: 0 <= i < |s| ==> IsDigit(s[i])
  }

  function DigitValue(c: char): (d: nat)
    requires IsDigit(c)
    ensures d < 10
  {
    c as int - '0' as int
  }

  function DigitChar(d: nat): (c: char)
    requires d < 10
    ensures IsDigit(c) && DigitValue(c) == d
  {
    ('0' as int + d) as char
  }

  /** The number a string of decimal digits denotes (leading zeros allowed). */
  function Value(s: string): nat
    requires AllDigits(s)
  {
    if |s| == 0 then 0 else Value(s[..|s| - 1]) * 10 + DigitValue(s[|s| - 1])
  }

  /** The canonical decimal spelling of n: no leading zero unless n is 0. */
  function Decimal(n: nat): (s: string)
    ensures 1 <= |s| && AllDigits(s) && Value(s) == n
    ensures s[0] == '0' <==> n == 0
    ensures |s| > 1 ==> s[0] != '0'
    decreases n
  {
    if n < 10 then [DigitChar(n)]
    else
      var init := Decimal(n / 10);
      var s := init + [DigitChar(n % 10)];
      assert s[..|s| - 1] == init;
      s
  }

  /**
   * The group of the pattern, alternative by alternative:
   * 1?[0-9]{1,2}  (one digit, two digits, or '1' and two digits),
   * 2[0-4][0-9]   and  25[0-5].
   */
  predicate Octet(x: string)
    ensures Octet(x) ==> 1 <= |x| <= 3 && AllDigits(x)
  {
    || (|x| == 1 && IsDigit(x[0]))
    || (|x| == 2 && IsDigit(x[0]) && IsDigit(x[1]))
    || (|x| == 3 && x[0] == '1' && IsDigit(x[1]) && IsDigit(x[2]))
    || (|x| == 3 && x[0] == '2' && '0' <= x[1] <= '4' && IsDigit(x[2]))
    || (|x| == 3 && x[0] == '2' && x[1] == '5' && '0' <= x[2] <= '5')
  }

  /**
   * BitBucketIP.test(ip): the pattern is anchored at both ends and has no
   * flags, so the whole string is the prefix followed by one octet.
   */
  predicate Test(ip: string)
    ensures Test(ip) ==> |Prefix| + 1 <= |ip| <= |Prefix| + 3 && ip[..|Prefix|] == Prefix
  {
    |ip| >= |Prefix| && ip[..|Prefix|] == Prefix && Octet(ip[|Prefix|..])
  }

  /** Value of a short digit string in closed form. */
  lemma ValueShort(x: string)
    requires AllDigits(x) && 1 <= |x| <= 3
    ensures |x| == 1 ==> Value(x) == DigitValue(x[0])
    ensures |x| == 2 ==> Value(x) == 10 * DigitValue(x[0]) + DigitValue(x[1])
    ensures |x| == 3 ==>
      Value(x) == 100 * DigitValue(x[0]) + 10 * DigitValue(x[1]) + DigitValue(x[2])
  {
    var one := x[..1];
    assert one[..0] == [];
    if |x| >= 2 {
      var two := x[..2];
      assert two[..1] == one;
      if |x| == 3 {
        assert x[..2] == two;
      }
    }
  }

  /**
   * The octet group accepts exactly the strings of one to three digits whose
   * value is at most 255, except the three-digit ones with a leading zero.
   */
  lemma OctetExact(x: string)
    ensures Octet(x) <==>
      && 1 <= |x| <= 3
      && AllDigits(x)
      && Value(x) <= 255
      && (|x| == 3 ==> x[0] != '0')
  {
    if 1 <= |x| <= 3 && AllDigits(x) {
      ValueShort(x);
    }
  }

  /** A digit string with a non-zero leading digit denotes a positive number. */
  lemma {:induction false} LeadingNonZeroPositive(s: string)
    requires 1 <= |s| && AllDigits(s) && s[0] != '0'
    ensures Value(s) >= 1
  {
    if |s| > 1 {
      var init := s[..|s| - 1];
      assert init[0] == s[0];
      LeadingNonZeroPositive(init);
    }
  }

  /** A digit string without a superfluous leading zero is the canonical spelling of its value. */
  lemma {:induction false} CanonicalUnique(s: string)
    requires 1 <= |s| && AllDigits(s)
    requires |s| > 1 ==> s[0] != '0'
    ensures s == Decimal(Value(s))
  {
    var last := s[|s| - 1];
    if |s| == 1 {
      assert DigitChar(DigitValue(last)) == last;
    } else {
      var init := s[..|s| - 1];
      assert init[0] == s[0];
      LeadingNonZeroPositive(init);
      CanonicalUnique(init);
      var n := Value(s);
      assert n / 10 == Value(init) && n % 10 == DigitValue(last);
      assert DigitChar(DigitValue(last)) == last;
      assert s == init + [last];
    }
  }

  lemma {:induction false} DecimalLength(n: nat)
    ensures n < 10 ==> |Decimal(n)| == 1
    ensures n < 100 ==> |Decimal(n)| <= 2
    ensures n < 1000 ==> |Decimal(n)| <= 3
  {
    if n >= 10 {
      DecimalLength(n / 10);
    }
  }

  /** Soundness: an accepted address is the prefix and 1-3 digits worth at most 255. */
  lemma TestSound(ip: string)
    requires Test(ip)
    ensures ip[..|Prefix|] == Prefix
    ensures var x := ip[|Prefix|..];
      1 <= |x| <= 3 && AllDigits(x) && Value(x) <= 255
  {
    OctetExact(ip[|Prefix|..]);
  }

  /** Completeness: every address of 104.192.143.0/24 spelt canonically is accepted. */
  lemma TestComplete(n: nat)
    requires n <= 255
    ensures Test(Prefix + Decimal(n))
  {
    var ip := Prefix + Decimal(n);
    assert ip[..|Prefix|] == Prefix && ip[|Prefix|..] == Decimal(n);
    DecimalLength(n);
    OctetExact(Decimal(n));
  }

  /**
   * The exact language of the pattern: the canonical spellings of 0..255
   * after the prefix, plus the two-digit spellings "00".."09".
   */
  lemma TestExact(ip: string)
    ensures Test(ip) <==>
      || (exists n: nat :: n <= 255 && ip == Prefix + Decimal(n))
      || (exists d: nat :: d < 10 && ip == Prefix + ['0', DigitChar(d)])
  {
    if Test(ip) {
      var x := ip[|Prefix|..];
      OctetExact(x);
      assert ip == Prefix + x;
      if |x| == 2 && x[0] == '0' {
        assert x == ['0', DigitChar(DigitValue(x[1]))];
      } else {
        CanonicalUnique(x);
        assert ip == Prefix + Decimal(Value(x));
      }
    }
    if exists n: nat :: n <= 255 && ip == Prefix + Decimal(n) {
      var n: nat :| n <= 255 && ip == Prefix + Decimal(n);
      TestComplete(n);
    }
    if exists d: nat :: d < 10 && ip == Prefix + ['0', DigitChar(d)] {
      var d: nat :| d < 10 && ip == Prefix + ['0', DigitChar(d)];
      assert ip[..|Prefix|] == Prefix && ip[|Prefix|..] == ['0', DigitChar(d)];
    }
  }

  /** The pattern is anchored at the start: nothing may precede an accepted address. */
  lemma NoLeadingExtra(c: char, ip: string)
    requires Test(ip)
    ensures !Test([c] + ip)
  {
    var t := [c] + ip;
    if |t| >= |Prefix| {
      assert t[1] == ip[0] == Prefix[0];
      assert t[..|Prefix|][1] == t[1];
    }
  }

  /**
   * The pattern is anchored at the end: an accepted address followed by a
   * non-digit (a newline, a space, a port separator) is rejected, and so is
   * anything longer than a three-digit last octet.
   */
  lemma NoTrailingExtra(ip: string, c: char)
    ensures !IsDigit(c) ==> !Test(ip + [c])
    ensures |ip| >= |Prefix| + 3 ==> !Test(ip + [c])
  {
    var t := ip + [c];
    if Test(t) {
      var x := t[|Prefix|..];
      OctetExact(x);
      assert x[|x| - 1] == c;
    }
  }
}
