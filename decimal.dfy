/**
  Decimal rendering of integers as Python's format specification `04d`
  produces it (`f"{n:04d}"`), and a reader that turns such a rendering back
  into the integer. The reader is a left inverse of the rendering (it is
  not defined to reject strings that are not renderings): the round
  trip makes the rendering injective, and the value/order lemmas make
  four-digit renderings sort like the numbers they stand for.
*/
module Decimal {
  import opened Strings

  predicate IsDigit(c: char) { '0' <= c <= '9' }

  predicate IsDigits(s: string) { forall k :: 0 <= k < |s| ==> IsDigit(s[k]) }

  function DigitChar(d: nat): (c: char)
    requires d < 10
    ensures IsDigit(c) && DigitValue(c) == d
  {
    (48 + d) as char
  }

  function DigitValue(c: char): nat
    requires IsDigit(c)
  {
    (c as int) - 48
  }

  function Pow10(k: nat): (p: nat)
    ensures p >= 1
  {
    if k == 0 then 1 else 10 * Pow10(k - 1)
  }

  /** `str(n)` for a non-negative integer: its decimal digits, most
      significant first, with no leading zero (zero itself is "0"). */
  function Digits(n: nat): (s: string)
    ensures IsDigits(s) && |s| >= 1
  {
    if n < 10 then [DigitChar(n)] else Digits(n / 10) + [DigitChar(n % 10)]
  }

  /** `s` left-filled with '0' up to `width` characters; a longer `s` is kept whole. */
  function ZeroPad(s: string, width: nat): (r: string)
    ensures |r| == if |s| >= width then |s| else width
    ensures IsDigits(s) ==> IsDigits(r)
  {
    if |s| >= width then s else Zeros(width - |s|) + s
  }

  function Zeros(k: nat): (z: string)
    ensures |z| == k && forall i :: 0 <= i < k ==> z[i] == '0'
  {
    if k == 0 then [] else ['0'] + Zeros(k - 1)
  }

  /** `f"{n:04d}"`: zero-filled to a total width of four, the sign of a
      negative number counting towards the width (-5 gives "-005"), and
      never truncated (12345 gives "12345"). */
  function Format04d(n: int): (s: string)
    ensures |s| >= 4
    ensures forall k :: 0 <= k < |s| ==> IsDigit(s[k]) || s[k] == '-'
    ensures n >= 0 ==> IsDigits(s)
  {
    if n < 0 then "-" + ZeroPad(Digits(-n), 3) else ZeroPad(Digits(n), 4)
  }

  /** The number a digit string denotes. */
  function Value(s: string): nat
    requires IsDigits(s)
  {
    if s == [] then 0 else 10 * Value(s[..|s| - 1]) + DigitValue(s[|s| - 1])
  }

  /** A string of the shape `Format04d` returns: an optional minus sign and
      at least one digit. */
  predicate IsFormatted(s: string)
  {
    |s| >= 1 && if s[0] == '-' then |s| >= 2 && IsDigits(s[1..]) else IsDigits(s)
  }

  /** Reads back a rendering of `Format04d`. */
  function ParseFormatted(s: string): int
    requires IsFormatted(s)
  {
    if s[0] == '-' then 0 - Value(s[1..]) else Value(s)
  }

  lemma {:induction false} ValueOfDigits(n: nat)
    ensures Value(Digits(n)) == n
  {
    if n >= 10 {
      var init := Digits(n / 10);
      var s := init + [DigitChar(n % 10)];
      assert s[..|s| - 1] == init;
      ValueOfDigits(n / 10);
    }
  }

  /** The value read from the front: the leading digit weighs 10^(|s|-1). */
  lemma {:induction false} ValueFront(s: string)
    requires IsDigits(s) && |s| >= 1
    ensures Value(s) == DigitValue(s[0]) * Pow10(|s| - 1) + Value(s[1..])
  {
    var n := |s|;
    if n == 1 {
      assert s[1..] == [];
      assert s[..0] == [];
    } else {
      var init, tail := s[..n - 1], s[1..];
      var d, last := DigitValue(s[0]), DigitValue(s[n - 1]);
      ValueFront(init);
      assert init[0] == s[0];
      assert init[1..] == tail[..|tail| - 1];
      assert tail[|tail| - 1] == s[n - 1];
      assert Value(s) == 10 * Value(init) + last;
      assert Value(tail) == 10 * Value(init[1..]) + last;
      assert Pow10(n - 1) == 10 * Pow10(n - 2);
      ShiftDigit(d, Pow10(n - 2), Value(init[1..]), last);
    }
  }

  lemma ShiftDigit(d: int, p: int, x: int, last: int)
    ensures 10 * (d * p + x) + last == d * (10 * p) + (10 * x + last)
  {
  }

  lemma {:induction false} ValueBound(s: string)
    requires IsDigits(s)
    ensures Value(s) < Pow10(|s|)
  {
    if s != [] {
      ValueBound(s[..|s| - 1]);
    }
  }

  /** Leading zeros do not change the value. */
  lemma {:induction false} ValueZeros(k: nat, s: string)
    requires IsDigits(s)
    ensures IsDigits(Zeros(k) + s) && Value(Zeros(k) + s) == Value(s)
  {
    var all := Zeros(k) + s;
    assert IsDigits(all) by {
      forall i | 0 <= i < |all|
        ensures IsDigit(all[i])
      {
        if i < k {
          assert all[i] == Zeros(k)[i];
        } else {
          assert all[i] == s[i - k];
        }
      }
    }
    if k == 0 {
      assert all == s;
    } else {
      var rest := Zeros(k - 1) + s;
      assert all == ['0'] + rest;
      assert all[0] == '0' && all[1..] == rest;
      ValueZeros(k - 1, s);
      ValueFront(all);
      assert DigitValue(all[0]) == 0;
    }
  }

  lemma ValueZeroPad(s: string, width: nat)
    requires IsDigits(s)
    ensures Value(ZeroPad(s, width)) == Value(s)
  {
    if |s| < width {
      ValueZeros(width - |s|, s);
    }
  }

  /** Reading back a rendering gives the number rendered. */
  lemma Format04dRoundTrip(n: int)
    ensures IsFormatted(Format04d(n)) && ParseFormatted(Format04d(n)) == n
  {
    if n < 0 {
      NegativeRoundTrip(n);
    } else {
      NonNegativeRoundTrip(n);
    }
  }

  lemma NegativeRoundTrip(n: int)
    requires n < 0
    ensures IsFormatted(Format04d(n)) && ParseFormatted(Format04d(n)) == n
  {
    var padded := ZeroPad(Digits(-n), 3);
    var s := "-" + padded;
    assert s == Format04d(n);
    ValueOfDigits(-n);
    ValueZeroPad(Digits(-n), 3);
    assert s[0] == '-' && s[1..] == padded;
  }

  lemma NonNegativeRoundTrip(n: int)
    requires n >= 0
    ensures IsFormatted(Format04d(n)) && ParseFormatted(Format04d(n)) == n
  {
    var s := ZeroPad(Digits(n), 4);
    assert s == Format04d(n);
    ValueOfDigits(n);
    ValueZeroPad(Digits(n), 4);
    assert IsDigit(s[0]);
  }

  /** Distinct integers are rendered differently. */
  lemma Format04dInjective(i: int, j: int)
    requires Format04d(i) == Format04d(j)
    ensures i == j
  {
    Format04dRoundTrip(i);
    Format04dRoundTrip(j);
  }

  lemma {:induction false} DigitsLength(n: nat, k: nat)
    requires 1 <= k && n < Pow10(k)
    ensures |Digits(n)| <= k
  {
    if n >= 10 {
      DigitsLength(n / 10, k - 1);
    }
  }

  /** From 0 to 9999 the rendering is exactly four digits and denotes the number. */
  lemma FourDigits(n: int)
    requires 0 <= n < 10000
    ensures |Format04d(n)| == 4 && IsDigits(Format04d(n)) && Value(Format04d(n)) == n
  {
    assert Pow10(4) == 10000;
    DigitsLength(n, 4);
    ValueOfDigits(n);
    ValueZeroPad(Digits(n), 4);
  }

  /** A smaller leading digit wins whatever follows it. */
  lemma LeadingDigitDecides(a: nat, b: nat, p: nat, x: nat, y: nat)
    requires a < b && x < p && y < p
    ensures a * p + x < b * p + y
  {
    assert (a + 1) * p <= b * p;
    assert (a + 1) * p == a * p + p;
  }

  /** For digit strings of one length, string order is numeric order. */
  lemma {:induction false} LexLessIsValueLess(s: string, t: string)
    requires IsDigits(s) && IsDigits(t) && |s| == |t|
    ensures LexLess(s, t) <==> Value(s) < Value(t)
  {
    if s != [] {
      ValueFront(s);
      ValueFront(t);
      ValueBound(s[1..]);
      ValueBound(t[1..]);
      LexLessIsValueLess(s[1..], t[1..]);
      var p := Pow10(|s| - 1);
      var a, b := DigitValue(s[0]), DigitValue(t[0]);
      if a < b {
        LeadingDigitDecides(a, b, p, Value(s[1..]), Value(t[1..]));
      } else if b < a {
        LeadingDigitDecides(b, a, p, Value(t[1..]), Value(s[1..]));
      } else {
        assert s[0] == t[0];
      }
    } else {
      assert t == [];
    }
  }

  /** From 0 to 9999, comparing renderings as strings compares the numbers. */
  lemma Format04dOrder(i: int, j: int)
    requires 0 <= i < 10000 && 0 <= j < 10000
    ensures LexLess(Format04d(i), Format04d(j)) <==> i < j
  {
    FourDigits(i);
    FourDigits(j);
    LexLessIsValueLess(Format04d(i), Format04d(j));
  }

  /** Past 9999 the width grows and string order no longer follows the numbers. */
  lemma Format04dOrderBreaksAtTenThousand()
    ensures LexLess(Format04d(10000), Format04d(9999))
  {
    assert Digits(10000) == "10000";
    assert Digits(9999) == "9999";
  }
}
