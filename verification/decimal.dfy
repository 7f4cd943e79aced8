/** Decimal rendering of integers as Go's `fmt` prints them: `%d` and the zero-padded
    `%06d` used to name materialized manifest files. */
module Decimal {
  import opened GoStrings

  predicate IsDigit(c: char) {
    '0' <= c <= '9'
  }

  function DigitChar(d: nat): (c: char)
    requires d < 10
    ensures IsDigit(c)
  {
    (48 + d) as char
  }

  function DigitValue(c: char): nat
    requires IsDigit(c)
  {
    c as int - 48
  }

  function Pow10(k: nat): (p: nat)
    ensures p >= 1
  {
    if k == 0 then 1 else 10 * Pow10(k - 1)
  }

  /** `%d` of a natural number: its digits, most significant first, no leading zero. */
  function NatToString(n: nat): (s: string)
    ensures |s| >= 1
    ensures forall i :: 0 <= i < |s| ==> IsDigit(s[i])
    ensures |s| > 1 ==> s[0] != '0'
  {
    if n < 10 then [DigitChar(n)] else NatToString(n / 10) + [DigitChar(n % 10)]
  }

  /** `%d` of a Go `int`: a minus sign in front of negative values. */
  function IntToString(n: int): (s: string)
    ensures |s| >= 1
    ensures n < 0 <==> s[0] == '-'
  {
    if n < 0 then "-" + NatToString(-n) else NatToString(n)
  }

  /** Reads a digit string back; the reference against which the rendering is checked. */
  function ParseNat(s: string): nat
    requires forall i :: 0 <= i < |s| ==> IsDigit(s[i])
  {
    if |s| == 0 then 0 else 10 * ParseNat(s[..|s| - 1]) + DigitValue(s[|s| - 1])
  }

  /** Printing then reading a number gives the number back. */
  lemma {:induction false} ParseNatToString(n: nat)
    ensures ParseNat(NatToString(n)) == n
  {
    if n >= 10 {
      var s := NatToString(n);
      assert s[..|s| - 1] == NatToString(n / 10);
      ParseNatToString(n / 10);
    }
  }

  /** A digit string without a leading zero is what `%d` prints for the number it reads
      as, so `%d` is the only way to write a number that way. */
  lemma {:induction false} NatToStringParseNat(s: string)
    requires |s| >= 1 && forall i :: 0 <= i < |s| ==> IsDigit(s[i])
    requires |s| > 1 ==> s[0] != '0'
    ensures NatToString(ParseNat(s)) == s
    decreases |s|
  {
    var d := DigitValue(s[|s| - 1]);
    assert DigitChar(d) == s[|s| - 1];
    if |s| > 1 {
      var p := s[..|s| - 1];
      assert p[0] == s[0];
      NatToStringParseNat(p);
      assert |NatToString(0)| == 1;
      var n := ParseNat(s);
      assert n == 10 * ParseNat(p) + d && n >= 10;
      assert n / 10 == ParseNat(p) && n % 10 == d;
      assert s == p + [s[|s| - 1]];
    }
  }

  function Zeros(k: nat): (s: string)
    ensures |s| == k && forall i :: 0 <= i < k ==> s[i] == '0'
  {
    if k == 0 then "" else Zeros(k - 1) + "0"
  }

  /** `fmt.Sprintf("%0<width>d", n)`: the digits of `n`, left-padded with zeros to `width`;
      a number with more digits than `width` is printed in full. */
  function ZeroPad(n: nat, width: nat): (s: string)
    ensures |s| >= width
    ensures forall i :: 0 <= i < |s| ==> IsDigit(s[i])
  {
    var d := NatToString(n);
    if |d| >= width then d else Zeros(width - |d|) + d
  }

  /** Exactly `k` digits of `n`, most significant first; defined only when they suffice. */
  function Fixed(n: nat, k: nat): (s: string)
    requires n < Pow10(k)
    ensures |s| == k
  {
    if k == 0 then "" else Fixed(n / 10, k - 1) + [DigitChar(n % 10)]
  }

  lemma {:induction false} NatToStringLength(n: nat, k: nat)
    requires n < Pow10(k)
    ensures |NatToString(n)| <= k || (n == 0 && k == 0)
  {
    if n >= 10 {
      NatToStringLength(n / 10, k - 1);
    }
  }

  lemma {:induction false} FixedZero(k: nat)
    ensures Fixed(0, k) == Zeros(k)
  {
    if k > 0 {
      FixedZero(k - 1);
    }
  }

  /** Zero padding to `k` places agrees with the fixed-width digit string. */
  lemma {:induction false} ZeroPadFixed(n: nat, k: nat)
    requires k >= 1 && n < Pow10(k)
    ensures ZeroPad(n, k) == Fixed(n, k)
  {
    if n < 10 {
      FixedZero(k - 1);
      assert Fixed(n, k) == Zeros(k - 1) + [DigitChar(n)];
    } else {
      NatToStringLength(n / 10, k - 1);
      ZeroPadFixed(n / 10, k - 1);
      var d' := NatToString(n / 10);
      assert NatToString(n) == d' + [DigitChar(n % 10)];
      if |d'| < k - 1 {
        assert Zeros(k - 1 - |d'|) + (d' + [DigitChar(n % 10)])
            == (Zeros(k - 1 - |d'|) + d') + [DigitChar(n % 10)];
      }
    }
  }

  /** Fixed-width digit strings sort, as strings, in the order of the numbers. */
  lemma {:induction false} FixedOrder(n: nat, m: nat, k: nat)
    requires n < m < Pow10(k)
    ensures Less(Fixed(n, k), Fixed(m, k))
  {
    var a, b := Fixed(n / 10, k - 1), Fixed(m / 10, k - 1);
    if n / 10 < m / 10 {
      FixedOrder(n / 10, m / 10, k - 1);
      LessExtend(a, b, [DigitChar(n % 10)], [DigitChar(m % 10)]);
    } else {
      assert a == b;
      SameThenLess(a, DigitChar(n % 10), DigitChar(m % 10));
    }
  }

  lemma {:induction false} SameThenLess(a: string, x: char, y: char)
    requires x < y
    ensures Less(a + [x], a + [y])
    decreases |a|
  {
    if |a| > 0 {
      assert (a + [x])[1..] == a[1..] + [x];
      assert (a + [y])[1..] == a[1..] + [y];
      SameThenLess(a[1..], x, y);
    }
  }

  /** `%06d` (more generally `%0<k>d`) keeps numeric order as string order below 10^k,
      and every such number is printed with exactly `k` characters. */
  lemma ZeroPadOrder(n: nat, m: nat, k: nat)
    requires k >= 1 && n < m < Pow10(k)
    ensures |ZeroPad(n, k)| == k && |ZeroPad(m, k)| == k
    ensures Less(ZeroPad(n, k), ZeroPad(m, k))
  {
    ZeroPadFixed(n, k);
    ZeroPadFixed(m, k);
    FixedOrder(n, m, k);
  }
}
