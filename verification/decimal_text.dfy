/** Decimal text for natural numbers, as JavaScript renders them: the
    `${n}` / `Number.prototype.toString()` form of a non-negative integer,
    `String.prototype.padStart`, and `Number.prototype.toFixed` on an exact
    non-negative value. Each printer has a reader beside it, and the lemmas
    show that reading back what was printed gives the number again. */
module DecimalText {
  import opened NatArith

  /** 10^n, the fixed-point scale of an amount with n decimals. */
  function Pow10(n: nat): (p: nat)
    ensures p >= 1
    ensures n > 0 ==> p >= 10
  {
    if n == 0 then 1 else 10 * Pow10(n - 1)
  }

  /** The scale of two decimals (the seconds of a clock display). */
  lemma Pow10Of2()
    ensures Pow10(2) == 100
  {
    assert Pow10(1) == 10;
  }

  /** The scale of four decimals (a percentage printed by `toFixed(4)`). */
  lemma Pow10Of4()
    ensures Pow10(4) == 10000
  {
    Pow10Of2();
  }

  predicate IsDigit(c: char) {
    '0' <= c <= '9'
  }

  predicate AllDigits(s: string) {
    forall i :: 0 <= i < |s| ==> IsDigit(s[i])
  }

  function DigitChar(d: nat): (c: char)
    requires d < 10
    ensures IsDigit(c)
    ensures c as int - '0' as int == d
  {
    ('0' as int + d) as char
  }

  function DigitValue(c: char): (d: nat)
    requires IsDigit(c)
    ensures d < 10
    ensures DigitChar(d) == c
  {
    c as int - '0' as int
  }

  /** The shortest decimal numeral of n: no sign, no leading zero except for 0 itself. */
  function NatToString(n: nat): (s: string)
    ensures 1 <= |s|
    ensures AllDigits(s)
    ensures |s| > 1 ==> s[0] != '0'
    ensures n < 10 <==> |s| == 1
  {
    if n < 10 then [DigitChar(n)] else NatToString(n / 10) + [DigitChar(n % 10)]
  }

  /** The value of a numeral, most significant digit first (leading zeros allowed). */
  function StringToNat(s: string): nat
    requires AllDigits(s)
  {
    if |s| == 0 then 0 else 10 * StringToNat(s[..|s| - 1]) + DigitValue(s[|s| - 1])
  }

  /** Reading back a printed numeral yields the number printed. */
  lemma {:induction false} NatToStringRoundTrip(n: nat)
    ensures StringToNat(NatToString(n)) == n
  {
    var s := NatToString(n);
    if n >= 10 {
      NatToStringRoundTrip(n / 10);
      assert s[..|s| - 1] == NatToString(n / 10);
    }
  }

  /** Printing is injective: different numbers never print alike. */
  lemma NatToStringInjective(m: nat, n: nat)
    requires NatToString(m) == NatToString(n)
    ensures m == n
  {
    NatToStringRoundTrip(m);
    NatToStringRoundTrip(n);
  }

  /** Leading zeros do not change the value of a numeral. */
  lemma {:induction false} LeadingZerosIgnored(z: string, s: string)
    requires forall i :: 0 <= i < |z| ==> z[i] == '0'
    requires AllDigits(s)
    ensures AllDigits(z + s)
    ensures StringToNat(z + s) == StringToNat(s)
  {
    assert forall i :: 0 <= i < |z| ==> IsDigit(z[i]);
    if |s| == 0 {
      assert z + s == z;
      if |z| > 0 {
        LeadingZerosIgnored(z[..|z| - 1], s);
        assert z[..|z| - 1] + s == z[..|z| - 1];
      }
    } else {
      LeadingZerosIgnored(z, s[..|s| - 1]);
      assert (z + s)[..|z + s| - 1] == z + s[..|s| - 1];
    }
  }

  /** `s.padStart(width, fill)`: s preceded by enough copies of fill to reach width. */
  function PadStart(s: string, width: nat, fill: char): (r: string)
    ensures |r| == if |s| >= width then |s| else width
    ensures r[|r| - |s|..] == s
  {
    if |s| >= width then s else seq(width - |s|, _ => fill) + s
  }

  /** Everything `padStart` puts in front of s is the fill character. */
  lemma PadStartFill(s: string, width: nat, fill: char)
    ensures var r := PadStart(s, width, fill);
      forall i :: 0 <= i < |r| - |s| ==> r[i] == fill
  {
  }

  /** A zero-padded numeral reads back as the number padded. */
  lemma PadStartRoundTrip(n: nat, width: nat)
    ensures AllDigits(PadStart(NatToString(n), width, '0'))
    ensures StringToNat(PadStart(NatToString(n), width, '0')) == n
  {
    var s := NatToString(n);
    var r := PadStart(s, width, '0');
    var z := r[..|r| - |s|];
    assert r == z + s;
    PadStartFill(s, width, '0');
    LeadingZerosIgnored(z, s);
    NatToStringRoundTrip(n);
  }

  /** The integer nearest to x, halves rounded up. */
  function RoundHalfUp(x: real): (n: nat)
    requires x >= 0.0
    ensures x - 0.5 < n as real <= x + 0.5
  {
    (x + 0.5).Floor
  }

  /** n / 10^places written with exactly `places` fraction digits, e.g. 12345 at 4 places is "1.2345". */
  function FixedPoint(n: nat, places: nat): (s: string)
    requires places > 0
  {
    NatToString(n / Pow10(places)) + "." + PadStart(NatToString(n % Pow10(places)), places, '0')
  }

  /** The digits before the point of a fixed-point numeral with `places` fraction digits. */
  function WholeDigits(s: string, places: nat): string
    requires |s| > places
  {
    s[..|s| - places - 1]
  }

  /** The `places` digits after the point of a fixed-point numeral. */
  function FractionDigits(s: string, places: nat): string
    requires |s| > places
  {
    s[|s| - places..]
  }

  /** The scaled integer a fixed-point numeral denotes: whole * 10^places + fraction. */
  function FixedPointValue(s: string, places: nat): nat
    requires |s| > places
    requires AllDigits(WholeDigits(s, places)) && AllDigits(FractionDigits(s, places))
  {
    StringToNat(WholeDigits(s, places)) * Pow10(places) + StringToNat(FractionDigits(s, places))
  }

  /** A text made of w, one separator character and f splits back into w and f around it. */
  lemma AroundSeparator(w: string, c: char, f: string)
    ensures |w + [c] + f| == |w| + 1 + |f|
    ensures (w + [c] + f)[|w|] == c
    ensures (w + [c] + f)[..|w|] == w
    ensures (w + [c] + f)[|w| + 1..] == f
  {
  }

  /** The parts of `FixedPoint(n, places)`: the quotient's numeral, a point, the padded remainder. */
  lemma FixedPointParts(n: nat, places: nat)
    requires places > 0
    ensures |FixedPoint(n, places)| > places
    ensures FixedPoint(n, places)[|FixedPoint(n, places)| - places - 1] == '.'
    ensures WholeDigits(FixedPoint(n, places), places) == NatToString(n / Pow10(places))
    ensures FractionDigits(FixedPoint(n, places), places) == PadStart(NatToString(n % Pow10(places)), places, '0')
  {
    var p := Pow10(places);
    var q, r := n / p, n % p;
    DivMod(n, p);
    var whole := NatToString(q);
    var frac := PadStart(NatToString(r), places, '0');
    NatToStringLength(r, places);
    assert |frac| == places;
    AroundSeparator(whole, '.', frac);
    var s := whole + "." + frac;
    assert FixedPoint(n, places) == s;
    assert |s| - places - 1 == |whole|;
    assert WholeDigits(s, places) == whole;
    assert FractionDigits(s, places) == frac;
  }

  /** A numeral of `places` fraction digits reads back as the scaled integer it was printed from. */
  lemma FixedPointRoundTrip(n: nat, places: nat)
    requires places > 0
    ensures |FixedPoint(n, places)| > places
    ensures FixedPoint(n, places)[|FixedPoint(n, places)| - places - 1] == '.'
    ensures AllDigits(WholeDigits(FixedPoint(n, places), places))
    ensures AllDigits(FractionDigits(FixedPoint(n, places), places))
    ensures FixedPointValue(FixedPoint(n, places), places) == n
  {
    var p := Pow10(places);
    var s := FixedPoint(n, places);
    FixedPointParts(n, places);
    var q, r := n / p, n % p;
    assert AllDigits(WholeDigits(s, places)) && StringToNat(WholeDigits(s, places)) == q by {
      NatToStringRoundTrip(q);
    }
    assert AllDigits(FractionDigits(s, places)) && StringToNat(FractionDigits(s, places)) == r by {
      PadStartRoundTrip(r, places);
    }
    assert FixedPointValue(s, places) == n by {
      FixedPointValueOfParts(s, places, q, r);
      DivMod(n, p);
    }
  }

  lemma FixedPointValueOfParts(s: string, places: nat, q: nat, r: nat)
    requires |s| > places
    requires AllDigits(WholeDigits(s, places)) && AllDigits(FractionDigits(s, places))
    requires StringToNat(WholeDigits(s, places)) == q
    requires StringToNat(FractionDigits(s, places)) == r
    ensures FixedPointValue(s, places) == q * Pow10(places) + r
  {
  }

  /** A number below 10^k prints in at most k digits (k at least one). */
  lemma {:induction false} NatToStringLength(n: nat, k: nat)
    requires k > 0
    requires n < Pow10(k)
    ensures |NatToString(n)| <= k
  {
    if n >= 10 {
      assert k > 1;
      assert n / 10 < Pow10(k - 1);
      NatToStringLength(n / 10, k - 1);
    }
  }

  /** x shifted `places` decimal digits to the left: x * 10^places. */
  function Shift(x: real, places: nat): (y: real)
    requires x >= 0.0
    ensures y >= 0.0
  {
    x * Pow10(places) as real
  }

  /** `x.toFixed(places)` for an exact non-negative x: the numeral of x rounded to `places` decimals. */
  function ToFixed(x: real, places: nat): (s: string)
    requires x >= 0.0
    requires places > 0
  {
    FixedPoint(RoundHalfUp(Shift(x, places)), places)
  }

  /** The digits of `x.toFixed(places)` denote a value within half a unit in the last place of x. */
  lemma ToFixedIsNearest(x: real, places: nat)
    requires x >= 0.0
    requires places > 0
    ensures |ToFixed(x, places)| > places
    ensures ToFixed(x, places)[|ToFixed(x, places)| - places - 1] == '.'
    ensures AllDigits(WholeDigits(ToFixed(x, places), places))
    ensures AllDigits(FractionDigits(ToFixed(x, places), places))
    ensures Shift(x, places) - 0.5 < FixedPointValue(ToFixed(x, places), places) as real
    ensures FixedPointValue(ToFixed(x, places), places) as real <= Shift(x, places) + 0.5
  {
    var n := RoundHalfUp(Shift(x, places));
    FixedPointRoundTrip(n, places);
    var v := FixedPointValue(ToFixed(x, places), places);
    assert v == n;
    assert v as real == n as real;
  }
}
