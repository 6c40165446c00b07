/** Rendering a result with `Number.prototype.toFixed(2)`, following section
    21.1.3.3 of ECMA-262 (2023 edition) with the fraction-digit count fixed
    at 2, over exact reals.

    The algorithm: emit "-" and continue with -x when x < 0; pick the integer
    n for which n / 100 - x is as close to zero as possible, the larger n on
    a tie; write the digits of n ("0" when n = 0), left-pad them with zeros
    to at least 3 digits, and put a "." before the last 2. */
module NumberFormat {
  import opened Decimal

  function Abs(x: real): (a: real)
    ensures a >= 0.0 && (a == x || a == -x)
  {
    if x < 0.0 then -x else x
  }

  /** The integer nearest to `y`, the larger of two equally near ones. */
  function Nearest(y: real): (n: int)
    ensures y - 0.5 < n as real <= y + 0.5
  {
    (y + 0.5).Floor
  }

  /** The n of the standard's algorithm: the count of hundredths nearest to
      |x|, the larger on a tie. */
  function Hundredths(x: real): (n: nat)
    ensures Abs(x) * 100.0 - 0.5 < n as real <= Abs(x) * 100.0 + 0.5
  {
    Nearest(Abs(x) * 100.0)
  }

  /** `x.toFixed(2)`: a "-" exactly when x is negative, and exactly two
      digits after the one point. */
  function ToFixed2(x: real): (t: string)
    ensures |t| >= 4 && (t[0] == '-' <==> x < 0.0)
    ensures t[|t| - 3] == '.' && IsDigit(t[|t| - 2]) && IsDigit(t[|t| - 1])
  {
    FixedDigitsEnds(Hundredths(x));
    (if x < 0.0 then "-" else "") + FixedDigits(Hundredths(x))
  }

  /** The unsigned text for `n / 100`: the digits of `n`, padded to at least
      three, with a "." before the last two. */
  function FixedDigits(n: nat): string
  {
    var m := Pad(DecimalDigits(n), 3);
    m[..|m| - 2] + "." + m[|m| - 2..]
  }

  /** `m` left-padded with zeros to at least `width` digits. */
  function Pad(m: string, width: nat): (m': string)
    requires AllDigits(m)
    ensures |m'| >= width && |m'| >= |m| && AllDigits(m')
    ensures |m'| == (if |m| < width then width else |m|)
    ensures DigitsValue(m') == DigitsValue(m)
  {
    if |m| < width then
      var z := Zeros(width - |m|);
      DigitsValueConcat(z, m);
      ZerosValue(width - |m|);
      z + m
    else m
  }

  /** Padding prepends exactly as many zeros as the width lacks, and none
      when the digits are already wide enough. */
  lemma PadExact(m: string, width: nat)
    requires AllDigits(m)
    ensures var p := Pad(m, width);
            |p| == (if |m| < width then width else |m|) && p == Zeros(|p| - |m|) + m
  {
    if |m| >= width {
      assert Zeros(0) + m == m;
    }
  }

  /** The unsigned text starts with a digit and ends with a point and two
      digits. */
  lemma FixedDigitsEnds(n: nat)
    ensures var t := FixedDigits(n);
            |t| >= 4 && IsDigit(t[0])
            && t[|t| - 3] == '.' && IsDigit(t[|t| - 2]) && IsDigit(t[|t| - 1])
  {
    FixedDigitsForm(n);
  }

  /** The unsigned text is digits with one point, before the last two. */
  lemma FixedDigitsForm(n: nat)
    ensures var t := FixedDigits(n);
            |t| >= 4 && t[|t| - 3] == '.'
            && forall i :: 0 <= i < |t| && i != |t| - 3 ==> IsDigit(t[i])
  {
    var m := Pad(DecimalDigits(n), 3);
    var t := m[..|m| - 2] + "." + m[|m| - 2..];
    assert forall i :: 0 <= i < |m| - 2 ==> t[i] == m[i];
    assert forall i :: |m| - 2 < i < |t| ==> t[i] == m[i - 1];
  }

  /** The number whose text `ToFixed2` produces: x rounded to hundredths. */
  function Rounded2(x: real): (v: real)
    ensures Abs(v - x) <= 0.005
    ensures x >= 0.0 ==> v >= 0.0
    ensures x < 0.0 ==> v <= 0.0
  {
    if x < 0.0 then -(Hundredths(x) as real / 100.0) else Hundredths(x) as real / 100.0
  }

  // ---------------------------------------------------------------------------
  // Rounding

  /** The n chosen by `Nearest` is as close to `y` as any integer, and on a
      tie it is the larger one. */
  lemma NearestIsClosest(y: real, m: int)
    ensures Abs(Nearest(y) as real - y) <= Abs(m as real - y)
    ensures Abs(Nearest(y) as real - y) == Abs(m as real - y) ==> m <= Nearest(y)
  {
    var n := Nearest(y);
    if m > n {
      assert m as real >= n as real + 1.0;
    } else if m < n {
      assert m as real <= n as real - 1.0;
    }
  }

  // ---------------------------------------------------------------------------
  // The text

  /** The unsigned text reads back as `n / 100` and starts with a digit. */
  lemma FixedDigitsRoundTrip(n: nat)
    ensures FixedDigits(n) != [] && IsDigit(FixedDigits(n)[0])
    ensures ParseUnsigned(FixedDigits(n)) == Some(n as real / 100.0)
  {
    var m := Pad(DecimalDigits(n), 3);
    assert FixedDigits(n) == m[..|m| - 2] + "." + m[|m| - 2..];
    DecimalDigitsValue(n);
    PointBeforeLastTwo(m, n);
    assert FixedDigits(n)[0] == m[0];
  }

  /** Putting a point before the last two of at least three digits divides
      their value by a hundred. */
  lemma PointBeforeLastTwo(m: string, v: nat)
    requires |m| >= 3 && AllDigits(m) && DigitsValue(m) == v
    ensures IsDigit(m[0])
    ensures ParseUnsigned(m[..|m| - 2] + "." + m[|m| - 2..]) == Some(v as real / 100.0)
  {
    var a, b := m[..|m| - 2], m[|m| - 2..];
    calc {
      ParseUnsigned(a + "." + b);
      { ParsePointed(a, b); }
      Some(DigitsValue(a + b) as real / Scale(|b|));
      { assert a + b == m && |b| == 2; }
      Some(DigitsValue(m) as real / Scale(2));
      { assert Scale(2) == 100.0; }
      Some(v as real / 100.0);
    }
  }

  /** Reading back the text of `ToFixed2` gives exactly `Rounded2`. */
  lemma FixedRoundTrip(x: real)
    ensures ParseDecimal(ToFixed2(x)) == Some(Rounded2(x))
  {
    var n := Hundredths(x);
    var body := FixedDigits(n);
    var sign := if x < 0.0 then "-" else "";
    FixedDigitsRoundTrip(n);
    assert ToFixed2(x) == sign + body;
    assert Rounded2(x) == WithSign(sign, n as real / 100.0);
    SignedValue(sign, body, n as real / 100.0);
  }

  /** The text is the sign, the digits of n / 100, a point, and the tens and
      units digits of n. */
  lemma ToFixedShape(x: real)
    ensures ToFixed2(x)
            == (if x < 0.0 then "-" else "") + DecimalDigits(Hundredths(x) / 100) + "."
               + [DigitChar(Hundredths(x) % 100 / 10), DigitChar(Hundredths(x) % 10)]
  {
    TwoDigits(Hundredths(x));
  }

  lemma TwoDigits(n: nat)
    ensures FixedDigits(n)
            == DecimalDigits(n / 100) + "." + [DigitChar(n % 100 / 10), DigitChar(n % 10)]
  {
    if n < 10 {
      TwoDigitsBelowTen(n);
    } else if n < 100 {
      TwoDigitsBelowHundred(n);
    } else {
      TwoDigitsFromHundred(n);
    }
  }

  lemma TwoDigitsBelowTen(n: nat)
    requires n < 10
    ensures FixedDigits(n) == "0." + [DigitChar(0), DigitChar(n)]
  {
    var m := DecimalDigits(n);
    assert m == [DigitChar(n)];
    var m' := Pad(m, 3);
    assert m' == "00" + m;
    assert m'[..1] == "0";
    assert m'[1..] == "0" + m;
  }

  lemma TwoDigitsBelowHundred(n: nat)
    requires 10 <= n < 100
    ensures FixedDigits(n) == "0." + [DigitChar(n / 10), DigitChar(n % 10)]
  {
    var m := DecimalDigits(n);
    assert DecimalDigits(n / 10) == [DigitChar(n / 10)];
    assert m == [DigitChar(n / 10), DigitChar(n % 10)];
    var m' := Pad(m, 3);
    assert m' == "0" + m;
    assert m'[..1] == "0";
    assert m'[1..] == m;
  }

  lemma TwoDigitsFromHundred(n: nat)
    requires n >= 100
    ensures FixedDigits(n)
            == DecimalDigits(n / 100) + "." + [DigitChar(n % 100 / 10), DigitChar(n % 10)]
  {
    var a := DecimalDigits(n / 100);
    var tail := [DigitChar(n % 100 / 10), DigitChar(n % 10)];
    var m := DecimalDigits(n);
    assert n / 10 / 10 == n / 100 && n / 10 % 10 == n % 100 / 10;
    assert DecimalDigits(n / 10) == a + [DigitChar(n % 100 / 10)];
    assert m == a + tail;
    assert Pad(m, 3) == m;
    assert m[..|m| - 2] == a;
    assert m[|m| - 2..] == tail;
  }

  /** A whole non-negative number is shown with ".00". */
  lemma ToFixedWhole(w: nat)
    ensures ToFixed2(w as real) == DecimalDigits(w) + ".00"
  {
    calc {
      ToFixed2(w as real);
      FixedDigits(Hundredths(w as real));
      { HundredthsWhole(w); }
      FixedDigits(100 * w);
      { TwoDigits(100 * w); HundredFold(w); }
      DecimalDigits(w) + "." + [DigitChar(0), DigitChar(0)];
      DecimalDigits(w) + ".00";
    }
  }

  lemma HundredthsWhole(w: nat)
    ensures Hundredths(w as real) == 100 * w
  {
  }

  lemma HundredFold(w: nat)
    ensures (100 * w) / 100 == w && (100 * w) % 100 / 10 == 0 && (100 * w) % 10 == 0
  {
  }
}
