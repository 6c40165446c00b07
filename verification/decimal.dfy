/** Decimal text: reading a numeric literal typed by the user, and writing the
    digits of a natural number.

    The converter accepts its input only when the text is a plain decimal
    literal: an optional sign, then digits with an optional fractional part
    ("10", "-3.5", "+.25", "7."). The same reading stands for both the
    numeric-ness check and the numeric parse that the conversion performs. */
module Decimal {

  datatype Option<+T> = None | Some(value: T)

  predicate IsDigit(c: char) {
    '0' <= c <= '9'
  }

  predicate AllDigits(s: string) {
    forall i :: 0 <= i < |s| ==> IsDigit(s[i])
  }

  function DigitOf(c: char): (d: nat)
    requires IsDigit(c)
    ensures d < 10
  {
    (c - '0') as nat
  }

  function DigitChar(d: nat): (c: char)
    requires d < 10
    ensures IsDigit(c) && DigitOf(c) == d
  {
    ('0' as int + d) as char
  }

  function Pow10(k: nat): (p: nat)
    ensures p >= 1
  {
    if k == 0 then 1 else 10 * Pow10(k - 1)
  }

  /** 10^k as a real, the divisor of a `k`-digit fraction. */
  function Scale(k: nat): (p: real)
    ensures p >= 1.0
  {
    Pow10(k) as real
  }

  /** The value of a string of decimal digits, most significant first; the
      empty string reads as 0. */
  function DigitsValue(s: string): nat
    requires AllDigits(s)
  {
    if s == [] then 0 else 10 * DigitsValue(s[..|s| - 1]) + DigitOf(s[|s| - 1])
  }

  /** The decimal representation of `n` with no leading zero ("0" for zero). */
  function DecimalDigits(n: nat): (m: string)
    ensures |m| >= 1 && AllDigits(m)
    ensures m[0] == '0' ==> m == "0"
    ensures |m| == 1 <==> n < 10
  {
    if n < 10 then [DigitChar(n)] else DecimalDigits(n / 10) + [DigitChar(n % 10)]
  }

  /** The digits written for `n` read back as `n`. */
  lemma {:induction false} DecimalDigitsValue(n: nat)
    ensures DigitsValue(DecimalDigits(n)) == n
  {
    if n >= 10 {
      var m := DecimalDigits(n);
      assert m[..|m| - 1] == DecimalDigits(n / 10);
      DecimalDigitsValue(n / 10);
    }
  }

  /** A string of `k` zero digits. */
  function Zeros(k: nat): (z: string)
    ensures |z| == k && AllDigits(z)
    ensures forall i :: 0 <= i < k ==> z[i] == '0'
  {
    if k == 0 then [] else Zeros(k - 1) + ['0']
  }

  /** The position of the first '.' in `s`, or `|s|` when there is none. */
  function DotIndex(s: string): (i: nat)
    ensures i <= |s|
    ensures i < |s| ==> s[i] == '.'
    ensures forall j :: 0 <= j < i ==> s[j] != '.'
  {
    if s == [] then 0
    else if s[0] == '.' then 0
    else 1 + DotIndex(s[1..])
  }

  /** The grammar of an unsigned decimal literal, stated on its own: only
      digits and points, no two points, and at least one digit. */
  predicate IsUnsignedLiteral(s: string) {
    (forall i :: 0 <= i < |s| ==> IsDigit(s[i]) || s[i] == '.')
    && (forall i, j :: 0 <= i < j < |s| && s[i] == '.' ==> s[j] != '.')
    && (exists i :: 0 <= i < |s| && IsDigit(s[i]))
  }

  predicate IsSign(c: char) {
    c == '-' || c == '+'
  }

  /** The grammar of a signed decimal literal: an optional '+' or '-' before
      an unsigned one. */
  predicate IsDecimalLiteral(s: string) {
    if s != [] && IsSign(s[0]) then IsUnsignedLiteral(s[1..]) else IsUnsignedLiteral(s)
  }

  /** An unsigned decimal literal: `digits`, `digits.`, `digits.digits` or
      `.digits`; at least one digit overall. */
  function ParseUnsigned(s: string): (r: Option<real>)
    ensures r.Some? ==> s != [] && r.value >= 0.0
    ensures r.Some? ==> forall i :: 0 <= i < |s| ==> IsDigit(s[i]) || s[i] == '.'
  {
    var i := DotIndex(s);
    var whole := s[..i];
    var frac := if i < |s| then s[i + 1..] else "";
    if AllDigits(whole) && AllDigits(frac) && |whole| + |frac| > 0 then
      assert forall j :: 0 <= j < i ==> s[j] == whole[j];
      assert forall j :: i < j < |s| ==> s[j] == frac[j - i - 1];
      Some(PointValue(whole, frac))
    else
      None
  }

  /** The value of the literal `whole.frac`. */
  function PointValue(whole: string, frac: string): real
    requires AllDigits(whole) && AllDigits(frac)
  {
    DigitsValue(whole) as real + DigitsValue(frac) as real / Scale(|frac|)
  }

  /** A signed decimal literal: an optional '+' or '-' before an unsigned one.
      Anything else (the empty text, letters, a second point, a bare sign)
      is rejected. */
  function ParseDecimal(s: string): (r: Option<real>)
    ensures r.Some? ==> s != []
    ensures r.Some? ==> forall i :: 0 <= i < |s| ==>
              IsDigit(s[i]) || s[i] == '.' || (i == 0 && (s[i] == '-' || s[i] == '+'))
  {
    if s != [] && s[0] == '-' then
      match ParseUnsigned(s[1..])
      case None => None
      case Some(v) => Some(-v)
    else if s != [] && s[0] == '+' then
      ParseUnsigned(s[1..])
    else
      ParseUnsigned(s)
  }

  // ---------------------------------------------------------------------------
  // The parser accepts exactly the grammar

  /** The parser accepts exactly the texts of the grammar. */
  lemma DecimalGrammar(s: string)
    ensures ParseDecimal(s).Some? <==> IsDecimalLiteral(s)
  {
    if s != [] && IsSign(s[0]) {
      UnsignedGrammar(s[1..]);
    } else {
      UnsignedGrammar(s);
    }
  }

  lemma UnsignedGrammar(s: string)
    ensures ParseUnsigned(s).Some? <==> IsUnsignedLiteral(s)
  {
    SplitGrammar(s);
  }

  /** Splitting at the first point leaves two digit strings, not both empty,
      exactly when the text is an unsigned literal. */
  lemma SplitGrammar(s: string)
    ensures var i := DotIndex(s);
            var whole := s[..i];
            var frac := if i < |s| then s[i + 1..] else "";
            AllDigits(whole) && AllDigits(frac) && |whole| + |frac| > 0
            <==> IsUnsignedLiteral(s)
  {
    var i := DotIndex(s);
    var whole := s[..i];
    var frac := if i < |s| then s[i + 1..] else "";
    if AllDigits(whole) && AllDigits(frac) && |whole| + |frac| > 0 {
      SplitIsLiteral(s, i, whole, frac);
    }
    if IsUnsignedLiteral(s) {
      LiteralSplits(s, i, whole, frac);
    }
  }

  lemma SplitIsLiteral(s: string, i: nat, whole: string, frac: string)
    requires i == DotIndex(s) && whole == s[..i]
    requires frac == if i < |s| then s[i + 1..] else ""
    requires AllDigits(whole) && AllDigits(frac) && |whole| + |frac| > 0
    ensures IsUnsignedLiteral(s)
  {
    DigitsAround(s, i, whole, frac);
    if |whole| > 0 {
      assert IsDigit(s[0]);
    } else {
      assert IsDigit(s[i + 1]);
    }
  }

  lemma DigitsAround(s: string, i: nat, whole: string, frac: string)
    requires i <= |s| && whole == s[..i]
    requires frac == if i < |s| then s[i + 1..] else ""
    requires AllDigits(whole) && AllDigits(frac)
    ensures forall j :: 0 <= j < |s| && j != i ==> IsDigit(s[j])
  {
    forall j | 0 <= j < |s| && j != i
      ensures IsDigit(s[j])
    {
      if j < i {
        assert s[j] == whole[j];
      } else {
        assert s[j] == frac[j - i - 1];
      }
    }
  }

  lemma LiteralSplits(s: string, i: nat, whole: string, frac: string)
    requires i == DotIndex(s) && whole == s[..i]
    requires frac == if i < |s| then s[i + 1..] else ""
    requires IsUnsignedLiteral(s)
    ensures AllDigits(whole) && AllDigits(frac) && |whole| + |frac| > 0
  {
    assert forall j :: 0 <= j < i ==> whole[j] == s[j];
    assert forall j :: 0 <= j < |frac| ==> frac[j] == s[j + i + 1];
    var k :| 0 <= k < |s| && IsDigit(s[k]);
    assert k != i || i == |s|;
  }

  // ---------------------------------------------------------------------------
  // Facts about digit strings

  lemma {:induction false} DigitsValueConcat(a: string, b: string)
    requires AllDigits(a) && AllDigits(b)
    ensures AllDigits(a + b)
    ensures DigitsValue(a + b) == DigitsValue(a) * Pow10(|b|) + DigitsValue(b)
  {
    assert AllDigits(a + b);
    if b == [] {
      assert a + b == a;
    } else {
      var b' := b[..|b| - 1];
      assert (a + b)[..|a + b| - 1] == a + b';
      assert (a + b)[|a + b| - 1] == b[|b| - 1];
      DigitsValueConcat(a, b');
      var d := DigitOf(b[|b| - 1]);
      assert b[..|b| - 1] == b';
      assert DigitsValue(b) == 10 * DigitsValue(b') + d;
      assert Pow10(|b|) == 10 * Pow10(|b'|);
      ShiftDigit(DigitsValue(a), Pow10(|b'|), DigitsValue(b'), d);
    }
  }

  lemma {:induction false} ZerosValue(k: nat)
    ensures DigitsValue(Zeros(k)) == 0
  {
    if k > 0 {
      assert Zeros(k)[..k - 1] == Zeros(k - 1);
      ZerosValue(k - 1);
    }
  }

  lemma {:induction false} DotAfterDigits(whole: string, frac: string)
    requires AllDigits(whole)
    ensures DotIndex(whole + "." + frac) == |whole|
  {
    var s := whole + "." + frac;
    if whole != [] {
      assert s[1..] == whole[1..] + "." + frac;
      DotAfterDigits(whole[1..], frac);
    }
  }

  /** A digit string with no '.' and at least one digit reads back as its value. */
  lemma ParseDigits(d: string)
    requires AllDigits(d) && d != []
    ensures ParseUnsigned(d) == Some(DigitsValue(d) as real)
  {
    var i := DotIndex(d);
    assert i == |d| by {
      assert i < |d| ==> IsDigit(d[i]);
    }
    assert d[..i] == d;
    assert PointValue(d, "") == DigitsValue(d) as real;
  }

  /** The digits written for `n` read back as `n`. */
  lemma ParseWhole(n: nat)
    ensures ParseDecimal(DecimalDigits(n)) == Some(n as real)
  {
    var m := DecimalDigits(n);
    DecimalDigitsValue(n);
    ParseDigits(m);
  }

  /** `whole.frac` with both parts digit strings reads back as the number
      whose hundredths (for two fraction digits) are the digits of
      `whole + frac`. */
  lemma ParsePointed(whole: string, frac: string)
    requires AllDigits(whole) && AllDigits(frac) && |whole| + |frac| > 0
    ensures ParseUnsigned(whole + "." + frac)
            == Some(DigitsValue(whole + frac) as real / Scale(|frac|))
  {
    PointedText(whole, frac);
    PointValueJoined(whole, frac);
  }

  lemma PointedText(whole: string, frac: string)
    requires AllDigits(whole) && AllDigits(frac) && |whole| + |frac| > 0
    ensures ParseUnsigned(whole + "." + frac) == Some(PointValue(whole, frac))
  {
    var s := whole + "." + frac;
    DotAfterDigits(whole, frac);
    assert s[..|whole|] == whole;
    assert s[|whole| + 1..] == frac;
  }

  lemma PointValueJoined(whole: string, frac: string)
    requires AllDigits(whole) && AllDigits(frac)
    ensures AllDigits(whole + frac)
    ensures PointValue(whole, frac) == DigitsValue(whole + frac) as real / Scale(|frac|)
  {
    DigitsValueConcat(whole, frac);
    SplitQuotient(DigitsValue(whole), DigitsValue(frac), Pow10(|frac|));
  }

  /** The value of a signed literal with a point: the sign, then the whole
      part plus the fraction digits over 10 to the power of their count. */
  lemma SignedPointed(sign: string, whole: string, frac: string)
    requires sign == "" || sign == "+" || sign == "-"
    requires AllDigits(whole) && AllDigits(frac) && |whole| + |frac| > 0
    ensures ParseDecimal(sign + whole + "." + frac)
            == Some(WithSign(sign, PointValue(whole, frac)))
  {
    var body := whole + "." + frac;
    calc {
      ParseDecimal(sign + whole + "." + frac);
      { assert sign + whole + "." + frac == sign + body; }
      ParseDecimal(sign + body);
      { PointedBody(whole, frac); SignedText(sign, body); }
      Some(WithSign(sign, PointValue(whole, frac)));
    }
  }

  lemma PointedBody(whole: string, frac: string)
    requires AllDigits(whole) && AllDigits(frac) && |whole| + |frac| > 0
    ensures var body := whole + "." + frac;
            body != [] && !IsSign(body[0]) && ParseUnsigned(body) == Some(PointValue(whole, frac))
  {
    PointedText(whole, frac);
    assert (whole + "." + frac)[0] == if whole != [] then whole[0] else '.';
  }

  /** The value `v` read after the sign `sign`. */
  function WithSign(sign: string, v: real): real {
    if sign == "-" then -v else v
  }

  /** The value of a signed literal without a point. */
  lemma SignedWhole(sign: string, whole: string)
    requires sign == "" || sign == "+" || sign == "-"
    requires AllDigits(whole) && whole != []
    ensures ParseDecimal(sign + whole)
            == Some(WithSign(sign, DigitsValue(whole) as real))
  {
    ParseDigits(whole);
    SignedValue(sign, whole, DigitsValue(whole) as real);
  }

  /** A sign in front of an unsigned literal of value `v` that starts with a
      digit or a point gives `v` or `-v`. */
  lemma SignedValue(sign: string, body: string, v: real)
    requires sign == "" || sign == "+" || sign == "-"
    requires body != [] && !IsSign(body[0])
    requires ParseUnsigned(body) == Some(v)
    ensures ParseDecimal(sign + body) == Some(WithSign(sign, v))
  {
    SignedText(sign, body);
  }

  /** A sign in front of an unsigned literal that starts with a digit or a
      point is read as the sign of its value. */
  lemma SignedText(sign: string, body: string)
    requires sign == "" || sign == "+" || sign == "-"
    requires body != [] && !IsSign(body[0])
    ensures ParseDecimal(sign + body)
            == if sign != "-" then ParseUnsigned(body)
               else if ParseUnsigned(body).Some? then Some(-ParseUnsigned(body).value)
               else None
  {
    if sign == "-" {
      MinusText(body);
    } else if sign == "+" {
      PlusText(body);
    } else {
      BareText(body);
    }
  }

  lemma MinusText(body: string)
    ensures ParseDecimal("-" + body)
            == if ParseUnsigned(body).Some? then Some(-ParseUnsigned(body).value) else None
  {
    assert ("-" + body)[1..] == body;
  }

  lemma PlusText(body: string)
    ensures ParseDecimal("+" + body) == ParseUnsigned(body)
  {
    assert ("+" + body)[1..] == body;
  }

  lemma BareText(body: string)
    requires body != [] && !IsSign(body[0])
    ensures ParseDecimal("" + body) == ParseUnsigned(body)
  {
    assert "" + body == body;
  }

  // Arithmetic steps kept apart from the string reasoning above.

  lemma ShiftDigit(a: int, p: int, b: int, d: int)
    ensures 10 * (a * p + b) + d == a * (10 * p) + (10 * b + d)
  {
  }

  lemma SplitQuotient(w: int, f: int, p: int)
    requires p > 0
    ensures (w * p + f) as real / p as real == w as real + f as real / p as real
  {
    assert (w * p + f) as real == w as real * p as real + f as real;
  }

  /** The digits of 10^k are a one followed by k zeros. */
  lemma {:induction false} PowerDigits(k: nat)
    ensures DecimalDigits(Pow10(k)) == "1" + Zeros(k)
  {
    if k > 0 {
      var p := Pow10(k - 1);
      calc {
        DecimalDigits(Pow10(k));
        DecimalDigits(10 * p);
        { AppendZero(p); }
        DecimalDigits(p) + "0";
        { PowerDigits(k - 1); }
        "1" + Zeros(k - 1) + "0";
        "1" + Zeros(k);
      }
    }
  }

  /** 10^(k+j) is 10^k times 10^j. */
  lemma {:induction false} PowerShift(k: nat, j: nat)
    ensures Pow10(k + j) == Pow10(k) * Pow10(j)
  {
    if j > 0 {
      PowerShift(k, j - 1);
      assert Pow10(k + j) == 10 * Pow10(k + j - 1);
    }
  }

  /** Multiplying a positive number by ten appends a zero digit. */
  lemma AppendZero(p: nat)
    requires p >= 1
    ensures DecimalDigits(10 * p) == DecimalDigits(p) + "0"
  {
    assert (10 * p) / 10 == p && (10 * p) % 10 == 0;
  }
}
