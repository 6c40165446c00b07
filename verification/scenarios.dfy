/** Worked conversions: concrete requests and the exact text the converter
    shows for them. */
module Scenarios {
  import opened Decimal
  import opened NumberFormat
  import opened Rates
  import opened Converter

  /** 10 kg is 22.0462 lb, shown as "22.05". */
  lemma KilogramsToPounds()
    ensures Convert(Weight, "kg", "lb", "10") == Ok("22.05")
  {
    ReadsTen();
    KilogramsToPoundsValue();
    RendersTwentyTwo();
    Converts(Weight, "kg", "lb", "10", 10.0, "22.05");
  }

  lemma KilogramsToPoundsValue()
    ensures Compute(Weight, "kg", "lb", 10.0) == 22.0462
  {
  }

  lemma RendersTwentyTwo()
    ensures ToFixed2(22.0462) == "22.05"
  {
    calc {
      ToFixed2(22.0462);
      { ToFixedShape(22.0462); TwentyTwoHundredths(); }
      "" + DecimalDigits(22) + "." + [DigitChar(0), DigitChar(5)];
      { TwoDigitNumber(2, 2); }
      "22.05";
    }
  }

  lemma TwentyTwoHundredths()
    ensures Hundredths(22.0462) == 2205
  {
  }

  /** 100 US dollars are 93 euros. */
  lemma DollarsToEuros()
    ensures Convert(Currency, "usd", "eur", "100") == Ok("93.00")
  {
    ReadsHundred();
    DollarsToEurosValue();
    RendersNinetyThree();
    Converts(Currency, "usd", "eur", "100", 100.0, "93.00");
  }

  lemma DollarsToEurosValue()
    ensures Compute(Currency, "usd", "eur", 100.0) == 93.0
  {
  }

  /** 98.6 degrees Fahrenheit are 37 degrees Celsius. */
  lemma FeverToCelsius()
    ensures Convert(Temperature, "F", "C", "98.6") == Ok("37.00")
  {
    ParsesFever();
    FeverToCelsiusValue();
    RendersThirtySeven();
    Converts(Temperature, "F", "C", "98.6", 98.6, "37.00");
  }

  lemma FeverToCelsiusValue()
    ensures Compute(Temperature, "F", "C", 98.6) == 37.0
  {
    TemperatureFormulas(98.6);
  }

  /** The area branch, as written, turns a million square metres into 10^12
      square kilometres rather than one. */
  lemma SquareMetresToSquareKilometres()
    ensures Convert(Area, "squareMeter", "squareKilometer", "1000000")
            == Ok("1000000000000.00")
  {
    AreaPowerOfTen(6);
    MillionText();
    TrillionText();
  }

  /** As written, the area branch sends 10^k square metres to 10^(k+6)
      square kilometres. The bound keeps the result below 10^21, where
      `toFixed` would switch to exponent notation. */
  lemma AreaPowerOfTen(k: nat)
    requires k <= 14
    ensures Convert(Area, "squareMeter", "squareKilometer", "1" + Zeros(k))
            == Ok("1" + Zeros(k + 6) + ".00")
  {
    ReadsPower(k);
    AreaPowerValue(k);
    RendersPower(k + 6);
    Converts(Area, "squareMeter", "squareKilometer", "1" + Zeros(k), Pow10(k) as real,
             "1" + Zeros(k + 6) + ".00");
  }

  lemma ReadsPower(k: nat)
    ensures ParseDecimal("1" + Zeros(k)) == Some(Pow10(k) as real)
  {
    PowerDigits(k);
    ParseWhole(Pow10(k));
  }

  lemma RendersPower(k: nat)
    ensures ToFixed2(Pow10(k) as real) == "1" + Zeros(k) + ".00"
  {
    PowerDigits(k);
    ToFixedWhole(Pow10(k));
  }

  lemma AreaPowerValue(k: nat)
    ensures Compute(Area, "squareMeter", "squareKilometer", Pow10(k) as real) == Pow10(k + 6) as real
  {
    PowerShift(k, 6);
    assert Pow10(6) == 1000000;
  }

  lemma MillionText()
    ensures "1" + Zeros(6) == "1000000"
  {
  }

  lemma TrillionText()
    ensures "1" + Zeros(12) + ".00" == "1000000000000.00"
  {
  }

  /** The empty text is rejected. */
  lemma RejectsEmptyText(c: Category, a: string, b: string)
    ensures Convert(c, a, b, "") == Invalid
  {
  }

  /** Any text outside the decimal-literal grammar is rejected. */
  lemma RejectsNonNumeric(c: Category, a: string, b: string, s: string)
    requires !IsDecimalLiteral(s)
    ensures Convert(c, a, b, s) == Invalid
  {
    DecimalGrammar(s);
  }

  /** A lone point, a lone sign and a second point are outside the grammar. */
  lemma RejectsMalformed(c: Category, a: string, b: string)
    ensures Convert(c, a, b, ".") == Invalid
    ensures Convert(c, a, b, "+") == Invalid
    ensures Convert(c, a, b, "1.2.3") == Invalid
  {
    assert !IsUnsignedLiteral(".") by {
      assert !IsDigit("."[0]);
    }
    assert "+"[1..] == [];
    assert !IsUnsignedLiteral("1.2.3") by {
      assert "1.2.3"[1] == '.' && "1.2.3"[3] == '.';
    }
    RejectsNonNumeric(c, a, b, ".");
    RejectsNonNumeric(c, a, b, "+");
    RejectsNonNumeric(c, a, b, "1.2.3");
  }

  /** A trailing point, a bare fraction with a sign, and a negative
      fraction are all read as numbers. */
  lemma ReadsTrailingPoint()
    ensures ParseDecimal("7.") == Some(7.0)
  {
    SignedPointed("", "7", "");
    assert "" + "7" + "." + "" == "7.";
    assert DigitsValue("7") == 7 by {
      assert "7"[..0] == "";
    }
  }

  lemma ReadsSignedFraction()
    ensures ParseDecimal("+.25") == Some(0.25)
  {
    SignedPointed("+", "", "25");
    assert "+" + "" + "." + "25" == "+.25";
    assert DigitsValue("25") == 25 by {
      assert "25"[..1] == "2" && "2"[..0] == "";
    }
    assert Scale(2) == 100.0;
  }

  lemma ReadsNegative()
    ensures ParseDecimal("-3.5") == Some(-3.5)
  {
    SignedPointed("-", "3", "5");
    assert "-" + "3" + "." + "5" == "-3.5";
    assert DigitsValue("3") == 3 by {
      assert "3"[..0] == "";
    }
    assert DigitsValue("5") == 5 by {
      assert "5"[..0] == "";
    }
    assert Scale(1) == 10.0;
  }

  /** Text made of letters is rejected. */
  lemma RejectsLetters(c: Category, a: string, b: string)
    ensures Convert(c, a, b, "abc") == Invalid
  {
    assert "abc"[0] == 'a';
    assert DotIndex("abc") == 3;
  }

  /** A name that is not a unit of the category is rejected, whatever the
      other name and the text. */
  lemma RejectsUnknownUnit(c: Category, a: string, b: string, s: string)
    requires a !in ConversionRates(c) || b !in ConversionRates(c)
    ensures Convert(c, a, b, s) == Invalid
  {
  }

  /** A unit of another category is not known: "lb" is not a length. */
  lemma RejectsForeignUnit()
    ensures Convert(Length, "lb", "m", "5") == Invalid
  {
    RejectsUnknownUnit(Length, "lb", "m", "5");
  }

  // ---------------------------------------------------------------------------
  // Steps shared by the scenarios

  lemma Converts(c: Category, a: string, b: string, text: string, x: real, shown: string)
    requires ParseDecimal(text) == Some(x)
    requires a in ConversionRates(c) && b in ConversionRates(c)
    requires ToFixed2(Compute(c, a, b, x)) == shown
    ensures Convert(c, a, b, text) == Ok(shown)
  {
  }

  lemma ReadsTen()
    ensures ParseDecimal("10") == Some(10.0)
  {
    assert DecimalDigits(10) == "10" by {
      assert DecimalDigits(1) == "1";
    }
    ParseWhole(10);
  }

  lemma ReadsHundred()
    ensures ParseDecimal("100") == Some(100.0)
  {
    PowerDigits(2);
    ParseWhole(Pow10(2));
    assert "1" + Zeros(2) == "100";
  }

  lemma RendersNinetyThree()
    ensures ToFixed2(93.0) == "93.00"
  {
    calc {
      ToFixed2(93.0);
      { ToFixedWhole(93); }
      DecimalDigits(93) + ".00";
      { TwoDigitNumber(9, 3); }
      "93.00";
    }
  }

  lemma RendersThirtySeven()
    ensures ToFixed2(37.0) == "37.00"
  {
    calc {
      ToFixed2(37.0);
      { ToFixedWhole(37); }
      DecimalDigits(37) + ".00";
      { TwoDigitNumber(3, 7); }
      "37.00";
    }
  }

  /** The digits of a two-digit number. */
  lemma TwoDigitNumber(a: nat, b: nat)
    requires 1 <= a <= 9 && b <= 9
    ensures DecimalDigits(10 * a + b) == [DigitChar(a), DigitChar(b)]
  {
    assert (10 * a + b) / 10 == a && (10 * a + b) % 10 == b;
  }

  lemma ParsesFever()
    ensures ParseDecimal("98.6") == Some(98.6)
  {
    SignedPointed("", "98", "6");
    assert "" + "98" + "." + "6" == "98.6";
    assert PointValue("98", "6") == 98.6 by {
      assert DigitsValue("98") == 98 by {
        assert "98"[..1] == "9";
      }
      assert DigitsValue("6") == 6 by {
        assert "6"[..0] == "";
      }
      assert Scale(1) == 10.0;
    }
  }
}
