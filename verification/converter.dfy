/** The conversion step behind the Convert button: check the input text and
    the two unit names against the table, pick the formula of the selected
    category, and render the result with two decimals, or report
    "Invalid Input". */
module Converter {
  import opened Decimal
  import opened NumberFormat
  import opened Rates

  /** What the result line shows: the sentinel "Invalid Input", or the text
      of a converted value. */
  datatype Outcome = Invalid | Ok(text: string)

  /** JavaScript truthiness of a looked-up entry: a rate of zero is falsy,
      a closure pair is an object and so truthy. */
  predicate Truthy(e: Entry) {
    match e
    case Rate(r) => r != 0.0
    case Bridge(_) => true
  }

  /** The lookup of `u` in the category's table yields a truthy entry. Since
      every entry is truthy, this is exactly membership. */
  function Known(c: Category, u: string): (b: bool)
    ensures b <==> u in ConversionRates(c)
  {
    u in ConversionRates(c) && Truthy(ConversionRates(c)[u])
  }

  /** The guard in front of the formulas: it passes exactly when the text is
      a decimal literal and both names are keys of the table. */
  function Accepts(c: Category, fromUnit: string, toUnit: string, inputValue: string): (b: bool)
    ensures b <==> ParseDecimal(inputValue).Some?
                   && fromUnit in ConversionRates(c) && toUnit in ConversionRates(c)
  {
    inputValue != "" && ParseDecimal(inputValue).Some?
    && fromUnit != "" && toUnit != ""
    && Known(c, fromUnit) && Known(c, toUnit)
  }

  /** The category's formula applied to the parsed input `x`; converting a
      unit to itself leaves the value unchanged, in every category. */
  function Compute(c: Category, fromUnit: string, toUnit: string, x: real): (r: real)
    requires fromUnit in ConversionRates(c) && toUnit in ConversionRates(c)
    ensures fromUnit == toUnit ==> r == x
  {
    if c == Currency then
      (x / RateOf(c, fromUnit)) * RateOf(c, toUnit)
    else if c == Temperature then
      BridgeRoundTrip(toUnit, x);
      Apply(BridgeOf(fromUnit).fromCelsius, Apply(BridgeOf(toUnit).toCelsius, x))
    else if c == Area then
      (x * RateOf(c, fromUnit)) / RateOf(c, toUnit)
    else
      x * (RateOf(c, toUnit) / RateOf(c, fromUnit))
  }

  /** A conversion succeeds exactly when the input is a decimal literal and
      both unit names are keys of the category's table; its text then reads
      back as the converted value rounded to hundredths. */
  function Convert(c: Category, fromUnit: string, toUnit: string, inputValue: string): (r: Outcome)
    ensures r.Ok? <==> ParseDecimal(inputValue).Some?
                       && fromUnit in ConversionRates(c) && toUnit in ConversionRates(c)
    ensures inputValue == "" || fromUnit == "" || toUnit == "" ==> r == Invalid
    ensures r.Ok? ==> r.text == ToFixed2(Compute(c, fromUnit, toUnit, ParseDecimal(inputValue).value))
    ensures r.Ok? ==>
              ParseDecimal(r.text)
              == Some(Rounded2(Compute(c, fromUnit, toUnit, ParseDecimal(inputValue).value)))
  {
    if Accepts(c, fromUnit, toUnit, inputValue) then
      var x := ParseDecimal(inputValue).value;
      FixedRoundTrip(Compute(c, fromUnit, toUnit, x));
      Ok(ToFixed2(Compute(c, fromUnit, toUnit, x)))
    else
      Invalid
  }

  // ---------------------------------------------------------------------------
  // The formulas

  /** The scalar categories keep the reference quantity: weight, length and
      currency multiply by the to-unit's rate over the from-unit's; area, as
      written, by the from-unit's rate over the to-unit's. */
  lemma ScalarLaw(c: Category, a: string, b: string, x: real)
    requires c != Temperature && a in ConversionRates(c) && b in ConversionRates(c)
    ensures c != Area ==> Compute(c, a, b, x) * RateOf(c, a) == x * RateOf(c, b)
    ensures c == Area ==> Compute(c, a, b, x) * RateOf(c, b) == x * RateOf(c, a)
  {
    if c == Area {
      AreaLaw(a, b, x);
    } else {
      RatioLaw(c, a, b, x);
    }
  }

  lemma RatioLaw(c: Category, a: string, b: string, x: real)
    requires c != Temperature && c != Area && a in ConversionRates(c) && b in ConversionRates(c)
    ensures Compute(c, a, b, x) * RateOf(c, a) == x * RateOf(c, b)
  {
    if c == Currency {
      CurrencyLaw(a, b, x);
    } else {
      ProportionLaw(c, a, b, x);
    }
  }

  lemma CurrencyLaw(a: string, b: string, x: real)
    requires a in ConversionRates(Currency) && b in ConversionRates(Currency)
    ensures Compute(Currency, a, b, x) * RateOf(Currency, a) == x * RateOf(Currency, b)
  {
    DivideThenScale(x, RateOf(Currency, a), RateOf(Currency, b), Compute(Currency, a, b, x));
  }

  lemma ProportionLaw(c: Category, a: string, b: string, x: real)
    requires (c == Weight || c == Length) && a in ConversionRates(c) && b in ConversionRates(c)
    ensures Compute(c, a, b, x) * RateOf(c, a) == x * RateOf(c, b)
  {
    assert c != Currency && c != Temperature && c != Area;
    ScaleByRatio(x, RateOf(c, a), RateOf(c, b), Compute(c, a, b, x));
  }

  lemma AreaLaw(a: string, b: string, x: real)
    requires a in ConversionRates(Area) && b in ConversionRates(Area)
    ensures Compute(Area, a, b, x) * RateOf(Area, b) == x * RateOf(Area, a)
  {
    ScaleThenDivide(x, RateOf(Area, a), RateOf(Area, b), Compute(Area, a, b, x));
  }

  lemma DivideThenScale(x: real, ra: real, rb: real, y: real)
    requires ra > 0.0 && y == (x / ra) * rb
    ensures y * ra == x * rb
  {
    assert (x / ra) * ra == x;
  }

  lemma ScaleThenDivide(x: real, ra: real, rb: real, y: real)
    requires rb > 0.0 && y == (x * ra) / rb
    ensures y * rb == x * ra
  {
  }

  lemma ScaleByRatio(x: real, ra: real, rb: real, y: real)
    requires ra > 0.0 && y == x * (rb / ra)
    ensures y * ra == x * rb
  {
    assert (rb / ra) * ra == rb;
  }

  /** Fahrenheit to Celsius and back give the textbook formulas. */
  lemma TemperatureFormulas(x: real)
    ensures Compute(Temperature, "F", "C", x) == (x - 32.0) * 5.0 / 9.0
    ensures Compute(Temperature, "C", "F", x) == x * 9.0 / 5.0 + 32.0
  {
    assert BridgeOf("C") == TempUnit(SubtractThenScale(32.0, 5.0, 9.0), ScaleThenAdd(9.0, 5.0, 32.0));
    assert BridgeOf("F") == TempUnit(Identity, Identity);
  }

  /** Converting A to B and then B to A returns the original value exactly,
      in every category. */
  lemma RoundTrip(c: Category, a: string, b: string, x: real)
    requires a in ConversionRates(c) && b in ConversionRates(c)
    ensures Compute(c, b, a, Compute(c, a, b, x)) == x
  {
    if c == Temperature {
      TemperatureRoundTrip(a, b, x);
    } else {
      ScalarRoundTrip(c, a, b, x);
    }
  }

  lemma TemperatureRoundTrip(a: string, b: string, x: real)
    requires a in ConversionRates(Temperature) && b in ConversionRates(Temperature)
    ensures Compute(Temperature, b, a, Compute(Temperature, a, b, x)) == x
  {
    var y := Compute(Temperature, a, b, x);
    if a != b {
      TemperatureFormulas(x);
      TemperatureFormulas(y);
    }
  }

  lemma ScalarRoundTrip(c: Category, a: string, b: string, x: real)
    requires c != Temperature && a in ConversionRates(c) && b in ConversionRates(c)
    ensures Compute(c, b, a, Compute(c, a, b, x)) == x
  {
    var y := Compute(c, a, b, x);
    var z := Compute(c, b, a, y);
    var ra, rb := RateOf(c, a), RateOf(c, b);
    ScalarLaw(c, a, b, x);
    ScalarLaw(c, b, a, y);
    if c == Area {
      assert z * ra == x * ra;
      ProductCancels(z, x, ra);
    } else {
      assert z * rb == x * rb;
      ProductCancels(z, x, rb);
    }
  }

  lemma ProductCancels(u: real, v: real, r: real)
    requires r > 0.0 && u * r == v * r
    ensures u == v
  {
    assert (u - v) * r == 0.0;
  }
}
