/** The constant conversion table of the converter: for each category, the
    units it knows by name. The weight, length, currency and area units carry
    a scalar rate (how many of the unit make one reference quantity of the
    category); the temperature units carry a pair of closures instead. */
module Rates {

  datatype Category = Weight | Length | Currency | Temperature | Area

  /** The three closure shapes that occur in the temperature entries, kept
      in the form they are written in. */
  datatype Closure =
    | Identity                                            // v => v
    | SubtractThenScale(sub: real, num: real, den: real)  // v => (v - sub) * (num / den)
    | ScaleThenAdd(num: real, den: real, add: real)       // v => (v * num) / den + add

  predicate WellFormed(c: Closure) {
    match c
    case Identity => true
    case SubtractThenScale(_, _, den) => den != 0.0
    case ScaleThenAdd(_, den, _) => den != 0.0
  }

  function Apply(c: Closure, v: real): real
    requires WellFormed(c)
  {
    match c
    case Identity => v
    case SubtractThenScale(sub, num, den) => (v - sub) * (num / den)
    case ScaleThenAdd(num, den, add) => (v * num) / den + add
  }

  /** A temperature unit: the closure named `toCelsius` and the one named
      `fromCelsius` in the table. */
  datatype TempUnit = TempUnit(toCelsius: Closure, fromCelsius: Closure)

  /** What the table holds for one unit of one category. */
  datatype Entry = Rate(rate: real) | Bridge(unit: TempUnit)

  /** The table, category by category. Every entry has the kind its
      category calls for: a strictly positive rate outside temperature, a
      pair of well-formed closures inside it; no unit has the empty name. */
  function ConversionRates(c: Category): (t: map<string, Entry>)
    ensures "" !in t
    ensures forall u :: u in t ==> (t[u].Rate? <==> c != Temperature)
    ensures forall u :: u in t && t[u].Rate? ==> t[u].rate > 0.0
    ensures forall u :: u in t && t[u].Bridge? ==>
              WellFormed(t[u].unit.toCelsius) && WellFormed(t[u].unit.fromCelsius)
  {
    match c
    case Weight =>
      map["kg" := Rate(1.0), "g" := Rate(1000.0), "lb" := Rate(2.20462)]
    case Length =>
      map["cm" := Rate(1.0), "m" := Rate(0.01), "km" := Rate(0.00001),
          "mile" := Rate(0.00000621371)]
    case Currency =>
      map["usd" := Rate(1.0), "eur" := Rate(0.93), "rub" := Rate(89.95)]
    case Temperature =>
      map["C" := Bridge(TempUnit(SubtractThenScale(32.0, 5.0, 9.0), ScaleThenAdd(9.0, 5.0, 32.0))),
          "F" := Bridge(TempUnit(Identity, Identity))]
    case Area =>
      map["squareMeter" := Rate(1.0), "squareKilometer" := Rate(0.000001)]
  }

  /** The rate of a unit of a scalar category. */
  function RateOf(c: Category, u: string): (r: real)
    requires c != Temperature && u in ConversionRates(c)
    ensures r > 0.0
  {
    ConversionRates(c)[u].rate
  }

  /** The closure pair of a temperature unit. */
  function BridgeOf(u: string): (t: TempUnit)
    requires u in ConversionRates(Temperature)
    ensures WellFormed(t.toCelsius) && WellFormed(t.fromCelsius)
  {
    ConversionRates(Temperature)[u].unit
  }

  /** Each temperature unit's `fromCelsius` undoes its `toCelsius`. */
  lemma BridgeRoundTrip(u: string, v: real)
    requires u in ConversionRates(Temperature)
    ensures Apply(BridgeOf(u).fromCelsius, Apply(BridgeOf(u).toCelsius, v)) == v
  {
    if u == "C" {
      assert BridgeOf(u) == TempUnit(SubtractThenScale(32.0, 5.0, 9.0), ScaleThenAdd(9.0, 5.0, 32.0));
      var c := (v - 32.0) * (5.0 / 9.0);
      assert (c * 9.0) / 5.0 + 32.0 == v;
    } else {
      assert BridgeOf(u) == TempUnit(Identity, Identity);
    }
  }
}
