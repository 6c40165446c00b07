# Unit converter — conversion engine

A model of the conversion engine of `ConverterApp` (App.js), a React Native
screen that converts a typed number between units of one of five
categories: weight, length, currency, temperature and area. The engine is
the constant table `conversionRates` and the handler `handleConvert` behind
the Convert button. The handler:

- checks the input text and the two unit names;
- picks the formula of the selected category;
- shows the result with `toFixed(2)`, or shows "Invalid Input".

The handler is a pure function of the category, the two unit names and the
input text, so the model is made of datatypes, functions and lemmas:

- `rates.dfy` (module `Rates`) holds the table.
  - Weight, length, currency and area units carry a scalar rate.
  - The temperature units carry their two closures as data: a `Closure`
    datatype with one constructor per lambda shape that occurs in the table.
- `decimal.dfy` (module `Decimal`) holds the reading of the input text and
  the writing of natural numbers in decimal.
  - The input must be a plain decimal literal: an optional sign, then
    digits with an optional fractional part.
  - One strict parser returning `Option<real>` stands for both the
    `!isNaN(inputValue)` test and the later `parseFloat(inputValue)`.
- `number_format.dfy` (module `NumberFormat`) holds `Number.prototype.toFixed`
  with two fraction digits, following section 21.1.3.3 of ECMA-262 (2023
  edition), over exact reals.
  - The count of hundredths is the integer nearest to 100 times the
    magnitude of x, the larger one on a tie.
  - The text is a "-" for negative x, the digits padded to three, and a
    point before the last two.
- `converter.dfy` (module `Converter`) holds the guard, the four formulas
  (`Compute`) and the whole handler (`Convert`).
  - `Convert` returns `Invalid`, or `Ok(text)` with the text `setResult`
    would receive.
  - Its contract says the outcome is `Ok` exactly when the input parses and
    both names are keys of the category's table. The text then reads back
    as the converted value rounded to hundredths.
- `scenarios.dfy` (module `Scenarios`) holds worked requests with the exact
  text shown for each.

The model follows the code wherever a natural reading of the screen would
expect something else:

- **Area.** The area branch multiplies by the from-unit's rate and divides
  by the to-unit's (App.js:63-67). This is the reverse of the weight and
  length branch (App.js:68-72). So a million square metres become
  "1000000000000.00" square kilometres, not "1.00". The model keeps the
  formula as written.
- **Temperature.** Converting 98.6 from F to C shows "37.00". The
  temperature branch applies the to-unit's `toCelsius` and then the
  from-unit's `fromCelsius` (App.js:61-62). The closure stored under `C`
  (App.js:29-32) is the Fahrenheit-to-Celsius map and its inverse, so the
  two swaps cancel. F→C is (x − 32)·5/9 and C→F is 9x/5 + 32.

## Model

| member | source | states |
|---|---|---|
| `Rates.ConversionRates` | App.js:11-42 | no category has a unit with the empty name; the temperature units, and only they, carry a closure pair, and each pair is well formed; every other unit carries a strictly positive rate |
| `Rates.RateOf` | App.js:11-41 | the rate looked up for a unit of a scalar category (weight, length, currency, area) is strictly positive, so each division by it is defined |
| `Rates.BridgeRoundTrip` | App.js:29-36 | for each temperature unit, `fromCelsius` undoes `toCelsius` |
| `Converter.Known` | App.js:50-51 | a unit name passes the truthy lookup exactly when it is a key of the category's table |
| `Converter.Accepts` | App.js:45-52 | the guard holds exactly when the text is a decimal literal and both names are keys of the category's table |
| `Converter.Compute` | App.js:54-72 | converting a unit to itself returns the input unchanged, in every category (the formulas themselves are stated by `ScalarLaw`, `TemperatureFormulas` and `RoundTrip`) |
| `Converter.Convert` | App.js:44-77 | the result is `Ok` exactly when the text is a decimal literal and both names are keys of the table; an empty text or unit name gives `Invalid`; an `Ok` text is the `toFixed(2)` text of the category's formula applied to the number read, and it reads back as that value rounded to hundredths |
| `Converter.ScalarLaw` | App.js:54-72 | weight, length and currency keep the reference quantity (result × rate[from] = x × rate[to]); area, as written, keeps it the other way round (result × rate[to] = x × rate[from]) |
| `Converter.CurrencyLaw` | App.js:54-58 | the currency branch `(x / rate[from]) * rate[to]` satisfies result × rate[from] = x × rate[to] |
| `Converter.ProportionLaw` | App.js:68-72 | the default branch `x * (rate[to] / rate[from])` satisfies result × rate[from] = x × rate[to] |
| `Converter.AreaLaw` | App.js:63-67 | the area branch `x * rate[from] / rate[to]` satisfies result × rate[to] = x × rate[from] |
| `Converter.RatioLaw` | App.js:54-72 | the currency and default branches satisfy result × rate[from] = x × rate[to] |
| `Converter.TemperatureFormulas` | App.js:29-36 | F→C computes (x − 32)·5/9 and C→F computes 9x/5 + 32 |
| `Converter.RoundTrip` | App.js:54-72 | converting A→B and then B→A returns the original value exactly, in every category |
| `Converter.ScalarRoundTrip` | App.js:63-72 | the A→B→A round trip for the four scalar categories |
| `Converter.TemperatureRoundTrip` | App.js:59-62 | the A→B→A round trip for temperature |
| `NumberFormat.Hundredths` | App.js:73 | the count of hundredths is within one half of 100 times the magnitude of x |
| `NumberFormat.NearestIsClosest` | App.js:73 | the count of hundredths chosen is as close to 100 times the magnitude of x as any integer, and the larger one on a tie |
| `NumberFormat.Rounded2` | App.js:73 | the number shown is within 0.005 of the value and never has the opposite sign |
| `NumberFormat.ToFixed2` | App.js:73 | the text starts with "-" exactly when x is negative, is at least four characters long, and ends with a point and two digits |
| `NumberFormat.FixedRoundTrip` | App.js:73 | reading back the text of `toFixed(2)` gives the value rounded to hundredths |
| `NumberFormat.FixedDigitsRoundTrip` | App.js:73 | the unsigned text for n hundredths starts with a digit and reads back as n / 100 |
| `NumberFormat.FixedDigitsForm` | App.js:73 | the unsigned text is all digits except for one point, placed before the last two characters |
| `NumberFormat.ToFixedShape` | App.js:73 | the text is an optional "-", the digits of n div 100, a point, and exactly the two digits of n mod 100 |
| `NumberFormat.TwoDigits` | App.js:73 | the unsigned text for n hundredths is the digits of n div 100, a point and two digits |
| `NumberFormat.ToFixedWhole` | App.js:73 | a whole non-negative number is shown with ".00" |
| `NumberFormat.Pad` | App.js:73 | zero-padding keeps a digit string's value and gives it exactly the requested length, or its own length when that is larger |
| `NumberFormat.PadExact` | App.js:73 | zero-padding yields exactly the requested width (or the original length when that is larger), made of zeros followed by the original digits |
| `Decimal.ParseUnsigned` | App.js:47 | an accepted unsigned text is non-empty, made of digits and points, and has a non-negative value |
| `Decimal.ParseDecimal` | App.js:46-47 | an accepted text is non-empty and made of digits and points, with a sign only in front |
| `Decimal.UnsignedGrammar` | App.js:47 | the unsigned parser accepts exactly the texts of digits and at most one point that hold at least one digit |
| `Decimal.DecimalGrammar` | App.js:46-47 | the parser accepts a text exactly when it is an optional sign followed by an unsigned literal |
| `Decimal.SignedPointed` | App.js:55 | `sign whole . frac`, with either part possibly empty but not both, reads back as the value of the digits of `whole` plus those of `frac` over 10 to the length of `frac`, negated under "-" |
| `Decimal.SignedWhole` | App.js:55 | `sign digits` reads back as the value of the digits, negated under "-" |
| `Decimal.SignedValue` | App.js:55 | a sign in front of an unsigned literal of value v reads as v, or as −v under "-" |
| `Decimal.ParseWhole` | App.js:55 | the decimal digits of n are read back as n |
| `Decimal.ParsePointed` | App.js:55 | `whole.frac` reads back as the digits of `whole + frac` divided by 10 to the power of the length of `frac` |
| `Decimal.DecimalDigits` | App.js:73 | the digits written for n are non-empty, have no leading zero, and are a single digit exactly when n < 10 |
| `Decimal.DecimalDigitsValue` | App.js:73 | the digits written for n have the value n |
| `Scenarios.KilogramsToPounds` | App.js:13-15 | kg→lb of "10" shows "22.05" |
| `Scenarios.DollarsToEuros` | App.js:24-25 | usd→eur of "100" shows "93.00" |
| `Scenarios.FeverToCelsius` | App.js:29-36 | F→C of "98.6" shows "37.00" |
| `Scenarios.SquareMetresToSquareKilometres` | App.js:39-40 | squareMeter→squareKilometer of "1000000" shows "1000000000000.00" |
| `Scenarios.AreaPowerOfTen` | App.js:63-67 | for k ≤ 14, squareMeter→squareKilometer of 10^k shows 10^(k+6) with ".00" |
| `Scenarios.ReadsTrailingPoint` | App.js:55 | "7." is read as 7 |
| `Scenarios.ReadsSignedFraction` | App.js:55 | "+.25" is read as 0.25 |
| `Scenarios.ReadsNegative` | App.js:55 | "-3.5" is read as −3.5 |
| `Scenarios.RejectsEmptyText` | App.js:46 | an empty input text shows "Invalid Input" in any category |
| `Scenarios.RejectsNonNumeric` | App.js:47 | every text outside the decimal-literal grammar shows "Invalid Input", whatever the category and unit names |
| `Scenarios.RejectsMalformed` | App.js:47 | a lone point, a lone "+" and "1.2.3" each show "Invalid Input" |
| `Scenarios.RejectsLetters` | App.js:47 | the text "abc" shows "Invalid Input" in any category |
| `Scenarios.RejectsUnknownUnit` | App.js:50-51 | when either unit name is not a key of the category's table, the result is "Invalid Input" whatever the text |
| `Scenarios.RejectsForeignUnit` | App.js:50-51 | "lb", a weight unit, is rejected as a length unit |

## Left out

- The React plumbing (App.js:1-10, 79-166): state hooks, the category buttons, the reset button and the JSX. The selected category, the unit names and the input text are parameters of `Convert`. Its outcome is what `setResult` receives.
- The category `null` before any button is pressed: the Convert button is only shown once a category is chosen, so `Category` has exactly the five categories.
- The style sheet (App.js:168-239), which is presentation only.
- IEEE-754 arithmetic: the model computes over exact reals. Binary rounding artefacts such as `(1.005).toFixed(2)` and the float error in `0.00001`-sized rates are not modelled.
- `NumberFormat.ToFixed2`: the branch of `toFixed` for |x| ≥ 10^21, which falls back to exponential notation, is not modelled. The fixed-point rendering is used for every magnitude.
- `Decimal.ParseDecimal`: JavaScript's loose coercion in `isNaN` and `parseFloat` is not modelled. Whitespace-only text (which passes `!isNaN` and then shows "NaN"), surrounding whitespace, exponents, hex literals and "Infinity" are all rejected by the strict parser.
- Keys inherited from `Object.prototype` (such as `toString`): unit lookup is own-key membership only.
