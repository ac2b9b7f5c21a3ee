# java-units in Dafny

A model of the unit-algebra core of the Java library `ca.fwe.units`. It covers base units, composite units and numbers that carry a unit.

- A **base unit** (`BaseUnit`) belongs to one dimension. The dimension has a prime tag.
  - A base unit has a ratio to the SI unit of that dimension, a name, an abbreviation and an offset.
  - Two base units are equal when their ratios and their tags are equal.
- A **unit** (`Unit`) is a numerator list and a denominator list of base units. Every constructor that takes lists simplifies them:
  - all pure scale factors (tag 1) are folded into one nameless factor at the end of the numerator;
  - then equal factors above and below the line cancel in pairs.
- Two values describe a unit:
  - the *conversion value*: the product of the ratios above the line over the product of those below;
  - the *derived type*: the same quotient over the tags.

  Two units are equal when both values agree. Units multiply, divide, invert and are raised to powers. They encode to text of the form `-a-b/-c` and decode from it. They render as HTML with exponents.
- A **number** (`Number`) stores its magnitude in SI form together with a display unit. Sums, differences and unit conversion require equal derived types; otherwise the operation fails with the two units. Products, quotients and the inverse propagate the units. A number encodes as `value,unit`.

The model is organised by the program's structure:

| file | module | what it holds |
|---|---|---|
| `base_unit.dfy` | `BaseUnits` | the dimensions and their tags, the `BaseUnit` value and its constructors, catalog lookups |
| `products.dfy` | `Products` | products of weights (ratio or tag) of base-unit lists |
| `unit_algebra.dfy` | `UnitAlgebra` | the value-level meaning of a unit: conversion value, derived type, simplify, cancel, multiply, invert, divide, power, getSI, and the lemmas about them |
| `unit_codec.dfy` | `UnitCodec` | encode/valueOf as functions, the round trip, and the HTML renderer |
| `unit.dfy` | `Units` | the class `Unit`, with its lists as fields rewritten in place and its loops as methods proved against the functions above |
| `number.dfy` | `Numbers` | the class `Number`, with its arithmetic methods and the lemmas on values in units |
| `text.dfy`, `optional.dfy` | `Text`, `Optional` | `String.trim`, `String.split` with one separator, joins, `Integer.toString`, and an `Option` type |

Modelling choices:

- **Arithmetic.** Doubles are exact reals. A ratio has the type `Ratio`, a nonzero real, because exact division by zero has no value.
- **Number text.** `Double.toString` and `new Double(String)` are a `NumberText` parameter: a `show` function and a partial `parse`. Nothing about them is taken for granted. A lemma that needs `parse` to undo `show` states that as a precondition.
- **Catalog.** The catalog `BaseUnit.ALL` is a `seq<BaseUnit>` parameter. `IsStandardCatalog` states the property the real catalog has: the first entry of each tag is that dimension's SI unit, and no entry has tag 1. `SampleCatalog` is an excerpt in source order.
- **Exceptions.** They become outcome datatypes:
  - `Checked.Incomparable(first, second)` is the `IncomparableUnitException`;
  - `None` from `getSI` is the null dereference when a tag is missing from the catalog;
  - `SubstringFault` is the `StringIndexOutOfBoundsException` of `valueOf` on text such as `m//s`;
  - `NotANumber` is the `NumberFormatException` that `Number.valueOf` catches.

The name `raiseToPower(n)` suggests n copies of each list. The doubling loop at src/ca/fwe/units/Unit.java:243-246 gives 2^n copies, and for a negative n it does not run, so the result is the plain inverse. `Power` and `Units.Unit.RaiseToPower` model the code; `IntendedPower` and `Units.Unit.RaiseToIntendedPower` model the n-copy reading (see "## Findings").

## Model

| member | source | states |
|---|---|---|
| BaseUnits.TypesDistinct | src/ca/fwe/units/BaseUnit.java:202-259 | every dimension tag is at least 1, only the unitless dimension has tag 1, and two dimensions have the same tag exactly when they are the same dimension |
| BaseUnits.TagConstantsDistinct | src/ca/fwe/units/BaseUnit.java:203-220 | the seventeen tag constants, the six user slots included, are pairwise distinct |
| BaseUnits.EqualsIsEquivalence | src/ca/fwe/units/BaseUnit.java:142-153 | base-unit equality is reflexive, symmetric and transitive, and holds exactly when ratio and dimension agree, whatever the names, abbreviation and offset |
| BaseUnits.ConstructorShapes | src/ca/fwe/units/BaseUnit.java:104-171 | the four-argument constructor sets offset 0; the ratio constructor gives a nameless tag-1 factor with that ratio, whose abbreviation is the ratio's text; the dimension constructor gives ratio 1 with the dimension's SI name and abbreviation |
| BaseUnits.FirstOfType | src/ca/fwe/units/Unit.java:391-397 | the lookup by tag yields a catalog entry of that tag, and yields nothing exactly when no entry has the tag |
| BaseUnits.FirstOfTypeAt | src/ca/fwe/units/Unit.java:391-397 | the lookup by tag returns early: it yields the entry at the first position holding that tag |
| BaseUnits.FirstWithAbbreviation | src/ca/fwe/units/Unit.java:372-380 | the lookup by abbreviation yields a catalog entry with that abbreviation, and yields nothing exactly when no entry has it |
| BaseUnits.StandardLookup | src/ca/fwe/units/BaseUnit.java:91-95 | in a catalog shaped like ALL, tag 1 is never found and every tag that is found yields a ratio-1 unit |
| BaseUnits.SampleCatalogIsStandard | src/ca/fwe/units/BaseUnit.java:91-95 | an excerpt of ALL in its order (metre, kilometre, centimetre, second, hour) has that shape |
| UnitAlgebra.QuotientDef | src/ca/fwe/units/Unit.java:83-105 | the loops' running division by each denominator weight equals the numerator product over the denominator product, which is nonzero |
| UnitAlgebra.QuotientOfDimensionless | src/ca/fwe/units/Unit.java:13-16 | the unit without factors has conversion value 1 and derived type 1 |
| UnitAlgebra.ProductSplit | src/ca/fwe/units/Unit.java:135-190 | the product of a list's weights is the product over its dimensioned factors times the product over its scale factors |
| UnitAlgebra.ScalarsHaveNoType | src/ca/fwe/units/Unit.java:95-105 | the scale factors of a list contribute nothing to a derived type |
| UnitAlgebra.SameFactorsSameMeasures | src/ca/fwe/units/Unit.java:83-105 | units equal factor by factor have the same conversion value and derived type |
| UnitAlgebra.IndexOfEqual | src/ca/fwe/units/Unit.java:116-125 | indexOf under equals: -1 exactly when no element equals x, else the first position whose element equals x |
| UnitAlgebra.FirstCancellable | src/ca/fwe/units/Unit.java:116-125 | the first numerator position whose factor has an equal below the line; no earlier position has one |
| UnitAlgebra.CancelNothing | src/ca/fwe/units/Unit.java:116-125 | a unit without a common factor above and below is left as it is |
| UnitAlgebra.CancelFirstAt | src/ca/fwe/units/Unit.java:116-125 | cancelling starts by removing the first cancellable numerator factor and the first equal denominator factor |
| UnitAlgebra.CancelNoneFound | src/ca/fwe/units/Unit.java:116-125 | when the scan finds nothing to cancel, nothing changes |
| UnitAlgebra.CancelLeavesNoCommonFactor | src/ca/fwe/units/Unit.java:116-125 | after simplifyUnits no numerator factor equals any denominator factor |
| UnitAlgebra.CancelShortens | src/ca/fwe/units/Unit.java:116-125 | cancelling never lengthens the numerator |
| UnitAlgebra.CancelKeepsMembers | src/ca/fwe/units/Unit.java:116-125 | every factor left after cancelling was in its original list |
| UnitAlgebra.RemoveAtSubsequence | src/ca/fwe/units/Unit.java:120-121 | ArrayList.remove leaves the other elements in their order |
| UnitAlgebra.RemoveAtMultiset | src/ca/fwe/units/Unit.java:120-121 | ArrayList.remove takes out exactly one copy of the removed element |
| UnitAlgebra.CancelKeepsOrder | src/ca/fwe/units/Unit.java:116-125 | each list after cancelling is a subsequence of the original: survivors keep their relative order |
| UnitAlgebra.CancelKeepsMultiplicity | src/ca/fwe/units/Unit.java:116-125 | cancelling never adds a copy of a factor: each list's multiset only shrinks |
| UnitAlgebra.CancelRemovesPairs | src/ca/fwe/units/Unit.java:116-125 | removals come in pairs: the numerator loses as many factors as the denominator |
| UnitAlgebra.CancelKeepsQuotient | src/ca/fwe/units/Unit.java:116-125 | cancelling keeps the conversion value and the derived type |
| UnitAlgebra.CancelStep | src/ca/fwe/units/Unit.java:119-121 | removing one numerator factor and an equal denominator factor keeps both measures |
| UnitAlgebra.CancelSnoc | src/ca/fwe/units/Unit.java:116-125 | a last numerator factor with no equal below the line survives cancelling in last place, and the rest cancel as before |
| UnitAlgebra.CancelEquivalent | src/ca/fwe/units/Unit.java:116-125 | cancelling decides by equals only, so inputs equal factor by factor give outputs equal factor by factor |
| UnitAlgebra.SimplifyShape | src/ca/fwe/units/Unit.java:107-125 | after simplify nothing cancels and no scale factor is below the line; above it at most one, last, nameless and not 1; it is there exactly when the former ratio is not 1, and it carries that ratio |
| UnitAlgebra.RatioOfTrailingScalar | src/ca/fwe/units/Unit.java:135-148 | when the only scale factor is the last numerator factor, the ratio is that factor's ratio |
| UnitAlgebra.FoldedOfSimplified | src/ca/fwe/units/Unit.java:107-114 | folding the ratio of a simplified unit changes nothing |
| UnitAlgebra.SimplifyIdempotent | src/ca/fwe/units/Unit.java:107-125 | simplifying a unit that is already simplified changes nothing |
| UnitAlgebra.SimplifyTwice | src/ca/fwe/units/Unit.java:107-125 | simplify is idempotent, so a clone of a clone equals the clone |
| UnitAlgebra.RatioTailWeight | src/ca/fwe/units/Unit.java:107-114 | the appended nameless factor weighs what the dropped scale factors weighed together |
| UnitAlgebra.FoldedKeepsMeasures | src/ca/fwe/units/Unit.java:107-114 | folding the scale factors into one keeps the conversion value and the derived type |
| UnitAlgebra.SimplifyKeepsMeasures | src/ca/fwe/units/Unit.java:107-125 | simplify keeps the conversion value and the derived type |
| UnitAlgebra.SimplifyEquivalent | src/ca/fwe/units/Unit.java:107-125 | simplifying inputs equal factor by factor gives outputs equal factor by factor |
| UnitAlgebra.SimplifySameUnit | src/ca/fwe/units/Unit.java:192-204 | a simplified unit equals, under Unit.equals, the unit it came from |
| UnitAlgebra.SimplifyDimensionless | src/ca/fwe/units/Unit.java:13-16 | the unit without factors is already simplified |
| UnitAlgebra.RatioOfSimplified | src/ca/fwe/units/Unit.java:135-148 | getRatio is the same before and after simplify |
| UnitAlgebra.RatioOfShape | src/ca/fwe/units/Unit.java:135-148 | the ratio of a simplified unit is its trailing scale factor's ratio, or 1 without one |
| UnitAlgebra.DimensionedRatio | src/ca/fwe/units/Unit.java:158-190 | the factors stripRatios keeps have ratio 1 |
| UnitAlgebra.StrippedShape | src/ca/fwe/units/Unit.java:158-173 | stripRatios leaves no scale factor on either side |
| UnitAlgebra.StrippedMeasures | src/ca/fwe/units/Unit.java:158-173 | stripRatios keeps the derived type and divides the conversion value by the ratio |
| UnitAlgebra.StrippedType | src/ca/fwe/units/Unit.java:175-190 | dropping the scale factors keeps the derived type |
| UnitAlgebra.StrippedConversion | src/ca/fwe/units/Unit.java:175-190 | the conversion value is that of the dimensioned factors times the ratio |
| UnitAlgebra.HasRatioIff | src/ca/fwe/units/Unit.java:127-133 | containsRatio holds exactly when the scale factors do not multiply out to 1 |
| UnitAlgebra.IsRatioOfSimplified | src/ca/fwe/units/Unit.java:150-156 | a simplified unit is a ratio exactly when the former ratio is not 1 and the numerator is its nameless factor alone |
| UnitAlgebra.MultiplyMeasures | src/ca/fwe/units/Unit.java:223-233 | multiplyBy multiplies the conversion values and the derived types |
| UnitAlgebra.QuotientOfConcat | src/ca/fwe/units/Unit.java:224-228 | concatenating both pairs of lists multiplies the quotients |
| UnitAlgebra.InvertMeasures | src/ca/fwe/units/Unit.java:219-221 | invert gives the reciprocal conversion value and derived type |
| UnitAlgebra.QuotientOfSwap | src/ca/fwe/units/Unit.java:219-221 | exchanging the lists gives the reciprocal quotient |
| UnitAlgebra.DivideMeasures | src/ca/fwe/units/Unit.java:235-237 | divideBy divides the conversion values and the derived types |
| UnitAlgebra.InverseLaw | src/ca/fwe/units/Unit.java:219-237 | a unit times its inverse has conversion value 1 and derived type 1, as the empty unit does |
| UnitAlgebra.MultiplyIdentity | src/ca/fwe/units/Unit.java:223-233 | multiplying by the empty unit only simplifies |
| UnitAlgebra.IntPow | src/ca/fwe/units/Unit.java:239-255 | an integer power of a nonzero real is nonzero |
| UnitAlgebra.DoubledSize | src/ca/fwe/units/Unit.java:243-246 | after k doubling rounds a list holds 2^k copies, and its product is raised to the 2^k-th power |
| UnitAlgebra.PowerAsWritten | src/ca/fwe/units/Unit.java:239-255 | raiseToPower(0) is the empty unit; a negative power is the inverse whatever its size; a positive n raises both measures to the power 2^n, with 2^n copies of each list |
| UnitAlgebra.RepeatProduct | src/ca/fwe/units/Unit.java:239-255 | k copies of a list raise its product to the k-th power |
| UnitAlgebra.IntendedPowerMeasures | src/ca/fwe/units/Unit.java:239-255 | the corrected power raises the conversion value and the derived type to the n-th power, for either sign of n |
| UnitAlgebra.QuotientOfRepeat | src/ca/fwe/units/Unit.java:239-255 | k copies of each list raise the quotient to the k-th power |
| UnitAlgebra.SquareOfSingle | src/ca/fwe/units/Unit.java:239-255 | raiseToPower(2) of one dimensioned factor x gives four copies of x |
| UnitAlgebra.InverseSquareOfSingle | src/ca/fwe/units/Unit.java:239-255 | raiseToPower(-2) of one dimensioned factor x gives 1/x |
| UnitAlgebra.IntendedSquareOfSingle | src/ca/fwe/units/Unit.java:239-255 | the corrected square of one dimensioned factor x is x twice |
| UnitAlgebra.IntendedInverseSquareOfSingle | src/ca/fwe/units/Unit.java:239-255 | the corrected power -2 of one dimensioned factor x is x twice below the line |
| UnitAlgebra.PowerOfKilometre | src/ca/fwe/units/Unit.java:239-255 | the kilometre squared as written is km^4 and to the power -2 is 1/km; the corrected ones are km^2 and 1/km^2 |
| UnitAlgebra.PowerOfKilometreConversion | src/ca/fwe/units/Unit.java:239-255 | the conversion value of that square kilometre is 10^12 instead of 10^6 |
| UnitAlgebra.SILookup | src/ca/fwe/units/Unit.java:207-215 | each factor's entry is the catalog's first entry of its tag, or nothing |
| UnitAlgebra.Found | src/ca/fwe/units/Unit.java:207-216 | when every lookup succeeded, the list of the entries found, position by position |
| UnitAlgebra.ToSIFails | src/ca/fwe/units/Unit.java:207-217 | getSI fails exactly when some factor's tag is missing from the catalog |
| UnitAlgebra.FoundSameTypes | src/ca/fwe/units/Unit.java:207-217 | the SI list has the derived-type product of the list it replaces |
| UnitAlgebra.ToSIKeepsType | src/ca/fwe/units/Unit.java:207-217 | getSI keeps the derived type |
| UnitAlgebra.ToSIStandard | src/ca/fwe/units/Unit.java:207-217 | over a catalog shaped like ALL the SI unit has conversion value 1, and getSI succeeds only when the unit has no scale factor |
| UnitCodec.Abbreviations | src/ca/fwe/units/Unit.java:319-335 | the abbreviations of the factors, one per factor and in order |
| UnitCodec.LookupTokenCases | src/ca/fwe/units/Unit.java:372-385 | a decoded token is a catalog entry with that abbreviation or the nameless factor of the number it reads as; it decodes to nothing exactly when no entry has it and it reads as no nonzero number |
| UnitCodec.DecodeWithoutSlash | src/ca/fwe/units/Unit.java:341-346 | text without a "/" is not a unit |
| UnitCodec.DoubleSlashFaults | src/ca/fwe/units/Unit.java:341-366 | text such as m//s makes valueOf fail in substring(1) |
| UnitCodec.CatalogEntryRoundTrips | src/ca/fwe/units/BaseUnit.java:97-110 | a catalog entry with a clean abbreviation that no earlier entry shares decodes back to itself |
| UnitCodec.RatioFactorRoundTrips | src/ca/fwe/units/BaseUnit.java:165-171 | a nameless scale factor whose number text is clean, reads back and is no catalog abbreviation decodes back to itself |
| UnitCodec.DecodeTokensAppend | src/ca/fwe/units/Unit.java:347-364 | decoding two token lists one after the other is decoding their concatenation |
| UnitCodec.DecodeAbbreviations | src/ca/fwe/units/Unit.java:319-385 | the abbreviations of round-tripping factors decode to factors equal one by one |
| UnitCodec.NumeratorTokens | src/ca/fwe/units/Unit.java:319-349 | an encoded numerator list splits into an empty token and the abbreviations, or into nothing when the list is empty |
| UnitCodec.DropEmptyToken | src/ca/fwe/units/Unit.java:347-352 | the empty leading token decodes to nothing |
| UnitCodec.DecodeNumeratorList | src/ca/fwe/units/Unit.java:319-352 | the encoded numerator list decodes back to factors equal one by one |
| UnitCodec.DecodeDenominatorList | src/ca/fwe/units/Unit.java:319-362 | the encoded denominator list, its "-" removed by substring(1), decodes back to factors equal one by one |
| UnitCodec.EncodeParts | src/ca/fwe/units/Unit.java:319-346 | an encoded unit is its own trim and splits at "/" into exactly its two encoded lists |
| UnitCodec.DecodeEncode | src/ca/fwe/units/Unit.java:319-370 | valueOf(encode(u)) succeeds and gives a unit equal factor by factor to u simplified, when every factor round-trips |
| UnitCodec.DecodeEncodeSimplified | src/ca/fwe/units/Unit.java:319-370 | for a simplified u the decoded unit has u's factors, conversion value and derived type |
| UnitCodec.DecodeQuantityWithoutComma | src/ca/fwe/units/Number.java:138-155 | text without a "," is not a number |
| UnitCodec.EncodeCommaFree | src/ca/fwe/units/Unit.java:319-335 | an encoded unit whose abbreviations hold no "," holds none |
| UnitCodec.DecodeEncodeQuantity | src/ca/fwe/units/Number.java:132-155 | Number.valueOf of the value text, ",", and an encoded unit gives back the value and a unit equal factor by factor to the simplified unit |
| UnitCodec.TallyOf | src/ca/fwe/units/Unit.java:262-290 | the tally of getHtml has one count per distinct factor |
| UnitCodec.TallyShape | src/ca/fwe/units/Unit.java:262-290 | the tally lists no two equal factors, and every factor of the list equals one of them |
| UnitCodec.TallyCounts | src/ca/fwe/units/Unit.java:262-290 | each count is the step times the number of factors equal to its unit |
| UnitCodec.CountNone | src/ca/fwe/units/Unit.java:262-290 | a factor equal to none of the tally's units does not occur in the list |
| UnitCodec.HtmlExponents | src/ca/fwe/units/Unit.java:262-313 | each numerator term's exponent is the number of equal factors, at least 1; each denominator term's is its negation, at most -1 |
| UnitCodec.TallyMembers | src/ca/fwe/units/Unit.java:262-290 | every unit of a tally occurs in the list |
| UnitCodec.HtmlOfOneByOne | src/ca/fwe/units/Unit.java:262-313 | a unit with one group above and one below renders as the two terms |
| UnitCodec.HtmlOfSpeedSquared | src/ca/fwe/units/Unit.java:262-317 | km·km/s renders as km<sup>2</sup>s<sup>-1</sup> |
| UnitCodec.HtmlOfMetre | src/ca/fwe/units/Unit.java:262-313 | a lone metre renders as m, with no trailing space |
| UnitCodec.HtmlOfMetrePerSecond | src/ca/fwe/units/Unit.java:262-317 | a metre per second renders as "m s<sup>-1</sup>": a count of 1 is followed by a space when more follows |
| Units.Unit.constructor | src/ca/fwe/units/Unit.java:13-16 | the new unit has no factors |
| Units.Unit.Scaled | src/ca/fwe/units/Unit.java:18-25 | the base unit's lists with the scale factor appended, not simplified; conversion value multiplied by the factor, derived type kept |
| Units.Unit.Single | src/ca/fwe/units/Unit.java:27-31 | the one factor above the line, not simplified |
| Units.Unit.FromLists | src/ca/fwe/units/Unit.java:33-38 | the simplified unit of the two lists |
| Units.Unit.FromArrays | src/ca/fwe/units/Unit.java:42-51 | the simplified unit of the two arrays' contents |
| Units.Unit.FromArray | src/ca/fwe/units/Unit.java:53-55 | the simplified unit of the array above the line and nothing below |
| Units.Unit.CopyOf | src/ca/fwe/units/Unit.java:44-49 | the copying loop yields the array's contents in order |
| Units.Unit.Measured | src/ca/fwe/units/Unit.java:83-105 | the loops compute the quotient of the weight products |
| Units.Unit.GetConversionValue | src/ca/fwe/units/Unit.java:83-93 | getConversionValue is the conversion value of the lists |
| Units.Unit.GetDerivedUnitType | src/ca/fwe/units/Unit.java:95-105 | getDerivedUnitType is the derived type of the lists |
| Units.Unit.GetRatio | src/ca/fwe/units/Unit.java:135-148 | getRatio is the product of the scale factors above the line over that of those below |
| Units.Unit.IsRatio | src/ca/fwe/units/Unit.java:150-156 | isRatio holds exactly when the numerator is one scale factor |
| Units.Unit.WithoutRatios | src/ca/fwe/units/Unit.java:158-190 | the loop keeps exactly the factors of tag other than 1, in order |
| Units.Unit.StripRatiosInSitu | src/ca/fwe/units/Unit.java:175-190 | both lists are replaced by their dimensioned factors |
| Units.Unit.StripRatios | src/ca/fwe/units/Unit.java:158-173 | a new unit of the dimensioned factors, simplified |
| Units.Unit.Simplify | src/ca/fwe/units/Unit.java:107-114 | the lists become the simplified unit of the former lists |
| Units.Unit.SimplifyUnits | src/ca/fwe/units/Unit.java:116-125 | the recursive removal loop leaves the lists cancelled |
| Units.Unit.ContainsRatio | src/ca/fwe/units/Unit.java:127-133 | containsRatio holds exactly when the stripped unit is unequal to this one |
| Units.Unit.Equals | src/ca/fwe/units/Unit.java:192-204 | equals holds exactly when conversion value and derived type agree |
| Units.Unit.GetSIUnit | src/ca/fwe/units/Unit.java:391-397 | the loop yields the first catalog entry of the tag, or nothing |
| Units.Unit.SILookupOf | src/ca/fwe/units/Unit.java:210-215 | the getSI loop looks every factor up |
| Units.Unit.GetSI | src/ca/fwe/units/Unit.java:207-217 | getSI fails exactly when the SI unit is undefined, and otherwise yields it |
| Units.Unit.Invert | src/ca/fwe/units/Unit.java:219-221 | a new unit of the exchanged lists, simplified |
| Units.Unit.MultiplyBy | src/ca/fwe/units/Unit.java:223-233 | a new unit of both numerators over both denominators, simplified |
| Units.Unit.DivideBy | src/ca/fwe/units/Unit.java:235-237 | a new unit that is this unit times the other's inverse |
| Units.Unit.RaiseToPower | src/ca/fwe/units/Unit.java:239-255 | the doubling loop as written, proved equal to Power |
| Units.Unit.RaiseToIntendedPower | src/ca/fwe/units/Unit.java:239-255 | the corrected loop: number copies of each list, exchanged for a negative number |
| Units.Unit.Clone | src/ca/fwe/units/Unit.java:257-259 | a clone is the simplified unit of the lists |
| Units.Unit.Encode | src/ca/fwe/units/Unit.java:319-335 | encode gives the numerator list, "/", the denominator list |
| Units.Unit.EncodedList | src/ca/fwe/units/Unit.java:321-333 | one encode loop: "-", then the abbreviations joined by "-" |
| Units.Unit.Tallied | src/ca/fwe/units/Unit.java:262-290 | the counting loops of getHtml build the tally |
| Units.Unit.GetHtml | src/ca/fwe/units/Unit.java:262-313 | getHtml is null without factors, else the numerator terms then the denominator terms |
| Units.Unit.NumeratorHtml | src/ca/fwe/units/Unit.java:292-303 | the numerator loop builds the numerator terms |
| Units.Unit.DenominatorHtml | src/ca/fwe/units/Unit.java:305-307 | the denominator loop builds the denominator terms |
| Units.Unit.GetUnitFromArray | src/ca/fwe/units/Unit.java:372-385 | the first entry with that abbreviation, else the nameless factor of the number the token reads as |
| Units.Unit.DecodedList | src/ca/fwe/units/Unit.java:347-364 | one list loop of valueOf decodes each trimmed token and keeps the ones found |
| Units.Unit.ValueOf | src/ca/fwe/units/Unit.java:341-370 | valueOf yields null, the fault or the unit exactly as the decoding function does |
| Units.ScaledMeasures | src/ca/fwe/units/Unit.java:18-25 | one more numerator factor of ratio c multiplies the conversion value by c and keeps the derived type |
| Numbers.ValueIn | src/ca/fwe/units/Number.java:43-45 | a value in a unit is zero exactly when the SI value is |
| Numbers.Number.constructor | src/ca/fwe/units/Number.java:10-13 | the unit itself is kept, the SI value is the value times the conversion value, and getValue gives the value back |
| Numbers.Number.Dimensionless | src/ca/fwe/units/Number.java:15-18 | a new unit without factors, and the SI value is the value |
| Numbers.Number.ForceUnit | src/ca/fwe/units/Number.java:29-31 | the unit is replaced without a check, and the SI value stays |
| Numbers.Number.SetUnit | src/ca/fwe/units/Number.java:33-37 | a new number of the same SI value in the given unit, without a check |
| Numbers.Number.SetValue | src/ca/fwe/units/Number.java:39-41 | the SI value becomes the value times the conversion value |
| Numbers.Number.GetValue | src/ca/fwe/units/Number.java:43-45 | getValue is the SI value over the conversion value |
| Numbers.Number.GetValueIn | src/ca/fwe/units/Number.java:69-75 | succeeds exactly when the derived types agree, with the SI value over the other unit's conversion value; otherwise fails with this unit and the other |
| Numbers.Number.GetUnit | src/ca/fwe/units/Number.java:81-83 | getUnit is a new, simplified copy of the unit |
| Numbers.Number.GetSINumber | src/ca/fwe/units/Number.java:85-91 | the same SI value in the SI form of the unit, failing exactly where getSI does |
| Numbers.Number.MultiplyBy | src/ca/fwe/units/Number.java:93-97 | the SI values multiply and the unit is the product of the cloned units |
| Numbers.Number.UnitTimes | src/ca/fwe/units/Number.java:95 | the unit of multiplyBy: the product of both clones |
| Numbers.Number.DivideBy | src/ca/fwe/units/Number.java:99-103 | the SI values divide and the unit is the quotient of the cloned units |
| Numbers.Number.UnitOver | src/ca/fwe/units/Number.java:101 | the unit of divideBy: the quotient of both clones |
| Numbers.Number.AddTo | src/ca/fwe/units/Number.java:105-113 | succeeds exactly when the derived types agree, with the SI values added in a clone of this unit; otherwise fails with this unit and a clone of the other |
| Numbers.Number.Comparable | src/ca/fwe/units/Number.java:106 | the test of addTo and subtract: the derived types agree |
| Numbers.Number.Subtract | src/ca/fwe/units/Number.java:115-123 | succeeds exactly when the derived types agree, with the SI values subtracted in this very unit; otherwise fails as addTo does |
| Numbers.Number.Invert | src/ca/fwe/units/Number.java:125-129 | the reciprocal SI value in the inverse of the unit |
| Numbers.Number.Encode | src/ca/fwe/units/Number.java:132-136 | the value's text, ",", the encoded clone of the unit |
| Numbers.Number.ValueOf | src/ca/fwe/units/Number.java:138-155 | yields a number, null or the fault exactly as the decoding function does, and the number shows the decoded value in the decoded unit |
| Numbers.QuantityRoundTrip | src/ca/fwe/units/Number.java:132-155 | valueOf(encode(n)) gives back the value of n in a unit equal to n's |
| Numbers.RecoveredSIValue | src/ca/fwe/units/Number.java:10-13 | that value, read in the unit valueOf gives back, has the original SI value |
| Numbers.FactorsOfSimplifiedSameUnit | src/ca/fwe/units/Number.java:143-145 | a unit with the factors of a twice-simplified unit equals the original |
| Numbers.ProductValue | src/ca/fwe/units/Number.java:93-97 | the value of a product of numbers is the product of their values |
| Numbers.QuotientValue | src/ca/fwe/units/Number.java:99-103 | the value of a quotient of numbers is the quotient of their values |
| Numbers.SumValue | src/ca/fwe/units/Number.java:105-113 | the value of a sum is this value plus the other's value read in this unit |
| Numbers.DifferenceValue | src/ca/fwe/units/Number.java:115-123 | the value of a difference is this value minus the other's value read in this unit |
| Numbers.ReciprocalValue | src/ca/fwe/units/Number.java:125-129 | the value of the inverse is the reciprocal of the value |
| Numbers.KilometreInMetres | src/ca/fwe/units/Number.java:69-75 | one kilometre has SI value 1000, has the metre's derived type, and reads as 1000 in metres |

## Left out

- IEEE arithmetic. Doubles are exact reals, so rounding, infinities and NaN are not modelled. This drops:
  - the `Number()` and `Number(Unit)` constructors, which store NaN (src/ca/fwe/units/Number.java:20-27);
  - `toString` (src/ca/fwe/units/Number.java:47-57), which formats through `Float` and `Long`;
  - `isInteger` (src/ca/fwe/units/Number.java:59-67), which depends on `Math.round`.
- Numbers.Number.DivideBy: requires the other SI value to be nonzero, where Java would produce an infinity or NaN.
- Numbers.Number.Invert: requires the SI value to be nonzero, for the same reason.
- Units.Unit.GetUnitFromArray: a token that reads as the number 0 decodes to nothing here. Java would build a base unit of ratio 0, which has no exact counterpart because ratios are nonzero. The same holds for `LookupToken`.
- Names. The display names a `Unit` inherits from `UnitAlias` are not modelled. This drops the name arguments of the constructors at src/ca/fwe/units/Unit.java:18-25 and the named constructors at src/ca/fwe/units/Unit.java:57-73. Those constructors build the same lists as the nameless ones.
- Getters that only return a field. `getNumerator` and `getDenominator` (src/ca/fwe/units/Unit.java:75-81) return the lists; the model reads the `numerator` and `denominator` fields. `getSIValue` (src/ca/fwe/units/Number.java:77-79) is the `siValue` field.
- The catalog. `Unit.valueOf(String)` and `getSIUnit(int)` (src/ca/fwe/units/Unit.java:337-339 and 387-389) use `BaseUnit.ALL`. The model passes the catalog as a parameter. Only an excerpt of the concrete catalog values is stated.
- The offset of a base unit is stored and never read by any conversion, so no contract mentions it.
- `Double.toString` and `new Double(String)` are the `NumberText` parameter, about which the model presupposes nothing.
- `equals(Object)` applied to an object of another class returns false in Java. The model's equality predicates take only base units or units.
- `setUnit` declares `IncomparableUnitException` but never throws it, so the model has no failure case for it.
- Sharing. Whether two numbers share a unit object matters in Java because `subtract` and `invert` use the unit itself, not a clone. The model keeps that distinction in the `Units.Unit` references. No unit method mutates a unit after construction, so the sharing is not observable.

## Findings

| source | as written | input that shows it | evidently intended | confidence | as-written member | corrected member |
|---|---|---|---|---|---|---|
| src/ca/fwe/units/Unit.java:243-246 | each of the n rounds appends the list to itself, giving 2^n copies; for a negative n the loop does not run, so the result is the plain inverse | raiseToPower(2) of the kilometre gives km^4 (conversion value 10^12); raiseToPower(-2) gives 1/km | n copies of each list, and \|n\| copies of the inverse's lists for a negative n (km^2, conversion value 10^6; 1/km^2) | not executed | UnitAlgebra.PowerOfKilometre | UnitAlgebra.IntendedPowerMeasures |
