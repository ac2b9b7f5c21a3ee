/**
 * The Number class: a magnitude kept in SI form and the unit it is displayed in. The
 * arithmetic builds a fresh Number and forces its unit; addition and subtraction first
 * compare derived types and report IncomparableUnitException as Incomparable.
 */
module Numbers {
  import opened Optional
  import opened Text
  import opened BaseUnits
  import opened Products
  import opened UnitAlgebra
  import opened UnitCodec
  import opened Units

  /** A result, or the IncomparableUnitException with the two units it carries. */
  datatype Checked<T> = Ok(value: T) | Incomparable(first: Unit, second: Unit)

  /** The outcomes of Number.valueOf: a number, null, or the fault of Unit.valueOf passed on. */
  datatype ParsedNumber = ParsedNumber(number: Number) | NotANumber | NumberFault

  /** The value a number shows in a unit: the SI value over the unit's conversion value. */
  function ValueIn(siValue: real, f: Fraction): (v: real)
    ensures v == 0.0 <==> siValue == 0.0
  {
    ZeroQuotient(siValue, Conversion(f));
    siValue / Conversion(f)
  }

  /** A quotient by a nonzero divisor is zero exactly when the dividend is. */
  lemma ZeroQuotient(x: real, y: real)
    requires y != 0.0
    ensures x / y == 0.0 <==> x == 0.0
  {
    if x / y == 0.0 {
      assert x == (x / y) * y;
    }
  }

  class Number {
    var siValue: real
    var unit: Unit

    /** new Number(value, valueUnit): the unit itself is kept, the value is stored in SI. */
    constructor (value: real, valueUnit: Unit)
      ensures unit == valueUnit
      ensures siValue == value * Conversion(valueUnit.Parts())
      ensures ValueIn(siValue, unit.Parts()) == value
    {
      unit := valueUnit;
      new;
      SetValue(value);
      StoredValue(value, Conversion(valueUnit.Parts()), Conversion(unit.Parts()));
    }

    /** new Number(value): a new unit without factors, whose conversion value is 1. */
    constructor Dimensionless(value: real)
      ensures fresh(unit) && unit.Parts() == UnitAlgebra.Dimensionless
      ensures siValue == value
    {
      unit := new Unit();
      new;
      SetValue(value);
      assert Product([], ByRatio) == 1.0;
    }

    /** forceUnit: the unit replaced without any check; the SI value stays. */
    method ForceUnit(newUnit: Unit)
      modifies this
      ensures unit == newUnit && siValue == old(siValue)
    {
      unit := newUnit;
    }

    /** setUnit: a new number of the same SI value in the given unit, again without a check. */
    method SetUnit(newUnit: Unit) returns (newNumber: Number)
      ensures fresh(newNumber) && newNumber.unit == newUnit && newNumber.siValue == siValue
    {
      newNumber := new Number.Dimensionless(siValue);
      newNumber.ForceUnit(newUnit);
    }

    /** setValue: the value times the conversion value of (a clone of) the unit. */
    method SetValue(newValue: real)
      modifies this
      ensures unit == old(unit) && siValue == newValue * Conversion(unit.Parts())
    {
      var clone := GetUnit();
      var conversion := clone.GetConversionValue();
      SimplifySameUnit(unit.Parts());
      siValue := newValue * conversion;
    }

    /** getValue: the SI value over the conversion value of (a clone of) the unit. */
    method GetValue() returns (value: real)
      ensures value == ValueIn(siValue, unit.Parts())
    {
      var clone := GetUnit();
      var conversion := clone.GetConversionValue();
      SimplifySameUnit(unit.Parts());
      value := siValue / conversion;
    }

    /** getValue(Unit): the value in another unit of the same derived type, else the exception. */
    method GetValueIn(otherUnit: Unit) returns (r: Checked<real>)
      ensures r.Ok? <==> DerivedType(otherUnit.Parts()) == DerivedType(unit.Parts())
      ensures r.Ok? ==> r.value == ValueIn(siValue, otherUnit.Parts())
      ensures r.Incomparable? ==> r.first == unit && r.second == otherUnit
    {
      var otherType := otherUnit.GetDerivedUnitType();
      var thisType := unit.GetDerivedUnitType();
      if otherType == thisType {
        var conversion := otherUnit.GetConversionValue();
        r := Ok(siValue / conversion);
      } else {
        r := Incomparable(unit, otherUnit);
      }
    }

    /** getUnit: a clone of the unit, hence simplified. */
    method GetUnit() returns (u: Unit)
      ensures fresh(u) && u.Parts() == UnitAlgebra.Simplify(unit.Parts())
    {
      u := unit.Clone();
    }

    /**
     * getSINumber: the same SI value in the SI form of the unit; None where getSI
     * dereferences null.
     */
    method GetSINumber(catalog: seq<BaseUnit>) returns (r: Option<Number>)
      ensures r.None? <==> ToSI(catalog, UnitAlgebra.Simplify(unit.Parts())).None?
      ensures r.Some? ==> fresh(r.value) && r.value.siValue == siValue
      ensures r.Some? ==> r.value.unit.Parts() == ToSI(catalog, UnitAlgebra.Simplify(unit.Parts())).value
    {
      var value := siValue;
      var clone := GetUnit();
      var si := clone.GetSI(catalog);
      if si.Some? {
        var newNumber := new Number.Dimensionless(value);
        newNumber.ForceUnit(si.value);
        r := Some(newNumber);
      } else {
        r := None;
      }
    }

    /** multiplyBy: the SI values multiply, and so do the (cloned) units. */
    method MultiplyBy(otherNumber: Number) returns (newNumber: Number)
      ensures fresh(newNumber) && newNumber.siValue == old(siValue * otherNumber.siValue)
      ensures newNumber.unit.Parts() ==
        old(Multiply(UnitAlgebra.Simplify(unit.Parts()), UnitAlgebra.Simplify(otherNumber.unit.Parts())))
    {
      newNumber := new Number.Dimensionless(siValue * otherNumber.siValue);
      var product := UnitTimes(otherNumber);
      newNumber.ForceUnit(product);
    }

    /** The unit multiplyBy gives its result: the product of clones of the two units. */
    method UnitTimes(otherNumber: Number) returns (product: Unit)
      ensures fresh(product)
      ensures product.Parts() ==
        Multiply(UnitAlgebra.Simplify(unit.Parts()), UnitAlgebra.Simplify(otherNumber.unit.Parts()))
    {
      var thisUnit := GetUnit();
      var otherUnit := otherNumber.GetUnit();
      product := thisUnit.MultiplyBy(otherUnit);
    }

    /** divideBy: the SI values divide, and so do the (cloned) units. */
    method DivideBy(otherNumber: Number) returns (newNumber: Number)
      requires otherNumber.siValue != 0.0
      ensures fresh(newNumber) && newNumber.siValue == old(siValue / otherNumber.siValue)
      ensures newNumber.unit.Parts() ==
        old(Divide(UnitAlgebra.Simplify(unit.Parts()), UnitAlgebra.Simplify(otherNumber.unit.Parts())))
    {
      newNumber := new Number.Dimensionless(siValue / otherNumber.siValue);
      var quotient := UnitOver(otherNumber);
      newNumber.ForceUnit(quotient);
    }

    /** The unit divideBy gives its result: the quotient of clones of the two units. */
    method UnitOver(otherNumber: Number) returns (quotient: Unit)
      ensures fresh(quotient)
      ensures quotient.Parts() ==
        Divide(UnitAlgebra.Simplify(unit.Parts()), UnitAlgebra.Simplify(otherNumber.unit.Parts()))
    {
      var thisUnit := GetUnit();
      var otherUnit := otherNumber.GetUnit();
      quotient := thisUnit.DivideBy(otherUnit);
    }

    /**
     * addTo: when the derived types agree, the SI values add and the result has a clone
     * of this unit; otherwise the exception carries this unit and a clone of the other's.
     */
    method AddTo(otherNumber: Number) returns (r: Checked<Number>)
      ensures r.Ok? <==> old(DerivedType(otherNumber.unit.Parts()) == DerivedType(unit.Parts()))
      ensures r.Ok? ==> fresh(r.value) && fresh(r.value.unit)
      ensures r.Ok? ==> r.value.siValue == old(siValue + otherNumber.siValue)
      ensures r.Ok? ==> r.value.unit.Parts() == old(UnitAlgebra.Simplify(unit.Parts()))
      ensures r.Incomparable? ==> r.first == unit && fresh(r.second)
      ensures r.Incomparable? ==> r.second.Parts() == old(UnitAlgebra.Simplify(otherNumber.unit.Parts()))
    {
      var comparable := Comparable(otherNumber);
      if comparable {
        var newNumber := new Number.Dimensionless(siValue + otherNumber.siValue);
        var thisUnit := GetUnit();
        newNumber.ForceUnit(thisUnit);
        r := Ok(newNumber);
      } else {
        var otherClone := otherNumber.GetUnit();
        r := Incomparable(unit, otherClone);
      }
    }

    /** The test addTo and subtract share: the derived type of a clone of the other unit against this unit's. */
    method Comparable(otherNumber: Number) returns (same: bool)
      ensures same <==> DerivedType(otherNumber.unit.Parts()) == DerivedType(unit.Parts())
    {
      var otherUnit := otherNumber.GetUnit();
      var otherType := otherUnit.GetDerivedUnitType();
      var thisType := unit.GetDerivedUnitType();
      SimplifySameUnit(otherNumber.unit.Parts());
      same := otherType == thisType;
    }

    /**
     * subtract: like addTo with the SI values subtracted, except that the result shares
     * this number's unit object instead of a clone.
     */
    method Subtract(otherNumber: Number) returns (r: Checked<Number>)
      ensures r.Ok? <==> old(DerivedType(otherNumber.unit.Parts()) == DerivedType(unit.Parts()))
      ensures r.Ok? ==> fresh(r.value) && r.value.unit == unit
      ensures r.Ok? ==> r.value.siValue == old(siValue - otherNumber.siValue)
      ensures r.Incomparable? ==> r.first == unit && fresh(r.second)
      ensures r.Incomparable? ==> r.second.Parts() == old(UnitAlgebra.Simplify(otherNumber.unit.Parts()))
    {
      var comparable := Comparable(otherNumber);
      if comparable {
        var newNumber := new Number.Dimensionless(siValue - otherNumber.siValue);
        newNumber.ForceUnit(unit);
        r := Ok(newNumber);
      } else {
        var otherClone := otherNumber.GetUnit();
        r := Incomparable(unit, otherClone);
      }
    }

    /** invert: the reciprocal SI value in the inverse of the unit itself (not of a clone). */
    method Invert() returns (newNumber: Number)
      requires siValue != 0.0
      ensures fresh(newNumber) && newNumber.siValue == old(1.0 / siValue)
      ensures newNumber.unit.Parts() == old(UnitAlgebra.Invert(unit.Parts()))
    {
      newNumber := new Number.Dimensionless(1.0 / siValue);
      var inverse := unit.Invert();
      newNumber.ForceUnit(inverse);
    }

    /** encode: the value's text, ",", the encoded clone of the unit. */
    method Encode(nt: NumberText) returns (e: string)
      ensures e == EncodeQuantity(nt, ValueIn(siValue, unit.Parts()), UnitAlgebra.Simplify(unit.Parts()))
    {
      var clone := GetUnit();
      var encodedUnit := clone.Encode(nt);
      var value := GetValue();
      e := nt.show(value) + [QUANTITY_SEPARATOR] + encodedUnit;
    }

    /**
     * valueOf: split at ","; the first part must read as a number; a second part that
     * is not a unit gives a dimensionless number.
     */
    static method ValueOf(encoded: string, catalog: seq<BaseUnit>, nt: NumberText) returns (r: ParsedNumber)
      ensures r.ParsedNumber? <==> DecodeQuantity(catalog, nt, encoded).Quantity?
      ensures r.NumberFault? <==> DecodeQuantity(catalog, nt, encoded).QuantityFault?
      ensures r.ParsedNumber? ==> fresh(r.number) && r.number.unit.Parts() == DecodeQuantity(catalog, nt, encoded).unit
      ensures r.ParsedNumber? ==> ValueIn(r.number.siValue, r.number.unit.Parts()) == DecodeQuantity(catalog, nt, encoded).value
    {
      var parts := Split(encoded, QUANTITY_SEPARATOR);
      if |parts| < 2 || nt.parse(parts[0]).None? {
        r := NotANumber;
      } else {
        var value := nt.parse(parts[0]).value;
        var unit := Unit.ValueOf(parts[1], catalog, nt);
        if unit.Parsed? {
          var n := new Number(value, unit.unit);
          r := ParsedNumber(n);
        } else if unit.NotParsed? {
          var n := new Number.Dimensionless(value);
          assert Product([], ByRatio) == 1.0;
          r := ParsedNumber(n);
        } else {
          r := NumberFault;
        }
      }
    }
  }

  /**
   * Number.valueOf(encode()) gives back the value, and with it the SI value, in a unit
   * equal to the original, when the value's text reads back and the simplified unit
   * round-trips.
   */
  lemma QuantityRoundTrip(catalog: seq<BaseUnit>, nt: NumberText, siValue: real, f: Fraction)
    requires var v := ValueIn(siValue, f);
      nt.parse(nt.show(v)) == Some(v) && nt.show(v) != [] && QUANTITY_SEPARATOR !in nt.show(v)
    requires var g := UnitAlgebra.Simplify(f);
      AllRoundTrip(catalog, nt, g.num) && AllRoundTrip(catalog, nt, g.den) && CommaFree(nt, g.num) && CommaFree(nt, g.den)
    requires LookupToken(catalog, nt, []).None?
    ensures DecodeQuantity(catalog, nt, EncodeQuantity(nt, ValueIn(siValue, f), UnitAlgebra.Simplify(f))).Quantity?
    ensures DecodeQuantity(catalog, nt, EncodeQuantity(nt, ValueIn(siValue, f), UnitAlgebra.Simplify(f))).value == ValueIn(siValue, f)
    ensures SameUnit(DecodeQuantity(catalog, nt, EncodeQuantity(nt, ValueIn(siValue, f), UnitAlgebra.Simplify(f))).unit, f)
  {
    var v, g := ValueIn(siValue, f), UnitAlgebra.Simplify(f);
    var q := DecodeQuantity(catalog, nt, EncodeQuantity(nt, v, g));
    DecodeEncodeQuantity(catalog, nt, v, g);
    FactorsOfSimplifiedSameUnit(q.unit, f);
  }

  /**
   * A value equal to the SI value in f, read in a unit equal to f (as Number.valueOf
   * reads it back), has that SI value.
   */
  lemma RecoveredSIValue(v: real, h: Fraction, siValue: real, f: Fraction)
    requires v == ValueIn(siValue, f) && SameUnit(h, f)
    ensures v * Conversion(h) == siValue
  {
    ValueTimesConversion(v, siValue, Conversion(f), Conversion(h));
  }

  /** A unit with the factors of a twice simplified unit equals the original. */
  lemma FactorsOfSimplifiedSameUnit(h: Fraction, f: Fraction)
    requires SameFactors(h, UnitAlgebra.Simplify(UnitAlgebra.Simplify(f)))
    ensures SameUnit(h, f)
  {
    SimplifyTwice(f);
    SameFactorsSameMeasures(h, UnitAlgebra.Simplify(f), ByRatio);
    SameFactorsSameMeasures(h, UnitAlgebra.Simplify(f), ByType);
    SimplifySameUnit(f);
  }

  lemma ValueTimesConversion(v: real, s: real, c: real, c1: real)
    requires c != 0.0 && c1 == c && v == s / c
    ensures v * c1 == s
  {
  }

  lemma StoredValue(value: real, c: real, c1: real)
    requires c != 0.0 && c1 == c
    ensures (value * c) / c1 == value && (value / c) * c1 == value
  {
  }

  /** The value of a product of numbers is the product of their values. */
  lemma ProductValue(s: real, t: real, f: Fraction, g: Fraction)
    ensures ValueIn(s * t, Multiply(UnitAlgebra.Simplify(f), UnitAlgebra.Simplify(g))) == ValueIn(s, f) * ValueIn(t, g)
  {
    SimplifyKeepsMeasures(f, ByRatio);
    SimplifyKeepsMeasures(g, ByRatio);
    ProductValueOf(s, t, f, g, UnitAlgebra.Simplify(f), UnitAlgebra.Simplify(g));
  }

  /** ProductValue for any units a and b with the conversion values of f and g. */
  lemma ProductValueOf(s: real, t: real, f: Fraction, g: Fraction, a: Fraction, b: Fraction)
    requires Conversion(a) == Conversion(f) && Conversion(b) == Conversion(g)
    ensures ValueIn(s * t, Multiply(a, b)) == ValueIn(s, f) * ValueIn(t, g)
  {
    var h := Multiply(a, b);
    MultiplyMeasures(a, b, ByRatio);
    ProductOfEqualFactors(Conversion(h), Conversion(f), Conversion(g), Conversion(h), Conversion(a), Conversion(b));
    ValueOfProduct(s, t, f, g, h);
  }

  /** The value of a product in a unit whose conversion is the product of those of f and g. */
  lemma ValueOfProduct(s: real, t: real, f: Fraction, g: Fraction, h: Fraction)
    requires Conversion(h) == Conversion(f) * Conversion(g)
    ensures ValueIn(s * t, h) == ValueIn(s, f) * ValueIn(t, g)
  {
    QuotientOfProducts(s * t, Conversion(h), s, Conversion(f), t, Conversion(g));
  }

  /** The value of a quotient of numbers is the quotient of their values. */
  lemma QuotientValue(s: real, t: real, f: Fraction, g: Fraction)
    requires t != 0.0
    ensures ValueIn(s / t, Divide(UnitAlgebra.Simplify(f), UnitAlgebra.Simplify(g))) == ValueIn(s, f) / ValueIn(t, g)
  {
    SimplifyKeepsMeasures(f, ByRatio);
    SimplifyKeepsMeasures(g, ByRatio);
    QuotientValueOf(s, t, f, g, UnitAlgebra.Simplify(f), UnitAlgebra.Simplify(g));
  }

  /** QuotientValue for any units a and b with the conversion values of f and g. */
  lemma QuotientValueOf(s: real, t: real, f: Fraction, g: Fraction, a: Fraction, b: Fraction)
    requires t != 0.0
    requires Conversion(a) == Conversion(f) && Conversion(b) == Conversion(g)
    ensures ValueIn(s / t, Divide(a, b)) == ValueIn(s, f) / ValueIn(t, g)
  {
    DivideMeasures(a, b, ByRatio);
    ValueOfQuotient(s, t, Conversion(f), Conversion(g), Conversion(Divide(a, b)), Conversion(a), Conversion(b));
  }

  lemma ValueOfQuotient(s: real, t: real, c: real, d: real, e: real, c1: real, d1: real)
    requires t != 0.0 && c != 0.0 && d != 0.0 && c1 == c && d1 == d && e == c1 / d1
    ensures (s / t) / e == (s / c) / (t / d)
  {
  }

  /**
   * The value of a sum in a clone of this unit is this value plus the other number's
   * value read in this unit.
   */
  lemma SumValue(s: real, t: real, f: Fraction)
    ensures ValueIn(s + t, UnitAlgebra.Simplify(f)) == ValueIn(s, f) + ValueIn(t, f)
  {
    SimplifyKeepsMeasures(f, ByRatio);
    ValueOfSum(s, t, Quotient(f, ByRatio), Quotient(UnitAlgebra.Simplify(f), ByRatio));
  }

  /** The value of a difference in this unit is this value minus the other's value in this unit. */
  lemma DifferenceValue(s: real, t: real, f: Fraction)
    ensures ValueIn(s - t, f) == ValueIn(s, f) - ValueIn(t, f)
  {
    ValueOfDifference(s, t, Conversion(f));
  }

  /** The value of the inverse number is the reciprocal of the value. */
  lemma ReciprocalValue(s: real, f: Fraction)
    requires s != 0.0
    ensures ValueIn(1.0 / s, UnitAlgebra.Invert(f)) == 1.0 / ValueIn(s, f)
  {
    InvertMeasures(f, ByRatio);
    ValueOfReciprocal(s, Quotient(f, ByRatio), Quotient(UnitAlgebra.Invert(f), ByRatio));
  }

  lemma ValueOfSum(s: real, t: real, c: real, c1: real)
    requires c != 0.0 && c1 == c
    ensures (s + t) / c1 == s / c + t / c
  {
  }

  lemma ValueOfDifference(s: real, t: real, c: real)
    requires c != 0.0
    ensures (s - t) / c == s / c - t / c
  {
  }

  lemma ValueOfReciprocal(s: real, c: real, c1: real)
    requires s != 0.0 && c != 0.0 && c1 == 1.0 / c
    ensures (1.0 / s) / c1 == 1.0 / (s / c)
  {
  }

  /** One kilometre is a thousand metres, and its SI value is 1000. */
  lemma KilometreInMetres()
    ensures 1.0 * Conversion(Fraction([KILOMETRE], [])) == 1000.0
    ensures DerivedType(Fraction([KILOMETRE], [])) == DerivedType(Fraction([METRE], []))
    ensures ValueIn(1000.0, Fraction([METRE], [])) == 1000.0
  {
    ProductSnoc([], KILOMETRE, ByRatio);
    ProductSnoc([], KILOMETRE, ByType);
    ProductSnoc([], METRE, ByRatio);
    ProductSnoc([], METRE, ByType);
    assert [] + [KILOMETRE] == [KILOMETRE] && [] + [METRE] == [METRE];
    assert Product([], ByRatio) == 1.0 && Product([], ByType) == 1.0;
  }
}
