/**
 * The Unit class: a numerator list and a denominator list of base units, rewritten in
 * place by simplify. Every method is proved against the value-level functions of
 * UnitAlgebra and UnitCodec, whose lemmas state what the operations mean.
 *
 * The display name and abbreviation a Unit inherits from UnitAlias are not modelled.
 */
module Units {
  import opened Optional
  import opened Text
  import opened BaseUnits
  import opened Products
  import opened UnitAlgebra
  import opened UnitCodec

  /** The outcomes of Unit.valueOf: a unit, null, or StringIndexOutOfBoundsException. */
  datatype ParsedUnit = Parsed(unit: Unit) | NotParsed | ParseFault

  class Unit {
    var numerator: seq<BaseUnit>
    var denominator: seq<BaseUnit>

    /** The two lists as a value. */
    function Parts(): Fraction
      reads this
    {
      Fraction(numerator, denominator)
    }

    /** new Unit(): no factors. */
    constructor ()
      ensures Parts() == Dimensionless
    {
      numerator := [];
      denominator := [];
    }

    /**
     * new Unit(name, shortName, baseUnit, conversion): the base unit's lists with a
     * nameless scale factor appended to the numerator; nothing is simplified, and the
     * conversion value is the base unit's times the factor.
     */
    constructor Scaled(baseUnit: Unit, conversion: Ratio)
      ensures Parts() == Fraction(baseUnit.numerator + [RatioUnit(conversion)], baseUnit.denominator)
      ensures Conversion(Parts()) == Conversion(baseUnit.Parts()) * conversion
      ensures DerivedType(Parts()) == DerivedType(baseUnit.Parts())
    {
      numerator := baseUnit.numerator + [RatioUnit(conversion)];
      denominator := baseUnit.denominator;
      new;
      ScaledMeasures(baseUnit.Parts(), conversion);
    }

    /** new Unit(BaseUnit): the one factor, not simplified. */
    constructor Single(unit: BaseUnit)
      ensures Parts() == Fraction([unit], [])
    {
      numerator := [unit];
      denominator := [];
    }

    /** new Unit(ArrayList, ArrayList): copies of both lists, simplified. */
    constructor FromLists(numeratorUnits: seq<BaseUnit>, denominatorUnits: seq<BaseUnit>)
      ensures Parts() == UnitAlgebra.Simplify(Fraction(numeratorUnits, denominatorUnits))
    {
      numerator := numeratorUnits;
      denominator := denominatorUnits;
      new;
      Simplify();
    }

    /** new Unit(BaseUnit[], BaseUnit[]): both arrays copied element by element, then simplified. */
    constructor FromArrays(numeratorUnits: array<BaseUnit>, denomUnits: array<BaseUnit>)
      ensures Parts() == UnitAlgebra.Simplify(Fraction(numeratorUnits[..], denomUnits[..]))
    {
      var num := CopyOf(numeratorUnits);
      var den := CopyOf(denomUnits);
      numerator, denominator := num, den;
      new;
      Simplify();
    }

    /** new Unit(BaseUnit[]): the array as numerator, no denominator, simplified. */
    constructor FromArray(numeratorUnits: array<BaseUnit>)
      ensures Parts() == UnitAlgebra.Simplify(Fraction(numeratorUnits[..], []))
    {
      var num := CopyOf(numeratorUnits);
      numerator, denominator := num, [];
      new;
      Simplify();
    }

    /** The loop that adds the elements of an array to a list, one by one. */
    static method CopyOf(a: array<BaseUnit>) returns (s: seq<BaseUnit>)
      ensures s == a[..]
    {
      s := [];
      for i := 0 to a.Length
        invariant s == a[..i]
      {
        s := s + [a[i]];
      }
    }

    /**
     * The loops of getConversionValue and getDerivedUnitType: start from 1, multiply by
     * the weight of each numerator factor, divide by that of each denominator factor.
     */
    method Measured(m: Measure) returns (value: real)
      ensures value == Quotient(Parts(), m)
    {
      value := 1.0;
      for i := 0 to |numerator|
        invariant value == Product(numerator[..i], m)
      {
        ProductSnoc(numerator[..i], numerator[i], m);
        assert numerator[..i + 1] == numerator[..i] + [numerator[i]];
        value := value * Weight(m, numerator[i]);
      }
      assert numerator[..|numerator|] == numerator;
      for j := 0 to |denominator|
        invariant Product(denominator[..j], m) != 0.0
        invariant value == Product(numerator, m) / Product(denominator[..j], m)
      {
        ProductSnoc(denominator[..j], denominator[j], m);
        assert denominator[..j + 1] == denominator[..j] + [denominator[j]];
        WeightFacts(m, denominator[j]);
        NonZeroProduct(Product(denominator[..j], m), Weight(m, denominator[j]));
        DivideStep(value, Product(numerator, m), Product(denominator[..j], m), Weight(m, denominator[j]));
        value := value / Weight(m, denominator[j]);
      }
      assert denominator[..|denominator|] == denominator;
      QuotientDef(Parts(), m);
    }

    /** getConversionValue. */
    method GetConversionValue() returns (value: real)
      ensures value == Conversion(Parts())
    {
      value := Measured(ByRatio);
    }

    /** getDerivedUnitType. */
    method GetDerivedUnitType() returns (value: real)
      ensures value == DerivedType(Parts())
    {
      value := Measured(ByType);
    }

    /** getRatio: the loops of getConversionValue restricted to factors of tag 1. */
    method GetRatio() returns (ratioValue: real)
      ensures ratioValue == RatioOf(Parts())
    {
      ratioValue := 1.0;
      for i := 0 to |numerator|
        invariant ratioValue == Product(Scalars(numerator[..i]), ByRatio)
      {
        ScalarsSnoc(numerator, i);
        if numerator[i].IsRatio() {
          ProductSnoc(Scalars(numerator[..i]), numerator[i], ByRatio);
          ratioValue := ratioValue * numerator[i].ratio;
        } else {
          assert Scalars(numerator[..i]) + [] == Scalars(numerator[..i]);
        }
      }
      assert numerator[..|numerator|] == numerator;
      ghost var top := Product(Scalars(numerator), ByRatio);
      for j := 0 to |denominator|
        invariant Product(Scalars(denominator[..j]), ByRatio) != 0.0
        invariant ratioValue == top / Product(Scalars(denominator[..j]), ByRatio)
      {
        ghost var d := Scalars(denominator[..j]);
        ScalarsSnoc(denominator, j);
        if denominator[j].IsRatio() {
          ProductSnoc(d, denominator[j], ByRatio);
          NonZeroProduct(Product(d, ByRatio), denominator[j].ratio);
          DivideStep(ratioValue, top, Product(d, ByRatio), denominator[j].ratio);
          ratioValue := ratioValue / denominator[j].ratio;
        } else {
          assert d + [] == d;
        }
      }
      assert denominator[..|denominator|] == denominator;
      QuotientDef(Fraction(Scalars(numerator), Scalars(denominator)), ByRatio);
    }

    /** isRatio: a single numerator factor of tag 1. */
    method IsRatio() returns (b: bool)
      ensures b <==> IsRatioUnit(Parts())
    {
      b := |numerator| == 1 && numerator[0].IsRatio();
    }

    /** The loop of stripRatios and stripRatiosInSitu: the factors whose tag is not 1, in order. */
    static method WithoutRatios(s: seq<BaseUnit>) returns (r: seq<BaseUnit>)
      ensures r == Dimensioned(s)
    {
      r := [];
      for i := 0 to |s|
        invariant r == Dimensioned(s[..i])
      {
        assert s[..i + 1][..i] == s[..i];
        if !s[i].IsRatio() {
          r := r + [s[i]];
        }
      }
      assert s[..|s|] == s;
    }

    /** stripRatiosInSitu: both lists replaced by their factors of tag other than 1. */
    method StripRatiosInSitu()
      modifies this
      ensures numerator == Dimensioned(old(numerator)) && denominator == Dimensioned(old(denominator))
    {
      var newNum := WithoutRatios(numerator);
      var newDen := WithoutRatios(denominator);
      numerator := newNum;
      denominator := newDen;
    }

    /** stripRatios: a new unit of the factors of tag other than 1, simplified. */
    method StripRatios() returns (u: Unit)
      ensures fresh(u) && u.Parts() == Stripped(Parts())
    {
      var newNum := WithoutRatios(numerator);
      var newDen := WithoutRatios(denominator);
      u := new Unit.FromLists(newNum, newDen);
    }

    /**
     * simplify: take the ratio, strip the scale factors, append the nameless factor of
     * the ratio when it is not 1, then cancel.
     */
    method Simplify()
      modifies this
      ensures Parts() == UnitAlgebra.Simplify(old(Parts()))
    {
      var ratio := GetRatio();
      StripRatiosInSitu();
      if ratio != 1.0 {
        numerator := numerator + [RatioUnit(ratio)];
      } else {
        assert numerator == numerator + [];
      }
      assert Parts() == Folded(old(Parts()));
      SimplifyUnits();
    }

    /**
     * simplifyUnits: at the first numerator factor that equals a denominator factor,
     * remove the first such denominator factor and that numerator factor, and start
     * over; the loop then runs on with nothing left to cancel.
     */
    method SimplifyUnits()
      modifies this
      ensures Parts() == Cancel(old(Parts()))
      decreases |numerator|
    {
      ghost var start := Parts();
      ghost var cancelled := false;
      var i := 0;
      while i < |numerator|
        invariant 0 <= i
        invariant !cancelled ==> Parts() == start && i <= |numerator| && NoneCancellableBefore(start, i)
        invariant cancelled ==> Parts() == Cancel(start) && NoCommonFactor(Parts())
        decreases |numerator| - i
      {
        if cancelled {
          NoCommonFactorIndex(Parts(), i);
        }
        var k := IndexOfEqual(denominator, numerator[i]);
        if k != -1 {
          ghost var next := Fraction(RemoveAt(numerator, i), RemoveAt(denominator, k));
          CancelFirstAt(start, i);
          denominator := RemoveAt(denominator, k);
          numerator := RemoveAt(numerator, i);
          SimplifyUnits();
          CancelLeavesNoCommonFactor(next);
          CancelShortens(next);
          cancelled := true;
        }
        i := i + 1;
      }
      if !cancelled {
        CancelNoneFound(start);
      }
    }

    /** containsRatio: whether stripping the scale factors gives an unequal unit. */
    method ContainsRatio() returns (b: bool)
      ensures b <==> HasRatio(Parts())
    {
      var stripped := StripRatios();
      var same := stripped.Equals(this);
      b := !same;
    }

    /** equals: same conversion value and same derived type. */
    method Equals(otherUnit: Unit) returns (b: bool)
      ensures b <==> SameUnit(otherUnit.Parts(), Parts())
    {
      var otherValue := otherUnit.GetConversionValue();
      var value := GetConversionValue();
      var thisType := GetDerivedUnitType();
      var otherType := otherUnit.GetDerivedUnitType();
      b := otherValue == value && thisType == otherType;
    }

    /** getSIUnit: the first catalog entry of the tag, or null. */
    static method GetSIUnit(unitType: int, catalog: seq<BaseUnit>) returns (r: Option<BaseUnit>)
      ensures r == FirstOfType(catalog, unitType)
    {
      for i := 0 to |catalog|
        invariant FirstOfType(catalog, unitType) == FirstOfType(catalog[i..], unitType)
      {
        assert catalog[i..][1..] == catalog[i + 1..];
        if catalog[i].UnitType() == unitType {
          return Some(catalog[i]);
        }
      }
      return None;
    }

    /** The getSIUnit loop of getSI over one list. */
    static method SILookupOf(catalog: seq<BaseUnit>, s: seq<BaseUnit>) returns (r: seq<Option<BaseUnit>>)
      ensures r == SILookup(catalog, s)
    {
      r := [];
      for i := 0 to |s|
        invariant r == SILookup(catalog, s[..i])
      {
        var b := GetSIUnit(s[i].UnitType(), catalog);
        r := r + [b];
      }
      assert s[..|s|] == s;
    }

    /**
     * getSI: each factor replaced by the catalog's first entry of its tag, simplified;
     * None when a tag is missing from the catalog, where simplify would dereference null.
     */
    method GetSI(catalog: seq<BaseUnit>) returns (r: Option<Unit>)
      ensures r.None? <==> ToSI(catalog, Parts()).None?
      ensures r.Some? ==> fresh(r.value) && r.value.Parts() == ToSI(catalog, Parts()).value
    {
      var newNum := SILookupOf(catalog, numerator);
      var newDen := SILookupOf(catalog, denominator);
      if AllFound(newNum) && AllFound(newDen) {
        var u := new Unit.FromLists(Found(newNum), Found(newDen));
        r := Some(u);
      } else {
        r := None;
      }
    }

    /** invert: the lists exchanged, simplified. */
    method Invert() returns (u: Unit)
      ensures fresh(u) && u.Parts() == UnitAlgebra.Invert(Parts())
    {
      u := new Unit.FromLists(denominator, numerator);
    }

    /** multiplyBy: both numerators and both denominators, simplified. */
    method MultiplyBy(otherUnit: Unit) returns (u: Unit)
      ensures fresh(u) && u.Parts() == Multiply(Parts(), otherUnit.Parts())
    {
      u := new Unit.FromLists(numerator + otherUnit.numerator, denominator + otherUnit.denominator);
    }

    /** divideBy: multiplication by the other unit's inverse. */
    method DivideBy(otherUnit: Unit) returns (u: Unit)
      ensures fresh(u) && u.Parts() == Divide(Parts(), otherUnit.Parts())
    {
      var inverse := otherUnit.Invert();
      u := MultiplyBy(inverse);
    }

    /**
     * raiseToPower as written: for a positive number each list is appended to itself
     * number times; for a negative one the loop does not run and the lists are exchanged.
     */
    method RaiseToPower(number: int) returns (u: Unit)
      ensures fresh(u) && u.Parts() == Power(Parts(), number)
    {
      if number != 0 {
        var newNumerator, newDenominator := numerator, denominator;
        var i := 1;
        while i <= number
          invariant 1 <= i && (number > 0 ==> i <= number + 1) && (number < 0 ==> i == 1)
          invariant newNumerator == Doubled(numerator, i - 1) && newDenominator == Doubled(denominator, i - 1)
        {
          newNumerator := newNumerator + newNumerator;
          newDenominator := newDenominator + newDenominator;
          i := i + 1;
        }
        if number > 0 {
          u := new Unit.FromLists(newNumerator, newDenominator);
        } else {
          u := new Unit.FromLists(newDenominator, newNumerator);
        }
      } else {
        u := new Unit();
      }
    }

    /**
     * raiseToPower as evidently intended: number copies of each list for a positive
     * number, and -number copies of the exchanged lists for a negative one.
     */
    method RaiseToIntendedPower(number: int) returns (u: Unit)
      ensures fresh(u) && u.Parts() == IntendedPower(Parts(), number)
    {
      if number != 0 {
        var count := if number > 0 then number else -number;
        var newNumerator, newDenominator := numerator, denominator;
        RepeatOnce(numerator);
        RepeatOnce(denominator);
        var i := 1;
        while i < count
          invariant 1 <= i <= count
          invariant newNumerator == Repeat(numerator, i) && newDenominator == Repeat(denominator, i)
        {
          newNumerator := newNumerator + numerator;
          newDenominator := newDenominator + denominator;
          i := i + 1;
        }
        if number > 0 {
          u := new Unit.FromLists(newNumerator, newDenominator);
        } else {
          u := new Unit.FromLists(newDenominator, newNumerator);
        }
      } else {
        u := new Unit();
        SimplifyDimensionless();
      }
    }

    /** clone: a new unit built from copies of the lists, hence simplified. */
    method Clone() returns (u: Unit)
      ensures fresh(u) && u.Parts() == UnitAlgebra.Simplify(Parts())
    {
      u := new Unit.FromLists(numerator, denominator);
    }

    /** encode: the numerator list, "/", the denominator list, each led by "-". */
    method Encode(nt: NumberText) returns (e: string)
      ensures e == UnitCodec.Encode(nt, Parts())
    {
      var numeratorString := EncodedList(nt, numerator);
      var denominatorString := EncodedList(nt, denominator);
      e := numeratorString + [FRACTION_SEPARATOR] + denominatorString;
    }

    /** One loop of encode: "-", then each abbreviation, with "-" between consecutive ones. */
    static method EncodedList(nt: NumberText, s: seq<BaseUnit>) returns (text: string)
      ensures text == EncodeList(nt, s)
    {
      text := [UNIT_SEPARATOR];
      var times := "";
      for i := 0 to |s|
        invariant times == if i == 0 then "" else [UNIT_SEPARATOR]
        invariant text == [UNIT_SEPARATOR] + Join(Abbreviations(nt, s[..i]), UNIT_SEPARATOR)
      {
        assert Abbreviations(nt, s[..i + 1]) == Abbreviations(nt, s[..i]) + [s[i].Abbreviation(nt)];
        JoinSnoc(Abbreviations(nt, s[..i]), s[i].Abbreviation(nt), UNIT_SEPARATOR);
        text := text + times + s[i].Abbreviation(nt);
        times := [UNIT_SEPARATOR];
      }
      assert s[..|s|] == s;
    }

    /** The counting loops of getHtml: distinct factors in order of first occurrence, each occurrence adding step. */
    static method Tallied(s: seq<BaseUnit>, step: int) returns (units: seq<BaseUnit>, counts: seq<int>)
      ensures Tally(units, counts) == TallyOf(s, step)
    {
      units, counts := [], [];
      for i := 0 to |s|
        invariant Tally(units, counts) == TallyOf(s[..i], step)
      {
        assert s[..i + 1][..i] == s[..i];
        var index := IndexOfEqual(units, s[i]);
        if index != -1 {
          counts := counts[index := counts[index] + step];
        } else {
          units := units + [s[i]];
          counts := counts + [step];
        }
      }
      assert s[..|s|] == s;
    }

    /** getHtml: null without factors, else the numerator terms followed by the denominator terms. */
    method GetHtml(nt: NumberText) returns (html: Option<string>)
      ensures html == Html(nt, Parts())
    {
      if |numerator| > 0 || |denominator| > 0 {
        var numUnits, numCounts := Tallied(numerator, 1);
        var denUnits, denCounts := Tallied(denominator, -1);
        var numeratorText := NumeratorHtml(nt, numUnits, numCounts, |denUnits| == 0);
        var denominatorText := DenominatorHtml(nt, denUnits, denCounts);
        html := Some(numeratorText + denominatorText);
      } else {
        html := None;
      }
    }

    /** The numerator loop of getHtml: each abbreviation followed by its exponent text. */
    static method NumeratorHtml(nt: NumberText, numUnits: seq<BaseUnit>, numCounts: seq<int>, denominatorEmpty: bool)
      returns (outString: string)
      requires |numUnits| == |numCounts|
      ensures outString == NumeratorTerms(nt, Tally(numUnits, numCounts), |numUnits|, denominatorEmpty)
    {
      ghost var t := Tally(numUnits, numCounts);
      outString := "";
      for i := 0 to |numUnits|
        invariant outString == NumeratorTerms(nt, t, i, denominatorEmpty)
      {
        assert NumeratorTerms(nt, t, i + 1, denominatorEmpty) == NumeratorTerms(nt, t, i, denominatorEmpty) + NumeratorTerm(nt, t, i, denominatorEmpty);
        var exponent;
        if numCounts[i] == 1 {
          exponent := " ";
          if i == |numUnits| - 1 && denominatorEmpty {
            exponent := "";
          }
        } else {
          exponent := Sup(IntText(numCounts[i]));
        }
        outString := outString + (numUnits[i].Abbreviation(nt) + exponent);
      }
    }

    /** The denominator loop of getHtml: each abbreviation followed by its negative count as a superscript. */
    static method DenominatorHtml(nt: NumberText, denUnits: seq<BaseUnit>, denCounts: seq<int>) returns (outString: string)
      requires |denUnits| == |denCounts|
      ensures outString == DenominatorTerms(nt, Tally(denUnits, denCounts), |denUnits|)
    {
      ghost var t := Tally(denUnits, denCounts);
      outString := "";
      for i := 0 to |denUnits|
        invariant outString == DenominatorTerms(nt, t, i)
      {
        assert DenominatorTerms(nt, t, i + 1) == DenominatorTerms(nt, t, i) + DenominatorTerm(nt, t, i);
        outString := outString + (denUnits[i].Abbreviation(nt) + Sup(IntText(denCounts[i])));
      }
    }

    /** getUnitFromArray: the first entry with that abbreviation, else the number the token reads as. */
    static method GetUnitFromArray(abbreviation: string, catalog: seq<BaseUnit>, nt: NumberText) returns (r: Option<BaseUnit>)
      ensures r == LookupToken(catalog, nt, abbreviation)
    {
      for i := 0 to |catalog|
        invariant FirstWithAbbreviation(catalog, nt, abbreviation) == FirstWithAbbreviation(catalog[i..], nt, abbreviation)
      {
        assert catalog[i..][1..] == catalog[i + 1..];
        if catalog[i].Abbreviation(nt) == abbreviation {
          return Some(catalog[i]);
        }
      }
      match nt.parse(abbreviation)
      case Some(ratioValue) =>
        r := if ratioValue != 0.0 then Some(RatioUnit(ratioValue)) else None;
      case None =>
        r := None;
    }

    /** One list loop of valueOf: each trimmed token looked up, the ones found kept. */
    static method DecodedList(text: string, listOfUnits: seq<BaseUnit>, nt: NumberText) returns (s: seq<BaseUnit>)
      ensures s == DecodeList(listOfUnits, nt, text)
    {
      var parts := Split(Trim(text), UNIT_SEPARATOR);
      s := [];
      for i := 0 to |parts|
        invariant s == DecodeTokens(listOfUnits, nt, parts[..i])
      {
        assert parts[..i + 1][..i] == parts[..i];
        var unit := GetUnitFromArray(Trim(parts[i]), listOfUnits, nt);
        if unit.Some? {
          s := s + [unit.value];
        } else {
          assert s == s + [];
        }
      }
      assert parts[..|parts|] == parts;
    }

    /** valueOf: split at "/", decode the first part and the second without its first character. */
    static method ValueOf(value: string, listOfUnits: seq<BaseUnit>, nt: NumberText) returns (r: ParsedUnit)
      ensures r.NotParsed? <==> Decode(listOfUnits, nt, value).NotAUnit?
      ensures r.ParseFault? <==> Decode(listOfUnits, nt, value).SubstringFault?
      ensures r.Parsed? ==> fresh(r.unit) && Decode(listOfUnits, nt, value) == Decoded(r.unit.Parts())
    {
      var trimmed := Trim(value);
      var parts := Split(trimmed, FRACTION_SEPARATOR);
      if |parts| >= 2 {
        var num := DecodedList(parts[0], listOfUnits, nt);
        if |parts[1]| == 0 {
          return ParseFault;
        }
        var den := DecodedList(parts[1][1..], listOfUnits, nt);
        var u := new Unit.FromLists(num, den);
        r := Parsed(u);
      } else {
        r := NotParsed;
      }
    }
  }

  /** The scale factors of a prefix one longer. */
  lemma ScalarsSnoc(s: seq<BaseUnit>, i: int)
    requires 0 <= i < |s|
    ensures Scalars(s[..i + 1]) == Scalars(s[..i]) + if s[i].IsRatio() then [s[i]] else []
  {
    assert s[..i + 1][..i] == s[..i];
  }

  /** The conversion value of a unit with one more numerator factor of ratio c. */
  lemma ScaledMeasures(f: Fraction, c: Ratio)
    ensures Conversion(Fraction(f.num + [RatioUnit(c)], f.den)) == Conversion(f) * c
    ensures DerivedType(Fraction(f.num + [RatioUnit(c)], f.den)) == DerivedType(f)
  {
    ProductSnoc(f.num, RatioUnit(c), ByRatio);
    ProductSnoc(f.num, RatioUnit(c), ByType);
    QuotientDef(f, ByRatio);
    QuotientDef(f, ByType);
    QuotientDef(Fraction(f.num + [RatioUnit(c)], f.den), ByRatio);
    QuotientDef(Fraction(f.num + [RatioUnit(c)], f.den), ByType);
    QuotientTimesFactor(Product(f.num, ByRatio), Product(f.den, ByRatio), c);
  }

  lemma QuotientTimesFactor(a: real, b: real, c: real)
    requires b != 0.0
    ensures (a * c) / b == (a / b) * c
  {
  }

  lemma DivideStep(v: real, a: real, p: real, w: real)
    requires p != 0.0 && w != 0.0 && v == a / p
    ensures v / w == a / (p * w)
  {
  }
}
