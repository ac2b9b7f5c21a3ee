/**
 * Base units: one scale of one physical dimension. A dimension carries a prime tag,
 * so that products and quotients of tags identify a combination of dimensions; a
 * base unit carries its dimension, display names, its ratio to the SI unit of that
 * dimension and an offset that no conversion reads.
 *
 * Doubles are modelled as exact reals. A ratio is never zero here (the type Ratio),
 * because exact division by zero has no value where IEEE arithmetic gives infinity.
 */
module BaseUnits {
  import opened Optional
  import opened Text

  // The dimension tags, including the user slots for which no dimension exists.
  const NO_UNIT: int := 1
  const LENGTH: int := 2
  const MASS: int := 3
  const TIME: int := 5
  const ELECTRIC_CURRENT: int := 7
  const TEMPERATURE: int := 11
  const LUMINOUS_INTENSITY: int := 13
  const AMOUNT_OF_SUBSTANCE: int := 17
  const ANGLE: int := 19
  const CURRENCY: int := 23
  const DATA_STORAGE: int := 29
  const USER1: int := 101
  const USER2: int := 103
  const USER3: int := 107
  const USER4: int := 109
  const USER5: int := 113
  const USER6: int := 127

  /** The built-in dimensions: the only instances the private constructor ever makes. */
  datatype Dimension =
    | Unitless | Metre | Kilogram | Second | Ampere | Kelvin
    | Candela | Mole | Radian | Dollar | Byte
  {
    /** getDimensionType: the dimension's tag. */
    function Type(): int {
      match this
      case Unitless => NO_UNIT
      case Metre => LENGTH
      case Kilogram => MASS
      case Second => TIME
      case Ampere => ELECTRIC_CURRENT
      case Kelvin => TEMPERATURE
      case Candela => LUMINOUS_INTENSITY
      case Mole => AMOUNT_OF_SUBSTANCE
      case Radian => ANGLE
      case Dollar => CURRENCY
      case Byte => DATA_STORAGE
    }

    function SIName(): string {
      match this
      case Unitless => ""
      case Metre => "metre"
      case Kilogram => "kilogram"
      case Second => "second"
      case Ampere => "ampere"
      case Kelvin => "kelvin"
      case Candela => "candela"
      case Mole => "mole"
      case Radian => "radian"
      case Dollar => "dollar"
      case Byte => "byte"
    }

    function SIAbbreviation(): string {
      match this
      case Unitless => ""
      case Metre => "m"
      case Kilogram => "kg"
      case Second => "s"
      case Ampere => "A"
      case Kelvin => "K"
      case Candela => "cd"
      case Mole => "mol"
      case Radian => "rad"
      case Dollar => "$"
      case Byte => "b"
    }
  }

  /** Every tag is positive, only the unitless dimension has tag 1, and no two dimensions share a tag. */
  lemma TypesDistinct(a: Dimension, b: Dimension)
    ensures a.Type() >= NO_UNIT && (a.Type() == NO_UNIT <==> a == Unitless)
    ensures a.Type() == b.Type() <==> a == b
  {
  }

  /** The seventeen tag constants, user slots included, are pairwise distinct. */
  lemma TagConstantsDistinct()
    ensures var tags := [NO_UNIT, LENGTH, MASS, TIME, ELECTRIC_CURRENT, TEMPERATURE, LUMINOUS_INTENSITY,
                         AMOUNT_OF_SUBSTANCE, ANGLE, CURRENCY, DATA_STORAGE, USER1, USER2, USER3, USER4, USER5, USER6];
            forall i, j :: 0 <= i < j < |tags| ==> tags[i] != tags[j]
  {
  }

  type Ratio = r: real | r != 0.0 witness 1.0

  /**
   * A base unit, as the five-argument constructor builds it: dimension, long name,
   * abbreviation, ratio to the SI unit, offset (stored, never used in conversions).
   */
  datatype BaseUnit = BaseUnit(dimension: Dimension, name: string, abbreviation: string, ratio: Ratio, offset: real)
  {
    /** getUnitType. */
    function UnitType(): int {
      dimension.Type()
    }

    /** A pure scale factor: its dimension is the unitless one (tag 1). */
    predicate IsRatio() {
      UnitType() == NO_UNIT
    }

    /** equals: same ratio and same dimension tag; names, abbreviation and offset do not matter. */
    predicate Equals(other: BaseUnit) {
      ratio == other.ratio && UnitType() == other.UnitType()
    }

    /** getAbbreviation: the stored abbreviation, or the ratio's text when it is empty. */
    function Abbreviation(nt: NumberText): string {
      if |abbreviation| > 0 then abbreviation else nt.show(ratio)
    }
  }

  /** The four-argument constructor: offset 0. */
  function Scaled(base: Dimension, name: string, abbreviation: string, ratio: Ratio): BaseUnit {
    BaseUnit(base, name, abbreviation, ratio, 0.0)
  }

  /** The ratio-only constructor: a nameless pure scale factor. */
  function RatioUnit(ratio: Ratio): BaseUnit {
    BaseUnit(Unitless, "", "", ratio, 0.0)
  }

  /** The dimension-only constructor: the SI unit of the dimension, ratio 1. */
  function SIUnit(base: Dimension): BaseUnit {
    Scaled(base, base.SIName(), base.SIAbbreviation(), 1.0)
  }

  /** Equality of base units is an equivalence relation. */
  lemma EqualsIsEquivalence(a: BaseUnit, b: BaseUnit, c: BaseUnit)
    ensures a.Equals(a)
    ensures a.Equals(b) ==> b.Equals(a)
    ensures a.Equals(b) && b.Equals(c) ==> a.Equals(c)
    ensures a.Equals(b) <==> a.ratio == b.ratio && a.dimension == b.dimension
  {
  }

  /** What the three convenience constructors produce. */
  lemma ConstructorShapes(nt: NumberText, base: Dimension, name: string, abbreviation: string, ratio: Ratio)
    ensures Scaled(base, name, abbreviation, ratio).offset == 0.0
    ensures RatioUnit(ratio).IsRatio() && RatioUnit(ratio).ratio == ratio && RatioUnit(ratio).offset == 0.0
    ensures RatioUnit(ratio).name == "" && RatioUnit(ratio).Abbreviation(nt) == nt.show(ratio)
    ensures SIUnit(base).ratio == 1.0 && SIUnit(base).UnitType() == base.Type()
    ensures SIUnit(base).name == base.SIName() && SIUnit(base).abbreviation == base.SIAbbreviation()
    ensures base != Unitless ==> SIUnit(base).Abbreviation(nt) == base.SIAbbreviation()
  {
  }

  /** The first catalog entry of the given dimension tag: Unit.getSIUnit's lookup in BaseUnit.ALL. */
  function FirstOfType(catalog: seq<BaseUnit>, unitType: int): (r: Option<BaseUnit>)
    ensures r.Some? ==> r.value in catalog && r.value.UnitType() == unitType
    ensures r.None? <==> forall i :: 0 <= i < |catalog| ==> catalog[i].UnitType() != unitType
    decreases |catalog|
  {
    if catalog == [] then None
    else if catalog[0].UnitType() == unitType then Some(catalog[0])
    else FirstOfType(catalog[1..], unitType)
  }

  /** The lookup by tag yields the entry at the first position holding that tag. */
  lemma {:induction false} FirstOfTypeAt(catalog: seq<BaseUnit>, unitType: int, i: int)
    requires 0 <= i < |catalog| && catalog[i].UnitType() == unitType
    requires forall j :: 0 <= j < i ==> catalog[j].UnitType() != unitType
    ensures FirstOfType(catalog, unitType) == Some(catalog[i])
    decreases i
  {
    if i > 0 {
      FirstOfTypeAt(catalog[1..], unitType, i - 1);
    }
  }

  /** The first catalog entry whose abbreviation is the token: the lookup in Unit.getUnitFromArray. */
  function FirstWithAbbreviation(catalog: seq<BaseUnit>, nt: NumberText, token: string): (r: Option<BaseUnit>)
    ensures r.Some? ==> r.value in catalog && r.value.Abbreviation(nt) == token
    ensures r.None? <==> forall i :: 0 <= i < |catalog| ==> catalog[i].Abbreviation(nt) != token
    decreases |catalog|
  {
    if catalog == [] then None
    else if catalog[0].Abbreviation(nt) == token then Some(catalog[0])
    else FirstWithAbbreviation(catalog[1..], nt, token)
  }

  /**
   * The shape of BaseUnit.ALL: no entry is a pure scale factor, and the first entry of
   * each dimension is that dimension's SI unit.
   */
  predicate IsStandardCatalog(catalog: seq<BaseUnit>) {
    && (forall i :: 0 <= i < |catalog| ==> !catalog[i].IsRatio())
    && (forall i :: 0 <= i < |catalog| ==> FirstOfType(catalog, catalog[i].UnitType()) == Some(SIUnit(catalog[i].dimension)))
  }

  /** In a standard catalog every lookup by tag that succeeds yields a ratio-1 unit of that tag, and tag 1 is never found. */
  lemma StandardLookup(catalog: seq<BaseUnit>, unitType: int)
    requires IsStandardCatalog(catalog)
    ensures FirstOfType(catalog, NO_UNIT).None?
    ensures FirstOfType(catalog, unitType).Some? ==> FirstOfType(catalog, unitType).value.ratio == 1.0
  {
    var r := FirstOfType(catalog, unitType);
    if r.Some? {
      var i :| 0 <= i < |catalog| && catalog[i] == r.value;
      assert FirstOfType(catalog, catalog[i].UnitType()) == Some(SIUnit(catalog[i].dimension));
    }
  }

  // An excerpt of BaseUnit.ALL, in its order, with the source's ratios.
  const METRE := SIUnit(Metre)
  const KILOMETRE := Scaled(Metre, "kilometre", "km", 1000.0)
  const CENTIMETRE := Scaled(Metre, "centimetre", "cm", 0.01)
  const SECOND := SIUnit(Second)
  const HOUR := Scaled(Second, "hour", "hr", 3600.0)

  function SampleCatalog(): seq<BaseUnit> {
    [METRE, KILOMETRE, CENTIMETRE, SECOND, HOUR]
  }

  lemma FirstOfTypeCons(x: BaseUnit, rest: seq<BaseUnit>, unitType: int)
    ensures FirstOfType([x] + rest, unitType) == if x.UnitType() == unitType then Some(x) else FirstOfType(rest, unitType)
  {
    assert ([x] + rest)[1..] == rest;
  }

  lemma SampleLookups()
    ensures FirstOfType(SampleCatalog(), LENGTH) == Some(METRE)
    ensures FirstOfType(SampleCatalog(), TIME) == Some(SECOND)
  {
    FirstOfTypeCons(METRE, [KILOMETRE, CENTIMETRE, SECOND, HOUR], TIME);
    FirstOfTypeCons(KILOMETRE, [CENTIMETRE, SECOND, HOUR], TIME);
    FirstOfTypeCons(CENTIMETRE, [SECOND, HOUR], TIME);
    FirstOfTypeCons(SECOND, [HOUR], TIME);
    FirstOfTypeCons(METRE, [KILOMETRE, CENTIMETRE, SECOND, HOUR], LENGTH);
  }

  lemma SampleCatalogIsStandard()
    ensures IsStandardCatalog(SampleCatalog())
  {
    var c := SampleCatalog();
    SampleLookups();
    forall i | 0 <= i < |c|
      ensures !c[i].IsRatio() && FirstOfType(c, c[i].UnitType()) == Some(SIUnit(c[i].dimension))
    {
      if i < 3 {
        assert c[i].UnitType() == LENGTH && c[i].dimension == Metre;
      } else {
        assert c[i].UnitType() == TIME && c[i].dimension == Second;
      }
    }
  }
}
