/**
 * The text forms of a unit and of a quantity, stated on values: the "-a-b/-c" encoding
 * of Unit.encode and the parse of Unit.valueOf, the "value,unit" encoding of Number,
 * and the HTML exponent rendering of Unit.getHtml. The Unit and Number classes compute
 * these with loops; the lemmas here state what the texts mean.
 */
module UnitCodec {
  import opened Optional
  import opened Text
  import opened BaseUnits
  import opened Products
  import opened UnitAlgebra

  const UNIT_SEPARATOR: char := '-'
  const FRACTION_SEPARATOR: char := '/'
  const QUANTITY_SEPARATOR: char := ','

  /** The abbreviations of the factors of s, in order. */
  function Abbreviations(nt: NumberText, s: seq<BaseUnit>): (r: seq<string>)
    ensures |r| == |s| && forall i :: 0 <= i < |s| ==> r[i] == s[i].Abbreviation(nt)
  {
    seq(|s|, i requires 0 <= i < |s| => s[i].Abbreviation(nt))
  }

  /** One list of an encoded unit: a leading "-", then the abbreviations joined by "-". */
  function EncodeList(nt: NumberText, s: seq<BaseUnit>): string {
    [UNIT_SEPARATOR] + Join(Abbreviations(nt, s), UNIT_SEPARATOR)
  }

  /** encode: the numerator list, "/", the denominator list. */
  function Encode(nt: NumberText, f: Fraction): string {
    EncodeList(nt, f.num) + [FRACTION_SEPARATOR] + EncodeList(nt, f.den)
  }

  // ---------------------------------------------------------------------------
  // Decoding (valueOf, getUnitFromArray)

  /**
   * getUnitFromArray: the first catalog entry whose abbreviation is the token, else a
   * nameless scale factor when the token reads as a number, else nothing. A token that
   * reads as 0 yields nothing here (see the README).
   */
  function LookupToken(catalog: seq<BaseUnit>, nt: NumberText, token: string): Option<BaseUnit> {
    match FirstWithAbbreviation(catalog, nt, token)
    case Some(b) => Some(b)
    case None =>
      match nt.parse(token)
      case Some(v) => if v != 0.0 then Some(RatioUnit(v)) else None
      case None => None
  }

  /** What a token decodes to: a catalog entry with that abbreviation, or the number it reads as. */
  lemma LookupTokenCases(catalog: seq<BaseUnit>, nt: NumberText, token: string)
    ensures var r := LookupToken(catalog, nt, token);
      r.Some? ==> (r.value in catalog && r.value.Abbreviation(nt) == token) ||
                  (r.value == RatioUnit(r.value.ratio) && nt.parse(token) == Some(r.value.ratio))
    ensures LookupToken(catalog, nt, token).None? <==>
      (forall i :: 0 <= i < |catalog| ==> catalog[i].Abbreviation(nt) != token) &&
      (nt.parse(token).None? || nt.parse(token) == Some(0.0))
  {
  }

  /** The factors the tokens decode to, each token trimmed first; tokens that decode to nothing are dropped. */
  function DecodeTokens(catalog: seq<BaseUnit>, nt: NumberText, tokens: seq<string>): seq<BaseUnit>
    decreases |tokens|
  {
    if tokens == [] then []
    else
      DecodeTokens(catalog, nt, tokens[..|tokens| - 1]) +
      match LookupToken(catalog, nt, Trim(tokens[|tokens| - 1]))
      case Some(b) => [b]
      case None => []
  }

  /** One list of valueOf: trimmed, split at "-", each token decoded. */
  function DecodeList(catalog: seq<BaseUnit>, nt: NumberText, text: string): seq<BaseUnit> {
    DecodeTokens(catalog, nt, Split(Trim(text), UNIT_SEPARATOR))
  }

  /**
   * The outcomes of valueOf: a unit; null (fewer than two "/"-parts); or the
   * StringIndexOutOfBoundsException of substring(1) on an empty second part.
   */
  datatype UnitText = Decoded(unit: Fraction) | NotAUnit | SubstringFault

  /** valueOf: the first "/"-part is the numerator, the second without its first character the denominator. */
  function Decode(catalog: seq<BaseUnit>, nt: NumberText, value: string): UnitText {
    var parts := Split(Trim(value), FRACTION_SEPARATOR);
    if |parts| < 2 then NotAUnit
    else if parts[1] == [] then SubstringFault
    else Decoded(Simplify(Fraction(DecodeList(catalog, nt, parts[0]), DecodeList(catalog, nt, parts[1][1..]))))
  }

  /** Text without a "/" is not a unit. */
  lemma DecodeWithoutSlash(catalog: seq<BaseUnit>, nt: NumberText, value: string)
    requires FRACTION_SEPARATOR !in value
    ensures Decode(catalog, nt, value) == NotAUnit
  {
    TrimSubsequence(value);
  }

  lemma {:induction false} TrimStartSuffix(s: string)
    ensures exists k :: 0 <= k <= |s| && TrimStart(s) == s[k..]
    decreases |s|
  {
    if |s| > 0 && IsWhite(s[0]) {
      TrimStartSuffix(s[1..]);
      var k :| 0 <= k <= |s[1..]| && TrimStart(s[1..]) == s[1..][k..];
      assert s[1..][k..] == s[k + 1..];
    } else {
      assert s[0..] == s;
    }
  }

  lemma {:induction false} TrimEndPrefix(s: string)
    ensures exists k :: 0 <= k <= |s| && TrimEnd(s) == s[..k]
    decreases |s|
  {
    if |s| > 0 && IsWhite(s[|s| - 1]) {
      TrimEndPrefix(s[..|s| - 1]);
      var k :| 0 <= k <= |s| - 1 && TrimEnd(s[..|s| - 1]) == s[..|s| - 1][..k];
      assert s[..|s| - 1][..k] == s[..k];
    } else {
      assert s[..|s|] == s;
    }
  }

  /** Trimming only removes characters. */
  lemma TrimSubsequence(s: string)
    ensures forall c :: c in Trim(s) ==> c in s
  {
    TrimStartSuffix(s);
    var k :| 0 <= k <= |s| && TrimStart(s) == s[k..];
    TrimEndPrefix(s[k..]);
    var j :| 0 <= j <= |s[k..]| && TrimEnd(s[k..]) == s[k..][..j];
    forall c | c in Trim(s) ensures c in s {
      var i :| 0 <= i < |Trim(s)| && Trim(s)[i] == c;
      assert s[k + i] == c;
    }
  }

  /** An empty second part, as in "m//s", makes valueOf fail inside substring(1). */
  lemma DoubleSlashFaults(catalog: seq<BaseUnit>, nt: NumberText)
    ensures Decode(catalog, nt, "m//s") == SubstringFault
  {
    var s := "m//s";
    TrimKeeps(s);
    PiecesWithout("s", '/');
    assert "/s" == ['/'] + "s";
    PiecesAfterSep("s", '/');
    assert "//s" == ['/'] + "/s";
    PiecesAfterSep("/s", '/');
    assert s == "m" + "//s";
    PiecesPrefix("m", "//s", '/');
    assert Pieces("//s", '/') == ["", "", "s"];
    assert "m" + "" == "m";
    var p := Pieces(s, '/');
    assert p == ["m", "", "s"];
    assert s[1] == '/';
    assert Split(s, '/') == p;
  }

  // ---------------------------------------------------------------------------
  // The unit round trip

  /** An abbreviation that survives encoding: non-empty, free of both separators, not padded by white space. */
  predicate Clean(a: string) {
    && a != []
    && UNIT_SEPARATOR !in a
    && FRACTION_SEPARATOR !in a
    && !IsWhite(a[0])
    && !IsWhite(a[|a| - 1])
  }

  /** A factor whose clean abbreviation decodes to a factor equal to it. */
  predicate RoundTrips(catalog: seq<BaseUnit>, nt: NumberText, x: BaseUnit) {
    var a := x.Abbreviation(nt);
    Clean(a) && LookupToken(catalog, nt, a).Some? && LookupToken(catalog, nt, a).value.Equals(x)
  }

  predicate AllRoundTrip(catalog: seq<BaseUnit>, nt: NumberText, s: seq<BaseUnit>) {
    forall i :: 0 <= i < |s| ==> RoundTrips(catalog, nt, s[i])
  }

  /** A catalog entry round-trips when its abbreviation is clean and no earlier entry shares it. */
  lemma CatalogEntryRoundTrips(catalog: seq<BaseUnit>, nt: NumberText, i: int)
    requires 0 <= i < |catalog| && Clean(catalog[i].Abbreviation(nt))
    requires forall j :: 0 <= j < i ==> catalog[j].Abbreviation(nt) != catalog[i].Abbreviation(nt)
    ensures RoundTrips(catalog, nt, catalog[i])
  {
    FirstWithAbbreviationAt(catalog, nt, i);
  }

  lemma {:induction false} FirstWithAbbreviationAt(catalog: seq<BaseUnit>, nt: NumberText, i: int)
    requires 0 <= i < |catalog|
    requires forall j :: 0 <= j < i ==> catalog[j].Abbreviation(nt) != catalog[i].Abbreviation(nt)
    ensures FirstWithAbbreviation(catalog, nt, catalog[i].Abbreviation(nt)) == Some(catalog[i])
    decreases i
  {
    if i > 0 {
      FirstWithAbbreviationAt(catalog[1..], nt, i - 1);
    }
  }

  /**
   * A nameless scale factor round-trips when its number text is clean, reads back as
   * the same number, and is no catalog abbreviation.
   */
  lemma RatioFactorRoundTrips(catalog: seq<BaseUnit>, nt: NumberText, r: Ratio)
    requires nt.parse(nt.show(r)) == Some(r) && Clean(nt.show(r))
    requires forall i :: 0 <= i < |catalog| ==> catalog[i].Abbreviation(nt) != nt.show(r)
    ensures RoundTrips(catalog, nt, RatioUnit(r))
  {
  }

  /** Decoding token lists one after the other. */
  lemma {:induction false} DecodeTokensAppend(catalog: seq<BaseUnit>, nt: NumberText, a: seq<string>, b: seq<string>)
    ensures DecodeTokens(catalog, nt, a + b) == DecodeTokens(catalog, nt, a) + DecodeTokens(catalog, nt, b)
    decreases |b|
  {
    if b == [] {
      assert a + b == a;
    } else {
      var b' := b[..|b| - 1];
      assert (a + b)[..|a + b| - 1] == a + b';
      assert (a + b)[|a + b| - 1] == b[|b| - 1];
      DecodeTokensAppend(catalog, nt, a, b');
    }
  }

  /** The abbreviations of round-tripping factors decode to equal factors. */
  lemma {:induction false} DecodeAbbreviations(catalog: seq<BaseUnit>, nt: NumberText, s: seq<BaseUnit>)
    requires AllRoundTrip(catalog, nt, s)
    ensures Equivalent(DecodeTokens(catalog, nt, Abbreviations(nt, s)), s)
    decreases |s|
  {
    if s != [] {
      var s', x := s[..|s| - 1], s[|s| - 1];
      assert RoundTrips(catalog, nt, x);
      DecodeAbbreviations(catalog, nt, s');
      var d' := DecodeTokens(catalog, nt, Abbreviations(nt, s'));
      var y := LookupToken(catalog, nt, x.Abbreviation(nt)).value;
      assert DecodeTokens(catalog, nt, Abbreviations(nt, s)) == d' + [y] by {
        var ts := Abbreviations(nt, s);
        assert ts[..|ts| - 1] == Abbreviations(nt, s');
        TrimKeeps(x.Abbreviation(nt));
      }
      assert s == s' + [x];
      EquivalentSnoc(d', s', y, x);
    }
  }

  lemma EquivalentSnoc(a: seq<BaseUnit>, b: seq<BaseUnit>, y: BaseUnit, x: BaseUnit)
    requires Equivalent(a, b) && y.Equals(x)
    ensures Equivalent(a + [y], b + [x])
  {
  }

  /** The join of clean abbreviations. */
  lemma JoinClean(nt: NumberText, s: seq<BaseUnit>, catalog: seq<BaseUnit>)
    requires AllRoundTrip(catalog, nt, s)
    ensures var ts := Abbreviations(nt, s);
      Avoids(ts, UNIT_SEPARATOR) && Avoids(ts, FRACTION_SEPARATOR) && forall i :: 0 <= i < |ts| ==> ts[i] != []
    ensures FRACTION_SEPARATOR !in Join(Abbreviations(nt, s), UNIT_SEPARATOR)
    ensures var j := Join(Abbreviations(nt, s), UNIT_SEPARATOR); j == [] || !IsWhite(j[|j| - 1])
  {
    var ts := Abbreviations(nt, s);
    JoinAvoids(ts, UNIT_SEPARATOR, FRACTION_SEPARATOR);
    if ts != [] {
      JoinEnds(ts, UNIT_SEPARATOR);
    }
  }

  /** The tokens of an encoded numerator list: an empty one before the abbreviations, or none at all. */
  lemma NumeratorTokens(catalog: seq<BaseUnit>, nt: NumberText, s: seq<BaseUnit>)
    requires AllRoundTrip(catalog, nt, s)
    ensures Split(Trim(EncodeList(nt, s)), UNIT_SEPARATOR) == if s == [] then [] else [[]] + Abbreviations(nt, s)
  {
    var ts := Abbreviations(nt, s);
    JoinClean(nt, s, catalog);
    var e := EncodeList(nt, s);
    assert e == [UNIT_SEPARATOR] + Join(ts, UNIT_SEPARATOR);
    TrimKeeps(e);
    SplitAfterSep(ts, UNIT_SEPARATOR);
  }

  /** An empty leading token decodes to nothing. */
  lemma DropEmptyToken(catalog: seq<BaseUnit>, nt: NumberText, ts: seq<string>)
    requires LookupToken(catalog, nt, []).None?
    ensures DecodeTokens(catalog, nt, [[]] + ts) == DecodeTokens(catalog, nt, ts)
  {
    DecodeTokensAppend(catalog, nt, [[]], ts);
    assert Trim([]) == [];
    assert DecodeTokens(catalog, nt, [[]]) == DecodeTokens(catalog, nt, []) + [];
  }

  /** The numerator list decodes back to equal factors: the empty leading token is dropped. */
  lemma DecodeNumeratorList(catalog: seq<BaseUnit>, nt: NumberText, s: seq<BaseUnit>)
    requires AllRoundTrip(catalog, nt, s) && LookupToken(catalog, nt, []).None?
    ensures Equivalent(DecodeList(catalog, nt, EncodeList(nt, s)), s)
  {
    NumeratorTokens(catalog, nt, s);
    DecodeAbbreviations(catalog, nt, s);
    if s != [] {
      DropEmptyToken(catalog, nt, Abbreviations(nt, s));
    }
  }

  /** The denominator list, its leading "-" removed by substring(1), decodes back to equal factors. */
  lemma DecodeDenominatorList(catalog: seq<BaseUnit>, nt: NumberText, s: seq<BaseUnit>)
    requires AllRoundTrip(catalog, nt, s) && LookupToken(catalog, nt, []).None?
    ensures Equivalent(DecodeList(catalog, nt, EncodeList(nt, s)[1..]), s)
  {
    var ts := Abbreviations(nt, s);
    var j := Join(ts, UNIT_SEPARATOR);
    JoinClean(nt, s, catalog);
    assert EncodeList(nt, s)[1..] == j;
    DecodeAbbreviations(catalog, nt, s);
    if ts == [] {
      assert j == [];
      assert Trim([]) == [];
      assert Split([], UNIT_SEPARATOR) == [[]];
      assert DecodeTokens(catalog, nt, [[]]) == DecodeTokens(catalog, nt, []) + [];
    } else {
      JoinEnds(ts, UNIT_SEPARATOR);
      TrimKeeps(j);
      SplitJoin(ts, UNIT_SEPARATOR);
    }
  }

  /** An encoded unit is its own trim and falls into exactly the two encoded lists at "/". */
  lemma EncodeParts(catalog: seq<BaseUnit>, nt: NumberText, f: Fraction)
    requires AllRoundTrip(catalog, nt, f.num) && AllRoundTrip(catalog, nt, f.den)
    ensures Trim(Encode(nt, f)) == Encode(nt, f)
    ensures Split(Encode(nt, f), FRACTION_SEPARATOR) == [EncodeList(nt, f.num), EncodeList(nt, f.den)]
  {
    var a, b := EncodeList(nt, f.num), EncodeList(nt, f.den);
    JoinClean(nt, f.num, catalog);
    JoinClean(nt, f.den, catalog);
    var e := Encode(nt, f);
    assert e[0] == UNIT_SEPARATOR;
    assert e[|e| - 1] == b[|b| - 1];
    TrimKeeps(e);
    assert FRACTION_SEPARATOR !in a && FRACTION_SEPARATOR !in b;
    assert Join([a, b], FRACTION_SEPARATOR) == e;
    SplitJoin([a, b], FRACTION_SEPARATOR);
  }

  /**
   * valueOf(encode(u)) gives back a unit equal factor by factor to u simplified, when
   * every factor round-trips and the empty token decodes to nothing.
   */
  lemma DecodeEncode(catalog: seq<BaseUnit>, nt: NumberText, f: Fraction)
    requires AllRoundTrip(catalog, nt, f.num) && AllRoundTrip(catalog, nt, f.den)
    requires LookupToken(catalog, nt, []).None?
    ensures Decode(catalog, nt, Encode(nt, f)).Decoded?
    ensures SameFactors(Decode(catalog, nt, Encode(nt, f)).unit, Simplify(f))
  {
    EncodeParts(catalog, nt, f);
    var n := DecodeList(catalog, nt, EncodeList(nt, f.num));
    var d := DecodeList(catalog, nt, EncodeList(nt, f.den)[1..]);
    DecodeNumeratorList(catalog, nt, f.num);
    DecodeDenominatorList(catalog, nt, f.den);
    SimplifyEquivalent(Fraction(n, d), f);
  }

  /** For a simplified unit, the decoded unit has its factors, conversion value and derived type. */
  lemma DecodeEncodeSimplified(catalog: seq<BaseUnit>, nt: NumberText, f: Fraction)
    requires IsSimplified(f)
    requires AllRoundTrip(catalog, nt, f.num) && AllRoundTrip(catalog, nt, f.den)
    requires LookupToken(catalog, nt, []).None?
    ensures Decode(catalog, nt, Encode(nt, f)).Decoded?
    ensures var g := Decode(catalog, nt, Encode(nt, f)).unit;
      SameFactors(g, f) && Conversion(g) == Conversion(f) && DerivedType(g) == DerivedType(f)
  {
    DecodeEncode(catalog, nt, f);
    SimplifyIdempotent(f);
    var g := Decode(catalog, nt, Encode(nt, f)).unit;
    SameFactorsSameMeasures(g, f, ByRatio);
    SameFactorsSameMeasures(g, f, ByType);
  }

  // ---------------------------------------------------------------------------
  // The quantity text of Number (encode, valueOf)

  /** Number.encode: the value's text, ",", the encoded unit. */
  function EncodeQuantity(nt: NumberText, value: real, f: Fraction): string {
    nt.show(value) + [QUANTITY_SEPARATOR] + Encode(nt, f)
  }

  /**
   * The outcomes of Number.valueOf: a value and a unit; null (fewer than two ","-parts,
   * or a first part that is not a number); or the fault of Unit.valueOf passed on.
   */
  datatype QuantityText = Quantity(value: real, unit: Fraction) | NotAQuantity | QuantityFault

  /** Number.valueOf: a unit part that is not a unit gives a dimensionless number. */
  function DecodeQuantity(catalog: seq<BaseUnit>, nt: NumberText, text: string): QuantityText {
    var parts := Split(text, QUANTITY_SEPARATOR);
    if |parts| < 2 then NotAQuantity
    else
      match nt.parse(parts[0])
      case None => NotAQuantity
      case Some(v) =>
        match Decode(catalog, nt, parts[1])
        case Decoded(f) => Quantity(v, f)
        case NotAUnit => Quantity(v, Dimensionless)
        case SubstringFault => QuantityFault
  }

  /** Text without a "," is not a quantity. */
  lemma DecodeQuantityWithoutComma(catalog: seq<BaseUnit>, nt: NumberText, text: string)
    requires QUANTITY_SEPARATOR !in text
    ensures DecodeQuantity(catalog, nt, text) == NotAQuantity
  {
  }

  predicate CommaFree(nt: NumberText, s: seq<BaseUnit>) {
    forall i :: 0 <= i < |s| ==> QUANTITY_SEPARATOR !in s[i].Abbreviation(nt)
  }

  lemma EncodeCommaFree(nt: NumberText, f: Fraction)
    requires CommaFree(nt, f.num) && CommaFree(nt, f.den)
    ensures QUANTITY_SEPARATOR !in Encode(nt, f)
  {
    JoinAvoids(Abbreviations(nt, f.num), UNIT_SEPARATOR, QUANTITY_SEPARATOR);
    JoinAvoids(Abbreviations(nt, f.den), UNIT_SEPARATOR, QUANTITY_SEPARATOR);
  }

  /**
   * Number.valueOf(encode()) recovers the value, and a unit equal factor by factor to
   * the simplified unit, when the value's text reads back and holds no ",", and the
   * unit round-trips and holds no ",".
   */
  lemma DecodeEncodeQuantity(catalog: seq<BaseUnit>, nt: NumberText, value: real, f: Fraction)
    requires nt.parse(nt.show(value)) == Some(value) && nt.show(value) != [] && QUANTITY_SEPARATOR !in nt.show(value)
    requires AllRoundTrip(catalog, nt, f.num) && AllRoundTrip(catalog, nt, f.den)
    requires CommaFree(nt, f.num) && CommaFree(nt, f.den)
    requires LookupToken(catalog, nt, []).None?
    ensures DecodeQuantity(catalog, nt, EncodeQuantity(nt, value, f)).Quantity?
    ensures DecodeQuantity(catalog, nt, EncodeQuantity(nt, value, f)).value == value
    ensures SameFactors(DecodeQuantity(catalog, nt, EncodeQuantity(nt, value, f)).unit, Simplify(f))
  {
    var a, b := nt.show(value), Encode(nt, f);
    EncodeCommaFree(nt, f);
    assert b != [];
    assert Join([a, b], QUANTITY_SEPARATOR) == EncodeQuantity(nt, value, f);
    SplitJoin([a, b], QUANTITY_SEPARATOR);
    DecodeEncode(catalog, nt, f);
  }

  // ---------------------------------------------------------------------------
  // HTML rendering (getHtml)

  /** The distinct factors of a list under BaseUnit.equals, in order of first occurrence, with signed counts. */
  datatype Tally = Tally(units: seq<BaseUnit>, counts: seq<int>)

  /** The tally that the getHtml loops build, each occurrence adding step (1 above the line, -1 below). */
  function TallyOf(s: seq<BaseUnit>, step: int): (t: Tally)
    ensures |t.units| == |t.counts|
    decreases |s|
  {
    if s == [] then Tally([], [])
    else
      var t := TallyOf(s[..|s| - 1], step);
      var x := s[|s| - 1];
      var k := IndexOfEqual(t.units, x);
      if k >= 0 then Tally(t.units, t.counts[k := t.counts[k] + step])
      else Tally(t.units + [x], t.counts + [step])
  }

  /** How many factors of s equal x. */
  function CountEqual(s: seq<BaseUnit>, x: BaseUnit): nat
    decreases |s|
  {
    if s == [] then 0
    else CountEqual(s[..|s| - 1], x) + if s[|s| - 1].Equals(x) then 1 else 0
  }

  /** No two units are equal. */
  predicate Distinct(units: seq<BaseUnit>) {
    forall i, j :: 0 <= i < j < |units| ==> !units[i].Equals(units[j])
  }

  /** Every factor of s equals one of the units. */
  predicate Covers(units: seq<BaseUnit>, s: seq<BaseUnit>) {
    forall i :: 0 <= i < |s| ==> IndexOfEqual(units, s[i]) >= 0
  }

  /** The tally lists each factor of s once up to equality. */
  lemma {:induction false} TallyShape(s: seq<BaseUnit>, step: int)
    ensures Distinct(TallyOf(s, step).units) && Covers(TallyOf(s, step).units, s)
    decreases |s|
  {
    if s != [] {
      var s', x := s[..|s| - 1], s[|s| - 1];
      var t' := TallyOf(s', step);
      var t := TallyOf(s, step);
      TallyShape(s', step);
      var k := IndexOfEqual(t'.units, x);
      forall i | 0 <= i < |s| ensures IndexOfEqual(t.units, s[i]) >= 0 {
        if i < |s| - 1 {
          assert s[i] == s'[i];
          var p := IndexOfEqual(t'.units, s'[i]);
          assert s[i].Equals(t.units[p]);
        } else if k < 0 {
          assert x.Equals(t.units[|t.units| - 1]);
        }
      }
    }
  }

  /** Each count is step times the number of factors of s equal to its unit. */
  lemma {:induction false} TallyCounts(s: seq<BaseUnit>, step: int)
    ensures forall j :: 0 <= j < |TallyOf(s, step).units| ==> TallyOf(s, step).counts[j] == step * CountEqual(s, TallyOf(s, step).units[j])
    decreases |s|
  {
    if s != [] {
      var s', x := s[..|s| - 1], s[|s| - 1];
      TallyCounts(s', step);
      TallyShape(s', step);
      assert s == s' + [x];
      forall j | 0 <= j < |TallyOf(s, step).units| ensures TallyOf(s, step).counts[j] == step * CountEqual(s, TallyOf(s, step).units[j]) {
        TallyCountStep(s', x, step, TallyOf(s', step), j);
      }
    }
  }

  /** One step of TallyCounts: the count of group j after the factor x is tallied. */
  lemma TallyCountStep(s': seq<BaseUnit>, x: BaseUnit, step: int, t': Tally, j: int)
    requires t' == TallyOf(s', step)
    requires forall i :: 0 <= i < |t'.units| ==> t'.counts[i] == step * CountEqual(s', t'.units[i])
    requires Distinct(t'.units) && Covers(t'.units, s')
    requires 0 <= j < |TallyOf(s' + [x], step).units|
    ensures TallyOf(s' + [x], step).counts[j] == step * CountEqual(s' + [x], TallyOf(s' + [x], step).units[j])
  {
    var k := IndexOfEqual(t'.units, x);
    TallyOfSnoc(s', x, step, t', k);
    if k >= 0 {
      CountAfterFound(s', x, step, t', k, j);
    } else {
      CountAfterNew(s', x, step, t', j);
    }
  }

  /** A factor equal to group k adds step to that group's count and to no other. */
  lemma CountAfterFound(s': seq<BaseUnit>, x: BaseUnit, step: int, t': Tally, k: int, j: int)
    requires |t'.units| == |t'.counts|
    requires forall i :: 0 <= i < |t'.units| ==> t'.counts[i] == step * CountEqual(s', t'.units[i])
    requires Distinct(t'.units)
    requires 0 <= k < |t'.units| && x.Equals(t'.units[k]) && 0 <= j < |t'.units|
    ensures t'.counts[k := t'.counts[k] + step][j] == step * CountEqual(s' + [x], t'.units[j])
  {
    CountEqualSnoc(s', x, t'.units[j], step);
    if k < j {
      assert !t'.units[k].Equals(t'.units[j]);
    } else if j < k {
      assert !t'.units[j].Equals(t'.units[k]);
    }
  }

  /** A factor equal to no group opens a new group of count step and leaves the others alone. */
  lemma CountAfterNew(s': seq<BaseUnit>, x: BaseUnit, step: int, t': Tally, j: int)
    requires |t'.units| == |t'.counts|
    requires forall i :: 0 <= i < |t'.units| ==> t'.counts[i] == step * CountEqual(s', t'.units[i])
    requires Covers(t'.units, s') && IndexOfEqual(t'.units, x) < 0
    requires 0 <= j <= |t'.units|
    ensures (t'.counts + [step])[j] == step * CountEqual(s' + [x], (t'.units + [x])[j])
  {
    CountEqualSnoc(s', x, (t'.units + [x])[j], step);
    if j == |t'.units| {
      CountNone(s', x, t'.units);
    }
  }

  /** Tallying one more factor: its group's count moves by step, or a new group is appended. */
  lemma TallyOfSnoc(s: seq<BaseUnit>, x: BaseUnit, step: int, t: Tally, k: int)
    requires t == TallyOf(s, step) && k == IndexOfEqual(t.units, x)
    ensures k >= 0 ==> TallyOf(s + [x], step) == Tally(t.units, t.counts[k := t.counts[k] + step])
    ensures k < 0 ==> TallyOf(s + [x], step) == Tally(t.units + [x], t.counts + [step])
  {
    var u := s + [x];
    assert u[..|u| - 1] == s;
    assert u[|u| - 1] == x;
  }

  lemma CountEqualSnoc(s: seq<BaseUnit>, x: BaseUnit, u: BaseUnit, step: int)
    ensures CountEqual(s + [x], u) == CountEqual(s, u) + if x.Equals(u) then 1 else 0
    ensures step * CountEqual(s + [x], u) == step * CountEqual(s, u) + if x.Equals(u) then step else 0
  {
    assert (s + [x])[..|s|] == s;
  }

  /** A factor equal to none of the tally's units, when every factor of s equals one of them, occurs 0 times. */
  lemma {:induction false} CountNone(s: seq<BaseUnit>, x: BaseUnit, units: seq<BaseUnit>)
    requires forall i :: 0 <= i < |s| ==> IndexOfEqual(units, s[i]) >= 0
    requires IndexOfEqual(units, x) < 0
    ensures CountEqual(s, x) == 0
    decreases |s|
  {
    if s != [] {
      var y := s[|s| - 1];
      var p := IndexOfEqual(units, y);
      assert !x.Equals(units[p]);
      CountNone(s[..|s| - 1], x, units);
    }
  }

  function Sup(text: string): string {
    "<sup>" + text + "</sup>"
  }

  /**
   * The numerator term of group i: a count of 1 is followed by a space, except on the
   * last numerator group of a unit without denominator; other counts become a superscript.
   */
  function NumeratorTerm(nt: NumberText, t: Tally, i: int, denominatorEmpty: bool): string
    requires 0 <= i < |t.units| == |t.counts|
  {
    var exponent :=
      if t.counts[i] == 1 then (if i == |t.units| - 1 && denominatorEmpty then "" else " ")
      else Sup(IntText(t.counts[i]));
    t.units[i].Abbreviation(nt) + exponent
  }

  /** The denominator term of group i: the abbreviation and its negative count as a superscript. */
  function DenominatorTerm(nt: NumberText, t: Tally, i: int): string
    requires 0 <= i < |t.units| == |t.counts|
  {
    t.units[i].Abbreviation(nt) + Sup(IntText(t.counts[i]))
  }

  /** The numerator terms of the first n groups. */
  function NumeratorTerms(nt: NumberText, t: Tally, n: int, denominatorEmpty: bool): string
    requires 0 <= n <= |t.units| == |t.counts|
    decreases n
  {
    if n == 0 then [] else NumeratorTerms(nt, t, n - 1, denominatorEmpty) + NumeratorTerm(nt, t, n - 1, denominatorEmpty)
  }

  /** The denominator terms of the first n groups. */
  function DenominatorTerms(nt: NumberText, t: Tally, n: int): string
    requires 0 <= n <= |t.units| == |t.counts|
    decreases n
  {
    if n == 0 then [] else DenominatorTerms(nt, t, n - 1) + DenominatorTerm(nt, t, n - 1)
  }

  /** getHtml: null for a unit without factors, else the numerator terms then the denominator terms. */
  function Html(nt: NumberText, f: Fraction): Option<string> {
    if f.num == [] && f.den == [] then None
    else
      var n := TallyOf(f.num, 1);
      var d := TallyOf(f.den, -1);
      Some(NumeratorTerms(nt, n, |n.units|, d.units == []) + DenominatorTerms(nt, d, |d.units|))
  }

  /**
   * Each HTML term carries the multiplicity of its factor: numerator groups count their
   * equal factors, denominator groups the negated number of theirs.
   */
  lemma HtmlExponents(f: Fraction)
    ensures var n := TallyOf(f.num, 1);
      forall j :: 0 <= j < |n.units| ==> n.counts[j] == CountEqual(f.num, n.units[j]) >= 1
    ensures var d := TallyOf(f.den, -1);
      forall j :: 0 <= j < |d.units| ==> d.counts[j] == -(CountEqual(f.den, d.units[j]) as int) <= -1
  {
    TallyCounts(f.num, 1);
    TallyCounts(f.den, -1);
    TallyShape(f.num, 1);
    TallyShape(f.den, -1);
    TallyMembers(f.num, 1);
    TallyMembers(f.den, -1);
  }

  /** Every unit of a tally is a factor of the list, so it counts at least itself. */
  lemma {:induction false} TallyMembers(s: seq<BaseUnit>, step: int)
    ensures forall j :: 0 <= j < |TallyOf(s, step).units| ==> CountEqual(s, TallyOf(s, step).units[j]) >= 1
    decreases |s|
  {
    if s != [] {
      var s', x := s[..|s| - 1], s[|s| - 1];
      TallyMembers(s', step);
      var t' := TallyOf(s', step);
      var t := TallyOf(s, step);
      var k := IndexOfEqual(t'.units, x);
      assert s == s' + [x];
      assert k >= 0 ==> t.units == t'.units;
      assert k < 0 ==> t.units == t'.units + [x];
      forall j | 0 <= j < |t.units| ensures CountEqual(s, t.units[j]) >= 1 {
        CountEqualSnoc(s', x, t.units[j], step);
        if j < |t'.units| {
          assert t.units[j] == t'.units[j];
          assert CountEqual(s', t'.units[j]) >= 1;
        } else {
          assert x.Equals(t.units[j]);
        }
      }
    }
  }

  lemma TallyOfPair(x: BaseUnit, step: int)
    ensures TallyOf([x], step) == Tally([x], [step])
    ensures TallyOf([x, x], step) == Tally([x], [step + step])
  {
    assert [x][..0] == [];
    assert [x, x][..1] == [x];
  }

  /** A unit with one group above the line and one below renders as their two terms. */
  lemma HtmlOfOneByOne(nt: NumberText, f: Fraction, n: Tally, d: Tally)
    requires TallyOf(f.num, 1) == n && TallyOf(f.den, -1) == d
    requires |n.units| == |n.counts| == 1 && |d.units| == |d.counts| == 1
    ensures Html(nt, f) == Some(NumeratorTerm(nt, n, 0, false) + DenominatorTerm(nt, d, 0))
  {
    assert f.num != [];
    assert NumeratorTerms(nt, n, 1, false) == NumeratorTerm(nt, n, 0, false);
    assert DenominatorTerms(nt, d, 1) == DenominatorTerm(nt, d, 0);
  }

  lemma SpeedSquaredText()
    ensures "km" + Sup("2") + ("s" + Sup("-1")) == "km<sup>2</sup>s<sup>-1</sup>"
  {
  }

  lemma SmallIntTexts()
    ensures IntText(2) == "2" && IntText(-1) == "-1"
  {
  }

  lemma SpeedSquaredTallies()
    ensures TallyOf([KILOMETRE, KILOMETRE], 1) == Tally([KILOMETRE], [2])
    ensures TallyOf([SECOND], -1) == Tally([SECOND], [-1])
  {
    TallyOfPair(KILOMETRE, 1);
    TallyOfPair(SECOND, -1);
  }

  /** Kilometre squared per second renders as km<sup>2</sup>s<sup>-1</sup>. */
  lemma HtmlOfSpeedSquared(nt: NumberText)
    ensures Html(nt, Fraction([KILOMETRE, KILOMETRE], [SECOND])) == Some("km<sup>2</sup>s<sup>-1</sup>")
  {
    SpeedSquaredTallies();
    var n, d := Tally([KILOMETRE], [2]), Tally([SECOND], [-1]);
    HtmlOfOneByOne(nt, Fraction([KILOMETRE, KILOMETRE], [SECOND]), n, d);
    SmallIntTexts();
    SpeedSquaredText();
  }

  /** A lone metre renders as m. */
  lemma HtmlOfMetre(nt: NumberText)
    ensures Html(nt, Fraction([METRE], [])) == Some("m")
  {
    TallyOfPair(METRE, 1);
    var n := Tally([METRE], [1]);
    assert TallyOf([], -1) == Tally([], []);
    assert NumeratorTerms(nt, n, 1, true) == NumeratorTerm(nt, n, 0, true) == "m";
    assert DenominatorTerms(nt, Tally([], []), 0) == "";
  }

  /** A metre per second renders as m s<sup>-1</sup>: the count 1 is followed by a space. */
  lemma HtmlOfMetrePerSecond(nt: NumberText)
    ensures Html(nt, Fraction([METRE], [SECOND])) == Some("m s<sup>-1</sup>")
  {
    TallyOfPair(METRE, 1);
    TallyOfPair(SECOND, -1);
    var n, d := Tally([METRE], [1]), Tally([SECOND], [-1]);
    HtmlOfOneByOne(nt, Fraction([METRE], [SECOND]), n, d);
    SmallIntTexts();
    MetrePerSecondText();
  }

  lemma MetrePerSecondText()
    ensures "m" + " " + ("s" + Sup("-1")) == "m s<sup>-1</sup>"
  {
  }
}
