/**
 * The algebra of composite units, stated on values: a unit is a numerator list and a
 * denominator list of base units. These functions specify what the Unit class computes
 * in place (unit.dfy), and the lemmas here state what its operations promise:
 * simplification cancels equal factors and folds pure scale factors into one, and
 * keeps the conversion value and the derived dimension type; multiplying, dividing,
 * inverting and raising to a power act on those two numbers as expected.
 */
module UnitAlgebra {
  import opened Optional
  import opened BaseUnits
  import opened Products

  /** The numerator and denominator lists of a Unit. */
  datatype Fraction = Fraction(num: seq<BaseUnit>, den: seq<BaseUnit>)

  /** new Unit(): no factors at all. */
  const Dimensionless := Fraction([], [])

  /**
   * The product of the numerator weights, divided by each denominator weight in turn;
   * QuotientDef states it as one division.
   */
  function Quotient(f: Fraction, m: Measure): (q: real)
    ensures q != 0.0
  {
    WeightsNonZero(f.den, m);
    ProductNonZero(f.num, m);
    DivideAllNonZero(Product(f.num, m), Weights(f.den, m));
    DivideAll(Product(f.num, m), Weights(f.den, m))
  }

  /** The quotient as one division of products. */
  lemma QuotientDef(f: Fraction, m: Measure)
    ensures Product(f.den, m) != 0.0 && Quotient(f, m) == Product(f.num, m) / Product(f.den, m)
  {
    WeightsNonZero(f.den, m);
    DivideAllByProd(Product(f.num, m), Weights(f.den, m));
  }

  /** new Unit() has conversion value 1 and derived type 1. */
  lemma QuotientOfDimensionless(m: Measure)
    ensures Quotient(Dimensionless, m) == 1.0
  {
    assert Weights([], m) == [];
    assert Product([], m) == 1.0;
  }

  /** getConversionValue: what a value in this unit is multiplied by to be in SI units. */
  function Conversion(f: Fraction): real {
    Quotient(f, ByRatio)
  }

  /** getDerivedUnitType: the product of numerator tags over the product of denominator tags. */
  function DerivedType(f: Fraction): real {
    Quotient(f, ByType)
  }

  /** The pure scale factors of s (tag 1), in order. */
  function Scalars(s: seq<BaseUnit>): (r: seq<BaseUnit>)
    ensures forall i :: 0 <= i < |r| ==> r[i].IsRatio()
    decreases |s|, 1
  {
    if s == [] then [] else ScalarsOfNonEmpty(s)
  }

  function ScalarsOfNonEmpty(s: seq<BaseUnit>): (r: seq<BaseUnit>)
    requires s != []
    ensures forall i :: 0 <= i < |r| ==> r[i].IsRatio()
    decreases |s|, 0
  {
    Scalars(s[..|s| - 1]) + (if s[|s| - 1].IsRatio() then [s[|s| - 1]] else [])
  }

  /** The factors of s that have a physical dimension, in order: what stripRatios keeps. */
  function Dimensioned(s: seq<BaseUnit>): (r: seq<BaseUnit>)
    ensures forall i :: 0 <= i < |r| ==> !r[i].IsRatio()
    ensures forall x :: x in r ==> x in s
    decreases |s|, 1
  {
    if s == [] then [] else DimensionedOfNonEmpty(s)
  }

  function DimensionedOfNonEmpty(s: seq<BaseUnit>): (r: seq<BaseUnit>)
    requires s != []
    ensures forall i :: 0 <= i < |r| ==> !r[i].IsRatio()
    ensures forall x :: x in r ==> x in s
    decreases |s|, 0
  {
    Dimensioned(s[..|s| - 1]) + (if s[|s| - 1].IsRatio() then [] else [s[|s| - 1]])
  }

  /** getRatio: the product of the numerator's scale factors over that of the denominator's. */
  function RatioOf(f: Fraction): real {
    Conversion(Fraction(Scalars(f.num), Scalars(f.den)))
  }

  /** The weights of a list split into those of its dimensioned part and of its scale factors. */
  lemma {:induction false} ProductSplit(s: seq<BaseUnit>, m: Measure)
    ensures Product(s, m) == Product(Dimensioned(s), m) * Product(Scalars(s), m)
    decreases |s|
  {
    if s != [] {
      ProductSplit(s[..|s| - 1], m);
      ProductSplitStep(s, s[..|s| - 1], s[|s| - 1], m);
    }
  }

  /** The inductive step of ProductSplit: the last factor x joins one side of the split. */
  lemma {:induction false} ProductSplitStep(s: seq<BaseUnit>, s': seq<BaseUnit>, x: BaseUnit, m: Measure)
    requires s != [] && s' == s[..|s| - 1] && x == s[|s| - 1]
    requires Product(s', m) == Product(Dimensioned(s'), m) * Product(Scalars(s'), m)
    ensures Product(s, m) == Product(Dimensioned(s), m) * Product(Scalars(s), m)
  {
    assert Product(s, m) == Product(s', m) * Weight(m, x) by {
      assert s == s' + [x];
      ProductSnoc(s', x, m);
    }
    if x.IsRatio() {
      ScalarStep(s, s', x, m);
    } else {
      DimensionedStep(s, s', x, m);
    }
  }

  /** A last scale factor joins the scale-factor side of the split. */
  lemma {:induction false} ScalarStep(s: seq<BaseUnit>, s': seq<BaseUnit>, x: BaseUnit, m: Measure)
    requires s != [] && s' == s[..|s| - 1] && x == s[|s| - 1] && x.IsRatio()
    requires Product(s', m) == Product(Dimensioned(s'), m) * Product(Scalars(s'), m)
    requires Product(s, m) == Product(s', m) * Weight(m, x)
    ensures Product(s, m) == Product(Dimensioned(s), m) * Product(Scalars(s), m)
  {
    var d, c, w := Product(Dimensioned(s'), m), Product(Scalars(s'), m), Weight(m, x);
    assert Product(Dimensioned(s), m) == d && Product(Scalars(s), m) == c * w by {
      SplitSnoc(s, s', x);
      ProductSnoc(Scalars(s'), x, m);
    }
    ShiftRight(Product(s, m), Product(s', m), w, Product(Dimensioned(s), m), Product(Scalars(s), m), d, c);
  }

  /** A last dimensioned factor joins the dimensioned side of the split. */
  lemma {:induction false} DimensionedStep(s: seq<BaseUnit>, s': seq<BaseUnit>, x: BaseUnit, m: Measure)
    requires s != [] && s' == s[..|s| - 1] && x == s[|s| - 1] && !x.IsRatio()
    requires Product(s', m) == Product(Dimensioned(s'), m) * Product(Scalars(s'), m)
    requires Product(s, m) == Product(s', m) * Weight(m, x)
    ensures Product(s, m) == Product(Dimensioned(s), m) * Product(Scalars(s), m)
  {
    var d, c, w := Product(Dimensioned(s'), m), Product(Scalars(s'), m), Weight(m, x);
    assert Product(Dimensioned(s), m) == d * w && Product(Scalars(s), m) == c by {
      SplitSnoc(s, s', x);
      ProductSnoc(Dimensioned(s'), x, m);
    }
    ShiftLeft(Product(s, m), Product(s', m), w, Product(Dimensioned(s), m), Product(Scalars(s), m), d, c);
  }

  /** One more factor joins either the scale factors or the dimensioned ones. */
  lemma SplitSnoc(s: seq<BaseUnit>, s': seq<BaseUnit>, x: BaseUnit)
    requires s != [] && s' == s[..|s| - 1] && x == s[|s| - 1]
    ensures x.IsRatio() ==> Dimensioned(s) == Dimensioned(s') && Scalars(s) == Scalars(s') + [x]
    ensures !x.IsRatio() ==> Dimensioned(s) == Dimensioned(s') + [x] && Scalars(s) == Scalars(s')
  {
    assert Dimensioned(s') + [] == Dimensioned(s') && Scalars(s') + [] == Scalars(s');
  }

  /** Scale factors have tag 1, so they do not change a derived type. */
  lemma ScalarsHaveNoType(s: seq<BaseUnit>)
    ensures Product(Scalars(s), ByType) == 1.0
  {
    var r := Scalars(s);
    forall i | 0 <= i < |r| ensures Weight(ByType, r[i]) == 1.0 {
      WeightFacts(ByType, r[i]);
    }
    ProductOfOnes(r, ByType);
  }

  // ---------------------------------------------------------------------------
  // Equivalence: lists that agree factor by factor under BaseUnit.equals

  predicate Equivalent(a: seq<BaseUnit>, b: seq<BaseUnit>) {
    |a| == |b| && forall i :: 0 <= i < |a| ==> a[i].Equals(b[i])
  }

  predicate SameFactors(f: Fraction, g: Fraction) {
    Equivalent(f.num, g.num) && Equivalent(f.den, g.den)
  }

  lemma EquivalentProducts(a: seq<BaseUnit>, b: seq<BaseUnit>, m: Measure)
    requires Equivalent(a, b)
    ensures Product(a, m) == Product(b, m)
  {
    forall i | 0 <= i < |a| ensures Weight(m, a[i]) == Weight(m, b[i]) {
      WeightOfEquals(m, a[i], b[i]);
    }
    ProductPointwise(a, b, m);
  }

  /** Factor-by-factor equal units have the same conversion value and derived type. */
  lemma SameFactorsSameMeasures(f: Fraction, g: Fraction, m: Measure)
    requires SameFactors(f, g)
    ensures Quotient(f, m) == Quotient(g, m)
  {
    EquivalentProducts(f.num, g.num, m);
    EquivalentProducts(f.den, g.den, m);
    QuotientDef(f, m);
    QuotientDef(g, m);
  }

  // ---------------------------------------------------------------------------
  // Cancellation (simplifyUnits)

  function RemoveAt(s: seq<BaseUnit>, i: int): (r: seq<BaseUnit>)
    requires 0 <= i < |s|
    ensures |r| == |s| - 1
    ensures forall x :: x in r ==> x in s
  {
    s[..i] + s[i + 1..]
  }

  /** ArrayList.indexOf under BaseUnit.equals: the first equal position, or -1. */
  function IndexOfEqual(s: seq<BaseUnit>, x: BaseUnit): (k: int)
    ensures -1 <= k < |s|
    ensures k >= 0 ==> x.Equals(s[k]) && forall j :: 0 <= j < k ==> !x.Equals(s[j])
    ensures k < 0 <==> forall j :: 0 <= j < |s| ==> !x.Equals(s[j])
    decreases |s|
  {
    if s == [] then -1
    else if x.Equals(s[0]) then 0
    else
      var k := IndexOfEqual(s[1..], x);
      if k < 0 then -1 else k + 1
  }

  /** The first numerator position whose factor also occurs in the denominator, or |num|. */
  function FirstCancellable(num: seq<BaseUnit>, den: seq<BaseUnit>): (i: nat)
    ensures i <= |num|
    ensures i < |num| ==> IndexOfEqual(den, num[i]) >= 0
    ensures forall j :: 0 <= j < i ==> IndexOfEqual(den, num[j]) < 0
    decreases |num|
  {
    if num == [] then 0
    else if IndexOfEqual(den, num[0]) >= 0 then 0
    else 1 + FirstCancellable(num[1..], den)
  }

  /**
   * simplifyUnits: while some numerator factor equals a denominator factor, remove the
   * first such numerator factor and the first denominator factor equal to it.
   */
  function Cancel(f: Fraction): Fraction
    decreases |f.num|
  {
    var i := FirstCancellable(f.num, f.den);
    if i == |f.num| then f
    else
      var k := IndexOfEqual(f.den, f.num[i]);
      Cancel(Fraction(RemoveAt(f.num, i), RemoveAt(f.den, k)))
  }

  /** No numerator factor equals any denominator factor. */
  predicate NoCommonFactor(f: Fraction) {
    forall i, j :: 0 <= i < |f.num| && 0 <= j < |f.den| ==> !f.num[i].Equals(f.den[j])
  }

  lemma CancelNothing(f: Fraction)
    requires NoCommonFactor(f)
    ensures Cancel(f) == f
  {
    forall j | 0 <= j < |f.num| ensures IndexOfEqual(f.den, f.num[j]) < 0 {
    }
  }

  /** The first i numerator factors have no equal below the line. */
  predicate NoneCancellableBefore(f: Fraction, i: int) {
    forall j :: 0 <= j < i && j < |f.num| ==> IndexOfEqual(f.den, f.num[j]) < 0
  }

  /** When factor i is the first numerator factor with an equal below the line, cancelling starts with it. */
  lemma CancelFirstAt(f: Fraction, i: int)
    requires 0 <= i < |f.num| && IndexOfEqual(f.den, f.num[i]) >= 0
    requires NoneCancellableBefore(f, i)
    ensures Cancel(f) == Cancel(Fraction(RemoveAt(f.num, i), RemoveAt(f.den, IndexOfEqual(f.den, f.num[i]))))
  {
    var c := FirstCancellable(f.num, f.den);
    assert c < |f.num| ==> IndexOfEqual(f.den, f.num[c]) >= 0;
    assert c == i;
  }

  /** When no numerator factor has an equal below the line, cancelling changes nothing. */
  lemma CancelNoneFound(f: Fraction)
    requires NoneCancellableBefore(f, |f.num|)
    ensures Cancel(f) == f
  {
    assert FirstCancellable(f.num, f.den) == |f.num|;
  }

  lemma NoCommonFactorIndex(f: Fraction, i: int)
    requires NoCommonFactor(f) && 0 <= i < |f.num|
    ensures IndexOfEqual(f.den, f.num[i]) == -1
  {
  }

  /** After cancelling, no numerator factor equals a denominator factor. */
  lemma {:induction false} CancelLeavesNoCommonFactor(f: Fraction)
    ensures NoCommonFactor(Cancel(f))
    decreases |f.num|
  {
    var i := FirstCancellable(f.num, f.den);
    if i == |f.num| {
      forall a, b | 0 <= a < |f.num| && 0 <= b < |f.den|
        ensures !f.num[a].Equals(f.den[b])
      {
        assert IndexOfEqual(f.den, f.num[a]) < 0;
      }
    } else {
      var k := IndexOfEqual(f.den, f.num[i]);
      CancelLeavesNoCommonFactor(Fraction(RemoveAt(f.num, i), RemoveAt(f.den, k)));
    }
  }

  /** Cancelling never lengthens the numerator. */
  lemma {:induction false} CancelShortens(f: Fraction)
    ensures |Cancel(f).num| <= |f.num|
    decreases |f.num|
  {
    var i := FirstCancellable(f.num, f.den);
    if i < |f.num| {
      var k := IndexOfEqual(f.den, f.num[i]);
      CancelShortens(Fraction(RemoveAt(f.num, i), RemoveAt(f.den, k)));
    }
  }

  /** Cancelling only removes factors. */
  lemma {:induction false} CancelKeepsMembers(f: Fraction)
    ensures forall x :: x in Cancel(f).num ==> x in f.num
    ensures forall x :: x in Cancel(f).den ==> x in f.den
    decreases |f.num|
  {
    var i := FirstCancellable(f.num, f.den);
    if i < |f.num| {
      var k := IndexOfEqual(f.den, f.num[i]);
      CancelKeepsMembers(Fraction(RemoveAt(f.num, i), RemoveAt(f.den, k)));
    }
  }

  /** a is b with some elements left out, the rest in their order and multiplicity. */
  predicate IsSubsequence<T(==)>(a: seq<T>, b: seq<T>)
    decreases |b|
  {
    if a == [] then true
    else if b == [] then false
    else if a[0] == b[0] then IsSubsequence(a[1..], b[1..])
    else IsSubsequence(a, b[1..])
  }

  lemma {:induction false} SubsequenceOfItself<T>(a: seq<T>)
    ensures IsSubsequence(a, a)
    decreases |a|
  {
    if a != [] {
      SubsequenceOfItself(a[1..]);
    }
  }

  /** A subsequence of the tail of c is a subsequence of c. */
  lemma {:induction false} SubsequenceCons<T>(a: seq<T>, c: seq<T>)
    requires c != [] && IsSubsequence(a, c[1..])
    ensures IsSubsequence(a, c)
    decreases |c|, 0
  {
    if a != [] && a[0] == c[0] {
      SubsequenceTail(a, c[1..]);
    }
  }

  /** Leaving out the first element of a subsequence keeps it a subsequence. */
  lemma {:induction false} SubsequenceTail<T>(a: seq<T>, c: seq<T>)
    requires a != [] && IsSubsequence(a, c)
    ensures IsSubsequence(a[1..], c)
    decreases |c|, 1
  {
    if a[0] != c[0] {
      SubsequenceTail(a, c[1..]);
    }
    SubsequenceCons(a[1..], c);
  }

  lemma {:induction false} SubsequenceTransitive<T>(a: seq<T>, b: seq<T>, c: seq<T>)
    requires IsSubsequence(a, b) && IsSubsequence(b, c)
    ensures IsSubsequence(a, c)
    decreases |c|
  {
    if a != [] {
      if b[0] == c[0] {
        if a[0] == b[0] {
          SubsequenceTransitive(a[1..], b[1..], c[1..]);
        } else {
          SubsequenceTransitive(a, b[1..], c[1..]);
          SubsequenceCons(a, c);
        }
      } else {
        SubsequenceTransitive(a, b, c[1..]);
        SubsequenceCons(a, c);
      }
    }
  }

  /** ArrayList.remove leaves a subsequence. */
  lemma {:induction false} RemoveAtSubsequence(s: seq<BaseUnit>, i: int)
    requires 0 <= i < |s|
    ensures IsSubsequence(RemoveAt(s, i), s)
    decreases i
  {
    var r := RemoveAt(s, i);
    if i == 0 {
      assert r == s[1..];
      SubsequenceOfItself(s[1..]);
      SubsequenceCons(s[1..], s);
    } else {
      assert r[1..] == RemoveAt(s[1..], i - 1);
      RemoveAtSubsequence(s[1..], i - 1);
    }
  }

  /** ArrayList.remove takes exactly one copy of the element out. */
  lemma RemoveAtMultiset(s: seq<BaseUnit>, i: int)
    requires 0 <= i < |s|
    ensures multiset(RemoveAt(s, i)) + multiset{s[i]} == multiset(s)
  {
    assert s == s[..i] + [s[i]] + s[i + 1..];
  }

  /** simplifyUnits keeps the survivors of each list in their order. */
  lemma {:induction false} CancelKeepsOrder(f: Fraction)
    ensures IsSubsequence(Cancel(f).num, f.num) && IsSubsequence(Cancel(f).den, f.den)
    decreases |f.num|
  {
    var i := FirstCancellable(f.num, f.den);
    if i < |f.num| {
      var k := IndexOfEqual(f.den, f.num[i]);
      var g := Fraction(RemoveAt(f.num, i), RemoveAt(f.den, k));
      CancelKeepsOrder(g);
      RemoveAtSubsequence(f.num, i);
      RemoveAtSubsequence(f.den, k);
      SubsequenceTransitive(Cancel(g).num, g.num, f.num);
      SubsequenceTransitive(Cancel(g).den, g.den, f.den);
    } else {
      SubsequenceOfItself(f.num);
      SubsequenceOfItself(f.den);
    }
  }

  /** simplifyUnits never adds a copy of a factor to either list. */
  lemma {:induction false} CancelKeepsMultiplicity(f: Fraction)
    ensures multiset(Cancel(f).num) <= multiset(f.num) && multiset(Cancel(f).den) <= multiset(f.den)
    decreases |f.num|
  {
    var i := FirstCancellable(f.num, f.den);
    if i < |f.num| {
      var k := IndexOfEqual(f.den, f.num[i]);
      var g := Fraction(RemoveAt(f.num, i), RemoveAt(f.den, k));
      CancelKeepsMultiplicity(g);
      RemoveAtMultiset(f.num, i);
      RemoveAtMultiset(f.den, k);
    }
  }

  /** simplifyUnits removes factors in pairs, one above and one below the line. */
  lemma {:induction false} CancelRemovesPairs(f: Fraction)
    ensures |f.num| - |Cancel(f).num| == |f.den| - |Cancel(f).den|
    decreases |f.num|
  {
    var i := FirstCancellable(f.num, f.den);
    if i < |f.num| {
      var k := IndexOfEqual(f.den, f.num[i]);
      CancelRemovesPairs(Fraction(RemoveAt(f.num, i), RemoveAt(f.den, k)));
    }
  }

  /** Each cancelled pair weighs the same, so the quotient of products is kept. */
  lemma {:induction false} CancelKeepsQuotient(f: Fraction, m: Measure)
    ensures Quotient(Cancel(f), m) == Quotient(f, m)
    decreases |f.num|
  {
    var i := FirstCancellable(f.num, f.den);
    if i < |f.num| {
      var k := IndexOfEqual(f.den, f.num[i]);
      var g := Fraction(RemoveAt(f.num, i), RemoveAt(f.den, k));
      assert Cancel(f) == Cancel(g);
      CancelKeepsQuotient(g, m);
      CancelStep(f, i, k, m);
    }
  }

  /** Removing one numerator factor and an equal denominator factor keeps the quotient. */
  lemma CancelStep(f: Fraction, i: int, k: int, m: Measure)
    requires 0 <= i < |f.num| && 0 <= k < |f.den| && f.num[i].Equals(f.den[k])
    ensures Quotient(Fraction(RemoveAt(f.num, i), RemoveAt(f.den, k)), m) == Quotient(f, m)
  {
    var g := Fraction(RemoveAt(f.num, i), RemoveAt(f.den, k));
    ProductRemoveAt(f.num, i, m);
    ProductRemoveAt(f.den, k, m);
    WeightOfEquals(m, f.num[i], f.den[k]);
    WeightFacts(m, f.num[i]);
    ProductNonZero(f.den, m);
    ProductNonZero(g.den, m);
    CancelFactor(Product(f.num, m), Product(f.den, m), Product(g.num, m), Product(g.den, m),
                 Weight(m, f.num[i]), Weight(m, f.den[k]));
    QuotientDef(f, m);
    QuotientDef(g, m);
  }

  lemma {:induction false} FirstCancellableSnoc(num: seq<BaseUnit>, den: seq<BaseUnit>, x: BaseUnit)
    requires IndexOfEqual(den, x) < 0
    ensures FirstCancellable(num + [x], den) == if FirstCancellable(num, den) == |num| then |num| + 1 else FirstCancellable(num, den)
    decreases |num|
  {
    if num == [] {
      assert [x][1..] == [];
    } else {
      assert (num + [x])[1..] == num[1..] + [x];
      FirstCancellableSnoc(num[1..], den, x);
    }
  }

  /**
   * A numerator factor equal to nothing in the denominator survives cancellation, in
   * last place, and does not change what happens to the others.
   */
  lemma {:induction false} CancelSnoc(f: Fraction, x: BaseUnit)
    requires forall j :: 0 <= j < |f.den| ==> !x.Equals(f.den[j])
    ensures Cancel(Fraction(f.num + [x], f.den)) == Fraction(Cancel(f).num + [x], Cancel(f).den)
    decreases |f.num|
  {
    FirstCancellableSnoc(f.num, f.den, x);
    var i := FirstCancellable(f.num, f.den);
    if i < |f.num| {
      var k := IndexOfEqual(f.den, f.num[i]);
      assert (f.num + [x])[i] == f.num[i];
      assert RemoveAt(f.num + [x], i) == RemoveAt(f.num, i) + [x];
      var g := Fraction(RemoveAt(f.num, i), RemoveAt(f.den, k));
      forall j | 0 <= j < |g.den| ensures !x.Equals(g.den[j]) {
        assert g.den[j] in f.den;
      }
      CancelSnoc(g, x);
    }
  }

  lemma {:induction false} IndexOfEquivalent(s: seq<BaseUnit>, t: seq<BaseUnit>, x: BaseUnit, y: BaseUnit)
    requires Equivalent(s, t) && x.Equals(y)
    ensures IndexOfEqual(s, x) == IndexOfEqual(t, y)
    decreases |s|
  {
    if s != [] {
      IndexOfEquivalent(s[1..], t[1..], x, y);
    }
  }

  lemma {:induction false} FirstCancellableEquivalent(f: Fraction, g: Fraction)
    requires SameFactors(f, g)
    ensures FirstCancellable(f.num, f.den) == FirstCancellable(g.num, g.den)
    decreases |f.num|
  {
    if f.num != [] {
      IndexOfEquivalent(f.den, g.den, f.num[0], g.num[0]);
      FirstCancellableEquivalent(Fraction(f.num[1..], f.den), Fraction(g.num[1..], g.den));
    }
  }

  lemma RemoveAtEquivalent(s: seq<BaseUnit>, t: seq<BaseUnit>, i: int)
    requires Equivalent(s, t) && 0 <= i < |s|
    ensures Equivalent(RemoveAt(s, i), RemoveAt(t, i))
  {
    forall j | 0 <= j < |s| - 1 ensures RemoveAt(s, i)[j].Equals(RemoveAt(t, i)[j]) {
      if j < i {
        assert RemoveAt(s, i)[j] == s[j] && RemoveAt(t, i)[j] == t[j];
      } else {
        assert RemoveAt(s, i)[j] == s[j + 1] && RemoveAt(t, i)[j] == t[j + 1];
      }
    }
  }

  /** Cancellation decides only by BaseUnit.equals, so factor-by-factor equal inputs give such outputs. */
  lemma {:induction false} CancelEquivalent(f: Fraction, g: Fraction)
    requires SameFactors(f, g)
    ensures SameFactors(Cancel(f), Cancel(g))
    decreases |f.num|
  {
    FirstCancellableEquivalent(f, g);
    var i := FirstCancellable(f.num, f.den);
    if i < |f.num| {
      IndexOfEquivalent(f.den, g.den, f.num[i], g.num[i]);
      var k := IndexOfEqual(f.den, f.num[i]);
      RemoveAtEquivalent(f.num, g.num, i);
      RemoveAtEquivalent(f.den, g.den, k);
      CancelEquivalent(Fraction(RemoveAt(f.num, i), RemoveAt(f.den, k)), Fraction(RemoveAt(g.num, i), RemoveAt(g.den, k)));
    }
  }

  // ---------------------------------------------------------------------------
  // Simplification (simplify)

  /** The nameless scale factor simplify appends: the ratio, unless it is 1. */
  function RatioTail(f: Fraction): seq<BaseUnit> {
    var r := RatioOf(f);
    if r != 1.0 then [RatioUnit(r)] else []
  }

  /**
   * What simplify holds before cancelling: every scale factor dropped, then the
   * nameless scale factor of the former ratio appended to the numerator.
   */
  function Folded(f: Fraction): Fraction {
    Fraction(Dimensioned(f.num) + RatioTail(f), Dimensioned(f.den))
  }

  /** simplify: getRatio, stripRatiosInSitu, append the ratio when it is not 1, then simplifyUnits. */
  function Simplify(f: Fraction): Fraction {
    Cancel(Folded(f))
  }

  /**
   * What simplify guarantees: no factor on both sides, no scale factor in the
   * denominator, and in the numerator at most one scale factor, in last place, that is
   * nameless and not 1.
   */
  predicate IsSimplified(f: Fraction) {
    && NoCommonFactor(f)
    && (forall j :: 0 <= j < |f.den| ==> !f.den[j].IsRatio())
    && (forall i :: 0 <= i < |f.num| - 1 ==> !f.num[i].IsRatio())
    && (|f.num| > 0 && f.num[|f.num| - 1].IsRatio() ==>
          f.num[|f.num| - 1] == RatioUnit(f.num[|f.num| - 1].ratio) && f.num[|f.num| - 1].ratio != 1.0)
  }

  /**
   * Simplifying yields a simplified unit, whose numerator ends in the nameless scale
   * factor of the former ratio exactly when that ratio is not 1.
   */
  lemma SimplifyShape(f: Fraction)
    ensures IsSimplified(Simplify(f))
    ensures var g := Simplify(f);
      RatioOf(f) != 1.0 <==> |g.num| > 0 && g.num[|g.num| - 1] == RatioUnit(RatioOf(f))
    ensures RatioOf(f) == 1.0 ==> forall i :: 0 <= i < |Simplify(f).num| ==> !Simplify(f).num[i].IsRatio()
  {
    var r := RatioOf(f);
    var base := Fraction(Dimensioned(f.num), Dimensioned(f.den));
    var g := Simplify(f);
    CancelKeepsMembers(base);
    var c := Cancel(base);
    assert forall x :: x in c.num ==> !x.IsRatio();
    if r != 1.0 {
      var x := RatioUnit(r);
      CancelSnoc(base, x);
      assert g == Fraction(c.num + [x], c.den);
      CancelLeavesNoCommonFactor(Fraction(base.num + [x], base.den));
      forall i | 0 <= i < |g.num| - 1 ensures !g.num[i].IsRatio() {
        assert g.num[i] == c.num[i] && c.num[i] in c.num;
      }
      forall j | 0 <= j < |g.den| ensures !g.den[j].IsRatio() {
        assert g.den[j] in c.den;
      }
    } else {
      assert base.num + [] == base.num;
      assert g == c;
      CancelLeavesNoCommonFactor(base);
      forall i | 0 <= i < |g.num| ensures !g.num[i].IsRatio() {
        assert g.num[i] in c.num;
      }
      forall j | 0 <= j < |g.den| ensures !g.den[j].IsRatio() {
        assert g.den[j] in c.den;
      }
    }
  }

  lemma {:induction false} DimensionedOfDimensioned(s: seq<BaseUnit>)
    requires forall i :: 0 <= i < |s| ==> !s[i].IsRatio()
    ensures Dimensioned(s) == s && Scalars(s) == []
    decreases |s|
  {
    if s != [] {
      DimensionedOfDimensioned(s[..|s| - 1]);
      assert s == s[..|s| - 1] + [s[|s| - 1]];
    }
  }

  /** The ratio of a unit whose only scale factor is its last numerator factor x is x's ratio. */
  lemma RatioOfTrailingScalar(f: Fraction)
    requires |f.num| > 0 && f.num[|f.num| - 1].IsRatio()
    requires forall i :: 0 <= i < |f.num| - 1 ==> !f.num[i].IsRatio()
    requires forall j :: 0 <= j < |f.den| ==> !f.den[j].IsRatio()
    ensures Dimensioned(f.num) == f.num[..|f.num| - 1] && Dimensioned(f.den) == f.den
    ensures RatioOf(f) == f.num[|f.num| - 1].ratio
  {
    var n := f.num;
    var front, x := n[..|n| - 1], n[|n| - 1];
    DimensionedOfDimensioned(front);
    DimensionedOfDimensioned(f.den);
    assert n == front + [x];
    assert Scalars(n) == [x];
    ProductSnoc([], x, ByRatio);
    assert [] + [x] == [x];
    assert Product([], ByRatio) == 1.0;
  }

  /** A simplified unit is already folded. */
  lemma FoldedOfSimplified(f: Fraction)
    requires IsSimplified(f)
    ensures Folded(f) == f
  {
    var n := f.num;
    if |n| > 0 && n[|n| - 1].IsRatio() {
      assert Dimensioned(n) + RatioTail(f) == n && Dimensioned(f.den) == f.den by {
        RatioOfTrailingScalar(f);
        assert n[..|n| - 1] + [RatioUnit(n[|n| - 1].ratio)] == n;
      }
    } else {
      assert Dimensioned(n) == n && Dimensioned(f.den) == f.den && RatioTail(f) == [] by {
        DimensionedOfDimensioned(n);
        DimensionedOfDimensioned(f.den);
        assert Product([], ByRatio) == 1.0;
      }
      assert n + [] == n;
    }
  }

  /** Simplifying a simplified unit changes nothing. */
  lemma SimplifyIdempotent(f: Fraction)
    requires IsSimplified(f)
    ensures Simplify(f) == f
  {
    FoldedOfSimplified(f);
    CancelNothing(f);
  }

  /** simplify is idempotent. */
  lemma SimplifyTwice(f: Fraction)
    ensures Simplify(Simplify(f)) == Simplify(f)
  {
    SimplifyShape(f);
    SimplifyIdempotent(Simplify(f));
  }

  /** The appended scale factor weighs what the dropped ones weighed together. */
  lemma RatioTailWeight(f: Fraction, m: Measure)
    ensures Product(Scalars(f.den), m) != 0.0
    ensures Product(RatioTail(f), m) == Product(Scalars(f.num), m) / Product(Scalars(f.den), m)
  {
    ProductNonZero(Scalars(f.den), m);
    QuotientDef(Fraction(Scalars(f.num), Scalars(f.den)), ByRatio);
    var r := RatioOf(f);
    if r != 1.0 {
      ProductSnoc([], RatioUnit(r), m);
      assert [] + [RatioUnit(r)] == RatioTail(f);
    }
    assert Product([], m) == 1.0;
    if m == ByType {
      ScalarsHaveNoType(f.num);
      ScalarsHaveNoType(f.den);
      WeightFacts(ByType, RatioUnit(r));
    }
  }

  /** Folding keeps the conversion value and the derived type. */
  lemma FoldedKeepsMeasures(f: Fraction, m: Measure)
    ensures Quotient(Folded(f), m) == Quotient(f, m)
  {
    var dn, dd := Dimensioned(f.num), Dimensioned(f.den);
    var c, d := Product(Scalars(f.num), m), Product(Scalars(f.den), m);
    RatioTailWeight(f, m);
    ProductAppend(dn, RatioTail(f), m);
    ProductSplit(f.num, m);
    ProductSplit(f.den, m);
    ProductNonZero(dd, m);
    ProductNonZero(f.den, m);
    FoldRatio(Product(dn + RatioTail(f), m), Product(dd, m), Product(f.num, m), Product(f.den, m),
              Product(dn, m), c, d, Product(RatioTail(f), m));
    QuotientDef(Folded(f), m);
    QuotientDef(f, m);
  }

  /** simplify keeps the conversion value and the derived type (in exact arithmetic). */
  lemma SimplifyKeepsMeasures(f: Fraction, m: Measure)
    ensures Quotient(Simplify(f), m) == Quotient(f, m)
  {
    CancelKeepsQuotient(Folded(f), m);
    FoldedKeepsMeasures(f, m);
  }

  lemma DimensionedEquivalent(s: seq<BaseUnit>, t: seq<BaseUnit>)
    requires Equivalent(s, t)
    ensures Equivalent(Dimensioned(s), Dimensioned(t)) && Equivalent(Scalars(s), Scalars(t))
    decreases |s|
  {
    if s != [] {
      DimensionedEquivalent(s[..|s| - 1], t[..|t| - 1]);
    }
  }

  /** Simplification decides only by BaseUnit.equals and ratios. */
  lemma SimplifyEquivalent(f: Fraction, g: Fraction)
    requires SameFactors(f, g)
    ensures SameFactors(Simplify(f), Simplify(g))
  {
    DimensionedEquivalent(f.num, g.num);
    DimensionedEquivalent(f.den, g.den);
    SameFactorsSameMeasures(Fraction(Scalars(f.num), Scalars(f.den)), Fraction(Scalars(g.num), Scalars(g.den)), ByRatio);
    assert RatioOf(g) == RatioOf(f);
    assert RatioTail(g) == RatioTail(f);
    var a, b := Folded(f), Folded(g);
    assert SameFactors(a, b) by {
      forall i | 0 <= i < |a.num| ensures a.num[i].Equals(b.num[i]) {
        if i < |Dimensioned(f.num)| {
          assert a.num[i] == Dimensioned(f.num)[i] && b.num[i] == Dimensioned(g.num)[i];
        }
      }
    }
    CancelEquivalent(a, b);
  }

  // ---------------------------------------------------------------------------
  // Scale factors and equality: getRatio, stripRatios, containsRatio, isRatio, equals

  /** Unit.equals: the same conversion value and the same derived type. */
  predicate SameUnit(f: Fraction, g: Fraction) {
    Conversion(f) == Conversion(g) && DerivedType(f) == DerivedType(g)
  }

  /** A simplified unit equals the unit it was simplified from. */
  lemma SimplifySameUnit(f: Fraction)
    ensures SameUnit(Simplify(f), f)
  {
    SimplifyKeepsMeasures(f, ByRatio);
    SimplifyKeepsMeasures(f, ByType);
  }

  /** getRatio after simplify: the folded scale factor carries the former ratio, so the ratio is kept. */
  lemma RatioOfSimplified(f: Fraction)
    ensures RatioOf(Simplify(f)) == RatioOf(f)
  {
    SimplifyShape(f);
    RatioOfShape(Simplify(f), RatioOf(f));
  }

  /** The ratio of a simplified unit is that of its trailing scale factor, or 1 without one. */
  lemma RatioOfShape(g: Fraction, r: Ratio)
    requires IsSimplified(g)
    requires r != 1.0 <==> |g.num| > 0 && g.num[|g.num| - 1] == RatioUnit(r)
    requires r == 1.0 ==> forall i :: 0 <= i < |g.num| ==> !g.num[i].IsRatio()
    ensures RatioOf(g) == r
  {
    if r != 1.0 {
      RatioOfTrailingScalar(g);
    } else {
      DimensionedOfDimensioned(g.num);
      DimensionedOfDimensioned(g.den);
      assert Product([], ByRatio) == 1.0;
    }
  }

  /** stripRatios: the unit without its scale factors, simplified. */
  function Stripped(f: Fraction): Fraction {
    Simplify(Fraction(Dimensioned(f.num), Dimensioned(f.den)))
  }

  /** The dimensioned parts of a unit have ratio 1. */
  lemma DimensionedRatio(f: Fraction)
    ensures RatioOf(Fraction(Dimensioned(f.num), Dimensioned(f.den))) == 1.0
  {
    DimensionedOfDimensioned(Dimensioned(f.num));
    DimensionedOfDimensioned(Dimensioned(f.den));
    assert Product([], ByRatio) == 1.0;
  }

  /** No scale factor is left on either side after stripping. */
  lemma StrippedShape(f: Fraction)
    ensures forall i :: 0 <= i < |Stripped(f).num| ==> !Stripped(f).num[i].IsRatio()
    ensures forall j :: 0 <= j < |Stripped(f).den| ==> !Stripped(f).den[j].IsRatio()
  {
    DimensionedRatio(f);
    SimplifyShape(Fraction(Dimensioned(f.num), Dimensioned(f.den)));
  }

  /** Stripping keeps the derived type and divides the conversion value by the ratio. */
  lemma StrippedMeasures(f: Fraction)
    ensures DerivedType(Stripped(f)) == DerivedType(f)
    ensures RatioOf(f) != 0.0 && Conversion(Stripped(f)) == Conversion(f) / RatioOf(f)
  {
    var b := Fraction(Dimensioned(f.num), Dimensioned(f.den));
    SimplifySameUnit(b);
    StrippedType(f);
    StrippedConversion(f);
    DivideBack(Conversion(f), Conversion(b), RatioOf(f));
  }

  lemma StrippedType(f: Fraction)
    ensures DerivedType(Fraction(Dimensioned(f.num), Dimensioned(f.den))) == DerivedType(f)
  {
    ProductSplit(f.num, ByType);
    ProductSplit(f.den, ByType);
    ScalarsHaveNoType(f.num);
    ScalarsHaveNoType(f.den);
    QuotientDef(f, ByType);
    QuotientDef(Fraction(Dimensioned(f.num), Dimensioned(f.den)), ByType);
  }

  lemma StrippedConversion(f: Fraction)
    ensures Conversion(f) == Conversion(Fraction(Dimensioned(f.num), Dimensioned(f.den))) * RatioOf(f)
  {
    var g, h := Fraction(Dimensioned(f.num), Dimensioned(f.den)), Fraction(Scalars(f.num), Scalars(f.den));
    assert Quotient(f, ByRatio) == Quotient(g, ByRatio) * Quotient(h, ByRatio) by { QuotientSplit(f, g, h, ByRatio); }
    ProductOfEqualFactors(Conversion(f), Conversion(g), RatioOf(f), Quotient(f, ByRatio), Quotient(g, ByRatio), Quotient(h, ByRatio));
  }

  /** Any quotient is that of the dimensioned factors g times that of the scale factors h. */
  lemma QuotientSplit(f: Fraction, g: Fraction, h: Fraction, m: Measure)
    requires g == Fraction(Dimensioned(f.num), Dimensioned(f.den)) && h == Fraction(Scalars(f.num), Scalars(f.den))
    ensures Quotient(f, m) == Quotient(g, m) * Quotient(h, m)
  {
    assert Product(f.num, m) == Product(g.num, m) * Product(h.num, m) by { ProductSplit(f.num, m); }
    assert Product(f.den, m) == Product(g.den, m) * Product(h.den, m) by { ProductSplit(f.den, m); }
    QuotientOfSplit(f, g, h, m);
  }

  /** containsRatio: stripping the scale factors gives an unequal unit. */
  predicate HasRatio(f: Fraction) {
    !SameUnit(Stripped(f), f)
  }

  /** A unit contains a ratio exactly when its scale factors do not multiply out to 1. */
  lemma HasRatioIff(f: Fraction)
    ensures HasRatio(f) <==> RatioOf(f) != 1.0
  {
    StrippedMeasures(f);
    StrippedType(f);
    DivideByItself(Conversion(f), RatioOf(f));
  }

  /** isRatio: the numerator is a single scale factor. */
  predicate IsRatioUnit(f: Fraction) {
    |f.num| == 1 && f.num[0].IsRatio()
  }

  /**
   * A simplified unit is a ratio exactly when its numerator is the folded scale factor
   * alone, which happens only for a ratio other than 1.
   */
  lemma IsRatioOfSimplified(f: Fraction)
    ensures IsRatioUnit(Simplify(f)) <==> RatioOf(f) != 1.0 && Simplify(f).num == [RatioUnit(RatioOf(f))]
  {
    SimplifyShape(f);
  }

  lemma DivideBack(x: real, a: real, r: real)
    requires r != 0.0 && x == a * r
    ensures a == x / r
  {
  }

  lemma DivideByItself(x: real, r: real)
    requires x != 0.0 && r != 0.0
    ensures x / r == x <==> r == 1.0
  {
    if x / r == x {
      assert (x / r) * r == x;
      assert x * (r - 1.0) == 0.0;
    }
  }

  // ---------------------------------------------------------------------------
  // Combination: multiplyBy, divideBy, invert

  /** multiplyBy: both numerators, both denominators, simplified. */
  function Multiply(a: Fraction, b: Fraction): Fraction {
    Simplify(Fraction(a.num + b.num, a.den + b.den))
  }

  /** invert: numerator and denominator exchanged, simplified. */
  function Invert(a: Fraction): Fraction {
    Simplify(Fraction(a.den, a.num))
  }

  /** divideBy: multiplication by the inverse. */
  function Divide(a: Fraction, b: Fraction): Fraction {
    Multiply(a, Invert(b))
  }

  lemma MultiplyMeasures(a: Fraction, b: Fraction, m: Measure)
    ensures Quotient(Multiply(a, b), m) == Quotient(a, m) * Quotient(b, m)
  {
    SimplifyKeepsMeasures(Fraction(a.num + b.num, a.den + b.den), m);
    QuotientOfConcat(a, b, m);
  }

  /** Concatenating both lists multiplies the quotients. */
  lemma QuotientOfConcat(a: Fraction, b: Fraction, m: Measure)
    ensures Quotient(Fraction(a.num + b.num, a.den + b.den), m) == Quotient(a, m) * Quotient(b, m)
  {
    ProductAppend(a.num, b.num, m);
    ProductAppend(a.den, b.den, m);
    QuotientOfSplit(Fraction(a.num + b.num, a.den + b.den), a, b, m);
  }

  /** When both products of f split into those of g and h, so does the quotient. */
  lemma QuotientOfSplit(f: Fraction, g: Fraction, h: Fraction, m: Measure)
    requires Product(f.num, m) == Product(g.num, m) * Product(h.num, m)
    requires Product(f.den, m) == Product(g.den, m) * Product(h.den, m)
    ensures Quotient(f, m) == Quotient(g, m) * Quotient(h, m)
  {
    QuotientDef(f, m);
    QuotientDef(g, m);
    QuotientDef(h, m);
    ProductOfQuotients(Quotient(f, m), Quotient(g, m), Quotient(h, m),
                       Product(f.num, m), Product(f.den, m), Product(g.num, m), Product(g.den, m), Product(h.num, m), Product(h.den, m));
  }

  lemma InvertMeasures(a: Fraction, m: Measure)
    ensures Quotient(Invert(a), m) == 1.0 / Quotient(a, m)
  {
    SimplifyKeepsMeasures(Fraction(a.den, a.num), m);
    QuotientOfSwap(a, m);
  }

  /** Exchanging the lists inverts the quotient. */
  lemma QuotientOfSwap(a: Fraction, m: Measure)
    ensures Quotient(Fraction(a.den, a.num), m) == 1.0 / Quotient(a, m)
  {
    ProductNonZero(a.num, m);
    ProductNonZero(a.den, m);
    Reciprocal(Product(a.num, m), Product(a.den, m));
    QuotientDef(a, m);
    QuotientDef(Fraction(a.den, a.num), m);
  }

  lemma DivideMeasures(a: Fraction, b: Fraction, m: Measure)
    ensures Quotient(Divide(a, b), m) == Quotient(a, m) / Quotient(b, m)
  {
    InvertMeasures(b, m);
    MultiplyByReciprocal(a, Invert(b), b, m);
  }

  /** Multiplying by a unit whose quotient is the reciprocal of b's divides by b's. */
  lemma MultiplyByReciprocal(a: Fraction, c: Fraction, b: Fraction, m: Measure)
    requires Quotient(c, m) == 1.0 / Quotient(b, m)
    ensures Quotient(Multiply(a, c), m) == Quotient(a, m) / Quotient(b, m)
  {
    MultiplyMeasures(a, c, m);
    TimesReciprocal(Quotient(Multiply(a, c), m), Quotient(a, m), Quotient(c, m), Quotient(b, m));
  }

  /** A unit times its inverse has conversion value 1 and derived type 1, like the dimensionless unit. */
  lemma InverseLaw(a: Fraction, m: Measure)
    ensures Quotient(Multiply(a, Invert(a)), m) == 1.0
    ensures Quotient(Dimensionless, m) == 1.0
  {
    TimesInverse(a, m);
    QuotientOfDimensionless(m);
  }

  lemma TimesInverse(a: Fraction, m: Measure)
    ensures Quotient(Multiply(a, Invert(a)), m) == 1.0
  {
    MultiplyMeasures(a, Invert(a), m);
    InvertMeasures(a, m);
    TimesOwnReciprocal(Quotient(Multiply(a, Invert(a)), m), Quotient(a, m), Quotient(Invert(a), m));
  }

  lemma TimesOwnReciprocal(p: real, q: real, r: real)
    requires q != 0.0 && r == 1.0 / q && p == q * r
    ensures p == 1.0
  {
  }

  /** Multiplying by the dimensionless unit only simplifies. */
  lemma MultiplyIdentity(a: Fraction)
    ensures Multiply(a, Dimensionless) == Simplify(a)
  {
    assert a.num + [] == a.num && a.den + [] == a.den;
  }

  // ---------------------------------------------------------------------------
  // raiseToPower

  function Pow2(k: nat): nat {
    if k == 0 then 1 else 2 * Pow2(k - 1)
  }

  function RealPow(x: real, k: nat): real {
    if k == 0 then 1.0 else RealPow(x, k - 1) * x
  }

  /** x to the integer power n, as Math.pow computes it for a nonzero x. */
  function IntPow(x: real, n: int): (p: real)
    requires x != 0.0
    ensures p != 0.0
  {
    if n >= 0 then
      RealPowNonZero(x, n);
      RealPow(x, n)
    else
      RealPowNonZero(x, -n);
      1.0 / RealPow(x, -n)
  }

  /** The list after k rounds of appending it to itself. */
  function Doubled(s: seq<BaseUnit>, k: nat): seq<BaseUnit> {
    if k == 0 then s else Doubled(s, k - 1) + Doubled(s, k - 1)
  }

  /**
   * raiseToPower as written: 0 gives new Unit(); a positive n doubles each list n
   * times; for a negative n the doubling loop never runs and the lists are exchanged.
   */
  function Power(f: Fraction, n: int): Fraction {
    if n == 0 then Dimensionless
    else if n > 0 then Simplify(Fraction(Doubled(f.num, n), Doubled(f.den, n)))
    else Simplify(Fraction(f.den, f.num))
  }

  lemma {:induction false} RealPowAdd(x: real, a: nat, b: nat)
    ensures RealPow(x, a + b) == RealPow(x, a) * RealPow(x, b)
    decreases b
  {
    if b > 0 {
      RealPowAdd(x, a, b - 1);
    }
  }

  lemma {:induction false} RealPowNonZero(y: real, k: nat)
    requires y != 0.0
    ensures RealPow(y, k) != 0.0
    decreases k
  {
    if k > 0 {
      RealPowNonZero(y, k - 1);
      NonZeroProduct(RealPow(y, k - 1), y);
    }
  }

  lemma {:induction false} RealPowQuotient(x: real, y: real, k: nat)
    requires y != 0.0
    ensures RealPow(y, k) != 0.0 && RealPow(x / y, k) == RealPow(x, k) / RealPow(y, k)
    decreases k
  {
    RealPowNonZero(y, k);
    if k > 0 {
      RealPowQuotient(x, y, k - 1);
      QuotientOfProducts(RealPow(x, k), RealPow(y, k), RealPow(x, k - 1), RealPow(y, k - 1), x, y);
    }
  }

  lemma {:induction false} DoubledSize(s: seq<BaseUnit>, k: nat, m: Measure)
    ensures |Doubled(s, k)| == |s| * Pow2(k)
    ensures Product(Doubled(s, k), m) == RealPow(Product(s, m), Pow2(k))
    decreases k
  {
    if k > 0 {
      DoubledSize(s, k - 1, m);
      ProductAppend(Doubled(s, k - 1), Doubled(s, k - 1), m);
      RealPowAdd(Product(s, m), Pow2(k - 1), Pow2(k - 1));
    }
  }

  /**
   * raiseToPower(0) is the empty unit; for n > 0 each list holds 2^n copies and both
   * measures are raised to the power 2^n; for n < 0 the result is the inverse,
   * whatever n is.
   */
  lemma PowerAsWritten(f: Fraction, n: int, m: Measure)
    ensures Power(f, 0) == Dimensionless
    ensures n < 0 ==> Power(f, n) == Invert(f)
    ensures n > 0 ==> Quotient(Power(f, n), m) == RealPow(Quotient(f, m), Pow2(n))
    ensures n > 0 ==> |Doubled(f.num, n)| == |f.num| * Pow2(n) && |Doubled(f.den, n)| == |f.den| * Pow2(n)
  {
    if n > 0 {
      DoubledSize(f.num, n, m);
      DoubledSize(f.den, n, m);
      SimplifyKeepsMeasures(Fraction(Doubled(f.num, n), Doubled(f.den, n)), m);
      ProductNonZero(f.den, m);
      RealPowQuotient(Product(f.num, m), Product(f.den, m), Pow2(n));
      QuotientDef(f, m);
      QuotientDef(Fraction(Doubled(f.num, n), Doubled(f.den, n)), m);
    }
  }

  /** s repeated k times. */
  function Repeat(s: seq<BaseUnit>, k: nat): seq<BaseUnit> {
    if k == 0 then [] else Repeat(s, k - 1) + s
  }

  /** The evidently intended power: n copies of each list, or |n| copies of the inverse's. */
  function IntendedPower(f: Fraction, n: int): Fraction {
    if n >= 0 then Simplify(Fraction(Repeat(f.num, n), Repeat(f.den, n)))
    else Simplify(Fraction(Repeat(f.den, -n), Repeat(f.num, -n)))
  }

  lemma {:induction false} RepeatProduct(s: seq<BaseUnit>, k: nat, m: Measure)
    ensures Product(Repeat(s, k), m) == RealPow(Product(s, m), k)
    decreases k
  {
    if k > 0 {
      RepeatProduct(s, k - 1, m);
      ProductAppend(Repeat(s, k - 1), s, m);
    }
  }

  lemma RepeatOnce(s: seq<BaseUnit>)
    ensures Repeat(s, 1) == s
  {
    assert [] + s == s;
  }

  /** The unit without factors is already simplified. */
  lemma SimplifyDimensionless()
    ensures Simplify(Dimensionless) == Dimensionless
  {
    assert Dimensioned([]) == [] && Scalars([]) == [];
    QuotientOfDimensionless(ByRatio);
  }

  /** The intended power raises both measures to the n-th power, for either sign of n. */
  lemma IntendedPowerMeasures(f: Fraction, n: int, m: Measure)
    ensures Quotient(IntendedPower(f, n), m) == IntPow(Quotient(f, m), n)
  {
    if n >= 0 {
      IntendedPowerOfNat(f, n, m);
    } else {
      IntendedPowerOfNegative(f, -n, m);
    }
  }

  lemma IntendedPowerOfNat(f: Fraction, k: nat, m: Measure)
    ensures Quotient(IntendedPower(f, k), m) == IntPow(Quotient(f, m), k)
  {
    SimplifyKeepsMeasures(Fraction(Repeat(f.num, k), Repeat(f.den, k)), m);
    QuotientOfRepeat(f, k, m);
  }

  lemma IntendedPowerOfNegative(f: Fraction, k: nat, m: Measure)
    requires k > 0
    ensures Quotient(IntendedPower(f, -(k as int)), m) == IntPow(Quotient(f, m), -(k as int))
  {
    var g := Fraction(Repeat(f.num, k), Repeat(f.den, k));
    var h := Fraction(g.den, g.num);
    assert IntendedPower(f, -(k as int)) == Simplify(h);
    SimplifyKeepsMeasures(h, m);
    QuotientOfSwap(g, m);
    QuotientOfRepeat(f, k, m);
  }

  /** k copies of each list raise the quotient to the k-th power. */
  lemma QuotientOfRepeat(f: Fraction, k: nat, m: Measure)
    ensures Quotient(Fraction(Repeat(f.num, k), Repeat(f.den, k)), m) == RealPow(Quotient(f, m), k)
  {
    var pn, pd := Product(f.num, m), Product(f.den, m);
    RepeatProduct(f.num, k, m);
    RepeatProduct(f.den, k, m);
    QuotientDef(f, m);
    QuotientDef(Fraction(Repeat(f.num, k), Repeat(f.den, k)), m);
    RealPowQuotient(pn, pd, k);
  }


  /** For a single dimensioned factor x, raiseToPower(2) as written gives x^4 where x^2 is meant. */
  lemma SquareOfSingle(x: BaseUnit)
    requires !x.IsRatio()
    ensures Power(Fraction([x], []), 2) == Fraction([x, x, x, x], [])
  {
    assert Doubled([x], 1) == [x, x];
    assert Doubled([x], 2) == [x, x, x, x];
    SimplifyIdempotent(Fraction([x, x, x, x], []));
  }

  /** For a single dimensioned factor x, raiseToPower(-2) as written gives 1/x where 1/x^2 is meant. */
  lemma InverseSquareOfSingle(x: BaseUnit)
    requires !x.IsRatio()
    ensures Power(Fraction([x], []), -2) == Fraction([], [x])
  {
    SimplifyIdempotent(Fraction([], [x]));
  }

  /** The intended square of a single dimensioned factor x is x^2. */
  lemma IntendedSquareOfSingle(x: BaseUnit)
    requires !x.IsRatio()
    ensures IntendedPower(Fraction([x], []), 2) == Fraction([x, x], [])
  {
    assert Repeat([x], 1) == [x];
    assert Repeat([x], 2) == [x, x];
    assert Repeat([], 2) == [];
    SimplifyIdempotent(Fraction([x, x], []));
  }

  /** The intended power -2 of a single dimensioned factor x is 1/x^2. */
  lemma IntendedInverseSquareOfSingle(x: BaseUnit)
    requires !x.IsRatio()
    ensures IntendedPower(Fraction([x], []), -2) == Fraction([], [x, x])
  {
    assert Repeat([x], 1) == [x];
    assert Repeat([x], 2) == [x, x];
    assert Repeat([], 2) == [];
    SimplifyIdempotent(Fraction([], [x, x]));
  }

  /** The kilometre squared as written is a kilometre to the fourth; the intended one has two factors. */
  lemma PowerOfKilometre()
    ensures Power(Fraction([KILOMETRE], []), 2) == Fraction([KILOMETRE, KILOMETRE, KILOMETRE, KILOMETRE], [])
    ensures Power(Fraction([KILOMETRE], []), -2) == Fraction([], [KILOMETRE])
    ensures IntendedPower(Fraction([KILOMETRE], []), 2) == Fraction([KILOMETRE, KILOMETRE], [])
    ensures IntendedPower(Fraction([KILOMETRE], []), -2) == Fraction([], [KILOMETRE, KILOMETRE])
  {
    SquareOfSingle(KILOMETRE);
    InverseSquareOfSingle(KILOMETRE);
    IntendedSquareOfSingle(KILOMETRE);
    IntendedInverseSquareOfSingle(KILOMETRE);
  }

  /** So the conversion value of that square kilometre is 10^12 rather than 10^6. */
  lemma PowerOfKilometreConversion()
    ensures Conversion(Power(Fraction([KILOMETRE], []), 2)) == 1000000000000.0
    ensures Conversion(IntendedPower(Fraction([KILOMETRE], []), 2)) == 1000000.0
  {
    var km := Fraction([KILOMETRE], []);
    ProductSnoc([], KILOMETRE, ByRatio);
    assert [] + [KILOMETRE] == [KILOMETRE];
    assert Conversion(km) == 1000.0;
    PowerAsWritten(km, 2, ByRatio);
    IntendedPowerMeasures(km, 2, ByRatio);
  }

  // ---------------------------------------------------------------------------
  // getSI

  /** getSIUnit for every factor: the first catalog entry of its tag, or null. */
  function SILookup(catalog: seq<BaseUnit>, s: seq<BaseUnit>): (r: seq<Option<BaseUnit>>)
    ensures |r| == |s|
    ensures forall i :: 0 <= i < |s| ==> r[i] == FirstOfType(catalog, s[i].UnitType())
  {
    seq(|s|, i requires 0 <= i < |s| => FirstOfType(catalog, s[i].UnitType()))
  }

  predicate AllFound(os: seq<Option<BaseUnit>>) {
    forall i :: 0 <= i < |os| ==> os[i].Some?
  }

  function Found(os: seq<Option<BaseUnit>>): (r: seq<BaseUnit>)
    requires AllFound(os)
    ensures |r| == |os| && forall i :: 0 <= i < |os| ==> os[i] == Some(r[i])
  {
    seq(|os|, i requires 0 <= i < |os| && AllFound(os) => os[i].value)
  }

  /**
   * getSI: every factor replaced by the catalog's first entry of the same tag, then
   * simplified; None stands for the NullPointerException that simplify raises on a
   * factor whose tag the catalog lacks.
   */
  function ToSI(catalog: seq<BaseUnit>, f: Fraction): Option<Fraction> {
    var n := SILookup(catalog, f.num);
    var d := SILookup(catalog, f.den);
    if AllFound(n) && AllFound(d) then Some(Simplify(Fraction(Found(n), Found(d)))) else None
  }

  /** getSI fails exactly when some factor's dimension tag is missing from the catalog. */
  lemma ToSIFails(catalog: seq<BaseUnit>, f: Fraction)
    ensures ToSI(catalog, f).None? <==>
      (exists i :: 0 <= i < |f.num| && FirstOfType(catalog, f.num[i].UnitType()).None?) ||
      (exists j :: 0 <= j < |f.den| && FirstOfType(catalog, f.den[j].UnitType()).None?)
  {
  }

  /** Every factor of the SI list has the tag of the factor it replaces. */
  lemma FoundSameTypes(catalog: seq<BaseUnit>, s: seq<BaseUnit>)
    requires AllFound(SILookup(catalog, s))
    ensures var t := Found(SILookup(catalog, s));
      Product(t, ByType) == Product(s, ByType)
  {
    var t := Found(SILookup(catalog, s));
    forall i | 0 <= i < |t| ensures Weight(ByType, t[i]) == Weight(ByType, s[i]) {
      assert Some(t[i]) == FirstOfType(catalog, s[i].UnitType());
    }
    ProductPointwise(t, s, ByType);
  }

  /** getSI keeps the derived type. */
  lemma ToSIKeepsType(catalog: seq<BaseUnit>, f: Fraction)
    ensures ToSI(catalog, f).Some? ==> DerivedType(ToSI(catalog, f).value) == DerivedType(f)
  {
    var n := SILookup(catalog, f.num);
    var d := SILookup(catalog, f.den);
    if AllFound(n) && AllFound(d) {
      var g := Fraction(Found(n), Found(d));
      SimplifyKeepsMeasures(g, ByType);
      FoundSameTypes(catalog, f.num);
      FoundSameTypes(catalog, f.den);
      QuotientDef(f, ByType);
      QuotientDef(g, ByType);
    }
  }

  /** Over a standard catalog the SI unit has conversion value 1, and no factor of the original was a scale factor. */
  lemma ToSIStandard(catalog: seq<BaseUnit>, f: Fraction)
    requires IsStandardCatalog(catalog)
    ensures ToSI(catalog, f).Some? ==> Conversion(ToSI(catalog, f).value) == 1.0
    ensures ToSI(catalog, f).Some? ==> forall b :: b in f.num + f.den ==> !b.IsRatio()
  {
    var n := SILookup(catalog, f.num);
    var d := SILookup(catalog, f.den);
    if AllFound(n) && AllFound(d) {
      var g := Fraction(Found(n), Found(d));
      forall i | 0 <= i < |g.num| ensures Weight(ByRatio, g.num[i]) == 1.0 {
        StandardLookup(catalog, f.num[i].UnitType());
      }
      forall i | 0 <= i < |g.den| ensures Weight(ByRatio, g.den[i]) == 1.0 {
        StandardLookup(catalog, f.den[i].UnitType());
      }
      ProductOfOnes(g.num, ByRatio);
      ProductOfOnes(g.den, ByRatio);
      SimplifyKeepsMeasures(g, ByRatio);
      QuotientDef(g, ByRatio);
      StandardLookup(catalog, NO_UNIT);
      forall b | b in f.num + f.den ensures !b.IsRatio() {
        if b in f.num {
          var i :| 0 <= i < |f.num| && f.num[i] == b;
          assert n[i].Some?;
        } else {
          var i :| 0 <= i < |f.den| && f.den[i] == b;
          assert d[i].Some?;
        }
      }
    }
  }
}
