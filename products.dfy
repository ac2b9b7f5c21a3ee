/**
 * Products of base-unit weights: what the conversion-value and derived-type loops of
 * Unit multiply together. A base unit weighs its ratio to SI (for conversion values)
 * or its dimension tag (for derived types); a list weighs the product of its members'
 * weights, accumulated left to right.
 */
module Products {
  import opened BaseUnits

  /** The two numbers a unit multiplies out to: its ratio to SI, and its derived dimension type. */
  datatype Measure = ByRatio | ByType

  function Weight(m: Measure, b: BaseUnit): real {
    match m
    case ByRatio => b.ratio
    case ByType => b.UnitType() as real
  }

  /** No weight is zero, and a tag weighs 1 exactly for pure scale factors. */
  lemma WeightFacts(m: Measure, b: BaseUnit)
    ensures Weight(m, b) != 0.0
    ensures m == ByType ==> (Weight(m, b) == 1.0 <==> b.IsRatio())
  {
    TypesDistinct(b.dimension, b.dimension);
  }

  /** Equal base units weigh the same under both measures. */
  lemma WeightOfEquals(m: Measure, a: BaseUnit, b: BaseUnit)
    requires a.Equals(b)
    ensures Weight(m, a) == Weight(m, b)
  {
  }

  function Weights(s: seq<BaseUnit>, m: Measure): seq<real> {
    seq(|s|, i requires 0 <= i < |s| => Weight(m, s[i]))
  }

  /**
   * The product of a list of reals, multiplied left to right. The multiplication step is
   * a function of its own, so that a product stays one term until ProdStep opens it.
   */
  function Prod(ws: seq<real>): real
    decreases |ws|, 1
  {
    if ws == [] then 1.0 else ProdOfNonEmpty(ws)
  }

  function ProdOfNonEmpty(ws: seq<real>): real
    requires ws != []
    decreases |ws|, 0
  {
    Prod(ws[..|ws| - 1]) * ws[|ws| - 1]
  }

  /** The product of the weights of s. */
  function Product(s: seq<BaseUnit>, m: Measure): real {
    Prod(Weights(s, m))
  }

  predicate NonZero(ws: seq<real>) {
    forall i :: 0 <= i < |ws| ==> ws[i] != 0.0
  }

  /**
   * v divided by each of ws in turn, left to right. As with Prod, the division step is
   * a function of its own, opened only by DivideAllSnoc.
   */
  function DivideAll(v: real, ws: seq<real>): real
    requires NonZero(ws)
    decreases |ws|, 1
  {
    if ws == [] then v else DivideAllOfNonEmpty(v, ws)
  }

  function DivideAllOfNonEmpty(v: real, ws: seq<real>): real
    requires ws != [] && NonZero(ws)
    decreases |ws|, 0
  {
    DivideAll(v, ws[..|ws| - 1]) / ws[|ws| - 1]
  }

  // ---------------------------------------------------------------------------
  // Products of reals

  /** A non-empty product is the product of all but the last factor, times the last. */
  lemma ProdStep(ws: seq<real>)
    requires ws != []
    ensures Prod(ws) == Prod(ws[..|ws| - 1]) * ws[|ws| - 1]
  {
    assert Prod(ws) == ProdOfNonEmpty(ws);
  }

  lemma ProdSnoc(ws: seq<real>, x: real)
    ensures Prod(ws + [x]) == Prod(ws) * x
  {
    ProdStep(ws + [x]);
    assert (ws + [x])[..|ws|] == ws;
  }

  lemma {:induction false} ProdAppend(a: seq<real>, b: seq<real>)
    ensures Prod(a + b) == Prod(a) * Prod(b)
    decreases |b|
  {
    if b == [] {
      assert a + b == a;
    } else {
      var b', x := b[..|b| - 1], b[|b| - 1];
      assert b' + [x] == b;
      assert (a + b') + [x] == a + b;
      ProdAppend(a, b');
      ProdSnoc(a + b', x);
      ProdSnoc(b', x);
    }
  }

  /** Taking one factor out of the middle divides the product by it. */
  lemma {:induction false} ProdMiddle(l: seq<real>, x: real, r: seq<real>)
    ensures Prod(l + [x] + r) == Prod(l + r) * x
    decreases |r|
  {
    if r == [] {
      assert l + [x] + r == l + [x];
      assert l + r == l;
      ProdSnoc(l, x);
    } else {
      var r', y := r[..|r| - 1], r[|r| - 1];
      assert (l + [x] + r') + [y] == l + [x] + r;
      assert (l + r') + [y] == l + r;
      ProdMiddle(l, x, r');
      ProdSnoc(l + [x] + r', y);
      ProdSnoc(l + r', y);
    }
  }

  lemma {:induction false} ProdNonZero(ws: seq<real>)
    requires NonZero(ws)
    ensures Prod(ws) != 0.0
    decreases |ws|
  {
    if ws != [] {
      ProdStep(ws);
      ProdNonZero(ws[..|ws| - 1]);
      NonZeroProduct(Prod(ws[..|ws| - 1]), ws[|ws| - 1]);
    }
  }

  lemma {:induction false} ProdOfOnes(ws: seq<real>)
    requires forall i :: 0 <= i < |ws| ==> ws[i] == 1.0
    ensures Prod(ws) == 1.0
    decreases |ws|
  {
    if ws != [] {
      ProdStep(ws);
      ProdOfOnes(ws[..|ws| - 1]);
    }
  }

  lemma DivideAllSnoc(v: real, ws: seq<real>, x: real)
    requires NonZero(ws) && x != 0.0
    ensures NonZero(ws + [x])
    ensures DivideAll(v, ws + [x]) == DivideAll(v, ws) / x
  {
    assert DivideAll(v, ws + [x]) == DivideAllOfNonEmpty(v, ws + [x]);
    assert (ws + [x])[..|ws|] == ws;
  }

  /** Dividing by each factor in turn is dividing by their product. */
  lemma {:induction false} DivideAllByProd(v: real, ws: seq<real>)
    requires NonZero(ws)
    ensures Prod(ws) != 0.0 && DivideAll(v, ws) == v / Prod(ws)
    decreases |ws|
  {
    ProdNonZero(ws);
    if ws != [] {
      var ws', x := ws[..|ws| - 1], ws[|ws| - 1];
      assert ws' + [x] == ws;
      DivideAllByProd(v, ws');
      DivideAllSnoc(v, ws', x);
      ProdSnoc(ws', x);
      DivideTwice(DivideAll(v, ws), DivideAll(v, ws'), v, Prod(ws'), x, Prod(ws));
    }
  }

  lemma {:induction false} DivideAllNonZero(v: real, ws: seq<real>)
    requires NonZero(ws) && v != 0.0
    ensures DivideAll(v, ws) != 0.0
  {
    DivideAllByProd(v, ws);
    NonZeroQuotient(v, Prod(ws));
  }

  // ---------------------------------------------------------------------------
  // Products of weights

  /** No product of weights is zero: every conversion value and derived type is defined. */
  lemma ProductNonZero(s: seq<BaseUnit>, m: Measure)
    ensures Product(s, m) != 0.0
  {
    forall i | 0 <= i < |s| ensures Weights(s, m)[i] != 0.0 {
      WeightFacts(m, s[i]);
    }
    ProdNonZero(Weights(s, m));
  }

  lemma WeightsAppend(a: seq<BaseUnit>, b: seq<BaseUnit>, m: Measure)
    ensures Weights(a + b, m) == Weights(a, m) + Weights(b, m)
  {
  }

  /** No weight is zero. */
  lemma WeightsNonZero(s: seq<BaseUnit>, m: Measure)
    ensures NonZero(Weights(s, m))
  {
    forall i | 0 <= i < |s| ensures Weights(s, m)[i] != 0.0 {
      WeightFacts(m, s[i]);
    }
  }

  lemma ProductSnoc(s: seq<BaseUnit>, x: BaseUnit, m: Measure)
    ensures Product(s + [x], m) == Product(s, m) * Weight(m, x)
  {
    WeightsAppend(s, [x], m);
    assert Weights([x], m) == [Weight(m, x)];
    ProdSnoc(Weights(s, m), Weight(m, x));
  }

  lemma ProductAppend(a: seq<BaseUnit>, b: seq<BaseUnit>, m: Measure)
    ensures Product(a + b, m) == Product(a, m) * Product(b, m)
  {
    WeightsAppend(a, b, m);
    ProdAppend(Weights(a, m), Weights(b, m));
  }

  lemma WeightsAround(s: seq<BaseUnit>, i: int, m: Measure)
    requires 0 <= i < |s|
    ensures Weights(s, m) == Weights(s[..i], m) + [Weight(m, s[i])] + Weights(s[i + 1..], m)
    ensures Weights(s[..i] + s[i + 1..], m) == Weights(s[..i], m) + Weights(s[i + 1..], m)
  {
    assert s == s[..i] + [s[i]] + s[i + 1..];
    WeightsAppend(s[..i] + [s[i]], s[i + 1..], m);
    WeightsAppend(s[..i], [s[i]], m);
    WeightsAppend(s[..i], s[i + 1..], m);
  }

  /** Removing the factor at i divides the product by that factor's weight. */
  lemma ProductRemoveAt(s: seq<BaseUnit>, i: int, m: Measure)
    requires 0 <= i < |s|
    ensures Product(s, m) == Product(s[..i] + s[i + 1..], m) * Weight(m, s[i])
  {
    var l, x, r := Weights(s[..i], m), Weight(m, s[i]), Weights(s[i + 1..], m);
    assert Product(s, m) == Prod(l + [x] + r) && Product(s[..i] + s[i + 1..], m) == Prod(l + r) by {
      WeightsAround(s, i, m);
    }
    ProdMiddle(l, x, r);
  }

  lemma ProductPointwise(a: seq<BaseUnit>, b: seq<BaseUnit>, m: Measure)
    requires |a| == |b| && forall i :: 0 <= i < |a| ==> Weight(m, a[i]) == Weight(m, b[i])
    ensures Product(a, m) == Product(b, m)
  {
    assert Weights(a, m) == Weights(b, m);
  }

  lemma ProductOfOnes(s: seq<BaseUnit>, m: Measure)
    requires forall i :: 0 <= i < |s| ==> Weight(m, s[i]) == 1.0
    ensures Product(s, m) == 1.0
  {
    ProdOfOnes(Weights(s, m));
  }

  // ---------------------------------------------------------------------------
  // Arithmetic steps, each stated as an implication over its own variables so that
  // a caller can apply it to whole products without unfolding them.

  lemma NonZeroProduct(a: real, b: real)
    requires a != 0.0 && b != 0.0
    ensures a * b != 0.0
  {
  }

  /** A product p1 * w of d1 * s1 regroups as d1 * (s1 * w). */
  lemma ShiftRight(p: real, p1: real, w: real, d: real, s: real, d1: real, s1: real)
    requires p == p1 * w && p1 == d1 * s1 && d == d1 && s == s1 * w
    ensures p == d * s
  {
  }

  /** A product p1 * w of d1 * s1 regroups as (d1 * w) * s1. */
  lemma ShiftLeft(p: real, p1: real, w: real, d: real, s: real, d1: real, s1: real)
    requires p == p1 * w && p1 == d1 * s1 && d == d1 * w && s == s1
    ensures p == d * s
  {
  }

  /** A common factor of numerator and denominator cancels. */
  lemma CancelFactor(p: real, q: real, p1: real, q1: real, w: real, w1: real)
    requires w != 0.0 && q != 0.0 && q1 != 0.0 && p == p1 * w && q == q1 * w1 && w == w1
    ensures p / q == p1 / q1
  {
    assert p * q1 == p1 * q;
  }

  /**
   * Splitting numerator x = a * c and denominator y = b * d, and replacing c / d by one
   * factor r, keeps the quotient.
   */
  lemma FoldRatio(n: real, b: real, x: real, y: real, a: real, c: real, d: real, r: real)
    requires b != 0.0 && d != 0.0 && y != 0.0 && x == a * c && y == b * d && n == a * r && r == c / d
    ensures n / b == x / y
  {
    assert r * d == c;
    assert n * y == a * r * b * d;
    assert x * b == a * c * b;
  }

  /** The quotient of products is the product of quotients. */
  lemma QuotientOfProducts(x: real, y: real, a: real, b: real, c: real, d: real)
    requires b != 0.0 && d != 0.0 && y != 0.0 && x == a * c && y == b * d
    ensures x / y == (a / b) * (c / d)
  {
  }

  /** The same, for quotients already named q, q1 and q2. */
  lemma ProductOfQuotients(q: real, q1: real, q2: real, x: real, y: real, a: real, b: real, c: real, d: real)
    requires b != 0.0 && d != 0.0 && y != 0.0 && x == a * c && y == b * d
    requires q == x / y && q1 == a / b && q2 == c / d
    ensures q == q1 * q2
  {
    QuotientOfProducts(x, y, a, b, c, d);
  }

  /** A product stays the same when each factor is replaced by an equal one. */
  lemma ProductOfEqualFactors(p: real, a: real, b: real, p1: real, a1: real, b1: real)
    requires p1 == a1 * b1 && p == p1 && a == a1 && b == b1
    ensures p == a * b
  {
  }

  lemma NonZeroQuotient(a: real, b: real)
    requires a != 0.0 && b != 0.0
    ensures a / b != 0.0
  {
  }

  lemma DivideTwice(r: real, r1: real, v: real, p: real, x: real, q: real)
    requires p != 0.0 && x != 0.0 && r1 == v / p && r == r1 / x && q == p * x
    ensures r == v / q
  {
  }

  lemma Reciprocal(a: real, b: real)
    requires a != 0.0 && b != 0.0
    ensures b / a == 1.0 / (a / b)
  {
  }

  lemma TimesReciprocal(p: real, u: real, v: real, w: real)
    requires p == u * v && w != 0.0 && v == 1.0 / w
    ensures p == u / w
  {
  }
}
