/** The cubic Bezier evaluator: `calculateBezierCoordinate`, `generateBezierPoint`
    and the sample parameters `i * tIncrement` of the curve loop. */
module Bezier {
  import opened Geometry

  /** CURVE_VERTEX_QUANTITY: the number of samples in the curve polyline. */
  const CurveVertexQuantity: nat := 28

  /** `1.0 / (CURVE_VERTEX_QUANTITY - 1)`: the parameter step between two samples. */
  const TIncrement: real := 1.0 / (CurveVertexQuantity - 1) as real

  /** `pow(b, n)` for a natural exponent. */
  function Pow(b: real, n: nat): (r: real)
    ensures n == 0 ==> r == 1.0
    ensures b >= 0.0 ==> r >= 0.0
    ensures b == 1.0 ==> r == 1.0
    ensures b == 0.0 && n > 0 ==> r == 0.0
  {
    if n == 0 then 1.0 else b * Pow(b, n - 1)
  }

  /** One coordinate of the cubic Bezier curve with control values p1..p4 at parameter t,
      in Bernstein form. */
  function CalculateBezierCoordinate(p1: real, p2: real, p3: real, p4: real, t: real): (r: real)
    ensures t == 0.0 ==> r == p1
    ensures t == 1.0 ==> r == p4
  {
    Pow(1.0 - t, 3) * p1 + 3.0 * t * Pow(1.0 - t, 2) * p2 + 3.0 * Pow(t, 2) * (1.0 - t) * p3 + Pow(t, 3) * p4
  }

  /** Linear interpolation from a (t = 0) to b (t = 1). */
  function Lerp(a: real, b: real, t: real): real
  {
    (1.0 - t) * a + t * b
  }

  /** De Casteljau's construction of the same curve by repeated linear interpolation:
      an independent reference for the Bernstein form. */
  function DeCasteljau(p1: real, p2: real, p3: real, p4: real, t: real): real
  {
    var a, b, c := Lerp(p1, p2, t), Lerp(p2, p3, t), Lerp(p3, p4, t);
    Lerp(Lerp(a, b, t), Lerp(b, c, t), t)
  }

  lemma PowSmall(b: real)
    ensures Pow(b, 2) == b * b
    ensures Pow(b, 3) == b * b * b
  {
    assert Pow(b, 1) == b;
  }

  /** The blend with its powers written out as products of s = 1 - t and t. */
  lemma BernsteinProducts(p1: real, p2: real, p3: real, p4: real, t: real, s: real)
    requires s == 1.0 - t
    ensures CalculateBezierCoordinate(p1, p2, p3, p4, t)
         == s * s * s * p1 + 3.0 * t * s * s * p2 + 3.0 * t * t * s * p3 + t * t * t * p4
  {
    PowSmall(t);
    PowSmall(s);
  }

  /** The blend as a weighted sum of the control values. */
  lemma BernsteinWeighted(p1: real, p2: real, p3: real, p4: real, t: real, s: real, w1: real, w2: real, w3: real, w4: real)
    requires s == 1.0 - t
    requires w1 == s * s * s && w2 == 3.0 * t * s * s && w3 == 3.0 * t * t * s && w4 == t * t * t
    ensures CalculateBezierCoordinate(p1, p2, p3, p4, t) == w1 * p1 + w2 * p2 + w3 * p3 + w4 * p4
  {
    BernsteinProducts(p1, p2, p3, p4, t, s);
  }

  /** The four Bernstein weights of degree three sum to one. */
  lemma BernsteinWeightsSumToOne(t: real, s: real)
    requires s == 1.0 - t
    ensures s * s * s + 3.0 * t * s * s + 3.0 * t * t * s + t * t * t == 1.0
  {
    assert s * s * s + 3.0 * t * s * s + 3.0 * t * t * s + t * t * t == (s + t) * (s + t) * (s + t);
  }

  lemma LerpTwice(x1: real, x2: real, x3: real, s: real, t: real)
    requires s == 1.0 - t
    ensures Lerp(Lerp(x1, x2, t), Lerp(x2, x3, t), t) == s * s * x1 + 2.0 * s * t * x2 + t * t * x3
  {
    assert Lerp(x1, x2, t) == s * x1 + t * x2;
    assert Lerp(x2, x3, t) == s * x2 + t * x3;
    assert s * (s * x1 + t * x2) == s * s * x1 + s * t * x2;
    assert t * (s * x2 + t * x3) == s * t * x2 + t * t * x3;
  }

  lemma LerpThrice(x1: real, x2: real, x3: real, x4: real, s: real, t: real)
    requires s == 1.0 - t
    ensures Lerp(s * s * x1 + 2.0 * s * t * x2 + t * t * x3, s * s * x2 + 2.0 * s * t * x3 + t * t * x4, t)
         == s * s * s * x1 + 3.0 * t * s * s * x2 + 3.0 * t * t * s * x3 + t * t * t * x4
  {
    assert s * (s * s * x1 + 2.0 * s * t * x2 + t * t * x3) == s * s * s * x1 + 2.0 * s * s * t * x2 + s * t * t * x3;
    assert t * (s * s * x2 + 2.0 * s * t * x3 + t * t * x4) == s * s * t * x2 + 2.0 * s * t * t * x3 + t * t * t * x4;
  }

  /** The Bernstein form and de Casteljau's construction agree everywhere. */
  lemma BezierMatchesDeCasteljau(p1: real, p2: real, p3: real, p4: real, t: real)
    ensures CalculateBezierCoordinate(p1, p2, p3, p4, t) == DeCasteljau(p1, p2, p3, p4, t)
  {
    var s := 1.0 - t;
    BernsteinProducts(p1, p2, p3, p4, t, s);
    LerpTwice(p1, p2, p3, s, t);
    LerpTwice(p2, p3, p4, s, t);
    LerpThrice(p1, p2, p3, p4, s, t);
  }

  /** The weights sum to one: translating every control value by d translates the curve by d. */
  lemma BezierTranslates(p1: real, p2: real, p3: real, p4: real, t: real, d: real)
    ensures CalculateBezierCoordinate(p1 + d, p2 + d, p3 + d, p4 + d, t)
         == CalculateBezierCoordinate(p1, p2, p3, p4, t) + d
  {
    var s := 1.0 - t;
    var w1, w2, w3, w4 := s * s * s, 3.0 * t * s * s, 3.0 * t * t * s, t * t * t;
    BernsteinWeighted(p1, p2, p3, p4, t, s, w1, w2, w3, w4);
    BernsteinWeighted(p1 + d, p2 + d, p3 + d, p4 + d, t, s, w1, w2, w3, w4);
    BernsteinWeightsSumToOne(t, s);
    WeightedShift(w1, w2, w3, w4, p1, p2, p3, p4, d);
  }

  lemma WeightedShift(w1: real, w2: real, w3: real, w4: real, p1: real, p2: real, p3: real, p4: real, d: real)
    requires w1 + w2 + w3 + w4 == 1.0
    ensures w1 * (p1 + d) + w2 * (p2 + d) + w3 * (p3 + d) + w4 * (p4 + d)
         == w1 * p1 + w2 * p2 + w3 * p3 + w4 * p4 + d
  {
    assert w1 * (p1 + d) + w2 * (p2 + d) + w3 * (p3 + d) + w4 * (p4 + d)
        == (w1 * p1 + w2 * p2 + w3 * p3 + w4 * p4) + (w1 + w2 + w3 + w4) * d;
  }

  /** Running the parameter backwards is the same as reversing the control values. */
  lemma BezierReversed(p1: real, p2: real, p3: real, p4: real, t: real)
    ensures CalculateBezierCoordinate(p4, p3, p2, p1, 1.0 - t) == CalculateBezierCoordinate(p1, p2, p3, p4, t)
  {
    var s := 1.0 - t;
    BernsteinProducts(p1, p2, p3, p4, t, s);
    BernsteinProducts(p4, p3, p2, p1, s, t);
  }

  lemma WeightedAverageAbove(w1: real, w2: real, w3: real, w4: real, p1: real, p2: real, p3: real, p4: real, lo: real)
    requires w1 >= 0.0 && w2 >= 0.0 && w3 >= 0.0 && w4 >= 0.0 && w1 + w2 + w3 + w4 == 1.0
    requires lo <= p1 && lo <= p2 && lo <= p3 && lo <= p4
    ensures lo <= w1 * p1 + w2 * p2 + w3 * p3 + w4 * p4
  {
    var d1, d2, d3, d4 := p1 - lo, p2 - lo, p3 - lo, p4 - lo;
    assert w1 * d1 >= 0.0 && w2 * d2 >= 0.0 && w3 * d3 >= 0.0 && w4 * d4 >= 0.0;
    assert w1 * p1 + w2 * p2 + w3 * p3 + w4 * p4 == (w1 + w2 + w3 + w4) * lo + (w1 * d1 + w2 * d2 + w3 * d3 + w4 * d4);
  }

  lemma WeightedAverageBelow(w1: real, w2: real, w3: real, w4: real, p1: real, p2: real, p3: real, p4: real, hi: real)
    requires w1 >= 0.0 && w2 >= 0.0 && w3 >= 0.0 && w4 >= 0.0 && w1 + w2 + w3 + w4 == 1.0
    requires p1 <= hi && p2 <= hi && p3 <= hi && p4 <= hi
    ensures w1 * p1 + w2 * p2 + w3 * p3 + w4 * p4 <= hi
  {
    var d1, d2, d3, d4 := hi - p1, hi - p2, hi - p3, hi - p4;
    assert w1 * d1 >= 0.0 && w2 * d2 >= 0.0 && w3 * d3 >= 0.0 && w4 * d4 >= 0.0;
    assert w1 * p1 + w2 * p2 + w3 * p3 + w4 * p4 == (w1 + w2 + w3 + w4) * hi - (w1 * d1 + w2 * d2 + w3 * d3 + w4 * d4);
  }

  lemma NonnegativeProduct(a: real, b: real)
    requires a >= 0.0 && b >= 0.0
    ensures a * b >= 0.0
  {
  }

  /** For t in [0, 1] none of the four Bernstein weights is negative. */
  lemma BernsteinWeightsNonnegative(t: real, s: real)
    requires 0.0 <= t <= 1.0 && s == 1.0 - t
    ensures s * s * s >= 0.0 && 3.0 * t * s * s >= 0.0 && 3.0 * t * t * s >= 0.0 && t * t * t >= 0.0
  {
    NonnegativeProduct(s, s);
    NonnegativeProduct(s * s, s);
    NonnegativeProduct(3.0 * t, s);
    NonnegativeProduct(3.0 * t * s, s);
    NonnegativeProduct(3.0 * t, t);
    NonnegativeProduct(3.0 * t * t, s);
    NonnegativeProduct(t, t);
    NonnegativeProduct(t * t, t);
  }

  /** Convex-hull property: for t in [0, 1] the curve stays between the smallest and the
      largest control value. */
  lemma BezierWithinBounds(p1: real, p2: real, p3: real, p4: real, t: real, lo: real, hi: real)
    requires 0.0 <= t <= 1.0
    requires lo <= p1 <= hi && lo <= p2 <= hi && lo <= p3 <= hi && lo <= p4 <= hi
    ensures lo <= CalculateBezierCoordinate(p1, p2, p3, p4, t) <= hi
  {
    var s := 1.0 - t;
    var w1, w2, w3, w4 := s * s * s, 3.0 * t * s * s, 3.0 * t * t * s, t * t * t;
    var b := w1 * p1 + w2 * p2 + w3 * p3 + w4 * p4;
    assert lo <= b <= hi by {
      BernsteinWeightsSumToOne(t, s);
      BernsteinWeightsNonnegative(t, s);
      WeightedAverageAbove(w1, w2, w3, w4, p1, p2, p3, p4, lo);
      WeightedAverageBelow(w1, w2, w3, w4, p1, p2, p3, p4, hi);
    }
    BernsteinWeighted(p1, p2, p3, p4, t, s, w1, w2, w3, w4);
  }

  /** A curve sample: x and y blended independently from the four control positions,
      z flattened to 0 and the curve colour. */
  function GenerateBezierPoint(p1: Float3, p2: Float3, p3: Float3, p4: Float3, t: real): (v: Vertex)
    ensures v.color == Aqua && v.pos.z == 0.0
    ensures v.pos.x == CalculateBezierCoordinate(p1.x, p2.x, p3.x, p4.x, t)
    ensures v.pos.y == CalculateBezierCoordinate(p1.y, p2.y, p3.y, p4.y, t)
    ensures t == 0.0 ==> v.pos == Float3(p1.x, p1.y, 0.0)
    ensures t == 1.0 ==> v.pos == Float3(p4.x, p4.y, 0.0)
  {
    var x := CalculateBezierCoordinate(p1.x, p2.x, p3.x, p4.x, t);
    var y := CalculateBezierCoordinate(p1.y, p2.y, p3.y, p4.y, t);
    Vertex(Float3(x, y, 0.0), Aqua)
  }

  /** The parameter `i * tIncrement` of sample i: i / 27, from 0 at the first sample
      to 1 at the last. */
  function SampleParameter(i: nat): (t: real)
    requires i < CurveVertexQuantity
    ensures 0.0 <= t <= 1.0
    ensures t == 0.0 <==> i == 0
    ensures t == 1.0 <==> i == CurveVertexQuantity - 1
    ensures t * (CurveVertexQuantity - 1) as real == i as real
  {
    i as real * TIncrement
  }

  /** Sample parameters strictly increase with the sample number. */
  lemma SampleParametersIncrease(i: nat, j: nat)
    requires i < j < CurveVertexQuantity
    ensures SampleParameter(i) < SampleParameter(j)
  {
    assert SampleParameter(j) - SampleParameter(i) == (j - i) as real * TIncrement;
  }
}
