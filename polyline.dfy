/** The curve polyline rebuilt by `Curves::Update`: sample 0 copied from control slot 0,
    samples 1..26 blended from control slots 0-3, sample 27 copied from control slot 79. */
module Polyline {
  import opened Geometry
  import opened Bezier
  import opened ControlRing

  /** Sample i of the curve built from the control slots. */
  function CurveSample(control: seq<Vertex>, i: nat): Vertex
    requires |control| == ControlVertexQuantity && i < CurveVertexQuantity
  {
    if i == 0 then control[0]
    else if i == CurveVertexQuantity - 1 then control[ControlVertexQuantity - 1]
    else GenerateBezierPoint(control[0].pos, control[1].pos, control[2].pos, control[3].pos, SampleParameter(i))
  }

  /** The whole polyline: 28 samples, the first and last copied from control slots 0 and 79
      (colour included), the interior ones on the Bezier curve of slots 0-3 at t = i/27,
      flattened to z = 0 and coloured Aqua. */
  function CurvePolyline(control: seq<Vertex>): (curve: seq<Vertex>)
    requires |control| == ControlVertexQuantity
    ensures |curve| == CurveVertexQuantity
    ensures curve[0] == control[0]
    ensures curve[CurveVertexQuantity - 1] == control[ControlVertexQuantity - 1]
    ensures forall i :: 0 < i < CurveVertexQuantity - 1 ==>
      curve[i].color == Aqua && curve[i].pos.z == 0.0 &&
      curve[i].pos.x == CalculateBezierCoordinate(control[0].pos.x, control[1].pos.x, control[2].pos.x, control[3].pos.x, i as real / 27.0) &&
      curve[i].pos.y == CalculateBezierCoordinate(control[0].pos.y, control[1].pos.y, control[2].pos.y, control[3].pos.y, i as real / 27.0)
  {
    seq(CurveVertexQuantity, i requires 0 <= i < CurveVertexQuantity => CurveSample(control, i))
  }

  /** The polyline reads control slots 0, 1, 2, 3 and 79 only: buffers that agree there give
      the same polyline. */
  lemma PolylineReadsWindowOnly(c1: seq<Vertex>, c2: seq<Vertex>)
    requires |c1| == ControlVertexQuantity && |c2| == ControlVertexQuantity
    requires c1[..4] == c2[..4] && c1[ControlVertexQuantity - 1] == c2[ControlVertexQuantity - 1]
    ensures CurvePolyline(c1) == CurvePolyline(c2)
  {
    assert c1[0] == c2[0] && c1[1] == c2[1] && c1[2] == c2[2] && c1[3] == c2[3] by {
      assert c1[0] == c1[..4][0] && c1[1] == c1[..4][1] && c1[2] == c1[..4][2] && c1[3] == c1[..4][3];
      assert c2[0] == c2[..4][0] && c2[1] == c2[..4][1] && c2[2] == c2[..4][2] && c2[3] == c2[..4][3];
    }
    forall i | 0 <= i < CurveVertexQuantity ensures CurvePolyline(c1)[i] == CurvePolyline(c2)[i] {
      assert CurveSample(c1, i) == CurveSample(c2, i);
    }
  }

  /** A preview write into a slot other than 0-3 and 79 leaves the polyline as it was. */
  lemma PreviewOutsideWindowKeepsCurve(r: Ring, x: real, y: real)
    requires Valid(r) && 4 <= r.index < ControlVertexQuantity - 1
    ensures CurvePolyline(Preview(r, x, y).slots) == CurvePolyline(r.slots)
  {
    PolylineReadsWindowOnly(Preview(r, x, y).slots, r.slots);
  }

  /** The copied first sample lies on the curve: it has the position the blend gives at t = 0
      (up to z, which the copy keeps). */
  lemma FirstSampleOnCurve(control: seq<Vertex>)
    requires |control| == ControlVertexQuantity && control[0].pos.z == 0.0
    ensures CurvePolyline(control)[0].pos
         == GenerateBezierPoint(control[0].pos, control[1].pos, control[2].pos, control[3].pos, SampleParameter(0)).pos
  {
  }

  /** Interior samples stay inside the x-range and y-range of control slots 0-3. */
  lemma {:induction false} InteriorWithinControlBox(control: seq<Vertex>, i: nat, lo: Float3, hi: Float3)
    requires |control| == ControlVertexQuantity && 0 < i < CurveVertexQuantity - 1
    requires forall j :: 0 <= j < 4 ==>
      lo.x <= control[j].pos.x <= hi.x && lo.y <= control[j].pos.y <= hi.y
    ensures lo.x <= CurvePolyline(control)[i].pos.x <= hi.x
    ensures lo.y <= CurvePolyline(control)[i].pos.y <= hi.y
  {
    var t := SampleParameter(i);
    var p1, p2, p3, p4 := control[0].pos, control[1].pos, control[2].pos, control[3].pos;
    assert CurvePolyline(control)[i] == GenerateBezierPoint(p1, p2, p3, p4, t);
    BezierWithinBounds(p1.x, p2.x, p3.x, p4.x, t, lo.x, hi.x);
    BezierWithinBounds(p1.y, p2.y, p3.y, p4.y, t, lo.y, hi.y);
  }

  /** Endpoint snapping as written: after two committed points A and B on a new object, the
      first sample is A's control point but the last sample is the untouched slot 79, not B. */
  lemma TwoCommitsSnapToSlot79(a: Cursor, b: Cursor)
    ensures var r := Frame(Frame(Initial(), a.x, a.y, true), b.x, b.y, true);
      r.count == 2 &&
      CurvePolyline(r.slots)[0] == PreviewVertex(a.x, a.y) &&
      CurvePolyline(r.slots)[CurveVertexQuantity - 1] == ClearedVertex &&
      CurvePolyline(r.slots)[CurveVertexQuantity - 1] != PreviewVertex(b.x, b.y)
  {
    var r1 := Frame(Initial(), a.x, a.y, true);
    var r := Frame(r1, b.x, b.y, true);
    assert r1.index == 1 && r1.slots[0] == PreviewVertex(a.x, a.y);
    assert r.slots[0] == PreviewVertex(a.x, a.y);
    assert r.slots[ControlVertexQuantity - 1] == ClearedVertex;
  }
}
