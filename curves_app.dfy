/** The `Curves` application object: the control-point buffer, the curve buffer and the two
    counters, updated in place once per frame by `Update`. */
module CurvesApp {
  import opened Geometry
  import opened Bezier
  import opened ControlRing
  import opened Polyline

  class Curves {
    const controlVertexes: array<Vertex>
    const curveVertexes: array<Vertex>
    var controlVertexCount: nat
    var controlVertexIndex: nat

    /** The control buffer and counters as a ring value. */
    ghost function State(): Ring
      reads this, controlVertexes
    {
      Ring(controlVertexes[..], controlVertexIndex, controlVertexCount)
    }

    /** Object invariant: the buffers have their fixed sizes, are distinct, and the ring
        invariant holds. */
    ghost predicate Valid()
      reads this, controlVertexes
    {
      controlVertexes != curveVertexes &&
      curveVertexes.Length == CurveVertexQuantity &&
      ControlRing.Valid(State())
    }

    /** A new object: every slot of both buffers zeroed, both counters at 0. */
    constructor ()
      ensures Valid() && fresh(controlVertexes) && fresh(curveVertexes)
      ensures State() == Initial()
      ensures forall i :: 0 <= i < curveVertexes.Length ==> curveVertexes[i] == ClearedVertex
    {
      controlVertexes := new Vertex[ControlVertexQuantity](_ => ClearedVertex);
      curveVertexes := new Vertex[CurveVertexQuantity](_ => ClearedVertex);
      controlVertexCount := 0;
      controlVertexIndex := 0;
      new;
      assert controlVertexes[..] == Initial().slots;
    }

    /** One frame with the cursor at (x, y) and `click` telling whether the left button was
        pressed: the preview write, the commit, and, once more than one point is committed,
        the rebuild of the curve polyline. */
    method Update(x: real, y: real, click: bool)
      requires Valid()
      modifies this, controlVertexes, curveVertexes
      ensures Valid()
      ensures State() == Frame(old(State()), x, y, click)
      ensures controlVertexCount > 1 ==> curveVertexes[..] == CurvePolyline(controlVertexes[..])
      ensures controlVertexCount <= 1 ==> curveVertexes[..] == old(curveVertexes[..])
    {
      ghost var before := State();
      controlVertexes[controlVertexIndex] := PreviewVertex(x, y);
      assert State() == Preview(before, x, y);

      if click {
        controlVertexIndex := (controlVertexIndex + 1) % ControlVertexQuantity;
        if controlVertexCount < ControlVertexQuantity {
          controlVertexCount := controlVertexCount + 1;
        }
      }
      assert State() == Frame(before, x, y, click);

      if controlVertexCount > 1 {
        RebuildCurve();
      }
    }

    /** The rebuild of the curve buffer from the control buffer; the control buffer and the
        counters are only read. */
    method RebuildCurve()
      requires Valid()
      modifies curveVertexes
      ensures curveVertexes[..] == CurvePolyline(controlVertexes[..])
    {
      ghost var control := controlVertexes[..];
      curveVertexes[0] := controlVertexes[0];
      for i := 1 to CurveVertexQuantity - 1
        invariant curveVertexes[0] == control[0]
        invariant forall k :: 1 <= k < i ==> curveVertexes[k] == CurveSample(control, k)
      {
        var sample := GenerateBezierPoint(controlVertexes[0].pos, controlVertexes[1].pos,
                                          controlVertexes[2].pos, controlVertexes[3].pos,
                                          i as real * TIncrement);
        assert sample == CurveSample(control, i);
        curveVertexes[i] := sample;
      }
      curveVertexes[CurveVertexQuantity - 1] := controlVertexes[ControlVertexQuantity - 1];
      forall k | 0 <= k < CurveVertexQuantity
        ensures curveVertexes[k] == CurvePolyline(control)[k]
      {
      }
    }
  }
}
