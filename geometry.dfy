/** The vertex record shared by the control-point buffer and the curve polyline.
    Positions are XMFLOAT3 values; their `float` components are idealised as `real`.
    Colours are abstract: only the three values the program can store in a slot are told apart. */
module Geometry {

  /** An XMFLOAT3 position. */
  datatype Float3 = Float3(x: real, y: real, z: real)

  /** `Blue` marks control points, `Aqua` marks computed curve samples, and `Unset` is the
      all-zero RGBA value a slot holds before anything has been written to it. */
  datatype Color = Blue | Aqua | Unset

  /** A vertex: a position and a colour. */
  datatype Vertex = Vertex(pos: Float3, color: Color)

  /** The value every slot of a freshly created (zero-initialised) buffer holds. */
  const ClearedVertex: Vertex := Vertex(Float3(0.0, 0.0, 0.0), Unset)
}
