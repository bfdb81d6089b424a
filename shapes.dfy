/**
 * The 2D shape vocabulary the text code builds with. The shape library itself
 * (distance evaluation, Bezier tessellation, the geometry of union, difference,
 * translation and centring) is not part of this model: each primitive is a
 * constructor, so a Region is the term that records exactly which primitives
 * were applied to what, in which order.
 */
module Shapes {

  /** A 2D vector (sdf.V2); float64 coordinates modelled as reals. */
  datatype V2 = V2(x: real, y: real)

  /** One vertex pushed into the Bezier builder; `mid` is set when it was marked as a control point. */
  datatype CurvePoint = CurvePoint(v: V2, mid: bool)

  /** An SDF2 value as the text code produces it. */
  datatype Region =
    | Empty                                      // the nil SDF2
    | Polygon(curve: seq<CurvePoint>)            // Polygon2D of the closed Bezier curve built from `curve`
    | UnionOf(parts: seq<Region>)                // Union2D(parts...)
    | Difference(a: Region, b: Region)           // Difference2D(a, b)
    | Translate(r: Region, dx: real, dy: real)   // Transform2D(r, Translate2d(V2{dx, dy}))
    | CenterAndScale(r: Region, h: real, ah: real)  // CenterAndScale2D(r, h / ah)
}
