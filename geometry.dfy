/** Values shared by the glyph provider and the mesh assembler. */
module Geometry {

  /** The conventional optional value; used for lookups that may fail. */
  datatype Option<T> = None | Some(value: T)

  /** A 3-component position or normal. The source stores f32 triples; they are modelled as reals. */
  datatype Vec3 = Vec3(x: real, y: real, z: real)

  /**
   * The geometry the outline provider returns for one character.
   * `indices` are triangle corners local to the fragment (0 refers to vertices[0]).
   */
  datatype Fragment = Fragment(vertices: seq<Vec3>, normals: seq<Vec3>, indices: seq<nat>)

  /** `v` moved along the x axis by `dx`; y and z stay as they are. */
  function ShiftX(v: Vec3, dx: real): Vec3
  {
    Vec3(v.x + dx, v.y, v.z)
  }

  /** Every local index of `f` names one of its own vertices. */
  predicate WellIndexed(f: Fragment)
  {
    forall i :: 0 <= i < |f.indices| ==> f.indices[i] < |f.vertices|
  }

  /** `f` carries exactly one normal per vertex. */
  predicate NormalPerVertex(f: Fragment)
  {
    |f.normals| == |f.vertices|
  }
}
