/** The sample list `points_normals` (a position and a normal per sample), the
    mesh the surface solver returns, and `transform` of Src/utility.h. */
module Samples {
  import opened Geometry

  /** One oriented sample: `pair<Point, Normal>`. */
  datatype Sample = Sample(position: Vec3, normal: Vec3)

  /** A reconstructed surface: vertices and faces given as lists of vertex indices. */
  datatype Mesh = Mesh(vertices: seq<Vec3>, faces: seq<seq<int>>)

  /** Every triangle of the mesh names vertices that exist; other faces are
      never dereferenced and may hold anything. */
  predicate TrianglesInRange(mesh: Mesh) {
    forall i, j :: 0 <= i < |mesh.faces| && |mesh.faces[i]| == 3 && 0 <= j < 3 ==>
      0 <= mesh.faces[i][j] < |mesh.vertices|
  }

  function Positions(pts: seq<Sample>): (r: seq<Vec3>)
    ensures |r| == |pts|
    ensures forall i :: 0 <= i < |pts| ==> r[i] == pts[i].position
  {
    seq(|pts|, i requires 0 <= i < |pts| => pts[i].position)
  }

  /** Two sample lists whose positions agree one by one have the same positions. */
  lemma SamePositions(a: seq<Sample>, b: seq<Sample>)
    requires |a| == |b|
    requires forall i :: 0 <= i < |a| ==> a[i].position == b[i].position
    ensures Positions(a) == Positions(b)
  {
  }

  function Normals(pts: seq<Sample>): (r: seq<Vec3>)
    ensures |r| == |pts|
    ensures forall i :: 0 <= i < |pts| ==> r[i] == pts[i].normal
  {
    seq(|pts|, i requires 0 <= i < |pts| => pts[i].normal)
  }

  /** The sample list after `transform`: the same number of samples in the same
      order, every normal kept, every position moved through `xform`. */
  function Transformed(pts: seq<Sample>, xform: Vec3 -> Vec3): (r: seq<Sample>)
    ensures |r| == |pts|
    ensures Normals(r) == Normals(pts)
    ensures forall i :: 0 <= i < |pts| ==> Positions(r)[i] == xform(Positions(pts)[i])
  {
    seq(|pts|, i requires 0 <= i < |pts| => pts[i].(position := xform(pts[i].position)))
  }

  /** `transform`: rewrites each position in place, leaving the normal alone. */
  method Transform(pts: array<Sample>, xform: Vec3 -> Vec3)
    modifies pts
    ensures pts[..] == Transformed(old(pts[..]), xform)
  {
    for i := 0 to pts.Length
      invariant forall j :: 0 <= j < i ==> pts[j] == old(pts[j]).(position := xform(old(pts[j]).position))
      invariant forall j :: i <= j < pts.Length ==> pts[j] == old(pts[j])
    {
      pts[i] := pts[i].(position := xform(pts[i].position));
    }
  }
}
