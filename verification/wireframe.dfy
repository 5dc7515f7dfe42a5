/**
 A wireframe object: its node rows, edge list and face list are fields that
 the append operations and the transforms replace in place. Each method is
 specified by the function of module Geometry or Transforms that computes the
 new state from the old one.
 */
module Wireframes {
  import opened Geometry
  import opened Transforms
  import Bounds

  class Wireframe {
    var nodes: seq<Vec4>
    var edges: seq<Edge>
    var faces: seq<Face>

    /** The current state as a value. */
    function Value(): Shape
      reads this
    {
      Shape(nodes, edges, faces)
    }

    /** A wireframe starts with no nodes, no edges and no faces. */
    constructor ()
      ensures Value() == Empty
    {
      nodes, edges, faces := [], [], [];
    }

    /** Append each point as a homogeneous row (x, y, z, 1). */
    method AddNodes(points: seq<Vec3>)
      modifies this
      ensures Value() == Geometry.AddNodes(old(Value()), points)
    {
      var lifted := seq(|points|, i requires 0 <= i < |points| => Lift(points[i]));
      nodes := nodes + lifted;
    }

    /** Append the candidate edges that are not already in the edge list as it was before the call. */
    method AddEdges(edgeList: seq<Edge>)
      modifies this
      ensures Value() == Geometry.AddEdges(old(Value()), edgeList)
    {
      edges := edges + NewEdges(edges, edgeList);
    }

    /**
     For each face in turn: if every index is below the node count, append the
     face and add its boundary edges through AddEdges; otherwise skip it.
     */
    method AddFaces(faceList: seq<Face>)
      modifies this
      ensures Value() == Geometry.AddFaces(old(Value()), faceList)
    {
      var i := 0;
      while i < |faceList|
        invariant 0 <= i <= |faceList|
        invariant Value() == Geometry.AddFaces(old(Value()), faceList[..i])
      {
        var face := faceList[i];
        assert faceList[..i + 1][..i] == faceList[..i];
        if forall n | n in face :: n < |nodes| {
          faces := faces + [face];
          AddEdges(FaceEdges(face));
        }
        i := i + 1;
      }
      assert faceList[..i] == faceList;
    }

    /** Replace every node row p by p . m. */
    method Transform(m: Mat4)
      modifies this
      ensures Value() == Transforms.Transform(old(Value()), m)
    {
      nodes := Transformed(nodes, m);
    }

    /** Move every node by (dx, dy, dz); an omitted component is 0. */
    method Translate(dx: real := 0.0, dy: real := 0.0, dz: real := 0.0)
      modifies this
      ensures Value() == Transforms.Transform(old(Value()), TranslationMatrix(dx, dy, dz))
    {
      nodes := Transformed(nodes, TranslationMatrix(dx, dy, dz));
    }

    /** Scale by s about the point (cx, cy, cz); the pivot defaults to the origin. */
    method Scale(s: real, cx: real := 0.0, cy: real := 0.0, cz: real := 0.0)
      modifies this
      ensures Value() == Transforms.Transform(old(Value()), ScalingMatrix(s, cx, cy, cz))
    {
      nodes := Transformed(nodes, ScalingMatrix(s, cx, cy, cz));
    }

    /** Rotate about the line parallel to the x-axis through (y, z); c and s are the cosine and sine. */
    method RotateX(y: real, z: real, c: real, s: real)
      modifies this
      ensures Value() == Transforms.Transform(old(Value()), RotationX(y, z, c, s))
    {
      nodes := Transformed(nodes, RotationX(y, z, c, s));
    }

    /** Rotate about the line parallel to the y-axis through (x, z). */
    method RotateY(x: real, z: real, c: real, s: real)
      modifies this
      ensures Value() == Transforms.Transform(old(Value()), RotationY(x, z, c, s))
    {
      nodes := Transformed(nodes, RotationY(x, z, c, s));
    }

    /** Rotate about the line parallel to the z-axis through (x, y). */
    method RotateZ(x: real, y: real, c: real, s: real)
      modifies this
      ensures Value() == Transforms.Transform(old(Value()), RotationZ(x, y, c, s))
    {
      nodes := Transformed(nodes, RotationZ(x, y, c, s));
    }

    /** The centre of the bounding box of the nodes; undefined on a wireframe without nodes. */
    method FindCentre() returns (centre: Vec3)
      requires |nodes| > 0
      ensures Bounds.Lo(nodes, X) <= centre.x <= Bounds.Hi(nodes, X)
      ensures Bounds.Lo(nodes, Y) <= centre.y <= Bounds.Hi(nodes, Y)
      ensures Bounds.Lo(nodes, Z) <= centre.z <= Bounds.Hi(nodes, Z)
      ensures centre == Bounds.Midpoint(Bounds.BoundingBox(nodes))
    {
      centre := Bounds.FindCentre(nodes);
    }

    /** The per-tick hook; it does nothing unless a subclass overrides it. */
    method Update()
      ensures Value() == old(Value())
    {
    }
  }

  /** A client: a face built on fresh nodes, then a translation and its inverse. */
  method SquareClient() returns (w: Wireframe)
    ensures fresh(w)
    ensures w.edges == [(3, 0), (0, 1), (1, 2), (2, 3)] && w.faces == [[0, 1, 2, 3]]
    ensures w.nodes == [Vec4(0.0, 0.0, 0.0, 1.0), Vec4(1.0, 0.0, 0.0, 1.0),
                        Vec4(1.0, 1.0, 0.0, 1.0), Vec4(0.0, 1.0, 0.0, 1.0)]
  {
    w := new Wireframe();
    w.AddNodes([Vec3(0.0, 0.0, 0.0), Vec3(1.0, 0.0, 0.0), Vec3(1.0, 1.0, 0.0), Vec3(0.0, 1.0, 0.0)]);
    ghost var ns := w.nodes;
    assert |ns| == 4 && Homogeneous(ns);
    w.AddFaces([[0, 1, 2, 3]]);
    SquareFace(Shape(ns, [], []));
    w.Translate(2.0, -1.0, 0.5);
    w.Translate(-2.0, 1.0, -0.5);
    TranslateRoundTrip(ns, 2.0, -1.0, 0.5);
  }
}
