/**
 The geometry buffer of a wireframe as a value: the homogeneous node rows,
 the edge list and the face list, and the three append operations on them.
 The class Wireframe (module Wireframes) performs these operations in place;
 its methods are specified by the functions of this module.
 */
module Geometry {

  /** The three spatial axes; the homogeneous component is not an axis. */
  datatype Axis = X | Y | Z

  /** A point of R3: an input triple of AddNodes, a centre, a translation. */
  datatype Vec3 = Vec3(x: real, y: real, z: real) {
    function Get(a: Axis): real {
      match a
      case X => x
      case Y => y
      case Z => z
    }
  }

  /** One row of the node matrix: a point in homogeneous coordinates. */
  datatype Vec4 = Vec4(x: real, y: real, z: real, w: real) {
    /** The coordinate on an axis: that of the spatial part, the homogeneous component dropped. */
    function Coord(a: Axis): real {
      Vec3(x, y, z).Get(a)
    }
  }

  /** An edge is an ORDERED pair of node indices: (1, 0) and (0, 1) differ. */
  type Edge = (nat, nat)

  /** A face is a loop of node indices. */
  type Face = seq<nat>

  /** The state of one wireframe. */
  datatype Shape = Shape(nodes: seq<Vec4>, edges: seq<Edge>, faces: seq<Face>)

  /** The empty wireframe a fresh object starts as. */
  const Empty := Shape([], [], [])

  /** A 3D point padded with a trailing 1. */
  function Lift(p: Vec3): Vec4 {
    Vec4(p.x, p.y, p.z, 1.0)
  }

  /** Every node row has homogeneous component exactly 1. */
  predicate Homogeneous(ns: seq<Vec4>) {
    forall i :: 0 <= i < |ns| ==> ns[i].w == 1.0
  }

  /** No edge occurs twice in the list. */
  predicate Distinct<T(==)>(s: seq<T>) {
    forall i, j :: 0 <= i < j < |s| ==> s[i] != s[j]
  }

  /** Both endpoints of every edge index an existing node. */
  predicate EdgesInRange(g: Shape) {
    forall e :: e in g.edges ==> e.0 < |g.nodes| && e.1 < |g.nodes|
  }

  /** addNodes: each input point is appended as the row (x, y, z, 1). */
  function AddNodes(g: Shape, points: seq<Vec3>): Shape {
    g.(nodes := g.nodes + seq(|points|, i requires 0 <= i < |points| => Lift(points[i])))
  }

  /**
   The candidates that are not already in `existing`, in input order. The
   test is against `existing` only, so a candidate repeated in the input is
   kept every time it occurs.
   */
  function NewEdges(existing: seq<Edge>, candidates: seq<Edge>): (r: seq<Edge>)
    ensures forall e :: e in r <==> e in candidates && e !in existing
    ensures |r| <= |candidates|
  {
    if candidates == [] then []
    else
      (if candidates[0] in existing then [] else [candidates[0]])
      + NewEdges(existing, candidates[1..])
  }

  /** addEdges: append the candidates not already in the pre-call edge list. */
  function AddEdges(g: Shape, candidates: seq<Edge>): Shape {
    g.(edges := g.edges + NewEdges(g.edges, candidates))
  }

  /**
   The boundary edges of a face loop: (f[n-1], f[n]) for n = 0 .. |f|-1, where
   f[-1] is the last index, so the wraparound pair comes first.
   */
  function FaceEdges(f: Face): (r: seq<Edge>)
    ensures |r| == |f|
  {
    seq(|f|, n requires 0 <= n < |f| => (f[if n == 0 then |f| - 1 else n - 1], f[n]))
  }

  /** A face is accepted when every index is below the current node count. */
  predicate Admissible(f: Face, count: nat) {
    forall n :: n in f ==> n < count
  }

  /** One iteration of addFaces: accept the whole loop or drop it entirely. */
  function AddFace(g: Shape, f: Face): Shape {
    if Admissible(f, |g.nodes|) then AddEdges(g.(faces := g.faces + [f]), FaceEdges(f))
    else g
  }

  /** addFaces: the faces are processed in order, each seeing the edges added before it. */
  function AddFaces(g: Shape, fs: seq<Face>): Shape
    decreases |fs|
  {
    if fs == [] then g
    else AddFace(AddFaces(g, fs[..|fs| - 1]), fs[|fs| - 1])
  }

  /** The faces of `fs` that pass the bounds check against `count` nodes, in order. */
  function Accepted(fs: seq<Face>, count: nat): seq<Face>
    decreases |fs|
  {
    if fs == [] then []
    else Accepted(fs[..|fs| - 1], count) + (if Admissible(fs[|fs| - 1], count) then [fs[|fs| - 1]] else [])
  }

  // ---------------------------------------------------------------- addNodes

  /** addNodes appends exactly one row (x, y, z, 1) per input point, in order, and changes nothing else. */
  lemma AddNodesAppends(g: Shape, points: seq<Vec3>)
    ensures |AddNodes(g, points).nodes| == |g.nodes| + |points|
    ensures AddNodes(g, points).nodes[..|g.nodes|] == g.nodes
    ensures forall i :: 0 <= i < |points| ==>
      AddNodes(g, points).nodes[|g.nodes| + i] == Vec4(points[i].x, points[i].y, points[i].z, 1.0)
    ensures AddNodes(g, points).edges == g.edges && AddNodes(g, points).faces == g.faces
  {
  }

  /** Appended rows have homogeneous component 1, so the invariant survives addNodes. */
  lemma AddNodesHomogeneous(g: Shape, points: seq<Vec3>)
    requires Homogeneous(g.nodes)
    ensures Homogeneous(AddNodes(g, points).nodes)
  {
  }

  // ---------------------------------------------------------------- addEdges

  /** The filter distributes over concatenation of the candidates: it keeps input order. */
  lemma {:induction false} NewEdgesSplit(existing: seq<Edge>, a: seq<Edge>, b: seq<Edge>)
    ensures NewEdges(existing, a + b) == NewEdges(existing, a) + NewEdges(existing, b)
    decreases |a|
  {
    if a == [] {
      assert a + b == b;
    } else {
      assert (a + b)[0] == a[0];
      assert (a + b)[1..] == a[1..] + b;
      NewEdgesSplit(existing, a[1..], b);
    }
  }

  /** When every candidate is already present, nothing is new. */
  lemma NewEdgesNone(existing: seq<Edge>, candidates: seq<Edge>)
    requires forall e :: e in candidates ==> e in existing
    ensures NewEdges(existing, candidates) == []
  {
  }

  /**
   addEdges appends the candidates that are not already present, in input
   order, and keeps the existing edges where they were.
   */
  lemma AddEdgesAppends(g: Shape, candidates: seq<Edge>)
    ensures AddEdges(g, candidates).edges[..|g.edges|] == g.edges
    ensures forall e :: e in AddEdges(g, candidates).edges <==> e in g.edges || e in candidates
    ensures AddEdges(g, candidates).nodes == g.nodes && AddEdges(g, candidates).faces == g.faces
  {
  }

  /** Calling addEdges a second time with the same list adds nothing. */
  lemma AddEdgesIdempotent(g: Shape, candidates: seq<Edge>)
    ensures AddEdges(AddEdges(g, candidates), candidates) == AddEdges(g, candidates)
  {
    var h := AddEdges(g, candidates);
    NewEdgesNone(h.edges, candidates);
    assert h.edges + [] == h.edges;
  }

  /** The duplicate test is on ordered pairs: the reversal of a stored edge is a new edge. */
  lemma ReversedPairIsNew()
    ensures NewEdges([(0, 1)], [(1, 0)]) == [(1, 0)]
  {
  }

  /** The duplicate test is against the pre-call list: a pair repeated in one call is appended twice. */
  lemma RepeatedPairAddedTwice()
    ensures AddEdges(Empty, [(0, 1), (0, 1)]).edges == [(0, 1), (0, 1)]
  {
  }

  /** Distinct candidates added to a distinct list leave it distinct. */
  lemma {:induction false} NewEdgesDistinct(existing: seq<Edge>, candidates: seq<Edge>)
    requires Distinct(existing) && Distinct(candidates)
    ensures Distinct(existing + NewEdges(existing, candidates))
    decreases |candidates|
  {
    if candidates != [] {
      var c := candidates[0];
      assert candidates == [c] + candidates[1..];
      NewEdgesDistinct(existing, candidates[1..]);
      var rest := NewEdges(existing, candidates[1..]);
      assert c !in rest by {
        assert forall j :: 0 < j < |candidates| ==> candidates[j] != c;
      }
      var r := existing + NewEdges(existing, candidates);
      if c !in existing {
        forall i, j | 0 <= i < j < |r| ensures r[i] != r[j] {
          if j == |existing| {
            assert r[j] == c;
            assert r[i] in existing;
          } else if i == |existing| {
            assert r[i] == c;
            assert r[j] == rest[j - |existing| - 1];
            assert r[j] in rest;
          } else if i < |existing| && j > |existing| {
            assert r[j] == rest[j - |existing| - 1];
            assert r[j] in rest;
            assert r[i] in existing;
          } else if i > |existing| {
            assert r[i] == (existing + rest)[i - 1];
            assert r[j] == (existing + rest)[j - 1];
          }
        }
      } else {
        assert r == existing + rest;
      }
    }
  }

  // ---------------------------------------------------------------- addFaces

  /** Every endpoint of a boundary edge is an index of the face. */
  lemma FaceEdgesWithin(f: Face)
    ensures forall e :: e in FaceEdges(f) ==> e.0 in f && e.1 in f
  {
    forall e | e in FaceEdges(f) ensures e.0 in f && e.1 in f {
      var n :| 0 <= n < |f| && FaceEdges(f)[n] == e;
    }
  }

  /** The boundary edges of a loop with distinct indices are distinct. */
  lemma FaceEdgesDistinct(f: Face)
    requires Distinct(f)
    ensures Distinct(FaceEdges(f))
  {
  }

  /** A face with an index at or past the node count leaves nodes, edges and faces untouched. */
  lemma AddFaceRejects(g: Shape, f: Face, n: nat)
    requires n in f && n >= |g.nodes|
    ensures AddFace(g, f) == g
  {
  }

  /** An accepted face is appended unchanged, and its boundary edges go through the addEdges filter. */
  lemma AddFaceAccepts(g: Shape, f: Face)
    requires Admissible(f, |g.nodes|)
    ensures AddFace(g, f).faces == g.faces + [f]
    ensures AddFace(g, f).edges == g.edges + NewEdges(g.edges, FaceEdges(f))
    ensures AddFace(g, f).nodes == g.nodes
  {
  }

  /** addFaces never changes the nodes, and appends exactly the admissible faces, in order. */
  lemma {:induction false} AddFacesFaces(g: Shape, fs: seq<Face>)
    ensures AddFaces(g, fs).nodes == g.nodes
    ensures AddFaces(g, fs).faces == g.faces + Accepted(fs, |g.nodes|)
    decreases |fs|
  {
    if fs != [] {
      AddFacesFaces(g, fs[..|fs| - 1]);
    }
  }

  /** The edges stored before the call keep their positions. */
  lemma {:induction false} AddFacesKeepsEdges(g: Shape, fs: seq<Face>)
    ensures |AddFaces(g, fs).edges| >= |g.edges|
    ensures AddFaces(g, fs).edges[..|g.edges|] == g.edges
    decreases |fs|
  {
    if fs != [] {
      AddFacesKeepsEdges(g, fs[..|fs| - 1]);
    }
  }

  /**
   Edges derived from faces are checked against the node count through the
   face check, so addFaces keeps every edge in range when it starts that way.
   */
  lemma {:induction false} AddFacesEdgesInRange(g: Shape, fs: seq<Face>)
    requires EdgesInRange(g)
    ensures EdgesInRange(AddFaces(g, fs))
    decreases |fs|
  {
    if fs != [] {
      var h := AddFaces(g, fs[..|fs| - 1]);
      var f := fs[|fs| - 1];
      AddFacesEdgesInRange(g, fs[..|fs| - 1]);
      if Admissible(f, |h.nodes|) {
        FaceEdgesWithin(f);
      }
    }
  }

  /** A face of distinct indices keeps a duplicate-free edge list duplicate-free. */
  lemma AddFaceKeepsDistinct(g: Shape, f: Face)
    requires Distinct(g.edges) && Distinct(f)
    ensures Distinct(AddFace(g, f).edges)
  {
    if Admissible(f, |g.nodes|) {
      FaceEdgesDistinct(f);
      NewEdgesDistinct(g.edges, FaceEdges(f));
    }
  }

  /** On an empty edge list every candidate is new, repeats included. */
  lemma {:induction false} NewEdgesIntoEmpty(candidates: seq<Edge>)
    ensures NewEdges([], candidates) == candidates
  {
    if candidates != [] {
      NewEdgesIntoEmpty(candidates[1..]);
    }
  }

  /** The boundary of the loop [0, 1, 2, 3] starts with the closing pair (3, 0). */
  lemma SquareBoundary()
    ensures FaceEdges([0, 1, 2, 3]) == [(3, 0), (0, 1), (1, 2), (2, 3)]
  {
    var r := FaceEdges([0, 1, 2, 3]);
    assert r[0] == (3, 0) && r[1] == (0, 1) && r[2] == (1, 2) && r[3] == (2, 3);
  }

  /** The square: one face [0,1,2,3] on four nodes gives the edges (3,0), (0,1), (1,2), (2,3). */
  lemma SquareFace(g: Shape)
    requires |g.nodes| == 4 && g.edges == [] && g.faces == []
    ensures AddFaces(g, [[0, 1, 2, 3]]) == Shape(g.nodes, [(3, 0), (0, 1), (1, 2), (2, 3)], [[0, 1, 2, 3]])
  {
    var f: Face := [0, 1, 2, 3];
    var fs := [f];
    assert fs[..|fs| - 1] == [];
    assert AddFaces(g, fs) == AddFace(g, f);
    assert Admissible(f, |g.nodes|);
    SquareBoundary();
    NewEdgesIntoEmpty(FaceEdges(f));
  }
}
