/**
 The affine transform engine. Every transform right-multiplies each node row
 by a 4x4 matrix (row-vector convention, node' = node . M); the matrices are
 written with the coefficients of the closed-form pivot transforms. Arithmetic
 is exact over `real`, and a rotation takes its cosine `c` and sine `s` as
 parameters instead of an angle.
 */
module Transforms {
  import opened Geometry

  /** A 4x4 matrix given by its four rows. */
  datatype Mat4 = Mat4(r0: Vec4, r1: Vec4, r2: Vec4, r3: Vec4)

  /** The row vector p times the matrix m. */
  function Apply(p: Vec4, m: Mat4): Vec4 {
    Vec4(p.x * m.r0.x + p.y * m.r1.x + p.z * m.r2.x + p.w * m.r3.x,
         p.x * m.r0.y + p.y * m.r1.y + p.z * m.r2.y + p.w * m.r3.y,
         p.x * m.r0.z + p.y * m.r1.z + p.z * m.r2.z + p.w * m.r3.z,
         p.x * m.r0.w + p.y * m.r1.w + p.z * m.r2.w + p.w * m.r3.w)
  }

  /** The node matrix times m: every row multiplied, in order. */
  function Transformed(ns: seq<Vec4>, m: Mat4): (r: seq<Vec4>)
    ensures |r| == |ns|
  {
    seq(|ns|, i requires 0 <= i < |ns| => Apply(ns[i], m))
  }

  /** The last column is (0, 0, 0, 1): the matrix maps homogeneous rows to homogeneous rows. */
  predicate Affine(m: Mat4) {
    m.r0.w == 0.0 && m.r1.w == 0.0 && m.r2.w == 0.0 && m.r3.w == 1.0
  }

  /** transform: the nodes are replaced by nodes . m; the edges and faces are not touched. */
  function Transform(g: Shape, m: Mat4): (r: Shape)
    ensures r.edges == g.edges && r.faces == g.faces && |r.nodes| == |g.nodes|
  {
    g.(nodes := Transformed(g.nodes, m))
  }

  function TranslationMatrix(dx: real, dy: real, dz: real): (m: Mat4)
    ensures Affine(m)
  {
    Mat4(Vec4(1.0, 0.0, 0.0, 0.0),
         Vec4(0.0, 1.0, 0.0, 0.0),
         Vec4(0.0, 0.0, 1.0, 0.0),
         Vec4(dx, dy, dz, 1.0))
  }

  function ScalingMatrix(s: real, cx: real, cy: real, cz: real): (m: Mat4)
    ensures Affine(m)
  {
    Mat4(Vec4(s, 0.0, 0.0, 0.0),
         Vec4(0.0, s, 0.0, 0.0),
         Vec4(0.0, 0.0, s, 0.0),
         Vec4(cx * (1.0 - s), cy * (1.0 - s), cz * (1.0 - s), 1.0))
  }

  /** Rotation about the line parallel to the x-axis through (., y, z). */
  function RotationX(y: real, z: real, c: real, s: real): (m: Mat4)
    ensures Affine(m)
  {
    Mat4(Vec4(1.0, 0.0, 0.0, 0.0),
         Vec4(0.0, c, -s, 0.0),
         Vec4(0.0, s, c, 0.0),
         Vec4(0.0, -y * c - z * s + y, y * s - z * c + z, 1.0))
  }

  /** Rotation about the line parallel to the y-axis through (x, ., z). */
  function RotationY(x: real, z: real, c: real, s: real): (m: Mat4)
    ensures Affine(m)
  {
    Mat4(Vec4(c, 0.0, s, 0.0),
         Vec4(0.0, 1.0, 0.0, 0.0),
         Vec4(-s, 0.0, c, 0.0),
         Vec4(z * s - x * c + x, 0.0, -z * c - x * s + z, 1.0))
  }

  /** Rotation about the line parallel to the z-axis through (x, y, .). */
  function RotationZ(x: real, y: real, c: real, s: real): (m: Mat4)
    ensures Affine(m)
  {
    Mat4(Vec4(c, -s, 0.0, 0.0),
         Vec4(s, c, 0.0, 0.0),
         Vec4(0.0, 0.0, 1.0, 0.0),
         Vec4(-x * c - y * s + x, x * s - c * y + y, 0.0, 1.0))
  }

  // ------------------------------------------------------------ every transform

  /** Transforming a concatenation transforms each part. */
  lemma TransformedConcat(a: seq<Vec4>, b: seq<Vec4>, m: Mat4)
    ensures Transformed(a + b, m) == Transformed(a, m) + Transformed(b, m)
  {
  }

  /** An affine matrix keeps the homogeneous column at 1. */
  lemma AffineKeepsHomogeneous(ns: seq<Vec4>, m: Mat4)
    requires Affine(m) && Homogeneous(ns)
    ensures Homogeneous(Transformed(ns, m))
  {
  }

  // ------------------------------------------------------------------ translate

  /** translate adds (dx, dy, dz) to a homogeneous node. */
  lemma TranslateMoves(p: Vec4, dx: real, dy: real, dz: real)
    requires p.w == 1.0
    ensures Apply(p, TranslationMatrix(dx, dy, dz)) == Vec4(p.x + dx, p.y + dy, p.z + dz, 1.0)
  {
  }

  /** translate by the negated vector restores every node exactly. */
  lemma TranslateRoundTrip(ns: seq<Vec4>, dx: real, dy: real, dz: real)
    requires Homogeneous(ns)
    ensures Transformed(Transformed(ns, TranslationMatrix(dx, dy, dz)), TranslationMatrix(-dx, -dy, -dz)) == ns
  {
    var there := Transformed(ns, TranslationMatrix(dx, dy, dz));
    var back := Transformed(there, TranslationMatrix(-dx, -dy, -dz));
    forall i | 0 <= i < |ns| ensures back[i] == ns[i] {
      TranslateMoves(ns[i], dx, dy, dz);
      TranslateMoves(there[i], -dx, -dy, -dz);
    }
  }

  // ---------------------------------------------------------------------- scale

  /** A homogeneous row picks up the last row of the matrix exactly once. */
  lemma ApplyHomogeneous(p: Vec4, m: Mat4)
    requires p.w == 1.0
    ensures Apply(p, m) == Vec4(p.x * m.r0.x + p.y * m.r1.x + p.z * m.r2.x + m.r3.x,
                                p.x * m.r0.y + p.y * m.r1.y + p.z * m.r2.y + m.r3.y,
                                p.x * m.r0.z + p.y * m.r1.z + p.z * m.r2.z + m.r3.z,
                                p.x * m.r0.w + p.y * m.r1.w + p.z * m.r2.w + m.r3.w)
  {
  }

  /** One coordinate of the scaling matrix: u s + c (1 - s) = c + s (u - c). */
  lemma ScaleCoordinate(u: real, s: real, c: real)
    ensures u * s + c * (1.0 - s) == c + s * (u - c)
  {
  }

  /** scale maps a homogeneous node p to c + s (p - c). */
  lemma ScaleAboutPivot(p: Vec4, s: real, cx: real, cy: real, cz: real)
    requires p.w == 1.0
    ensures Apply(p, ScalingMatrix(s, cx, cy, cz))
         == Vec4(cx + s * (p.x - cx), cy + s * (p.y - cy), cz + s * (p.z - cz), 1.0)
  {
    assert ScalingMatrix(s, cx, cy, cz)
        == Mat4(Vec4(s, 0.0, 0.0, 0.0), Vec4(0.0, s, 0.0, 0.0), Vec4(0.0, 0.0, s, 0.0),
                Vec4(cx * (1.0 - s), cy * (1.0 - s), cz * (1.0 - s), 1.0));
    ApplyHomogeneous(p, Mat4(Vec4(s, 0.0, 0.0, 0.0), Vec4(0.0, s, 0.0, 0.0), Vec4(0.0, 0.0, s, 0.0),
                             Vec4(cx * (1.0 - s), cy * (1.0 - s), cz * (1.0 - s), 1.0)));
    ScaleCoordinate(p.x, s, cx);
    ScaleCoordinate(p.y, s, cy);
    ScaleCoordinate(p.z, s, cz);
  }

  /** The pivot of a scale is a fixed point. */
  lemma ScaleFixesPivot(s: real, cx: real, cy: real, cz: real)
    ensures Apply(Vec4(cx, cy, cz, 1.0), ScalingMatrix(s, cx, cy, cz)) == Vec4(cx, cy, cz, 1.0)
  {
    ScaleAboutPivot(Vec4(cx, cy, cz, 1.0), s, cx, cy, cz);
  }

  /** (1, 1, 1) scaled by 2 about the origin becomes (2, 2, 2). */
  lemma ScaleExample()
    ensures Apply(Vec4(1.0, 1.0, 1.0, 1.0), ScalingMatrix(2.0, 0.0, 0.0, 0.0)) == Vec4(2.0, 2.0, 2.0, 1.0)
  {
    assert ScalingMatrix(2.0, 0.0, 0.0, 0.0)
        == Mat4(Vec4(2.0, 0.0, 0.0, 0.0), Vec4(0.0, 2.0, 0.0, 0.0), Vec4(0.0, 0.0, 2.0, 0.0), Vec4(0.0, 0.0, 0.0, 1.0));
  }

  /** Undoing one coordinate of a scale: c + (1/s) ((c + s (u - c)) - c) = u. */
  lemma UnscaleCoordinate(u: real, s: real, c: real)
    requires s != 0.0
    ensures c + (1.0 / s) * ((c + s * (u - c)) - c) == u
  {
    assert (c + s * (u - c)) - c == s * (u - c);
    assert (1.0 / s) * (s * (u - c)) == ((1.0 / s) * s) * (u - c);
  }

  /** Scaling by s and then by 1/s about the same pivot restores every node. */
  lemma ScaleRoundTrip(ns: seq<Vec4>, s: real, cx: real, cy: real, cz: real)
    requires s != 0.0 && Homogeneous(ns)
    ensures Transformed(Transformed(ns, ScalingMatrix(s, cx, cy, cz)), ScalingMatrix(1.0 / s, cx, cy, cz)) == ns
  {
    var there := Transformed(ns, ScalingMatrix(s, cx, cy, cz));
    var back := Transformed(there, ScalingMatrix(1.0 / s, cx, cy, cz));
    forall i | 0 <= i < |ns| ensures back[i] == ns[i] {
      var p := ns[i];
      ScaleAboutPivot(p, s, cx, cy, cz);
      ScaleAboutPivot(there[i], 1.0 / s, cx, cy, cz);
      UnscaleCoordinate(p.x, s, cx);
      UnscaleCoordinate(p.y, s, cy);
      UnscaleCoordinate(p.z, s, cz);
    }
  }

  // ------------------------------------------------------------------- rotations

  /**
   A turn of the point (u, v) of a coordinate plane about the point (a, b) of
   that plane, by the angle whose cosine is c and whose sine is s: the first
   and the second coordinate of the result.
   */
  function TurnU(u: real, v: real, a: real, b: real, c: real, s: real): real {
    a + (c * (u - a) + s * (v - b))
  }

  function TurnV(u: real, v: real, a: real, b: real, c: real, s: real): real {
    b + (-s * (u - a) + c * (v - b))
  }

  /** The coefficients of the X and Z matrices compute a turn. */
  lemma TurnCoefficients(u: real, v: real, a: real, b: real, c: real, s: real)
    ensures u * c + v * s + (-a * c - b * s + a) == TurnU(u, v, a, b, c, s)
    ensures u * -s + v * c + (a * s - b * c + b) == TurnV(u, v, a, b, c, s)
  {
  }

  /** The coefficients of the Y matrix compute the turn by the opposite sine. */
  lemma TurnCoefficientsY(u: real, v: real, a: real, b: real, c: real, s: real)
    ensures u * c + v * -s + (b * s - a * c + a) == TurnU(u, v, a, b, c, -s)
    ensures u * s + v * c + (-b * c - a * s + b) == TurnV(u, v, a, b, c, -s)
  {
  }

  /** With c^2 + s^2 = 1, the turn by (c, -s) undoes the turn by (c, s). */
  lemma {:induction false} TurnBack(u: real, v: real, a: real, b: real, c: real, s: real)
    requires c * c + s * s == 1.0
    ensures TurnU(TurnU(u, v, a, b, c, s), TurnV(u, v, a, b, c, s), a, b, c, -s) == u
    ensures TurnV(TurnU(u, v, a, b, c, s), TurnV(u, v, a, b, c, s), a, b, c, -s) == v
    ensures TurnU(TurnU(u, v, a, b, c, -s), TurnV(u, v, a, b, c, -s), a, b, c, -(-s)) == u
    ensures TurnV(TurnU(u, v, a, b, c, -s), TurnV(u, v, a, b, c, -s), a, b, c, -(-s)) == v
  {
    var du, dv := u - a, v - b;
    var p, q := c * du + s * dv, -s * du + c * dv;
    assert TurnU(u, v, a, b, c, s) - a == p;
    assert TurnV(u, v, a, b, c, s) - b == q;
    assert c * p + -s * q == (c * c + s * s) * du;
    assert -(-s) * p + c * q == (c * c + s * s) * dv;
    var p', q' := c * du + -s * dv, -(-s) * du + c * dv;
    assert TurnU(u, v, a, b, c, -s) - a == p';
    assert TurnV(u, v, a, b, c, -s) - b == q';
    assert c * p' + -(-s) * q' == (c * c + s * s) * du;
    assert -(-(-s)) * p' + c * q' == (c * c + s * s) * dv;
  }

  /** A turn about a point leaves that point where it is. */
  lemma TurnFixesCentre(a: real, b: real, c: real, s: real)
    ensures TurnU(a, b, a, b, c, s) == a && TurnV(a, b, a, b, c, s) == b
  {
  }

  /**
   rotateX turns the (y, z) coordinates of a homogeneous node about the pivot
   (y, z) and leaves its x coordinate as it is.
   */
  lemma RotateXMoves(p: Vec4, y: real, z: real, c: real, s: real)
    requires p.w == 1.0
    ensures Apply(p, RotationX(y, z, c, s))
         == Vec4(p.x, TurnU(p.y, p.z, y, z, c, s), TurnV(p.y, p.z, y, z, c, s), 1.0)
  {
    var m := RotationX(y, z, c, s);
    var q := Apply(p, m);
    assert m.r0 == Vec4(1.0, 0.0, 0.0, 0.0) && m.r1 == Vec4(0.0, c, -s, 0.0) && m.r2 == Vec4(0.0, s, c, 0.0);
    assert m.r3 == Vec4(0.0, -y * c - z * s + y, y * s - z * c + z, 1.0);
    ApplyHomogeneous(p, m);
    assert q.x == p.x;
    assert q.y == p.y * c + p.z * s + (-y * c - z * s + y);
    assert q.z == p.y * -s + p.z * c + (y * s - z * c + z);
    assert q.w == 1.0;
    TurnCoefficients(p.y, p.z, y, z, c, s);
  }

  /** rotateX maps every point of its axis line (y, z fixed) to itself. */
  lemma RotateXFixesPivot(px: real, y: real, z: real, c: real, s: real)
    ensures Apply(Vec4(px, y, z, 1.0), RotationX(y, z, c, s)) == Vec4(px, y, z, 1.0)
  {
    RotateXMoves(Vec4(px, y, z, 1.0), y, z, c, s);
    TurnFixesCentre(y, z, c, s);
  }

  /** With c^2 + s^2 = 1, rotateX by (c, -s) undoes rotateX by (c, s) about the same line. */
  lemma RotateXRoundTrip(p: Vec4, y: real, z: real, c: real, s: real)
    requires c * c + s * s == 1.0 && p.w == 1.0
    ensures Apply(Apply(p, RotationX(y, z, c, s)), RotationX(y, z, c, -s)) == p
  {
    var q := Apply(p, RotationX(y, z, c, s));
    RotateXMoves(p, y, z, c, s);
    RotateXMoves(q, y, z, c, -s);
    TurnBack(p.y, p.z, y, z, c, s);
  }

  /**
   rotateY turns the (x, z) coordinates of a homogeneous node about the pivot
   (x, z), with the sine entering the matrix the other way round, and leaves
   its y coordinate as it is.
   */
  lemma RotateYMoves(p: Vec4, x: real, z: real, c: real, s: real)
    requires p.w == 1.0
    ensures Apply(p, RotationY(x, z, c, s))
         == Vec4(TurnU(p.x, p.z, x, z, c, -s), p.y, TurnV(p.x, p.z, x, z, c, -s), 1.0)
  {
    var m := RotationY(x, z, c, s);
    var q := Apply(p, m);
    assert m.r0 == Vec4(c, 0.0, s, 0.0) && m.r1 == Vec4(0.0, 1.0, 0.0, 0.0) && m.r2 == Vec4(-s, 0.0, c, 0.0);
    assert m.r3 == Vec4(z * s - x * c + x, 0.0, -z * c - x * s + z, 1.0);
    ApplyHomogeneous(p, m);
    assert q.x == p.x * c + p.z * -s + (z * s - x * c + x);
    assert q.y == p.y;
    assert q.z == p.x * s + p.z * c + (-z * c - x * s + z);
    assert q.w == 1.0;
    TurnCoefficientsY(p.x, p.z, x, z, c, s);
  }

  /** rotateY maps every point of its axis line (x, z fixed) to itself. */
  lemma RotateYFixesPivot(py: real, x: real, z: real, c: real, s: real)
    ensures Apply(Vec4(x, py, z, 1.0), RotationY(x, z, c, s)) == Vec4(x, py, z, 1.0)
  {
    RotateYMoves(Vec4(x, py, z, 1.0), x, z, c, s);
    TurnFixesCentre(x, z, c, -s);
  }

  /** With c^2 + s^2 = 1, rotateY by (c, -s) undoes rotateY by (c, s) about the same line. */
  lemma RotateYRoundTrip(p: Vec4, x: real, z: real, c: real, s: real)
    requires c * c + s * s == 1.0 && p.w == 1.0
    ensures Apply(Apply(p, RotationY(x, z, c, s)), RotationY(x, z, c, -s)) == p
  {
    var q := Apply(p, RotationY(x, z, c, s));
    RotateYMoves(p, x, z, c, s);
    RotateYMoves(q, x, z, c, -s);
    TurnBack(p.x, p.z, x, z, c, s);
  }

  /**
   rotateZ turns the (x, y) coordinates of a homogeneous node about the pivot
   (x, y) and leaves its z coordinate as it is.
   */
  lemma RotateZMoves(p: Vec4, x: real, y: real, c: real, s: real)
    requires p.w == 1.0
    ensures Apply(p, RotationZ(x, y, c, s))
         == Vec4(TurnU(p.x, p.y, x, y, c, s), TurnV(p.x, p.y, x, y, c, s), p.z, 1.0)
  {
    var m := RotationZ(x, y, c, s);
    var q := Apply(p, m);
    assert m.r0 == Vec4(c, -s, 0.0, 0.0) && m.r1 == Vec4(s, c, 0.0, 0.0) && m.r2 == Vec4(0.0, 0.0, 1.0, 0.0);
    assert m.r3 == Vec4(-x * c - y * s + x, x * s - c * y + y, 0.0, 1.0);
    ApplyHomogeneous(p, m);
    assert q.x == p.x * c + p.y * s + (-x * c - y * s + x);
    assert q.y == p.x * -s + p.y * c + (x * s - c * y + y);
    assert q.z == p.z;
    assert q.w == 1.0;
    TurnCoefficients(p.x, p.y, x, y, c, s);
  }

  /** rotateZ maps every point of its axis line (x, y fixed) to itself. */
  lemma RotateZFixesPivot(pz: real, x: real, y: real, c: real, s: real)
    ensures Apply(Vec4(x, y, pz, 1.0), RotationZ(x, y, c, s)) == Vec4(x, y, pz, 1.0)
  {
    RotateZMoves(Vec4(x, y, pz, 1.0), x, y, c, s);
    TurnFixesCentre(x, y, c, s);
  }

  /** With c^2 + s^2 = 1, rotateZ by (c, -s) undoes rotateZ by (c, s) about the same line. */
  lemma RotateZRoundTrip(p: Vec4, x: real, y: real, c: real, s: real)
    requires c * c + s * s == 1.0 && p.w == 1.0
    ensures Apply(Apply(p, RotationZ(x, y, c, s)), RotationZ(x, y, c, -s)) == p
  {
    var q := Apply(p, RotationZ(x, y, c, s));
    RotateZMoves(p, x, y, c, s);
    RotateZMoves(q, x, y, c, -s);
    TurnBack(p.x, p.y, x, y, c, s);
  }

  /** rotateX by (c, -s) restores a homogeneous node list rotated by (c, s) about the same line. */
  lemma RotateXRoundTripNodes(ns: seq<Vec4>, y: real, z: real, c: real, s: real)
    requires c * c + s * s == 1.0 && Homogeneous(ns)
    ensures Transformed(Transformed(ns, RotationX(y, z, c, s)), RotationX(y, z, c, -s)) == ns
  {
    var there := Transformed(ns, RotationX(y, z, c, s));
    var back := Transformed(there, RotationX(y, z, c, -s));
    forall i | 0 <= i < |ns| ensures back[i] == ns[i] {
      RotateXRoundTrip(ns[i], y, z, c, s);
    }
  }

  /** rotateY by (c, -s) restores a homogeneous node list rotated by (c, s) about the same line. */
  lemma RotateYRoundTripNodes(ns: seq<Vec4>, x: real, z: real, c: real, s: real)
    requires c * c + s * s == 1.0 && Homogeneous(ns)
    ensures Transformed(Transformed(ns, RotationY(x, z, c, s)), RotationY(x, z, c, -s)) == ns
  {
    var there := Transformed(ns, RotationY(x, z, c, s));
    var back := Transformed(there, RotationY(x, z, c, -s));
    forall i | 0 <= i < |ns| ensures back[i] == ns[i] {
      RotateYRoundTrip(ns[i], x, z, c, s);
    }
  }

  /** rotateZ by (c, -s) restores a homogeneous node list rotated by (c, s) about the same line. */
  lemma RotateZRoundTripNodes(ns: seq<Vec4>, x: real, y: real, c: real, s: real)
    requires c * c + s * s == 1.0 && Homogeneous(ns)
    ensures Transformed(Transformed(ns, RotationZ(x, y, c, s)), RotationZ(x, y, c, -s)) == ns
  {
    var there := Transformed(ns, RotationZ(x, y, c, s));
    var back := Transformed(there, RotationZ(x, y, c, -s));
    forall i | 0 <= i < |ns| ensures back[i] == ns[i] {
      RotateZRoundTrip(ns[i], x, y, c, s);
    }
  }
}
