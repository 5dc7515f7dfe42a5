/**
 The centre of a wireframe: the per-axis minimum and maximum of the node
 coordinates (the homogeneous component left out), and the midpoint of that
 box. The reductions are undefined on zero nodes, so they require some.
 */
module Bounds {
  import opened Geometry
  import opened Transforms

  /** The least `a` coordinate of the nodes (see LoBounds). */
  function Lo(ns: seq<Vec4>, a: Axis): real
    requires |ns| > 0
    decreases |ns|
  {
    if |ns| == 1 then ns[0].Coord(a)
    else
      var rest := Lo(ns[1..], a);
      if ns[0].Coord(a) <= rest then ns[0].Coord(a) else rest
  }

  /** The greatest `a` coordinate of the nodes (see HiBounds). */
  function Hi(ns: seq<Vec4>, a: Axis): real
    requires |ns| > 0
    decreases |ns|
  {
    if |ns| == 1 then ns[0].Coord(a)
    else
      var rest := Hi(ns[1..], a);
      if ns[0].Coord(a) >= rest then ns[0].Coord(a) else rest
  }

  /** An axis-aligned box given by its minimum and maximum corners. */
  datatype Box = Box(lo: Vec3, hi: Vec3)

  /** The per-axis minima and maxima of the nodes. */
  function BoundingBox(ns: seq<Vec4>): Box
    requires |ns| > 0
  {
    Box(Vec3(Lo(ns, X), Lo(ns, Y), Lo(ns, Z)), Vec3(Hi(ns, X), Hi(ns, Y), Hi(ns, Z)))
  }

  function Min(u: real, v: real): real { if u <= v then u else v }
  function Max(u: real, v: real): real { if u >= v then u else v }

  /** The smallest box holding two boxes: per-axis minimum of the minima, maximum of the maxima. */
  function Join(b1: Box, b2: Box): Box {
    Box(Vec3(Min(b1.lo.x, b2.lo.x), Min(b1.lo.y, b2.lo.y), Min(b1.lo.z, b2.lo.z)),
        Vec3(Max(b1.hi.x, b2.hi.x), Max(b1.hi.y, b2.hi.y), Max(b1.hi.z, b2.hi.z)))
  }

  /** The centre of a box: half the sum of its corners. */
  function Midpoint(b: Box): Vec3 {
    Vec3(0.5 * (b.lo.x + b.hi.x), 0.5 * (b.lo.y + b.hi.y), 0.5 * (b.lo.z + b.hi.z))
  }

  /**
   findCentre: the centre of the bounding box, which lies inside the box and
   is as far from its minimum as from its maximum on every axis.
   */
  function FindCentre(ns: seq<Vec4>): (c: Vec3)
    requires |ns| > 0
    ensures Lo(ns, X) <= c.x <= Hi(ns, X) && c.x - Lo(ns, X) == Hi(ns, X) - c.x
    ensures Lo(ns, Y) <= c.y <= Hi(ns, Y) && c.y - Lo(ns, Y) == Hi(ns, Y) - c.y
    ensures Lo(ns, Z) <= c.z <= Hi(ns, Z) && c.z - Lo(ns, Z) == Hi(ns, Z) - c.z
  {
    LoBelowHi(ns, X);
    LoBelowHi(ns, Y);
    LoBelowHi(ns, Z);
    Midpoint(BoundingBox(ns))
  }

  // ---------------------------------------------------------------------- lemmas

  /** Lo is a lower bound of the coordinates that one of the nodes attains. */
  lemma {:induction false} LoBounds(ns: seq<Vec4>, a: Axis)
    requires |ns| > 0
    ensures forall p :: p in ns ==> Lo(ns, a) <= p.Coord(a)
    ensures exists p :: p in ns && p.Coord(a) == Lo(ns, a)
    decreases |ns|
  {
    assert ns[0] in ns;
    if |ns| > 1 {
      LoBounds(ns[1..], a);
      assert forall p :: p in ns ==> p == ns[0] || p in ns[1..];
    }
  }

  /** Hi is an upper bound of the coordinates that one of the nodes attains. */
  lemma {:induction false} HiBounds(ns: seq<Vec4>, a: Axis)
    requires |ns| > 0
    ensures forall p :: p in ns ==> p.Coord(a) <= Hi(ns, a)
    ensures exists p :: p in ns && p.Coord(a) == Hi(ns, a)
    decreases |ns|
  {
    assert ns[0] in ns;
    if |ns| > 1 {
      HiBounds(ns[1..], a);
      assert forall p :: p in ns ==> p == ns[0] || p in ns[1..];
    }
  }

  /** The minimum is at most the maximum. */
  lemma LoBelowHi(ns: seq<Vec4>, a: Axis)
    requires |ns| > 0
    ensures Lo(ns, a) <= Hi(ns, a)
  {
    LoBounds(ns, a);
    HiBounds(ns, a);
    assert ns[0] in ns;
  }

  /** A value that bounds every coordinate from below and is attained is the minimum. */
  lemma LoUnique(ns: seq<Vec4>, a: Axis, v: real)
    requires |ns| > 0
    requires forall p :: p in ns ==> v <= p.Coord(a)
    requires exists p :: p in ns && p.Coord(a) == v
    ensures Lo(ns, a) == v
  {
    LoBounds(ns, a);
  }

  /** A value that bounds every coordinate from above and is attained is the maximum. */
  lemma HiUnique(ns: seq<Vec4>, a: Axis, v: real)
    requires |ns| > 0
    requires forall p :: p in ns ==> p.Coord(a) <= v
    requires exists p :: p in ns && p.Coord(a) == v
    ensures Hi(ns, a) == v
  {
    HiBounds(ns, a);
  }

  /** The box depends only on which points are present, not on their order or repetition. */
  lemma BoundingBoxSameElements(s: seq<Vec4>, t: seq<Vec4>)
    requires |s| > 0 && |t| > 0
    requires forall p :: p in s <==> p in t
    ensures BoundingBox(s) == BoundingBox(t)
  {
    forall a: Axis ensures Lo(s, a) == Lo(t, a) && Hi(s, a) == Hi(t, a) {
      LoBounds(s, a);
      HiBounds(s, a);
      LoUnique(t, a, Lo(s, a));
      HiUnique(t, a, Hi(s, a));
    }
  }

  /** The box of a concatenation joins the boxes of the parts. */
  lemma BoundingBoxConcat(s: seq<Vec4>, t: seq<Vec4>)
    requires |s| > 0 && |t| > 0
    ensures BoundingBox(s + t) == Join(BoundingBox(s), BoundingBox(t))
  {
    var st := s + t;
    assert forall p :: p in st <==> p in s || p in t;
    forall a: Axis
      ensures Lo(st, a) == Min(Lo(s, a), Lo(t, a))
      ensures Hi(st, a) == Max(Hi(s, a), Hi(t, a))
    {
      LoBounds(s, a);
      HiBounds(s, a);
      LoBounds(t, a);
      HiBounds(t, a);
      LoUnique(st, a, Min(Lo(s, a), Lo(t, a)));
      HiUnique(st, a, Max(Hi(s, a), Hi(t, a)));
    }
  }

  /** findCentre on the nodes (0,0,0) and (2,2,2) gives (1,1,1). */
  lemma CentreExample()
    ensures FindCentre([Vec4(0.0, 0.0, 0.0, 1.0), Vec4(2.0, 2.0, 2.0, 1.0)]) == Vec3(1.0, 1.0, 1.0)
  {
    var ns := [Vec4(0.0, 0.0, 0.0, 1.0), Vec4(2.0, 2.0, 2.0, 1.0)];
    forall a: Axis ensures Lo(ns, a) == 0.0 && Hi(ns, a) == 2.0 {
      assert ns[0] in ns && ns[1] in ns;
      LoUnique(ns, a, 0.0);
      HiUnique(ns, a, 2.0);
    }
  }

  /** Translating every node by d shifts the minimum and the maximum on each axis by d. */
  lemma TranslateShiftsBounds(ns: seq<Vec4>, d: Vec3, a: Axis)
    requires |ns| > 0 && Homogeneous(ns)
    ensures Lo(Transformed(ns, TranslationMatrix(d.x, d.y, d.z)), a) == Lo(ns, a) + d.Get(a)
    ensures Hi(Transformed(ns, TranslationMatrix(d.x, d.y, d.z)), a) == Hi(ns, a) + d.Get(a)
  {
    var ms := Transformed(ns, TranslationMatrix(d.x, d.y, d.z));
    LoBounds(ns, a);
    HiBounds(ns, a);
    forall i | 0 <= i < |ns| ensures ms[i].Coord(a) == ns[i].Coord(a) + d.Get(a) {
      TranslateMoves(ns[i], d.x, d.y, d.z);
    }
    var pl :| pl in ns && pl.Coord(a) == Lo(ns, a);
    var ph :| ph in ns && ph.Coord(a) == Hi(ns, a);
    var il :| 0 <= il < |ns| && ns[il] == pl;
    var ih :| 0 <= ih < |ns| && ns[ih] == ph;
    assert ms[il] in ms && ms[ih] in ms;
    forall q | q in ms ensures Lo(ns, a) + d.Get(a) <= q.Coord(a) <= Hi(ns, a) + d.Get(a) {
      var i :| 0 <= i < |ms| && q == ms[i];
      assert ns[i] in ns;
    }
    LoUnique(ms, a, Lo(ns, a) + d.Get(a));
    HiUnique(ms, a, Hi(ns, a) + d.Get(a));
  }

  /** Translating every node by (dx, dy, dz) moves the centre by the same vector. */
  lemma TranslateMovesCentre(ns: seq<Vec4>, dx: real, dy: real, dz: real)
    requires |ns| > 0 && Homogeneous(ns)
    ensures FindCentre(Transformed(ns, TranslationMatrix(dx, dy, dz)))
         == Vec3(FindCentre(ns).x + dx, FindCentre(ns).y + dy, FindCentre(ns).z + dz)
  {
    var d := Vec3(dx, dy, dz);
    TranslateShiftsBounds(ns, d, X);
    TranslateShiftsBounds(ns, d, Y);
    TranslateShiftsBounds(ns, d, Z);
  }
}
