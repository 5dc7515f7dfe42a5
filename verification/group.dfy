/**
 A group of wireframes under unique names, transformed together as one rigid
 assembly. The members are held as values in a map, so a broadcast is a map
 comprehension that applies the same per-member transform to every entry and
 the order in which the members are visited cannot matter.
 */
module Groups {
  import opened Geometry
  import opened Transforms
  import opened Bounds
  import Wireframes

  datatype Option<T> = None | Some(value: T)

  /** The members of a group, by name. */
  type Members = map<string, Shape>

  /** Every member has nodes, and there is at least one member: the group centre is defined. */
  predicate Centred(g: Members) {
    g != map[] && forall k :: k in g ==> |g[k].nodes| > 0
  }

  /** Every member keeps its homogeneous column at 1. */
  predicate AllHomogeneous(g: Members) {
    forall k :: k in g ==> Homogeneous(g[k].nodes)
  }

  /** The same transform applied to every member, with nothing else changed. */
  function Broadcast(g: Members, m: Mat4): (r: Members)
    ensures r.Keys == g.Keys
    ensures forall k :: k in r ==>
      r[k].nodes == Transformed(g[k].nodes, m) && r[k].edges == g[k].edges && r[k].faces == g[k].faces
  {
    map k | k in g :: Transform(g[k], m)
  }

  /** A listing of the member names: every name occurs, and nothing else. */
  ghost predicate Enumerates(order: seq<string>, g: Members) {
    forall k :: k in order <==> k in g
  }

  /** The members' node lists concatenated in the given order of names. */
  function Flatten(g: Members, order: seq<string>): seq<Vec4>
    requires forall k :: k in order ==> k in g
    decreases |order|
  {
    if order == [] then []
    else Flatten(g, order[..|order| - 1]) + g[order[|order| - 1]].nodes
  }

  /**
   All members' nodes concatenated, in some order of the names. Unlike
   Flatten, which follows a listing the caller supplies (the order a loop
   visits the members in), this needs no listing: it is the order-free
   specification of the group's nodes, and GroupCentreAnyOrder relates the two.
   */
  ghost function GroupNodes(g: Members): seq<Vec4>
    decreases g.Keys
  {
    if g == map[] then []
    else
      var k :| k in g;
      g[k].nodes + GroupNodes(g - {k})
  }

  /** The group centre: the centre of the bounding box of all members' nodes taken together. */
  ghost function GroupCentre(g: Members): Vec3
    requires Centred(g)
  {
    var k :| k in g;
    GroupNodesMembers(g, g[k].nodes[0]);
    FindCentre(GroupNodes(g))
  }

  // ---------------------------------------------------------------------- lemmas

  /** A point is among the group's nodes exactly when it is a node of some member. */
  lemma {:induction false} GroupNodesMembers(g: Members, p: Vec4)
    ensures p in GroupNodes(g) <==> exists k :: k in g && p in g[k].nodes
    decreases g.Keys
  {
    if g != map[] {
      var k :| k in g && GroupNodes(g) == g[k].nodes + GroupNodes(g - {k});
      GroupNodesMembers(g - {k}, p);
      assert forall j :: j in g ==> j == k || j in g - {k};
    }
  }

  /** A point is in the flattened list exactly when it is a node of a listed member. */
  lemma {:induction false} FlattenMembers(g: Members, order: seq<string>, p: Vec4)
    requires forall k :: k in order ==> k in g
    ensures p in Flatten(g, order) <==> exists k :: k in order && p in g[k].nodes
    decreases |order|
  {
    if order != [] {
      var init := order[..|order| - 1];
      assert forall k :: k in order <==> k in init || k == order[|order| - 1];
      FlattenMembers(g, init, p);
    }
  }

  /** Flattening a broadcast is transforming the flattened group: the members move as one body. */
  lemma {:induction false} FlattenBroadcast(g: Members, m: Mat4, order: seq<string>)
    requires forall k :: k in order ==> k in g
    ensures Flatten(Broadcast(g, m), order) == Transformed(Flatten(g, order), m)
    decreases |order|
  {
    if order != [] {
      var init, last := order[..|order| - 1], order[|order| - 1];
      FlattenBroadcast(g, m, init);
      TransformedConcat(Flatten(g, init), g[last].nodes, m);
    }
  }

  /** The flattened list of a group whose members are all homogeneous is homogeneous. */
  lemma {:induction false} FlattenHomogeneous(g: Members, order: seq<string>)
    requires forall k :: k in order ==> k in g
    requires AllHomogeneous(g)
    ensures Homogeneous(Flatten(g, order))
    decreases |order|
  {
    if order != [] {
      FlattenHomogeneous(g, order[..|order| - 1]);
    }
  }

  /** Some listing of the member names exists. */
  lemma {:induction false} SomeEnumeration(g: Members) returns (order: seq<string>)
    ensures Enumerates(order, g)
    decreases g.Keys
  {
    if g == map[] {
      order := [];
    } else {
      var k :| k in g;
      var rest := SomeEnumeration(g - {k});
      order := rest + [k];
      assert forall j :: j in g ==> j == k || j in g - {k};
    }
  }

  /**
   The group centre equals the centre of all members' nodes concatenated in
   ANY order of the names: the result does not depend on dictionary order.
   */
  lemma GroupCentreAnyOrder(g: Members, order: seq<string>)
    requires Centred(g) && Enumerates(order, g)
    ensures |Flatten(g, order)| > 0
    ensures FindCentre(Flatten(g, order)) == GroupCentre(g)
  {
    var s, t := Flatten(g, order), GroupNodes(g);
    forall p ensures p in s <==> p in t {
      FlattenMembers(g, order, p);
      GroupNodesMembers(g, p);
    }
    var k :| k in g;
    FlattenMembers(g, order, g[k].nodes[0]);
    BoundingBoxSameElements(s, t);
  }

  /** Translating the whole group moves the group centre by the translation vector. */
  lemma GroupTranslateMovesCentre(g: Members, dx: real, dy: real, dz: real)
    requires Centred(g) && AllHomogeneous(g)
    ensures Centred(Broadcast(g, TranslationMatrix(dx, dy, dz)))
    ensures GroupCentre(Broadcast(g, TranslationMatrix(dx, dy, dz)))
         == Vec3(GroupCentre(g).x + dx, GroupCentre(g).y + dy, GroupCentre(g).z + dz)
  {
    var m := TranslationMatrix(dx, dy, dz);
    var h := Broadcast(g, m);
    var order := SomeEnumeration(g);
    GroupCentreAnyOrder(g, order);
    GroupCentreAnyOrder(h, order);
    FlattenBroadcast(g, m, order);
    FlattenHomogeneous(g, order);
    TranslateMovesCentre(Flatten(g, order), dx, dy, dz);
  }

  /** Translating the group and then translating it back restores every member. */
  lemma GroupTranslateRoundTrip(g: Members, dx: real, dy: real, dz: real)
    requires AllHomogeneous(g)
    ensures Broadcast(Broadcast(g, TranslationMatrix(dx, dy, dz)), TranslationMatrix(-dx, -dy, -dz)) == g
  {
    var r := Broadcast(Broadcast(g, TranslationMatrix(dx, dy, dz)), TranslationMatrix(-dx, -dy, -dz));
    forall k | k in g ensures r[k] == g[k] {
      TranslateRoundTrip(g[k].nodes, dx, dy, dz);
    }
  }

  /** Scaling the group by s and then by 1/s about the same point restores every member. */
  lemma GroupScaleRoundTrip(g: Members, s: real, x: real, y: real, z: real)
    requires s != 0.0 && AllHomogeneous(g)
    ensures Broadcast(Broadcast(g, ScalingMatrix(s, x, y, z)), ScalingMatrix(1.0 / s, x, y, z)) == g
  {
    var r := Broadcast(Broadcast(g, ScalingMatrix(s, x, y, z)), ScalingMatrix(1.0 / s, x, y, z));
    forall k | k in g ensures r[k] == g[k] {
      ScaleRoundTrip(g[k].nodes, s, x, y, z);
    }
  }

  /** Rotating the group about a line parallel to the x-axis by (c, s) and then by (c, -s) restores every member. */
  lemma GroupRotateXRoundTrip(g: Members, y: real, z: real, c: real, s: real)
    requires c * c + s * s == 1.0 && AllHomogeneous(g)
    ensures Broadcast(Broadcast(g, RotationX(y, z, c, s)), RotationX(y, z, c, -s)) == g
  {
    var r := Broadcast(Broadcast(g, RotationX(y, z, c, s)), RotationX(y, z, c, -s));
    forall k | k in g ensures r[k] == g[k] {
      RotateXRoundTripNodes(g[k].nodes, y, z, c, s);
    }
  }

  /** The same for a line parallel to the y-axis. */
  lemma GroupRotateYRoundTrip(g: Members, x: real, z: real, c: real, s: real)
    requires c * c + s * s == 1.0 && AllHomogeneous(g)
    ensures Broadcast(Broadcast(g, RotationY(x, z, c, s)), RotationY(x, z, c, -s)) == g
  {
    var r := Broadcast(Broadcast(g, RotationY(x, z, c, s)), RotationY(x, z, c, -s));
    forall k | k in g ensures r[k] == g[k] {
      RotateYRoundTripNodes(g[k].nodes, x, z, c, s);
    }
  }

  /** The same for a line parallel to the z-axis. */
  lemma GroupRotateZRoundTrip(g: Members, x: real, y: real, c: real, s: real)
    requires c * c + s * s == 1.0 && AllHomogeneous(g)
    ensures Broadcast(Broadcast(g, RotationZ(x, y, c, s)), RotationZ(x, y, c, -s)) == g
  {
    var r := Broadcast(Broadcast(g, RotationZ(x, y, c, s)), RotationZ(x, y, c, -s));
    forall k | k in g ensures r[k] == g[k] {
      RotateZRoundTripNodes(g[k].nodes, x, y, c, s);
    }
  }

  /** Two members spanning (0,0,0)-(1,1,1) and (2,2,2)-(3,3,3) have group centre (1.5, 1.5, 1.5). */
  lemma GroupCentreExample()
    ensures var g := map["first" := Shape([Vec4(0.0, 0.0, 0.0, 1.0), Vec4(1.0, 1.0, 1.0, 1.0)], [], []),
                         "second" := Shape([Vec4(2.0, 2.0, 2.0, 1.0), Vec4(3.0, 3.0, 3.0, 1.0)], [], [])];
            Centred(g) && GroupCentre(g) == Vec3(1.5, 1.5, 1.5)
  {
    var a := [Vec4(0.0, 0.0, 0.0, 1.0), Vec4(1.0, 1.0, 1.0, 1.0)];
    var b := [Vec4(2.0, 2.0, 2.0, 1.0), Vec4(3.0, 3.0, 3.0, 1.0)];
    var g := map["first" := Shape(a, [], []), "second" := Shape(b, [], [])];
    var order := ["first", "second"];
    assert forall k :: k in g ==> k == "first" || k == "second";
    assert Centred(g) && Enumerates(order, g);
    GroupCentreAnyOrder(g, order);
    assert order[..1] == ["first"] && ["first"][..0] == [];
    assert Flatten(g, order) == a + b;
    SpanCentre(a + b);
  }

  /** The centre of the four points (0,0,0), (1,1,1), (2,2,2), (3,3,3). */
  lemma SpanCentre(ns: seq<Vec4>)
    requires ns == [Vec4(0.0, 0.0, 0.0, 1.0), Vec4(1.0, 1.0, 1.0, 1.0), Vec4(2.0, 2.0, 2.0, 1.0), Vec4(3.0, 3.0, 3.0, 1.0)]
    ensures FindCentre(ns) == Vec3(1.5, 1.5, 1.5)
  {
    assert ns[0] in ns && ns[3] in ns;
    forall a: Axis ensures Lo(ns, a) == 0.0 && Hi(ns, a) == 3.0 {
      LoUnique(ns, a, 0.0);
      HiUnique(ns, a, 3.0);
    }
  }

  // ------------------------------------------------------------------ the group

  class WireframeGroup {
    var wireframes: Members

    /** A group starts with no members. */
    constructor ()
      ensures wireframes == map[]
    {
      wireframes := map[];
    }

    /** Register a wireframe under a name, replacing any earlier entry of that name. */
    method AddWireframe(name: string, w: Wireframes.Wireframe)
      modifies this
      ensures wireframes == old(wireframes)[name := w.Value()]
    {
      wireframes := wireframes[name := w.Value()];
    }

    /** Translate every member by (dx, dy, dz); an omitted component is 0. */
    method Translate(dx: real := 0.0, dy: real := 0.0, dz: real := 0.0)
      modifies this
      ensures wireframes == Broadcast(old(wireframes), TranslationMatrix(dx, dy, dz))
    {
      wireframes := Broadcast(wireframes, TranslationMatrix(dx, dy, dz));
    }

    /** Scale every member by `scale` about the one given point (x, y, z). */
    method Scale(scale: real, x: real, y: real, z: real)
      modifies this
      ensures wireframes == Broadcast(old(wireframes), ScalingMatrix(scale, x, y, z))
    {
      wireframes := Broadcast(wireframes, ScalingMatrix(scale, x, y, z));
    }

    /**
     The group centre, from the members' per-axis minima and maxima: the
     members are visited in an arbitrary order, each contributing its own box.
     */
    method FindCentre() returns (centre: Vec3)
      requires Centred(wireframes)
      ensures centre == GroupCentre(wireframes)
    {
      var rest := wireframes.Keys;
      var first :| first in rest;
      var box := BoundingBox(wireframes[first].nodes);
      rest := rest - {first};
      ghost var visited := [first];
      assert visited[..0] == [];
      assert Flatten(wireframes, visited) == wireframes[first].nodes;
      while rest != {}
        invariant rest <= wireframes.Keys
        invariant forall k :: k in visited ==> k in wireframes
        invariant forall k :: k in wireframes ==> k in rest || k in visited
        invariant |Flatten(wireframes, visited)| > 0
        invariant box == BoundingBox(Flatten(wireframes, visited))
        decreases rest
      {
        var k :| k in rest;
        BoundingBoxConcat(Flatten(wireframes, visited), wireframes[k].nodes);
        box := Join(box, BoundingBox(wireframes[k].nodes));
        ghost var before := visited;
        visited := visited + [k];
        assert visited[..|visited| - 1] == before;
        rest := rest - {k};
      }
      centre := Midpoint(box);
      GroupCentreAnyOrder(wireframes, visited);
    }

    /**
     Rotate every member about one line parallel to the x-axis: through the
     given (y, z), or through the group centre when no centre is given.
     */
    method RotateX(c: real, s: real, centre: Option<(real, real)>)
      requires centre.None? ==> Centred(wireframes)
      modifies this
      ensures centre.Some? ==>
        wireframes == Broadcast(old(wireframes), RotationX(centre.value.0, centre.value.1, c, s))
      ensures centre.None? ==>
        wireframes == Broadcast(old(wireframes),
          RotationX(GroupCentre(old(wireframes)).y, GroupCentre(old(wireframes)).z, c, s))
    {
      var cy, cz;
      if centre.None? {
        var middle := FindCentre();
        cy, cz := middle.y, middle.z;
      } else {
        cy, cz := centre.value.0, centre.value.1;
      }
      wireframes := Broadcast(wireframes, RotationX(cy, cz, c, s));
    }

    /** Rotate every member about one line parallel to the y-axis, through (x, z) or the group centre. */
    method RotateY(c: real, s: real, centre: Option<(real, real)>)
      requires centre.None? ==> Centred(wireframes)
      modifies this
      ensures centre.Some? ==>
        wireframes == Broadcast(old(wireframes), RotationY(centre.value.0, centre.value.1, c, s))
      ensures centre.None? ==>
        wireframes == Broadcast(old(wireframes),
          RotationY(GroupCentre(old(wireframes)).x, GroupCentre(old(wireframes)).z, c, s))
    {
      var cx, cz;
      if centre.None? {
        var middle := FindCentre();
        cx, cz := middle.x, middle.z;
      } else {
        cx, cz := centre.value.0, centre.value.1;
      }
      wireframes := Broadcast(wireframes, RotationY(cx, cz, c, s));
    }

    /** Rotate every member about one line parallel to the z-axis, through (x, y) or the group centre. */
    method RotateZ(c: real, s: real, centre: Option<(real, real)>)
      requires centre.None? ==> Centred(wireframes)
      modifies this
      ensures centre.Some? ==>
        wireframes == Broadcast(old(wireframes), RotationZ(centre.value.0, centre.value.1, c, s))
      ensures centre.None? ==>
        wireframes == Broadcast(old(wireframes),
          RotationZ(GroupCentre(old(wireframes)).x, GroupCentre(old(wireframes)).y, c, s))
    {
      var cx, cy;
      if centre.None? {
        var middle := FindCentre();
        cx, cy := middle.x, middle.y;
      } else {
        cx, cy := centre.value.0, centre.value.1;
      }
      wireframes := Broadcast(wireframes, RotationZ(cx, cy, c, s));
    }

    /** Run every member's per-tick hook; the default hook changes nothing. */
    method Update()
      ensures wireframes == old(wireframes)
    {
    }
  }
}
