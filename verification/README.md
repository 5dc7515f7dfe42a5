# Wireframe geometry and transforms, in Dafny

This project models the core of a small 3D wireframe library (`wireframe.py`).
A **wireframe** holds three lists:

- **nodes**: points stored as homogeneous rows `(x, y, z, 1)`;
- **edges**: pairs of node indices;
- **faces**: loops of node indices.

It can append nodes, edges and faces, and it moves its nodes by
right-multiplying the node matrix with a 4x4 matrix. The transforms are
translate, scale about a pivot, and rotate about a line parallel to an axis.
It also reports the centre of its bounding box. A **wireframe group** holds
wireframes under unique names. It broadcasts the same transforms to every
member and computes one centre for all of them together.

Modules:

- `Geometry` (`geometry.dfy`)
  - The value types: `Vec3`, the homogeneous row `Vec4`, `Edge`, `Face`, and
    `Shape` (one wireframe's three lists as a value).
  - The append operations, as functions from the old shape to the new one.
  - Their lemmas.
- `Transforms` (`transforms.dfy`)
  - The row-vector product `Apply` and the node-list product `Transformed`.
  - The matrices of translate, scale, rotateX, rotateY and rotateZ, with
    their coefficients as the source writes them.
  - Lemmas on what each matrix does to a homogeneous node, and on how each
    transform is undone.
- `Bounds` (`bounds.dfy`)
  - The per-axis minimum and maximum, the bounding box, its midpoint and
    `findCentre`.
  - Lemmas on how the box behaves under concatenation, reordering and
    translation.
- `Wireframes` (`wireframe.dfy`)
  - The class `Wireframe`. Its fields `nodes`, `edges` and `faces` are
    replaced in place by its methods.
  - Each method is specified by the `Geometry` or `Transforms` function that
    gives its new state.
  - `AddFaces` is the source's loop, with its invariant.
- `Groups` (`group.dfy`)
  - The class `WireframeGroup`. Its field is a map from names to member
    shapes.
  - The broadcasts, as one map comprehension each.
  - The group centre. The method visits the members in an arbitrary order and
    is proved equal to one order-independent specification.

Arithmetic is exact (`real`). A rotation takes the cosine `c` and the sine `s`
of its angle instead of the angle itself. The round-trip lemmas assume
`c*c + s*s == 1`.

## Model

| member | source | states |
|---|---|---|
| `Geometry.AddNodesAppends` | wireframe.py:11-14 | addNodes appends one row `(x, y, z, 1)` per input point, in input order. It keeps the earlier rows in place and leaves edges and faces unchanged. |
| `Geometry.AddNodesHomogeneous` | wireframe.py:11-14 | Rows appended by addNodes have homogeneous component 1, so an all-homogeneous node list stays all-homogeneous. |
| `Geometry.NewEdges` | wireframe.py:16-19 | The edges addEdges appends are exactly the candidates absent from the edge list as it was before the call, and there are no more of them than candidates. |
| `Geometry.NewEdgesSplit` | wireframe.py:19 | The filter keeps the candidates' input order: it distributes over concatenation of the candidate list. |
| `Geometry.NewEdgesNone` | wireframe.py:19 | When every candidate is already present, nothing is appended. |
| `Geometry.NewEdgesIntoEmpty` | wireframe.py:19 | Against an empty edge list every candidate is appended, repeats included. |
| `Geometry.AddEdgesAppends` | wireframe.py:16-19 | After addEdges, the earlier edges keep their positions. An edge is present iff it was present before or is a candidate. Nodes and faces are untouched. |
| `Geometry.AddEdgesIdempotent` | wireframe.py:16-19 | Calling addEdges a second time with the same list changes nothing. |
| `Geometry.ReversedPairIsNew` | wireframe.py:19 | Duplicates are detected on ordered pairs: with `(0, 1)` stored, `(1, 0)` is still appended. |
| `Geometry.RepeatedPairAddedTwice` | wireframe.py:19 | Duplicates are detected against the pre-call list only: a pair given twice in one call is appended twice. |
| `Geometry.NewEdgesDistinct` | wireframe.py:16-19 | Distinct candidates added to a duplicate-free edge list leave it duplicate-free. |
| `Geometry.FaceEdges` | wireframe.py:27 | A face loop has as many boundary edges as indices. |
| `Geometry.FaceEdgesWithin` | wireframe.py:27 | Both endpoints of every boundary edge are indices of the face. |
| `Geometry.FaceEdgesDistinct` | wireframe.py:27 | A loop of distinct indices has distinct boundary edges. |
| `Geometry.AddFaceRejects` | wireframe.py:24 | A face with any index at or past the node count leaves nodes, edges and faces unchanged (all or nothing). |
| `Geometry.AddFaceAccepts` | wireframe.py:24-27 | An accepted face is appended unchanged. Its boundary edges, wraparound pair first, go through the addEdges filter. Nodes are untouched. |
| `Geometry.AddFacesFaces` | wireframe.py:21-27 | addFaces never changes the nodes. It appends exactly the faces that pass the bounds check, in input order. |
| `Geometry.AddFacesKeepsEdges` | wireframe.py:21-27 | addFaces keeps every edge stored before the call at its position. |
| `Geometry.AddFacesEdgesInRange` | wireframe.py:21-27 | If every edge refers to an existing node before addFaces, the same holds after it. Face-derived edges are bounds-checked through their face. |
| `Geometry.AddFaceKeepsDistinct` | wireframe.py:24-27 | A face of distinct indices keeps a duplicate-free edge list duplicate-free. |
| `Geometry.SquareBoundary` | wireframe.py:27 | The loop `[0, 1, 2, 3]` has boundary `(3,0), (0,1), (1,2), (2,3)`. |
| `Geometry.SquareFace` | wireframe.py:21-27 | Four nodes plus the face `[0, 1, 2, 3]` give exactly that face and the four edges above. |
| `Transforms.Transformed` | wireframe.py:54 | The product keeps the number of node rows. |
| `Transforms.Transform` | wireframe.py:52-54 | transform replaces only the nodes. The edges, the faces and the node count stay as they were. |
| `Transforms.TranslationMatrix` | wireframe.py:58 | The translation matrix's last column is `(0, 0, 0, 1)`. |
| `Transforms.ScalingMatrix` | wireframe.py:62-65 | The scaling matrix's last column is `(0, 0, 0, 1)`. |
| `Transforms.RotationX` | wireframe.py:72-75 | The rotateX matrix's last column is `(0, 0, 0, 1)`. |
| `Transforms.RotationY` | wireframe.py:82-85 | The rotateY matrix's last column is `(0, 0, 0, 1)`. |
| `Transforms.RotationZ` | wireframe.py:92-95 | The rotateZ matrix's last column is `(0, 0, 0, 1)`. |
| `Transforms.TransformedConcat` | wireframe.py:54 | Transforming a concatenation of node lists transforms each part. |
| `Transforms.AffineKeepsHomogeneous` | wireframe.py:54 | A matrix whose last column is `(0, 0, 0, 1)` keeps every node homogeneous. |
| `Transforms.ApplyHomogeneous` | wireframe.py:54 | A homogeneous row picks up the matrix's last row exactly once. |
| `Transforms.TranslateMoves` | wireframe.py:56-58 | translate maps a homogeneous node p to `p + (dx, dy, dz)`. |
| `Transforms.TranslateRoundTrip` | wireframe.py:56-58 | Translating by `(dx, dy, dz)` and then by its negation restores every homogeneous node list. |
| `Transforms.ScaleCoordinate` | wireframe.py:65 | The coefficient `c*(1-s)` makes one scaled coordinate equal `c + s*(u - c)`. |
| `Transforms.ScaleAboutPivot` | wireframe.py:60-65 | scale maps a homogeneous node p to `c + s*(p - c)`, with c the pivot. |
| `Transforms.ScaleFixesPivot` | wireframe.py:60-65 | The pivot of a scale does not move. |
| `Transforms.ScaleExample` | wireframe.py:60-65 | `(1, 1, 1)` scaled by 2 about the origin is `(2, 2, 2)`. |
| `Transforms.UnscaleCoordinate` | wireframe.py:60-65 | Scaling one coordinate by s and then by 1/s about the same centre restores it. |
| `Transforms.ScaleRoundTrip` | wireframe.py:60-65 | For s ≠ 0, scaling by s and then by 1/s about the same pivot restores every homogeneous node list. |
| `Transforms.TurnCoefficients` | wireframe.py:72-75 | The coefficients of the X matrix, and likewise of the Z matrix (92-95), compute a planar turn about the pivot. |
| `Transforms.TurnCoefficientsY` | wireframe.py:82-85 | The coefficients of the Y matrix compute the planar turn with the sine negated. |
| `Transforms.TurnBack` | wireframe.py:67-95 | When `c*c + s*s == 1`, the turn by `(c, -s)` undoes the turn by `(c, s)`, and the reverse order works too. |
| `Transforms.TurnFixesCentre` | wireframe.py:67-95 | A turn leaves its own centre in place. |
| `Transforms.RotateXMoves` | wireframe.py:67-75 | rotateX keeps x and w. It turns `(y, z)` about the pivot `(y, z)` by `(c, s)`. |
| `Transforms.RotateXFixesPivot` | wireframe.py:67-75 | Every point of the rotation axis of rotateX stays where it is. |
| `Transforms.RotateXRoundTrip` | wireframe.py:67-75 | When `c*c + s*s == 1`, rotateX by `(c, -s)` undoes rotateX by `(c, s)` on a homogeneous node. |
| `Transforms.RotateXRoundTripNodes` | wireframe.py:67-75 | The same round trip on a whole homogeneous node list. |
| `Transforms.RotateYMoves` | wireframe.py:77-85 | rotateY keeps y and w. It turns `(x, z)` about the pivot `(x, z)` with the sine entering the matrix the other way round. |
| `Transforms.RotateYFixesPivot` | wireframe.py:77-85 | Every point of the rotation axis of rotateY stays where it is. |
| `Transforms.RotateYRoundTrip` | wireframe.py:77-85 | When `c*c + s*s == 1`, rotateY by `(c, -s)` undoes rotateY by `(c, s)` on a homogeneous node. |
| `Transforms.RotateYRoundTripNodes` | wireframe.py:77-85 | The same round trip on a whole homogeneous node list. |
| `Transforms.RotateZMoves` | wireframe.py:87-95 | rotateZ keeps z and w. It turns `(x, y)` about the pivot `(x, y)` by `(c, s)`. |
| `Transforms.RotateZFixesPivot` | wireframe.py:87-95 | Every point of the rotation axis of rotateZ stays where it is. |
| `Transforms.RotateZRoundTrip` | wireframe.py:87-95 | When `c*c + s*s == 1`, rotateZ by `(c, -s)` undoes rotateZ by `(c, s)` on a homogeneous node. |
| `Transforms.RotateZRoundTripNodes` | wireframe.py:87-95 | The same round trip on a whole homogeneous node list. |
| `Bounds.FindCentre` | wireframe.py:97-102 | findCentre lies between the minimum and the maximum on each axis, equally far from both. It requires at least one node. |
| `Bounds.LoBounds` | wireframe.py:100 | The per-axis minimum is at most every node's coordinate on that axis, and some node attains it. |
| `Bounds.HiBounds` | wireframe.py:101 | The per-axis maximum is at least every node's coordinate on that axis, and some node attains it. |
| `Bounds.LoBelowHi` | wireframe.py:100-101 | The minimum never exceeds the maximum. |
| `Bounds.LoUnique` | wireframe.py:100 | An attained lower bound of a coordinate is the minimum. |
| `Bounds.HiUnique` | wireframe.py:101 | An attained upper bound of a coordinate is the maximum. |
| `Bounds.BoundingBoxSameElements` | wireframe.py:100-101 | The box depends only on which points are present, not on their order or repetition. |
| `Bounds.BoundingBoxConcat` | wireframe.py:184-185 | The box of two concatenated node lists is the per-axis min of the minima and max of the maxima. This is the group's min-of-mins and max-of-maxes. |
| `Bounds.CentreExample` | wireframe.py:97-102 | The nodes `(0,0,0)` and `(2,2,2)` have centre `(1,1,1)`. |
| `Bounds.TranslateShiftsBounds` | wireframe.py:56-58 | Translation by d shifts each axis's minimum and maximum by d's component on that axis. |
| `Bounds.TranslateMovesCentre` | wireframe.py:97-102 | Translating a wireframe by `(dx, dy, dz)` moves its centre by the same vector. |
| `Wireframes.Wireframe.constructor` | wireframe.py:6-9 | A new wireframe has no nodes, no edges and no faces. |
| `Wireframes.Wireframe.AddNodes` | wireframe.py:11-14 | The new state is the old one with the lifted points appended (see `Geometry.AddNodesAppends`). |
| `Wireframes.Wireframe.AddEdges` | wireframe.py:16-19 | The new state is the old one with the new candidates appended (see `Geometry.AddEdgesAppends`). |
| `Wireframes.Wireframe.AddFaces` | wireframe.py:21-27 | The loop over the faces ends in the state `Geometry.AddFaces` gives. Each face sees the nodes and edges left by the faces before it. |
| `Wireframes.Wireframe.Transform` | wireframe.py:52-54 | The nodes become `nodes . m`. Edges and faces are unchanged. |
| `Wireframes.Wireframe.Translate` | wireframe.py:56-58 | The nodes become `nodes . TranslationMatrix(dx, dy, dz)`; each component defaults to 0. |
| `Wireframes.Wireframe.Scale` | wireframe.py:60-65 | The nodes become `nodes . ScalingMatrix(s, cx, cy, cz)`; the pivot defaults to the origin. |
| `Wireframes.Wireframe.RotateX` | wireframe.py:67-75 | The nodes become `nodes . RotationX(y, z, c, s)`. |
| `Wireframes.Wireframe.RotateY` | wireframe.py:77-85 | The nodes become `nodes . RotationY(x, z, c, s)`. |
| `Wireframes.Wireframe.RotateZ` | wireframe.py:87-95 | The nodes become `nodes . RotationZ(x, y, c, s)`. |
| `Wireframes.Wireframe.FindCentre` | wireframe.py:97-102 | On a wireframe with nodes, it returns the bounding-box midpoint, which lies within the per-axis range. |
| `Wireframes.Wireframe.Update` | wireframe.py:104-106 | The default per-tick hook changes nothing. |
| `Wireframes.SquareClient` | wireframe.py:11-27 | Four nodes plus one square face, translated by `(2, -1, 0.5)` and back. The result has the same nodes, the four boundary edges and the one face. |
| `Groups.Broadcast` | wireframe.py:135-142 | A broadcast keeps the member names and transforms every member's nodes. Edges and faces are unchanged. |
| `Groups.GroupNodesMembers` | wireframe.py:184-185 | A point is among the group's nodes iff it is a node of some member. |
| `Groups.FlattenMembers` | wireframe.py:184-185 | A point is in the members' nodes concatenated in a given name order iff it is a node of a listed member. |
| `Groups.FlattenBroadcast` | wireframe.py:132-142 | A broadcast moves the group as one body: concatenating the moved members equals moving the concatenation. |
| `Groups.FlattenHomogeneous` | wireframe.py:184-185 | Concatenating homogeneous members gives a homogeneous list. |
| `Groups.SomeEnumeration` | wireframe.py:184-185 | The member names can be listed in some order. |
| `Groups.GroupCentreAnyOrder` | wireframe.py:180-186 | The group centre is the same whatever order the members are visited in. |
| `Groups.GroupTranslateMovesCentre` | wireframe.py:132-136 | Translating the group moves the group centre by the translation vector. |
| `Groups.GroupTranslateRoundTrip` | wireframe.py:132-136 | Translating the group and then translating it back restores every member. |
| `Groups.GroupScaleRoundTrip` | wireframe.py:138-142 | For s ≠ 0, scaling the group by s and then by 1/s about the same point restores every member. |
| `Groups.GroupRotateXRoundTrip` | wireframe.py:144-154 | When `c*c + s*s == 1`, rotating the group about a fixed x-parallel line by `(c, s)` and then `(c, -s)` restores every member. |
| `Groups.GroupRotateYRoundTrip` | wireframe.py:156-166 | The same round trip about a fixed y-parallel line. |
| `Groups.GroupRotateZRoundTrip` | wireframe.py:168-178 | The same round trip about a fixed z-parallel line. |
| `Groups.GroupCentreExample` | wireframe.py:180-186 | Members spanning `(0,0,0)-(1,1,1)` and `(2,2,2)-(3,3,3)` have group centre `(1.5, 1.5, 1.5)`. |
| `Groups.SpanCentre` | wireframe.py:97-102 | The four points `(0,0,0)` to `(3,3,3)` have centre `(1.5, 1.5, 1.5)`. |
| `Groups.WireframeGroup.constructor` | wireframe.py:111-112 | A new group has no members. |
| `Groups.WireframeGroup.AddWireframe` | wireframe.py:114-115 | The wireframe is stored under its name, replacing any earlier entry of that name. |
| `Groups.WireframeGroup.Translate` | wireframe.py:132-136 | Every member is translated by the same vector; each component defaults to 0. |
| `Groups.WireframeGroup.Scale` | wireframe.py:138-142 | Every member is scaled by the same factor about the same point. |
| `Groups.WireframeGroup.FindCentre` | wireframe.py:180-186 | The loop joins each member's own box into a running box, visiting members in arbitrary order. It returns the group centre: the midpoint of the bounding box of all members' nodes together. |
| `Groups.WireframeGroup.RotateX` | wireframe.py:144-154 | With a given `(y, z)`, every member rotates about that line. Without one, every member rotates about the line through the group centre as it was before the call. |
| `Groups.WireframeGroup.RotateY` | wireframe.py:156-166 | The same for a line parallel to the y-axis, through the given `(x, z)` or the group centre. |
| `Groups.WireframeGroup.RotateZ` | wireframe.py:168-178 | The same for a line parallel to the z-axis, through the given `(x, y)` or the group centre. |
| `Groups.WireframeGroup.Update` | wireframe.py:188-190 | Running every member's default hook changes nothing. |

## Left out

- The listings (`output`, `outputNodes`, `outputEdges`, `outputFaces`, wireframe.py:29-50 and 117-130) write text to the console. They are I/O and read the state without changing it.
- The shape generators `getCuboid`, `getSpheroid` and `getHorizontalGrid` (wireframe.py:192-235) are clients of the modelled operations. The square face and `Wireframes.SquareClient` stand in for them. The spheroid also needs `sin`/`cos`.
- Angles: the source turns radians into `c = cos(radians)` and `s = sin(radians)`. The model takes `c` and `s` as parameters, and arithmetic is exact `real` rather than 64-bit floating point. Rounding, and the round-trip tolerances it forces, are not modelled.
- Node indices are `nat`. Python also accepts negative indices, which pass the `node < len(nodes)` test in addFaces and count from the end; they are not modelled.
- `Wireframes.Wireframe.FindCentre`, `Bounds.FindCentre`, `Groups.WireframeGroup.FindCentre`, and `Groups.WireframeGroup.RotateX`, `RotateY` and `RotateZ` when no centre is given, require at least one node. For the group, that means at least one member and every member with nodes. On such empty input numpy's `min` raises, and the model does not represent that exception.
- `Wireframes.Wireframe.AddNodes` with an empty point list raises in numpy, because the stacked arrays do not match. The model appends nothing instead.
- `Groups.WireframeGroup.RotateX`, `RotateY` and `RotateZ` take the pivot as an `Option`. The source tests `if not centre` (wireframe.py:148, 160, 172), so every falsy value (`None`, `()`, `0`, `[]`) selects the group centre, exactly as `None` does here. What the model does not represent: a truthy centre of the wrong length fails to unpack (wireframe.py:151, 163, 175), and a numpy-array centre makes `not centre` raise. Only `None` versus a pair is modelled.
- The group stores each member as a value taken when `AddWireframe` is called, whereas the source stores a reference to the wireframe object. Aliasing is not modelled: a member changed through another reference after registration, or one object registered under two names and so moved twice by a broadcast.
- The order in which a broadcast or `update` visits the members is not modelled. Each member's transform depends only on that member, and `Groups.GroupCentreAnyOrder` shows that the group centre does not depend on the order either.
- `update` is the per-tick hook that a subclass of `Wireframe` overrides. Overriding (dynamic dispatch) is not modelled; only the default no-op hook is.
- addEdges does not check edge indices against the node count; the source's own comment at wireframe.py:18 notes this. The model keeps that behaviour: `Geometry.AddFacesEdgesInRange` shows that edges derived from faces stay in range, but explicit `AddEdges` calls may add out-of-range edges.
- Edges are compared as ordered pairs, and a candidate is checked against the pre-call edge list only, as the code at wireframe.py:19 does. Treating `(i, j)` and `(j, i)` as the same edge, or rejecting a pair repeated within one call, would be a different (unordered) behaviour, which the code does not implement. `Geometry.ReversedPairIsNew` and `Geometry.RepeatedPairAddedTwice` state what the code does.
- The rotation round trips rotate about a fixed line. After a group rotation about its own centre, the bounding-box centre generally moves, so rotating back about the new centre is not an inverse, and no such lemma is stated.
