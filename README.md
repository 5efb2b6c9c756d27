# MeshClicker vertex picker, modelled in Dafny

MeshClicker is a Unity editor window. When the user clicks in the scene view, it turns the click into a
ray. It then tests that ray against every triangle of every MeshFilter under the selected object. The
hit closest to the ray origin wins, and the winning hit is snapped to a corner of its triangle. That
corner is stored in the window's settings object (`HitVertex`), together with an undo record, but only
when it differs from the stored value.

This project models that picking core and proves what it computes:

- `vectors.dfy` (module `Vectors`) stands in for `Vector3`. It holds exact real components, dot and
  cross products, squared distance, and the vector identities the proofs need (among them Cramer's
  rule without division).
- `intersection.dfy` (module `Intersection`) models `RayIntersectsTriangle`, the Möller–Trumbore
  test. It is a pure function of the ray and the three corners. The lemmas state:
  - exactly when a hit is reported;
  - where a reported hit lies (on the ray beyond `EPSILON`, inside the closed triangle);
  - that every such meeting point is reported when the triangle is not nearly parallel to the ray;
  - that nearly parallel rays and zero-area triangles always miss.
- `nearest_vertex.dfy` (module `NearestVertex`) models the three-way rule that picks the corner:
  - a corner is taken only when its distance is strictly smallest;
  - otherwise corner 2 is taken.

  The lemmas include the tie quirk as written: when d0 == d1 < d2, the farthest corner is selected.
- `vertex_picker.dfy` (module `VertexPicker`) models the editor state and `CheckForVertexHit`. The
  window `MeshClicker` and its settings object `VertexSelectorSettings` are Dafny classes. The scan
  mutates the `mesh`, `vertices` and `triangles` fields, and runs as nested loops that step the
  triangle index by 3. Its contract states:
  - the stored vertex is the corner selected for the closest hit, the first in scan order on ties;
  - when nothing is hit, the stored vertex and the undo records are unchanged;
  - an undo record is added exactly when the stored value changes.
- `wrappers.dfy` (module `Wrappers`) holds `Option`. It replaces the `Vector3.positiveInfinity`
  "not set" value of `HitVertex` and the `float.MaxValue` "no hit yet" start of the running minimum.

The ray, the transforms and the list of MeshFilters are inputs. They stand in for the camera
projection, the engine's `Transform` and `GetComponentsInChildren`. A transform is a pair of maps,
`TransformPoint` and `InverseTransformPoint`. `InverseLaw` states that one undoes the other, and it is
assumed only where a lemma says so.

## Model

| member | source | states |
|---|---|---|
| Intersection.RayIntersectsTriangle | MeshClicker.cs:356-389 | a determinant strictly within EPSILON of zero, of either sign, never gives a hit; on a miss the out position is the zero vector |
| Intersection.HitConditions | MeshClicker.cs:367-382 | a hit is reported if and only if the determinant is outside (-EPSILON, EPSILON), 0 <= u <= 1, v >= 0, u + v <= 1 and t > EPSILON, with the edges included |
| Intersection.HitLiesOnRayAndTriangle | MeshClicker.cs:381-386 | a reported hit is origin + direction * t for the algorithm's t, and that point is the point of the closed triangle at the algorithm's (u, v), more than EPSILON along the ray |
| Intersection.SolutionLiesOnRayAndTriangle | MeshClicker.cs:372-384 | whenever the determinant is nonzero, the ray point at the computed t equals the triangle-plane point at the computed (u, v) |
| Intersection.AlgorithmSolvesSystem | MeshClicker.cs:364-381 | the computed (t, u, v) solve origin - v0 == u e1 + v e2 - t direction |
| Intersection.MeetingPointIsReported | MeshClicker.cs:356-389 | when the determinant is outside (-EPSILON, EPSILON), any (t, u, v) at which the ray meets the closed triangle beyond EPSILON is the algorithm's (t, u, v), and the hit is reported at that ray point |
| Intersection.HitIffRayMeetsTriangle | MeshClicker.cs:356-389 | for a triangle that is not nearly parallel to the ray, a hit is reported if and only if the ray meets the closed triangle beyond EPSILON |
| Intersection.ParallelRayMisses | MeshClicker.cs:364-371 | a direction orthogonal to the normal e1 x e2 gives a zero determinant and a miss with the zero position, whatever the origin |
| Intersection.DegenerateTriangleMisses | MeshClicker.cs:364-371 | a triangle with collinear corners (e1 x e2 == 0) is never hit |
| NearestVertex.NearestCorner | MeshClicker.cs:314-325 | corner 0 is chosen if and only if d0 < d1 and d0 < d2; corner 1 if and only if d1 < d0 and d1 < d2; corner 2 in every other case, ties included |
| NearestVertex.StrictlyNearestCornerIsChosen | MeshClicker.cs:314-325 | a corner strictly nearer than both others is the one chosen |
| NearestVertex.ChosenIsNearestUnlessFirstTwoTie | MeshClicker.cs:314-325 | the chosen corner is at minimal distance if and only if it is not the case that d0 == d1 < d2 |
| NearestVertex.TieBetweenFirstTwoSelectsFarthest | MeshClicker.cs:314-325 | with d0 == d1 < d2, corner 2 is chosen, and it is strictly farther than corners 0 and 1 |
| NearestVertex.OtherTiesSelectANearestCorner | MeshClicker.cs:318-325 | a tie for the minimum that involves d2 selects corner 2, which is then at minimal distance |
| VertexPicker.TriangleCornersInBounds | MeshClicker.cs:288-293 | when the index count is a multiple of 3, every index the loop visits leaves room for i + 1 and i + 2; if the count is not a multiple of 3, the last visited index does not |
| VertexPicker.SelectedVertexIsACorner | MeshClicker.cs:307-327 | the selected vertex is the world transform of one of the three corners vertices[triangles[i..i+2]] of the hit triangle; under the inverse law it maps back to a vertex of the mesh |
| VertexPicker.ScanFinished | MeshClicker.cs:281-331 | after the whole scan, a vertex was found if and only if some triangle is hit, and the kept hit is then the closest one (strictly closer than every earlier hit) with its selected vertex |
| VertexPicker.ClosestHitIsUnique | MeshClicker.cs:302-305 | because the comparison is strict, at most one hit is closest and first on ties, so the same ray and meshes always pick the same vertex |
| VertexPicker.FilterFinished | MeshClicker.cs:281-288 | in scan order, the hits before the end of filter m are the hits before the start of filter m + 1 |
| VertexPicker.NextTriangle | MeshClicker.cs:288 | stepping the index by 3 adds exactly the triangle at the current index to the scanned hits |
| VertexPicker.KeepBest | MeshClicker.cs:297-303 | a triangle that is missed, or hit no closer than the best so far, leaves the best hit as it is |
| VertexPicker.TakeBest | MeshClicker.cs:303-328 | a triangle hit strictly closer than the best so far, or the first hit, becomes the best, with its own distance and selected vertex |
| VertexPicker.NextFilter | MeshClicker.cs:281-286 | the best hit at the end of filter m is the best hit at the start of filter m + 1 |
| VertexPicker.MeshClicker.TestTriangle | MeshClicker.cs:290-329 | one pass of the triangle loop keeps the scan's best hit, its distance and its selected vertex correct, and never increases the best distance |
| VertexPicker.MeshClicker.ScanTriangles | MeshClicker.cs:288-330 | the triangle loop over one mesh carries the best hit from the start of the filter to its end, and the best distance never increases |
| VertexPicker.MeshClicker.CheckForVertexHit | MeshClicker.cs:270-351 | no hit leaves HitVertex and the undo records unchanged; otherwise HitVertex is the selected corner of the closest, earliest hit, and an undo record of the old value is added exactly when the value changes; mesh, vertices and triangles end up holding the last filter's mesh |
| VertexPicker.VertexSelectorSettings.constructor | MeshClicker.cs:7-15 | both display flags start false and HitVertex starts "not set" (None for positiveInfinity) |
| VertexPicker.MeshClicker.constructor | MeshClicker.cs:17-23 | a window over the given MeshFilters starts with no mesh, empty vertex and index lists and no undo records, and with a fresh settings object whose HitVertex is not set (the source creates it in `OnEnable`, MeshClicker.cs:204-207) |

## Left out

- `OnGUI`, `DrawHitLabel`, `DrawMultiColorLabel` and the sphere marker of `OnSceneGUI`: window UI and drawing. The "not set" value of `HitVertex` is `None`, and the model can tell it apart exactly.
- `OnEnable`, `OnDisable`, `LoadSettingsFromPrefs` and `SaveSettingsToPrefs`: EditorPrefs persistence and event subscription.
- `Undo.RecordObject`, `SerializedObject.Update`, `ApplyModifiedProperties` and `OnUndoRedo` become a single write of `hitVertex` plus the `undoRecords` list of previous values. The serialized copy of `HitVertex` is taken to equal the settings field.
- `HandleUtility.GUIPointToWorldRay` and the mouse-event check: camera projection. The ray is an input of `CheckForVertexHit`.
- `GetComponentsInChildren<MeshFilter>`: the filters found under the selected object are the field `selectedMeshFilters`.
- The real `Transform.TransformPoint` and `InverseTransformPoint`: they are arbitrary maps, and the inverse law is an explicit hypothesis where it is used.
- `Debug.Log`: no observable effect on the model.
- IEEE 32-bit float rounding: all arithmetic is on exact reals, so results near the EPSILON thresholds and near the triangle's edges can differ from the engine's.
- DistanceSquared: it stands in for `Vector3.Distance` without the square root. Only comparisons of distances are used, and squaring preserves their order on non-negative values.
- `float.MaxValue` as the starting minimum becomes "no hit yet" (`None`). A hit at a float distance of `MaxValue` or more, which the source would not take, is taken by the model.
- `Vector3 !=` in Unity compares approximately, within about 1e-5. The model's store rule compares exactly.
- The source's "not set" test `settings.HitVertex != Vector3.positiveInfinity` (MeshClicker.cs:97, 104) is that approximate comparison. Infinity minus infinity is NaN, so the test is true even for the sentinel: the source draws the marker, and the label if enabled, before any pick. With `None` the model does tell "not set" apart, so it does not capture that behaviour.
- The engine's mesh invariant (index count a multiple of 3, every index a valid vertex) is a precondition of `CheckForVertexHit`. The source does not check it. `TriangleCornersInBounds` states what goes wrong when the count is not a multiple of 3. An index that names no vertex would make `vertices[triangles[i]]` at MeshClicker.cs:291-293 throw, and the model does not capture that.
- The triangle loop and its body appear as the methods `ScanTriangles` and `TestTriangle` of the class, called from `CheckForVertexHit`. The loop and the order of its steps are as in the source.
- Null references are not modelled, because `Mesh`, `MeshFilter` and the selected object cannot be null here. The model does not capture two exception paths:
  - A MeshFilter with no mesh makes `mesh.vertices` throw at MeshClicker.cs:284-285. The source then stops the scan before the store at 334-350, so even a closer hit from an earlier filter is not stored, and `mesh` is left null.
  - Clearing the Target Object in `OnGUI` (44-45) while `mesh` is still set makes `GetComponentsInChildren` throw at line 280, because `OnSceneGUI` (85) tests only `mesh`.
