/**
  The picking core of the MeshClicker editor window: CheckForVertexHit scans
  every triangle of every MeshFilter under the selected object, keeps the
  intersection closest to the ray origin (the earliest one on ties), snaps it
  to a corner of its triangle and stores that corner in the settings object
  when it differs from the stored one.
 */
module VertexPicker {
  import opened Wrappers
  import opened Vectors
  import opened Intersection
  import opened NearestVertex

  /** UnityEngine.Transform, reduced to its local-to-world map and the inverse map. */
  datatype Transform = Transform(transformPoint: Vec3 -> Vec3, inverseTransformPoint: Vec3 -> Vec3)

  /** The law the engine guarantees: InverseTransformPoint undoes TransformPoint. */
  ghost predicate InverseLaw(tf: Transform)
  {
    forall p :: tf.inverseTransformPoint(tf.transformPoint(p)) == p
  }

  /** UnityEngine.Mesh: local vertex positions and a flat list of corner indices, three per triangle. */
  datatype Mesh = Mesh(vertices: seq<Vec3>, triangles: seq<int>)

  /** UnityEngine.MeshFilter: a mesh placed in the scene by a transform. */
  datatype MeshFilter = MeshFilter(sharedMesh: Mesh, transform: Transform)

  /** The engine's mesh invariant: whole triangles only, every index names a vertex. */
  predicate ValidMesh(mesh: Mesh)
  {
    |mesh.triangles| % 3 == 0 &&
    forall j :: 0 <= j < |mesh.triangles| ==> 0 <= mesh.triangles[j] < |mesh.vertices|
  }

  predicate ValidFilters(filters: seq<MeshFilter>)
  {
    forall n :: 0 <= n < |filters| ==> ValidMesh(filters[n].sharedMesh)
  }

  /** i is one of the indices 0, 3, 6, ... the triangle loop visits. */
  predicate IsTriangleStart(mesh: Mesh, i: int)
  {
    0 <= i < |mesh.triangles| && i % 3 == 0
  }

  /**
    The triangle loop stays in bounds: when the index count is a multiple of
    3, every index it visits leaves room for the triangle's other two corners.
    If it is not, the last visited index does not.
   */
  lemma TriangleCornersInBounds(mesh: Mesh, i: int)
    requires IsTriangleStart(mesh, i)
    ensures |mesh.triangles| % 3 == 0 ==> i + 2 < |mesh.triangles|
    ensures |mesh.triangles| % 3 != 0 && i == |mesh.triangles| - |mesh.triangles| % 3
            ==> i + 2 >= |mesh.triangles|
  {
  }

  /** Corner k (0, 1 or 2) of the triangle starting at index i, in local space. */
  function LocalCorner(mesh: Mesh, i: int, k: nat): Vec3
    requires ValidMesh(mesh) && IsTriangleStart(mesh, i) && k < 3
  {
    TriangleCornersInBounds(mesh, i);
    mesh.vertices[mesh.triangles[i + k]]
  }

  /** The same corner in world space. */
  function WorldCorner(filter: MeshFilter, i: int, k: nat): Vec3
    requires ValidMesh(filter.sharedMesh) && IsTriangleStart(filter.sharedMesh, i) && k < 3
  {
    filter.transform.transformPoint(LocalCorner(filter.sharedMesh, i, k))
  }

  /** The ray test of the world-space triangle starting at index i. */
  function TriangleHit(ray: Ray, filter: MeshFilter, i: int): RayHit
    requires ValidMesh(filter.sharedMesh) && IsTriangleStart(filter.sharedMesh, i)
  {
    RayIntersectsTriangle(ray, WorldCorner(filter, i, 0), WorldCorner(filter, i, 1), WorldCorner(filter, i, 2))
  }

  /** Squared distance from the ray origin to the intersection with that triangle. */
  function HitDistance(ray: Ray, filter: MeshFilter, i: int): real
    requires ValidMesh(filter.sharedMesh) && IsTriangleStart(filter.sharedMesh, i)
    requires TriangleHit(ray, filter, i).found
  {
    DistanceSquared(ray.origin, TriangleHit(ray, filter, i).hit)
  }

  /**
    The corner the picker snaps a hit on this triangle to: the intersection is
    taken back to local space, the corner is chosen by NearestCorner over the
    three local distances, and that corner is taken to world space.
   */
  function SelectedVertex(ray: Ray, filter: MeshFilter, i: int): Vec3
    requires ValidMesh(filter.sharedMesh) && IsTriangleStart(filter.sharedMesh, i)
    requires TriangleHit(ray, filter, i).found
  {
    var local := filter.transform.inverseTransformPoint(TriangleHit(ray, filter, i).hit);
    var mesh := filter.sharedMesh;
    var k := NearestCorner(DistanceSquared(local, LocalCorner(mesh, i, 0)),
                           DistanceSquared(local, LocalCorner(mesh, i, 1)),
                           DistanceSquared(local, LocalCorner(mesh, i, 2)));
    WorldCorner(filter, i, k)
  }

  /**
    The selected vertex is one of the three world-space corners of the hit
    triangle and, when the transform's inverse law holds, it maps back to a
    vertex of the mesh.
   */
  lemma SelectedVertexIsACorner(ray: Ray, filter: MeshFilter, i: int)
    requires ValidMesh(filter.sharedMesh) && IsTriangleStart(filter.sharedMesh, i)
    requires TriangleHit(ray, filter, i).found
    ensures exists k: nat :: k < 3 && SelectedVertex(ray, filter, i) == WorldCorner(filter, i, k)
    ensures InverseLaw(filter.transform) ==>
              filter.transform.inverseTransformPoint(SelectedVertex(ray, filter, i)) in filter.sharedMesh.vertices
  {
    var local := filter.transform.inverseTransformPoint(TriangleHit(ray, filter, i).hit);
    var mesh := filter.sharedMesh;
    var k := NearestCorner(DistanceSquared(local, LocalCorner(mesh, i, 0)),
                           DistanceSquared(local, LocalCorner(mesh, i, 1)),
                           DistanceSquared(local, LocalCorner(mesh, i, 2)));
    assert SelectedVertex(ray, filter, i) == WorldCorner(filter, i, k);
    TriangleCornersInBounds(mesh, i);
    assert LocalCorner(mesh, i, k) == mesh.vertices[mesh.triangles[i + k]];
  }

  /** The triangle starting at index i of filter n is hit by the ray. */
  ghost predicate IsHit(ray: Ray, filters: seq<MeshFilter>, n: int, i: int)
    requires ValidFilters(filters)
  {
    0 <= n < |filters| && IsTriangleStart(filters[n].sharedMesh, i) && TriangleHit(ray, filters[n], i).found
  }

  /** Scan order: filter by filter, and within a filter by increasing index. */
  predicate Before(n1: int, i1: int, n2: int, i2: int)
  {
    n1 < n2 || (n1 == n2 && i1 < i2)
  }

  ghost predicate AnyHit(ray: Ray, filters: seq<MeshFilter>)
    requires ValidFilters(filters)
  {
    exists n, i :: IsHit(ray, filters, n, i)
  }

  /**
    Among the hits scanned before position (m, t), the one at (n, i) is closest
    to the ray origin, and strictly closer than every hit scanned before it.
   */
  ghost predicate ClosestAmongScanned(ray: Ray, filters: seq<MeshFilter>, n: int, i: int, m: int, t: int)
    requires ValidFilters(filters)
  {
    IsHit(ray, filters, n, i) && Before(n, i, m, t) &&
    forall g, j :: IsHit(ray, filters, g, j) && Before(g, j, m, t) ==>
      HitDistance(ray, filters[n], i) <= HitDistance(ray, filters[g], j) &&
      (Before(g, j, n, i) ==> HitDistance(ray, filters[n], i) < HitDistance(ray, filters[g], j))
  }

  /** No hit is scanned before position (m, t). */
  ghost predicate NoHitBefore(ray: Ray, filters: seq<MeshFilter>, m: int, t: int)
    requires ValidFilters(filters)
  {
    forall g, j :: IsHit(ray, filters, g, j) ==> !Before(g, j, m, t)
  }

  /**
    The hit at (n, i) is the closest of all hits, and on equal distances the
    first one in scan order.
   */
  ghost predicate IsClosestHit(ray: Ray, filters: seq<MeshFilter>, n: int, i: int)
    requires ValidFilters(filters)
  {
    IsHit(ray, filters, n, i) &&
    forall g, j :: IsHit(ray, filters, g, j) ==>
      HitDistance(ray, filters[n], i) <= HitDistance(ray, filters[g], j) &&
      (Before(g, j, n, i) ==> HitDistance(ray, filters[n], i) < HitDistance(ray, filters[g], j))
  }

  /** Scanning the whole of filter m is the same as reaching the start of filter m + 1. */
  lemma FilterFinished(ray: Ray, filters: seq<MeshFilter>, m: int)
    requires ValidFilters(filters) && 0 <= m < |filters|
    ensures forall n, i :: IsHit(ray, filters, n, i) ==>
              (Before(n, i, m, |filters[m].sharedMesh.triangles|) <==> Before(n, i, m + 1, 0))
  {
  }

  /**
    Once every filter is scanned, the scan has seen every hit: it found one
    exactly when there is one, and then its best is the closest hit.
   */
  lemma ScanFinished(ray: Ray, filters: seq<MeshFilter>,
                     found: bool, n: int, i: int, closest: real, position: Vec3)
    requires ValidFilters(filters)
    requires ScanState(ray, filters, |filters|, 0, found, n, i, closest, position)
    ensures found <==> AnyHit(ray, filters)
    ensures found ==> IsClosestHit(ray, filters, n, i) && position == SelectedVertex(ray, filters[n], i)
  {
    assert forall g, j :: IsHit(ray, filters, g, j) ==> Before(g, j, |filters|, 0);
  }

  /**
    The closest hit is unique: two hits both closest, each first on ties, are
    the same hit. So every pick of the same ray against the same meshes selects
    the same vertex.
   */
  lemma ClosestHitIsUnique(ray: Ray, filters: seq<MeshFilter>, n1: int, i1: int, n2: int, i2: int)
    requires ValidFilters(filters)
    requires IsClosestHit(ray, filters, n1, i1) && IsClosestHit(ray, filters, n2, i2)
    ensures n1 == n2 && i1 == i2
  {
  }

  /**
    What the scan knows at position (m, t): if found, (n, i) is the closest hit
    scanned so far, closest is its distance and position its selected vertex;
    otherwise nothing scanned so far was hit.
   */
  ghost predicate ScanState(ray: Ray, filters: seq<MeshFilter>, m: int, t: int,
                            found: bool, n: int, i: int, closest: real, position: Vec3)
    requires ValidFilters(filters)
  {
    if found then
      ClosestAmongScanned(ray, filters, n, i, m, t) &&
      closest == HitDistance(ray, filters[n], i) &&
      position == SelectedVertex(ray, filters[n], i)
    else
      NoHitBefore(ray, filters, m, t)
  }

  /** The only position scanned before (m, t + 3) but not before (m, t) is (m, t) itself. */
  lemma NextTriangle(ray: Ray, filters: seq<MeshFilter>, m: int, t: int)
    requires ValidFilters(filters) && 0 <= m < |filters| && IsTriangleStart(filters[m].sharedMesh, t)
    ensures forall g, j :: IsHit(ray, filters, g, j) ==>
              (Before(g, j, m, t + 3) <==> Before(g, j, m, t) || (g == m && j == t))
  {
  }

  /** A triangle that is missed, or hit no closer than the best so far, leaves the scan state as it is. */
  lemma KeepBest(ray: Ray, filters: seq<MeshFilter>, m: int, t: int,
                 found: bool, n: int, i: int, closest: real, position: Vec3)
    requires ValidFilters(filters) && 0 <= m < |filters| && IsTriangleStart(filters[m].sharedMesh, t)
    requires ScanState(ray, filters, m, t, found, n, i, closest, position)
    requires TriangleHit(ray, filters[m], t).found ==> found && HitDistance(ray, filters[m], t) >= closest
    ensures ScanState(ray, filters, m, t + 3, found, n, i, closest, position)
  {
    NextTriangle(ray, filters, m, t);
  }

  /** A triangle hit strictly closer than the best so far (or first) becomes the best. */
  lemma TakeBest(ray: Ray, filters: seq<MeshFilter>, m: int, t: int,
                 found: bool, n: int, i: int, closest: real, position: Vec3)
    requires ValidFilters(filters) && 0 <= m < |filters| && IsTriangleStart(filters[m].sharedMesh, t)
    requires ScanState(ray, filters, m, t, found, n, i, closest, position)
    requires TriangleHit(ray, filters[m], t).found
    requires found ==> HitDistance(ray, filters[m], t) < closest
    ensures ScanState(ray, filters, m, t + 3, true, m, t, HitDistance(ray, filters[m], t),
                      SelectedVertex(ray, filters[m], t))
  {
    NextTriangle(ray, filters, m, t);
  }

  /** Finishing filter m is reaching the start of filter m + 1. */
  lemma NextFilter(ray: Ray, filters: seq<MeshFilter>, m: int,
                   found: bool, n: int, i: int, closest: real, position: Vec3)
    requires ValidFilters(filters) && 0 <= m < |filters|
    requires ScanState(ray, filters, m, |filters[m].sharedMesh.triangles|, found, n, i, closest, position)
    ensures ScanState(ray, filters, m + 1, 0, found, n, i, closest, position)
  {
    FilterFinished(ray, filters, m);
  }

  /**
    MeshClicker.VertexSelectorSettings. The source marks "no vertex selected"
    with Vector3.positiveInfinity; here that is None.
   */
  class VertexSelectorSettings {
    var showHitPosition: bool
    var showMeasurementInLocal: bool
    var hitVertex: Option<Vec3>

    constructor ()
      ensures !showHitPosition && !showMeasurementInLocal && hitVertex == None
    {
      showHitPosition, showMeasurementInLocal := false, false;
      hitVertex := None;
    }
  }

  /**
    The state of the MeshClicker window that picking touches. The selected
    object is represented by the MeshFilters found under it; undoRecords holds
    the HitVertex values recorded for undo, oldest first.
   */
  class MeshClicker {
    var selectedMeshFilters: seq<MeshFilter>
    var mesh: Option<Mesh>
    var vertices: seq<Vec3>
    var triangles: seq<int>
    var settings: VertexSelectorSettings
    var undoRecords: seq<Option<Vec3>>

    constructor (filters: seq<MeshFilter>)
      ensures selectedMeshFilters == filters && mesh == None && vertices == [] && triangles == []
      ensures fresh(settings) && settings.hitVertex == None && undoRecords == []
    {
      selectedMeshFilters := filters;
      mesh, vertices, triangles := None, [], [];
      settings := new VertexSelectorSettings();
      undoRecords := [];
    }

    /**
      One pass of the triangle loop: the ray test of the triangle starting at
      index t, and, when it is hit closer than the best so far (or is the
      first hit), the snap of the hit to its nearest corner.
     */
    method TestTriangle(ray: Ray, meshFilters: seq<MeshFilter>, m: int, t: int,
                        closest0: Option<real>, position0: Vec3, ghost n0: int, ghost i0: int)
      returns (closestIntersection: Option<real>, newVertexPosition: Vec3, ghost n: int, ghost i: int)
      requires ValidFilters(meshFilters) && 0 <= m < |meshFilters|
      requires vertices == meshFilters[m].sharedMesh.vertices && triangles == meshFilters[m].sharedMesh.triangles
      requires IsTriangleStart(meshFilters[m].sharedMesh, t)
      requires ScanState(ray, meshFilters, m, t, closest0.Some?, n0, i0, closest0.GetOr(0.0), position0)
      ensures ScanState(ray, meshFilters, m, t + 3, closestIntersection.Some?, n, i,
                        closestIntersection.GetOr(0.0), newVertexPosition)
      ensures closest0.Some? ==> closestIntersection.Some? && closestIntersection.value <= closest0.value
    {
      var meshFilter := meshFilters[m];
      closestIntersection, newVertexPosition, n, i := closest0, position0, n0, i0;
      TriangleCornersInBounds(meshFilter.sharedMesh, t);
      var v0 := meshFilter.transform.transformPoint(vertices[triangles[t]]);
      var v1 := meshFilter.transform.transformPoint(vertices[triangles[t + 1]]);
      var v2 := meshFilter.transform.transformPoint(vertices[triangles[t + 2]]);
      var intersection := RayIntersectsTriangle(ray, v0, v1, v2);
      assert intersection == TriangleHit(ray, meshFilter, t);
      if intersection.found {
        var intersectionDistance := DistanceSquared(ray.origin, intersection.hit);
        if closest0.None? || intersectionDistance < closest0.value {
          TakeBest(ray, meshFilters, m, t, closest0.Some?, n0, i0,
                   closest0.GetOr(0.0), position0);
          closestIntersection := Some(intersectionDistance);
          var localIntersection := meshFilter.transform.inverseTransformPoint(intersection.hit);
          var d0 := DistanceSquared(localIntersection, vertices[triangles[t]]);
          var d1 := DistanceSquared(localIntersection, vertices[triangles[t + 1]]);
          var d2 := DistanceSquared(localIntersection, vertices[triangles[t + 2]]);
          if d0 < d1 && d0 < d2 {
            newVertexPosition := vertices[triangles[t]];
          } else if d1 < d0 && d1 < d2 {
            newVertexPosition := vertices[triangles[t + 1]];
          } else {
            newVertexPosition := vertices[triangles[t + 2]];
          }
          newVertexPosition := meshFilter.transform.transformPoint(newVertexPosition);
          assert newVertexPosition == SelectedVertex(ray, meshFilters[m], t);
          assert closestIntersection.GetOr(0.0) == HitDistance(ray, meshFilters[m], t);
          n, i := m, t;
        } else {
          KeepBest(ray, meshFilters, m, t, closest0.Some?, n0, i0,
                   closest0.GetOr(0.0), position0);
        }
      } else {
        KeepBest(ray, meshFilters, m, t, closest0.Some?, n0, i0,
                 closest0.GetOr(0.0), position0);
      }
    }

    /**
      The triangle loop of CheckForVertexHit over the mesh of filter m, whose
      vertices and triangles the caller has just loaded. It carries the best
      hit so far (its distance, its selected vertex and, as ghosts, its filter
      and index) from the start of filter m to its end.
     */
    method ScanTriangles(ray: Ray, meshFilters: seq<MeshFilter>, m: int,
                         closest0: Option<real>, position0: Vec3, ghost n0: int, ghost i0: int)
      returns (closestIntersection: Option<real>, newVertexPosition: Vec3, ghost n: int, ghost i: int)
      requires ValidFilters(meshFilters) && 0 <= m < |meshFilters|
      requires vertices == meshFilters[m].sharedMesh.vertices && triangles == meshFilters[m].sharedMesh.triangles
      requires ScanState(ray, meshFilters, m, 0, closest0.Some?, n0, i0, closest0.GetOr(0.0), position0)
      ensures ScanState(ray, meshFilters, m, |meshFilters[m].sharedMesh.triangles|, closestIntersection.Some?, n, i,
                        closestIntersection.GetOr(0.0), newVertexPosition)
      ensures closest0.Some? ==> closestIntersection.Some? && closestIntersection.value <= closest0.value
    {
      var meshFilter := meshFilters[m];
      closestIntersection, newVertexPosition, n, i := closest0, position0, n0, i0;
      var t := 0;
      while t < |triangles|
        invariant 0 <= t <= |triangles| && t % 3 == 0
        invariant ScanState(ray, meshFilters, m, t, closestIntersection.Some?, n, i,
                            closestIntersection.GetOr(0.0), newVertexPosition)
        invariant closest0.Some? ==> closestIntersection.Some? && closestIntersection.value <= closest0.value
      {
        closestIntersection, newVertexPosition, n, i :=
          TestTriangle(ray, meshFilters, m, t, closestIntersection, newVertexPosition, n, i);
        t := t + 3;
      }
      assert t == |meshFilters[m].sharedMesh.triangles|;
    }

    /**
      MeshClicker.CheckForVertexHit. With no hit anywhere the stored vertex and
      the undo records are unchanged. Otherwise the ghost results (n, i) name
      the closest hit (the first in scan order on ties), the stored vertex is
      the corner selected for it, and one undo record holding the previous
      value is added exactly when the stored value changes. The mesh,
      vertices and triangles fields are left holding the last filter's mesh.
     */
    method CheckForVertexHit(ray: Ray) returns (ghost n: int, ghost i: int)
      requires ValidFilters(selectedMeshFilters)
      modifies this`mesh, this`vertices, this`triangles, this`undoRecords, settings`hitVertex
      ensures !AnyHit(ray, selectedMeshFilters) ==>
                settings.hitVertex == old(settings.hitVertex) && undoRecords == old(undoRecords)
      ensures AnyHit(ray, selectedMeshFilters) ==>
                IsClosestHit(ray, selectedMeshFilters, n, i) &&
                settings.hitVertex == Some(SelectedVertex(ray, selectedMeshFilters[n], i)) &&
                undoRecords == if old(settings.hitVertex) == settings.hitVertex then old(undoRecords)
                               else old(undoRecords) + [old(settings.hitVertex)]
      ensures |selectedMeshFilters| == 0 ==>
                mesh == old(mesh) && vertices == old(vertices) && triangles == old(triangles)
      ensures |selectedMeshFilters| > 0 ==>
                var last := selectedMeshFilters[|selectedMeshFilters| - 1].sharedMesh;
                mesh == Some(last) && vertices == last.vertices && triangles == last.triangles
    {
      var closestIntersection: Option<real> := None;
      var newVertexPosition := Zero;
      var vertexFound := false;
      n, i := 0, 0;
      var meshFilters := selectedMeshFilters;
      var m := 0;
      while m < |meshFilters|
        modifies this`mesh, this`vertices, this`triangles
        invariant 0 <= m <= |meshFilters|
        invariant m == 0 ==> mesh == old(mesh) && vertices == old(vertices) && triangles == old(triangles)
        invariant m > 0 ==>
                    mesh == Some(meshFilters[m - 1].sharedMesh) &&
                    vertices == meshFilters[m - 1].sharedMesh.vertices &&
                    triangles == meshFilters[m - 1].sharedMesh.triangles
        invariant vertexFound == closestIntersection.Some?
        invariant ScanState(ray, meshFilters, m, 0, vertexFound, n, i,
                            closestIntersection.GetOr(0.0), newVertexPosition)
      {
        var meshFilter := meshFilters[m];
        mesh := Some(meshFilter.sharedMesh);
        vertices := meshFilter.sharedMesh.vertices;
        triangles := meshFilter.sharedMesh.triangles;
        ghost var n', i' := n, i;
        closestIntersection, newVertexPosition, n, i :=
          ScanTriangles(ray, meshFilters, m, closestIntersection, newVertexPosition, n', i');
        vertexFound := closestIntersection.Some?;
        NextFilter(ray, meshFilters, m, vertexFound, n, i,
                   closestIntersection.GetOr(0.0), newVertexPosition);
        m := m + 1;
      }
      ScanFinished(ray, meshFilters, vertexFound, n, i, closestIntersection.GetOr(0.0), newVertexPosition);
      if vertexFound && settings.hitVertex != Some(newVertexPosition) {
        undoRecords := undoRecords + [settings.hitVertex];
        settings.hitVertex := Some(newVertexPosition);
      }
    }
  }
}
