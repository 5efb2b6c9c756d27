/**
  The rule CheckForVertexHit uses to pick one corner of the hit triangle from
  the distances d0, d1, d2 between the hit point and the three corners: a
  corner is taken only when its distance is strictly smaller than both others,
  and otherwise corner 2 is taken.
 */
module NearestVertex {

  /** The distance of corner k among d0, d1, d2. */
  function DistanceOf(d0: real, d1: real, d2: real, k: nat): real
    requires k < 3
  {
    if k == 0 then d0 else if k == 1 then d1 else d2
  }

  /**
    The corner index the picker selects: 0 exactly when d0 is strictly smaller
    than d1 and d2, 1 exactly when d1 is strictly smaller than d0 and d2, and 2
    in every other case, including every tie for the smallest distance.
   */
  function NearestCorner(d0: real, d1: real, d2: real): (k: nat)
    ensures k < 3
    ensures k == 0 <==> d0 < d1 && d0 < d2
    ensures k == 1 <==> d1 < d0 && d1 < d2
    ensures k == 2 <==> !(d0 < d1 && d0 < d2) && !(d1 < d0 && d1 < d2)
  {
    if d0 < d1 && d0 < d2 then 0
    else if d1 < d0 && d1 < d2 then 1
    else 2
  }

  /** A corner strictly closer than both others is the one selected. */
  lemma StrictlyNearestCornerIsChosen(d0: real, d1: real, d2: real, j: nat)
    requires j < 3
    requires forall k: nat :: k < 3 && k != j ==> DistanceOf(d0, d1, d2, j) < DistanceOf(d0, d1, d2, k)
    ensures NearestCorner(d0, d1, d2) == j
  {
    var others := if j == 0 then (1, 2) else if j == 1 then (0, 2) else (0, 1);
    assert DistanceOf(d0, d1, d2, j) < DistanceOf(d0, d1, d2, others.0);
    assert DistanceOf(d0, d1, d2, j) < DistanceOf(d0, d1, d2, others.1);
  }

  /**
    The selected corner is a nearest one in every case but one: when d0 and d1
    tie for the smallest distance and d2 is larger, corner 2, the farthest, is
    selected.
   */
  lemma ChosenIsNearestUnlessFirstTwoTie(d0: real, d1: real, d2: real)
    ensures (forall j: nat :: j < 3 ==>
               DistanceOf(d0, d1, d2, NearestCorner(d0, d1, d2)) <= DistanceOf(d0, d1, d2, j))
            <==> !(d0 == d1 && d1 < d2)
  {
    if d0 == d1 && d1 < d2 {
      assert DistanceOf(d0, d1, d2, NearestCorner(d0, d1, d2)) > DistanceOf(d0, d1, d2, 0);
    }
  }

  /** The tie quirk on its own: d0 == d1 < d2 selects corner 2, which is strictly farther. */
  lemma TieBetweenFirstTwoSelectsFarthest(d0: real, d1: real, d2: real)
    requires d0 == d1 < d2
    ensures NearestCorner(d0, d1, d2) == 2
    ensures DistanceOf(d0, d1, d2, 2) > DistanceOf(d0, d1, d2, 0) == DistanceOf(d0, d1, d2, 1)
  {
  }

  /** Any other tie for the smallest distance involves d2, so selecting corner 2 is then nearest. */
  lemma OtherTiesSelectANearestCorner(d0: real, d1: real, d2: real)
    requires (d0 == d2 && d2 <= d1) || (d1 == d2 && d2 <= d0)
    ensures NearestCorner(d0, d1, d2) == 2
    ensures d2 <= d0 && d2 <= d1
  {
  }
}
