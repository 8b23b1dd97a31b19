/**
  The world as a list of objects (rt/hittable_list.go). The source scans the
  list once, passing each object the closest hit found so far as the upper
  bound of its window. The scan is the method `ListHit`; `ListHitSpec` states
  the same scan as a recursion on the list's prefixes, and the lemmas below
  say what it computes: the hit of the last object among those whose own hit
  on the full window is nearest.

  The list holds spheres, the only objects the renderer builds; Go's
  `HittableList` may in principle also hold nested lists.
 */
module HittableLists {
  import opened RealMath
  import opened Vectors
  import opened Rays
  import opened Hittables
  import opened Spheres

  /** Every object can be tested: a zero radius would divide by zero. */
  predicate NonZeroRadii(list: seq<Sphere>) {
    forall k :: 0 <= k < |list| ==> list[k].radius != 0.0
  }

  /** The scan after the objects of `list`, in order. */
  function ListHitSpec(list: seq<Sphere>, ray: Ray, tMin: real, tMax: real, sqrt: real -> real): (res: HitResult)
    requires ray.direction != Zero && NonZeroRadii(list)
    ensures res.ok ==> InWindow(res.rec.t, tMin, tMax)
    ensures !res.ok ==> res.rec == ZeroRecord
    decreases |list|
  {
    if |list| == 0 then
      HitResult(false, ZeroRecord)
    else
      var prev := ListHitSpec(list[..|list| - 1], ray, tMin, tMax, sqrt);
      var closestSoFar := if prev.ok then prev.rec.t else tMax;
      var h := Hit(list[|list| - 1], ray, tMin, closestSoFar, sqrt);
      if h.ok then h else prev
  }

  /** HittableList.Hit: the loop that shrinks `closestSoFar`. */
  method ListHit(list: seq<Sphere>, ray: Ray, tMin: real, tMax: real, sqrt: real -> real)
    returns (hitAnything: bool, tempRec: HitRecord)
    requires ray.direction != Zero && NonZeroRadii(list)
    ensures HitResult(hitAnything, tempRec) == ListHitSpec(list, ray, tMin, tMax, sqrt)
  {
    tempRec := ZeroRecord;
    hitAnything := false;
    var closestSoFar := tMax;
    for i := 0 to |list|
      invariant HitResult(hitAnything, tempRec) == ListHitSpec(list[..i], ray, tMin, tMax, sqrt)
      invariant closestSoFar == if hitAnything then tempRec.t else tMax
      invariant closestSoFar <= tMax
    {
      assert list[..i + 1][..i] == list[..i];
      var h := Hit(list[i], ray, tMin, closestSoFar, sqrt);
      if h.ok {
        hitAnything := true;
        closestSoFar := h.rec.t;
        tempRec := h.rec;
      }
    }
    assert list[..|list|] == list;
  }

  // ---------------------------------------------------------------------
  // What the scan computes, stated against each object's own hit on the
  // full window [tMin, tMax].

  /** The empty list never reports a hit and returns the zero record. */
  lemma ListHitEmpty(ray: Ray, tMin: real, tMax: real, sqrt: real -> real)
    requires ray.direction != Zero
    ensures ListHitSpec([], ray, tMin, tMax, sqrt) == HitResult(false, ZeroRecord)
  {
  }

  /** The list reports a hit exactly when some object hits on the full window. */
  lemma {:induction false} ListHitAny(list: seq<Sphere>, ray: Ray, tMin: real, tMax: real, sqrt: real -> real)
    requires IsSqrt(sqrt)
    requires ray.direction != Zero && NonZeroRadii(list)
    ensures ListHitSpec(list, ray, tMin, tMax, sqrt).ok <==>
              exists k :: 0 <= k < |list| && Hit(list[k], ray, tMin, tMax, sqrt).ok
    decreases |list|
  {
    if |list| > 0 {
      var init, last := list[..|list| - 1], list[|list| - 1];
      ListHitAny(init, ray, tMin, tMax, sqrt);
      var prev := ListHitSpec(init, ray, tMin, tMax, sqrt);
      var closestSoFar := if prev.ok then prev.rec.t else tMax;
      HitNarrowing(last, ray, tMin, tMax, closestSoFar, sqrt);
      if exists k :: 0 <= k < |list| && Hit(list[k], ray, tMin, tMax, sqrt).ok {
        var k :| 0 <= k < |list| && Hit(list[k], ray, tMin, tMax, sqrt).ok;
        if k < |list| - 1 {
          assert init[k] == list[k];
        }
      }
      if prev.ok {
        var k :| 0 <= k < |init| && Hit(init[k], ray, tMin, tMax, sqrt).ok;
        assert list[k] == init[k];
      }
    }
  }

  /** Closest hit: no object's own hit on the full window is nearer than the reported one. */
  lemma {:induction false} ListHitClosest(list: seq<Sphere>, ray: Ray, tMin: real, tMax: real, sqrt: real -> real)
    requires IsSqrt(sqrt)
    requires ray.direction != Zero && NonZeroRadii(list)
    ensures var res := ListHitSpec(list, ray, tMin, tMax, sqrt);
            forall j :: 0 <= j < |list| && Hit(list[j], ray, tMin, tMax, sqrt).ok ==>
              res.ok && res.rec.t <= Hit(list[j], ray, tMin, tMax, sqrt).rec.t
    decreases |list|
  {
    if |list| > 0 {
      var init, last := list[..|list| - 1], list[|list| - 1];
      ListHitClosest(init, ray, tMin, tMax, sqrt);
      var prev := ListHitSpec(init, ray, tMin, tMax, sqrt);
      var closestSoFar := if prev.ok then prev.rec.t else tMax;
      HitNarrowing(last, ray, tMin, tMax, closestSoFar, sqrt);
      forall j | 0 <= j < |list| - 1
        ensures Hit(list[j], ray, tMin, tMax, sqrt) == Hit(init[j], ray, tMin, tMax, sqrt)
      {
        assert init[j] == list[j];
      }
    }
  }

  /**
    The reported hit is exactly the full-window hit of one object, and among
    objects at the same nearest distance it is the last one: a later object
    replaces an earlier one on a tie, because the window's upper bound is
    inclusive.
   */
  lemma ListHitLastOfClosest(list: seq<Sphere>, ray: Ray, tMin: real, tMax: real, sqrt: real -> real)
    requires IsSqrt(sqrt)
    requires ray.direction != Zero && NonZeroRadii(list)
    ensures var res := ListHitSpec(list, ray, tMin, tMax, sqrt);
            res.ok ==>
              exists k :: 0 <= k < |list| && Hit(list[k], ray, tMin, tMax, sqrt) == res &&
                forall j :: k < j < |list| && Hit(list[j], ray, tMin, tMax, sqrt).ok ==>
                  res.rec.t < Hit(list[j], ray, tMin, tMax, sqrt).rec.t
  {
    if ListHitSpec(list, ray, tMin, tMax, sqrt).ok {
      var k := ReportedIndex(list, ray, tMin, tMax, sqrt);
    }
  }

  /** The index of the object whose hit the scan reports, found by induction on the list. */
  lemma {:induction false} ReportedIndex(list: seq<Sphere>, ray: Ray, tMin: real, tMax: real, sqrt: real -> real)
    returns (k: int)
    requires IsSqrt(sqrt)
    requires ray.direction != Zero && NonZeroRadii(list)
    requires ListHitSpec(list, ray, tMin, tMax, sqrt).ok
    ensures 0 <= k < |list| && Hit(list[k], ray, tMin, tMax, sqrt) == ListHitSpec(list, ray, tMin, tMax, sqrt)
    ensures forall j :: k < j < |list| && Hit(list[j], ray, tMin, tMax, sqrt).ok ==>
              ListHitSpec(list, ray, tMin, tMax, sqrt).rec.t < Hit(list[j], ray, tMin, tMax, sqrt).rec.t
    decreases |list|
  {
    var init, last := list[..|list| - 1], list[|list| - 1];
    var prev := ListHitSpec(init, ray, tMin, tMax, sqrt);
    var closestSoFar := if prev.ok then prev.rec.t else tMax;
    HitNarrowing(last, ray, tMin, tMax, closestSoFar, sqrt);
    if Hit(last, ray, tMin, closestSoFar, sqrt).ok {
      k := |list| - 1;
    } else {
      k := ReportedIndex(init, ray, tMin, tMax, sqrt);
      LaterHitsBeyond(list, init, ray, tMin, tMax, sqrt, k, prev.rec.t);
    }
  }

  /** When no later object of `init` and not the appended last object hits within `bound`, no later object of `list` does. */
  lemma LaterHitsBeyond(list: seq<Sphere>, init: seq<Sphere>, ray: Ray, tMin: real, tMax: real, sqrt: real -> real,
                        k: int, bound: real)
    requires ray.direction != Zero && NonZeroRadii(list)
    requires 0 < |list| && init == list[..|list| - 1] && 0 <= k < |init|
    requires forall j :: k < j < |init| && Hit(init[j], ray, tMin, tMax, sqrt).ok ==>
               bound < Hit(init[j], ray, tMin, tMax, sqrt).rec.t
    requires Hit(list[|list| - 1], ray, tMin, tMax, sqrt).ok ==> bound < Hit(list[|list| - 1], ray, tMin, tMax, sqrt).rec.t
    ensures forall j :: k < j < |list| && Hit(list[j], ray, tMin, tMax, sqrt).ok ==>
              bound < Hit(list[j], ray, tMin, tMax, sqrt).rec.t
  {
    forall j | k < j < |list| - 1
      ensures list[j] == init[j]
    {
    }
  }

  /**
    A reported hit is a well-formed record: its material is that of an object
    of the list and its normal is a unit vector.
   */
  lemma ListHitRecord(list: seq<Sphere>, ray: Ray, tMin: real, tMax: real, sqrt: real -> real)
    requires IsSqrt(sqrt)
    requires ray.direction != Zero && NonZeroRadii(list)
    ensures var res := ListHitSpec(list, ray, tMin, tMax, sqrt);
            res.ok ==> res.rec.normal.LengthSquared() == 1.0 &&
                       exists k :: 0 <= k < |list| && res.rec.material == Some(list[k].material)
  {
    var res := ListHitSpec(list, ray, tMin, tMax, sqrt);
    if res.ok {
      ListHitLastOfClosest(list, ray, tMin, tMax, sqrt);
      var k :| 0 <= k < |list| && Hit(list[k], ray, tMin, tMax, sqrt) == res;
      HitNormalIsUnit(list[k], ray, tMin, tMax, sqrt);
    }
  }
}
