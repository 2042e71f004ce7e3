/** The scene: an ordered list of spheres queried for the closest hit
    (RTIOW/libs/hittable_list.h).

    `hit` walks the objects in order with an interval whose upper end is
    the closest distance found so far, so each accepted hit is strictly
    nearer than the previous one.  The result is the hit of the first object
    attaining the smallest distance. */
module HittableLists {
  import opened Common
  import opened Vectors
  import opened Intervals
  import opened Rays
  import opened Hittable
  import Spheres

  datatype HittableList<M> = HittableList(objects: seq<Spheres.Sphere<M>>)

  /** Every sphere of the scene has a non-zero radius, so that its outward
      normal is defined. */
  predicate ValidObjects<M>(objects: seq<Spheres.Sphere<M>>) {
    forall i :: 0 <= i < |objects| ==> objects[i].radius != 0.0
  }

  /** `hittable_list()` */
  function Empty<M>(): (world: HittableList<M>)
    ensures |world.objects| == 0
  {
    HittableList([])
  }

  /** `hittable_list(object)` */
  function FromObject<M>(obj: Spheres.Sphere<M>): (world: HittableList<M>)
    ensures world.objects == [obj]
  {
    Add(Empty(), obj)
  }

  /** `clear()`: removes every object. */
  function Clear<M>(world: HittableList<M>): (world': HittableList<M>)
    ensures |world'.objects| == 0
  {
    HittableList([])
  }

  /** `add(object)`: the existing objects keep their order and the new one
      comes last. */
  function Add<M>(world: HittableList<M>, obj: Spheres.Sphere<M>): (world': HittableList<M>)
    ensures |world'.objects| == |world.objects| + 1
    ensures world'.objects[..|world.objects|] == world.objects
    ensures world'.objects[|world.objects|] == obj
  {
    HittableList(world.objects + [obj])
  }

  // -----------------------------------------------------------------------
  // The scan performed by `hit`.

  /** The loop state of `hit`: whether anything was hit, the upper end of
      the search interval, and the record to be returned. */
  datatype Scan<M> = Scan(hitAnything: bool, closestSoFar: Bound, rec: HitRecord<M>)

  /** One iteration: query `obj` over `(rayT.min, closestSoFar)` and, on a
      hit, take its record and make its distance the new upper end. */
  function Visit<M>(m: MathLib, obj: Spheres.Sphere<M>, r: Ray, rayT: Interval, st: Scan<M>): (st': Scan<M>)
    requires obj.radius != 0.0
    ensures st'.hitAnything <==> st.hitAnything || st' != st
    ensures st' != st ==> st'.closestSoFar == Finite(st'.rec.t) && Below(st'.rec.t, st.closestSoFar)
  {
    match Spheres.Hit(m, obj, r, Interval(rayT.min, st.closestSoFar))
    case Some(tempRec) => Scan(true, Finite(tempRec.t), tempRec)
    case None => st
  }

  /** The state after visiting `objects` in order, starting from no hit, the
      full interval, and the caller's record `rec`. */
  function ScanAll<M>(m: MathLib, objects: seq<Spheres.Sphere<M>>, r: Ray, rayT: Interval, rec: HitRecord<M>): Scan<M>
    requires ValidObjects(objects)
    decreases |objects|
  {
    if |objects| == 0 then Scan(false, rayT.max, rec)
    else
      var n := |objects| - 1;
      Visit(m, objects[n], r, rayT, ScanAll(m, objects[..n], r, rayT, rec))
  }

  /** The hit of object `k` over the whole interval. */
  function FullHit<M>(m: MathLib, objects: seq<Spheres.Sphere<M>>, r: Ray, rayT: Interval, k: int): Option<HitRecord<M>>
    requires ValidObjects(objects) && 0 <= k < |objects|
  {
    Spheres.Hit(m, objects[k], r, rayT)
  }

  /** `h` is the full-interval hit of object `k`, every earlier object misses
      or hits strictly farther, and every later one misses or hits no nearer. */
  ghost predicate FirstClosest<M>(m: MathLib, objects: seq<Spheres.Sphere<M>>, r: Ray, rayT: Interval, k: int, h: HitRecord<M>)
    requires ValidObjects(objects)
  {
    && 0 <= k < |objects|
    && FullHit(m, objects, r, rayT, k) == Some(h)
    && (forall j :: 0 <= j < k ==>
          FullHit(m, objects, r, rayT, j).None? || h.t < FullHit(m, objects, r, rayT, j).value.t)
    && (forall j :: k < j < |objects| ==>
          FullHit(m, objects, r, rayT, j).None? || h.t <= FullHit(m, objects, r, rayT, j).value.t)
  }

  /** Some object hits over the whole interval. */
  ghost predicate AnyHit<M>(m: MathLib, objects: seq<Spheres.Sphere<M>>, r: Ray, rayT: Interval)
    requires ValidObjects(objects)
  {
    exists k :: 0 <= k < |objects| && FullHit(m, objects, r, rayT, k).Some?
  }

  /** What the scan state promises after visiting `objects`: a hit is
      reported exactly when some object is hit, the caller's record is left
      alone otherwise, and else the record is the hit of the first object at
      the smallest distance, whose distance is the interval's upper end. */
  ghost predicate ScanCorrect<M>(m: MathLib, objects: seq<Spheres.Sphere<M>>, r: Ray, rayT: Interval, rec: HitRecord<M>, st: Scan<M>)
    requires ValidObjects(objects)
  {
    && (st.hitAnything <==> AnyHit(m, objects, r, rayT))
    && (!st.hitAnything ==> st.closestSoFar == rayT.max && st.rec == rec)
    && (st.hitAnything ==>
          st.closestSoFar == Finite(st.rec.t) &&
          exists k :: FirstClosest(m, objects, r, rayT, k, st.rec))
  }

  /** The closest-hit property of the scan, by induction on the number of
      objects visited. */
  lemma {:induction false} ScanFindsFirstClosest<M>(m: MathLib, objects: seq<Spheres.Sphere<M>>, r: Ray, rayT: Interval, rec: HitRecord<M>)
    requires Lawful(m) && ValidObjects(objects)
    ensures ScanCorrect(m, objects, r, rayT, rec, ScanAll(m, objects, r, rayT, rec))
    decreases |objects|
  {
    if |objects| == 0 {
      return;
    }
    var n := |objects| - 1;
    ScanFindsFirstClosest(m, objects[..n], r, rayT, rec);
    if ScanAll(m, objects[..n], r, rayT, rec).hitAnything {
      VisitAfterHit(m, objects, r, rayT, rec);
    } else {
      VisitAfterMiss(m, objects, r, rayT, rec);
    }
  }

  /** The hits of the objects before the last are those of the prefix. */
  lemma PrefixHits<M>(m: MathLib, objects: seq<Spheres.Sphere<M>>, r: Ray, rayT: Interval)
    requires ValidObjects(objects) && 0 < |objects|
    ensures ValidObjects(objects[..|objects| - 1])
    ensures forall j :: 0 <= j < |objects| - 1 ==>
      FullHit(m, objects[..|objects| - 1], r, rayT, j) == FullHit(m, objects, r, rayT, j)
  {
    var prefix := objects[..|objects| - 1];
    assert forall j :: 0 <= j < |prefix| ==> prefix[j] == objects[j];
  }

  /** Visiting the last object when nothing before it was hit. */
  lemma VisitAfterMiss<M>(m: MathLib, objects: seq<Spheres.Sphere<M>>, r: Ray, rayT: Interval, rec: HitRecord<M>)
    requires ValidObjects(objects) && 0 < |objects|
    requires var n := |objects| - 1;
      var st0 := ScanAll(m, objects[..n], r, rayT, rec);
      ScanCorrect(m, objects[..n], r, rayT, rec, st0) && !st0.hitAnything
    ensures ScanCorrect(m, objects, r, rayT, rec, ScanAll(m, objects, r, rayT, rec))
  {
    var n := |objects| - 1;
    PrefixHits(m, objects, r, rayT);
    var st0 := ScanAll(m, objects[..n], r, rayT, rec);
    var st := ScanAll(m, objects, r, rayT, rec);
    assert Interval(rayT.min, st0.closestSoFar) == rayT;
    assert !AnyHit(m, objects[..n], r, rayT);
    if FullHit(m, objects, r, rayT, n).Some? {
      assert FirstClosest(m, objects, r, rayT, n, st.rec);
    } else {
      assert forall k :: 0 <= k < |objects| ==> FullHit(m, objects, r, rayT, k).None?;
    }
  }

  /** Visiting the last object after an earlier hit at distance `c`: the
      narrowed query accepts it only when it is strictly nearer than `c`. */
  lemma VisitAfterHit<M>(m: MathLib, objects: seq<Spheres.Sphere<M>>, r: Ray, rayT: Interval, rec: HitRecord<M>)
    requires Lawful(m) && ValidObjects(objects) && 0 < |objects|
    requires var n := |objects| - 1;
      var st0 := ScanAll(m, objects[..n], r, rayT, rec);
      ScanCorrect(m, objects[..n], r, rayT, rec, st0) && st0.hitAnything
    ensures ScanCorrect(m, objects, r, rayT, rec, ScanAll(m, objects, r, rayT, rec))
  {
    var n := |objects| - 1;
    PrefixHits(m, objects, r, rayT);
    var st0 := ScanAll(m, objects[..n], r, rayT, rec);
    var st := ScanAll(m, objects, r, rayT, rec);
    var full := FullHit(m, objects, r, rayT, n);
    var k0 :| FirstClosest(m, objects[..n], r, rayT, k0, st0.rec);
    assert FullHit(m, objects, r, rayT, k0) == Some(st0.rec);
    Spheres.HitNarrowed(m, objects[n], r, rayT, st0.rec.t);
    assert AnyHit(m, objects, r, rayT);
    if full.Some? && full.value.t < st0.rec.t {
      assert st.rec == full.value;
      NearerLastWins(m, objects, r, rayT, k0, st0.rec);
    } else {
      assert st == st0;
      FirstClosestExtends(m, objects, r, rayT, k0, st0.rec);
    }
  }

  /** A last object hit strictly nearer than the closest hit of the others
      becomes the first closest. */
  lemma NearerLastWins<M>(m: MathLib, objects: seq<Spheres.Sphere<M>>, r: Ray, rayT: Interval, k0: int, h0: HitRecord<M>)
    requires ValidObjects(objects) && 0 < |objects|
    requires var n := |objects| - 1;
      forall j :: 0 <= j < n ==> FullHit(m, objects[..n], r, rayT, j) == FullHit(m, objects, r, rayT, j)
    requires FirstClosest(m, objects[..|objects| - 1], r, rayT, k0, h0)
    requires var h := FullHit(m, objects, r, rayT, |objects| - 1); h.Some? && h.value.t < h0.t
    ensures FirstClosest(m, objects, r, rayT, |objects| - 1, FullHit(m, objects, r, rayT, |objects| - 1).value)
  {
  }

  /** A last object that misses, or is hit no nearer than the closest hit
      of the others, leaves the first closest where it was. */
  lemma FirstClosestExtends<M>(m: MathLib, objects: seq<Spheres.Sphere<M>>, r: Ray, rayT: Interval, k0: int, h0: HitRecord<M>)
    requires ValidObjects(objects) && 0 < |objects|
    requires var n := |objects| - 1;
      forall j :: 0 <= j < n ==> FullHit(m, objects[..n], r, rayT, j) == FullHit(m, objects, r, rayT, j)
    requires FirstClosest(m, objects[..|objects| - 1], r, rayT, k0, h0)
    requires var h := FullHit(m, objects, r, rayT, |objects| - 1); h.None? || h0.t <= h.value.t
    ensures FirstClosest(m, objects, r, rayT, k0, h0)
  {
  }

  /** `hit`, as the loop of the source.  On a miss the caller's record comes
      back unchanged; on a hit it is the hit of the first object at the
      smallest distance, which lies strictly inside the interval. */
  method Hit<M>(m: MathLib, world: HittableList<M>, r: Ray, rayT: Interval, rec: HitRecord<M>)
    returns (hitAnything: bool, rec': HitRecord<M>)
    requires Lawful(m) && ValidObjects(world.objects)
    ensures hitAnything <==> AnyHit(m, world.objects, r, rayT)
    ensures !hitAnything ==> rec' == rec
    ensures hitAnything ==> exists k :: FirstClosest(m, world.objects, r, rayT, k, rec')
    ensures hitAnything ==> rayT.Surrounds(rec'.t)
  {
    var objects := world.objects;
    hitAnything := false;
    var closestSoFar := rayT.max;
    rec' := rec;
    for i := 0 to |objects|
      invariant ScanAll(m, objects[..i], r, rayT, rec) == Scan(hitAnything, closestSoFar, rec')
    {
      assert objects[..i + 1][..i] == objects[..i];
      var tempRec := Spheres.Hit(m, objects[i], r, Interval(rayT.min, closestSoFar));
      if tempRec.Some? {
        hitAnything := true;
        closestSoFar := Finite(tempRec.value.t);
        rec' := tempRec.value;
      }
    }
    assert objects[..|objects|] == objects;
    ScanFindsFirstClosest(m, objects, r, rayT, rec);
    if hitAnything {
      ghost var k :| FirstClosest(m, objects, r, rayT, k, rec');
    }
  }

  /** The scan's answer is the nearest surface point of the whole scene
      strictly inside the interval: nothing is reported exactly when no
      sphere has such a point, and a reported hit lies on one of the
      spheres no farther than any point of any sphere in the interval. */
  lemma ScanIsNearestInScene<M>(m: MathLib, objects: seq<Spheres.Sphere<M>>, r: Ray, rayT: Interval, rec: HitRecord<M>)
    requires Lawful(m) && ValidObjects(objects)
    requires 0.0 < LengthSquared(r.direction)
    ensures var st := ScanAll(m, objects, r, rayT, rec);
      && (!st.hitAnything <==>
            forall j, t :: 0 <= j < |objects| && rayT.Surrounds(t) ==> !Spheres.OnSphere(objects[j], At(r, t)))
      && (st.hitAnything ==>
            && st.rec.p == At(r, st.rec.t)
            && (exists k :: 0 <= k < |objects| && Spheres.OnSphere(objects[k], st.rec.p))
            && forall j, t :: 0 <= j < |objects| && rayT.Surrounds(t) && Spheres.OnSphere(objects[j], At(r, t)) ==>
                 st.rec.t <= t)
  {
    var st := ScanAll(m, objects, r, rayT, rec);
    ScanFindsFirstClosest(m, objects, r, rayT, rec);
    forall j | 0 <= j < |objects|
      ensures FullHit(m, objects, r, rayT, j).None? <==>
        forall t :: rayT.Surrounds(t) ==> !Spheres.OnSphere(objects[j], At(r, t))
      ensures FullHit(m, objects, r, rayT, j).Some? ==>
        forall t :: rayT.Surrounds(t) && Spheres.OnSphere(objects[j], At(r, t)) ==>
          FullHit(m, objects, r, rayT, j).value.t <= t
    {
      Spheres.HitIsNearest(m, objects[j], r, rayT);
    }
    if st.hitAnything {
      var k :| FirstClosest(m, objects, r, rayT, k, st.rec);
      Spheres.HitIsOnSphere(m, objects[k], r, rayT);
      forall j, t | 0 <= j < |objects| && rayT.Surrounds(t) && Spheres.OnSphere(objects[j], At(r, t))
        ensures st.rec.t <= t
      {
        assert FullHit(m, objects, r, rayT, j).Some?;
      }
    }
  }

  // -----------------------------------------------------------------------
  // How the list operations change the answer.

  /** An empty (or cleared) scene is never hit, and the caller's record is
      returned untouched. */
  lemma ClearedSceneMisses<M>(m: MathLib, world: HittableList<M>, r: Ray, rayT: Interval, rec: HitRecord<M>)
    ensures ScanAll(m, Clear(world).objects, r, rayT, rec) == Scan(false, rayT.max, rec)
  {
  }

  /** A scene of one sphere answers exactly as that sphere does. */
  lemma SingleObjectScene<M>(m: MathLib, obj: Spheres.Sphere<M>, r: Ray, rayT: Interval, rec: HitRecord<M>)
    requires obj.radius != 0.0
    ensures var st := ScanAll(m, FromObject(obj).objects, r, rayT, rec);
      match Spheres.Hit(m, obj, r, rayT)
      case Some(h) => st == Scan(true, Finite(h.t), h)
      case None => st == Scan(false, rayT.max, rec)
  {
    var objects := FromObject(obj).objects;
    assert objects[..0] == [];
    assert Interval(rayT.min, rayT.max) == rayT;
  }

  /** Adding a sphere changes the answer only if the new sphere is hit
      strictly nearer than the previous answer; a tie keeps the earlier
      object. */
  lemma AddedObjectWinsOnlyIfNearer<M>(m: MathLib, world: HittableList<M>, obj: Spheres.Sphere<M>, r: Ray, rayT: Interval, rec: HitRecord<M>)
    requires Lawful(m) && ValidObjects(world.objects) && obj.radius != 0.0
    ensures ValidObjects(Add(world, obj).objects)
    ensures var before := ScanAll(m, world.objects, r, rayT, rec);
      var after := ScanAll(m, Add(world, obj).objects, r, rayT, rec);
      var own := Spheres.Hit(m, obj, r, rayT);
      after == if own.Some? && (!before.hitAnything || own.value.t < before.rec.t)
               then Scan(true, Finite(own.value.t), own.value)
               else before
  {
    var objects := Add(world, obj).objects;
    assert objects[..|world.objects|] == world.objects;
    var before := ScanAll(m, world.objects, r, rayT, rec);
    ScanFindsFirstClosest(m, world.objects, r, rayT, rec);
    if before.hitAnything {
      var k :| FirstClosest(m, world.objects, r, rayT, k, before.rec);
      Spheres.HitNarrowed(m, obj, r, rayT, before.rec.t);
    } else {
      assert Interval(rayT.min, before.closestSoFar) == rayT;
    }
  }
}
