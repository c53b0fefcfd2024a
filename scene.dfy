/**
 * The world of camera/camera.go: an ordered list of hittables kept as a Go
 * slice (a backing array, of which the first len entries are in use), the
 * operations Add and Clear on it, and the closest-hit sweep World.Hit.
 *
 * A hittable is abstract: a total function from a ray and an interval
 * [tMin, tMax] to a hit record and a flag. The sweep never computes with
 * the scalars it gets back, it only passes them on as the next bound.
 */
module Scene {
  import opened Primitives

  /** An entry of the backing array: Nil is the zero interface value. */
  datatype Slot = Nil | Obj(h: Hittable)

  /** The three variables of World.Hit's loop. */
  datatype Sweep = Sweep(out: Hit, found: bool, closest: real)

  /**
   * The state World.Hit reaches after querying items in order: each item
   * is asked with tMin and the scalar of the last accepted hit (at first
   * tMax), and an accepted hit replaces the result and the bound.
   */
  function Scan(items: seq<Hittable>, r: Ray, tMin: real, tMax: real): Sweep
    decreases |items|
  {
    if items == [] then Sweep(NoHit, false, tMax)
    else
      var prev := Scan(items[..|items| - 1], r, tMin, tMax);
      var answer := items[|items| - 1](r, tMin, prev.closest);
      if answer.1 then Sweep(answer.0, true, answer.0.scalar) else prev
  }

  /** What item i answers when the sweep reaches it. */
  function Query(items: seq<Hittable>, r: Ray, tMin: real, tMax: real, i: nat): (Hit, bool)
    requires i < |items|
  {
    items[i](r, tMin, Scan(items[..i], r, tMin, tMax).closest)
  }

  /** Scanning one more item is one more step of the loop. */
  lemma ScanStep(items: seq<Hittable>, r: Ray, tMin: real, tMax: real, i: nat)
    requires i < |items|
    ensures Scan(items[..i + 1], r, tMin, tMax)
         == (var q := Query(items, r, tMin, tMax, i);
             if q.1 then Sweep(q.0, true, q.0.scalar) else Scan(items[..i], r, tMin, tMax))
  {
    assert items[..i + 1][..i] == items[..i];
  }

  /** Queries of a prefix are the queries of the whole list. */
  lemma QueryPrefix(items: seq<Hittable>, r: Ray, tMin: real, tMax: real, n: nat, i: nat)
    requires i < n <= |items|
    ensures Query(items[..n], r, tMin, tMax, i) == Query(items, r, tMin, tMax, i)
  {
    assert items[..n][..i] == items[..i];
  }

  /**
   * Nothing hit: when no item accepts, the result is the zero Hit, the flag
   * is false and the bound is still tMax. This covers the empty world.
   */
  lemma {:induction false} ScanMiss(items: seq<Hittable>, r: Ray, tMin: real, tMax: real)
    requires forall i :: 0 <= i < |items| ==> !Query(items, r, tMin, tMax, i).1
    ensures Scan(items, r, tMin, tMax) == Sweep(NoHit, false, tMax)
    decreases |items|
  {
    if items != [] {
      var n := |items| - 1;
      forall i | 0 <= i < n
        ensures !Query(items[..n], r, tMin, tMax, i).1
      {
        QueryPrefix(items, r, tMin, tMax, n, i);
      }
      ScanMiss(items[..n], r, tMin, tMax);
      assert !Query(items, r, tMin, tMax, n).1;
    }
  }

  /**
   * The flag is set exactly when some item accepted; the hit returned is
   * the one the last accepting item reported, and its scalar is the final
   * bound.
   */
  lemma {:induction false} ScanLastAccepted(items: seq<Hittable>, r: Ray, tMin: real, tMax: real)
    ensures Scan(items, r, tMin, tMax).found
        <==> exists i :: 0 <= i < |items| && Query(items, r, tMin, tMax, i).1
    ensures Scan(items, r, tMin, tMax).found ==>
              exists k :: 0 <= k < |items| && Query(items, r, tMin, tMax, k).1
                && Scan(items, r, tMin, tMax).out == Query(items, r, tMin, tMax, k).0
                && Scan(items, r, tMin, tMax).closest == Query(items, r, tMin, tMax, k).0.scalar
                && forall j :: k < j < |items| ==> !Query(items, r, tMin, tMax, j).1
    decreases |items|
  {
    if items != [] {
      var n := |items| - 1;
      var init := items[..n];
      ScanLastAccepted(init, r, tMin, tMax);
      forall i | 0 <= i < n
        ensures Query(init, r, tMin, tMax, i) == Query(items, r, tMin, tMax, i)
      {
        QueryPrefix(items, r, tMin, tMax, n, i);
      }
      assert init == items[..n];
      if Query(items, r, tMin, tMax, n).1 {
        assert Scan(items, r, tMin, tMax).out == Query(items, r, tMin, tMax, n).0;
      } else if Scan(init, r, tMin, tMax).found {
        var k :| 0 <= k < n && Query(init, r, tMin, tMax, k).1
          && Scan(init, r, tMin, tMax).out == Query(init, r, tMin, tMax, k).0
          && Scan(init, r, tMin, tMax).closest == Query(init, r, tMin, tMax, k).0.scalar
          && forall j :: k < j < n ==> !Query(init, r, tMin, tMax, j).1;
        assert forall j :: k < j < |items| ==> !Query(items, r, tMin, tMax, j).1;
      } else {
        assert forall i :: 0 <= i < |items| ==> !Query(items, r, tMin, tMax, i).1;
      }
    }
  }

  /** A hittable that only reports scalars inside the interval it is asked about. */
  ghost predicate StaysWithin(h: Hittable) {
    forall r: Ray, lo: real, hi: real :: h(r, lo, hi).1 ==> lo <= h(r, lo, hi).0.scalar <= hi
  }

  /**
   * With hittables that stay within their interval, the bound never grows
   * as the sweep goes on, and a hit, when found, lies in [tMin, tMax].
   */
  lemma {:induction false} ScanBounded(items: seq<Hittable>, r: Ray, tMin: real, tMax: real, i: nat)
    requires forall k :: 0 <= k < |items| ==> StaysWithin(items[k])
    requires i <= |items|
    ensures Scan(items, r, tMin, tMax).closest <= Scan(items[..i], r, tMin, tMax).closest <= tMax
    ensures Scan(items, r, tMin, tMax).found ==>
              tMin <= Scan(items, r, tMin, tMax).out.scalar == Scan(items, r, tMin, tMax).closest <= tMax
    decreases |items|
  {
    if items == [] {
      assert items[..i] == items;
    } else {
      var n := |items| - 1;
      var init := items[..n];
      var prev := Scan(init, r, tMin, tMax);
      ScanBounded(init, r, tMin, tMax, if i <= n then i else n);
      assert StaysWithin(items[n]);
      if i == |items| {
        assert items[..i] == items;
      } else {
        assert init[..i] == items[..i];
      }
    }
  }

  /**
   * The contract a sphere keeps: roots is the set of ray parameters at which
   * the ray meets it; asked about [lo, hi] it accepts exactly when a root
   * lies there, and reports the smallest such root.
   */
  ghost predicate ReportsNearest(h: Hittable, r: Ray, roots: set<real>) {
    forall lo: real, hi: real ::
      (h(r, lo, hi).1 <==> exists t :: t in roots && lo <= t <= hi) &&
      (h(r, lo, hi).1 ==>
         h(r, lo, hi).0.scalar in roots && lo <= h(r, lo, hi).0.scalar <= hi &&
         forall t :: t in roots && lo <= t <= hi ==> h(r, lo, hi).0.scalar <= t)
  }

  /** Some item has a root in [lo, hi]. */
  ghost predicate SomeRoot(roots: seq<set<real>>, lo: real, hi: real) {
    exists k, t :: 0 <= k < |roots| && t in roots[k] && lo <= t <= hi
  }

  /** s is no larger than any root in [lo, hi] of any item. */
  ghost predicate BelowAllRoots(roots: seq<set<real>>, lo: real, hi: real, s: real) {
    forall k, t :: 0 <= k < |roots| && t in roots[k] && lo <= t <= hi ==> s <= t
  }

  /**
   * Closest hit: when each item reports its nearest root in the interval it
   * is asked about, the sweep finds a hit exactly when some item has a root
   * in [tMin, tMax], and the scalar returned is the least of those roots.
   */
  lemma {:induction false} ScanNearest(items: seq<Hittable>, roots: seq<set<real>>, r: Ray, tMin: real, tMax: real)
    requires |roots| == |items|
    requires forall k :: 0 <= k < |items| ==> ReportsNearest(items[k], r, roots[k])
    ensures Scan(items, r, tMin, tMax).found <==> SomeRoot(roots, tMin, tMax)
    ensures !Scan(items, r, tMin, tMax).found ==> Scan(items, r, tMin, tMax).closest == tMax
    ensures Scan(items, r, tMin, tMax).found ==>
              Scan(items, r, tMin, tMax).closest == Scan(items, r, tMin, tMax).out.scalar
              && tMin <= Scan(items, r, tMin, tMax).closest <= tMax
              && (exists k :: 0 <= k < |roots| && Scan(items, r, tMin, tMax).closest in roots[k])
              && BelowAllRoots(roots, tMin, tMax, Scan(items, r, tMin, tMax).closest)
    decreases |items|
  {
    if items != [] {
      var n := |items| - 1;
      var prev := Scan(items[..n], r, tMin, tMax);
      ScanNearest(items[..n], roots[..n], r, tMin, tMax);
      NearestStep(roots[..n], roots[n], prev.found, prev.closest, tMin, tMax,
                  items[n](r, tMin, prev.closest), r, items[n]);
      assert roots[..n] + [roots[n]] == roots;
    }
  }

  /** The induction step of ScanNearest, for the last item h with roots last. */
  lemma NearestStep(init: seq<set<real>>, last: set<real>, found: bool, bound: real,
                    tMin: real, tMax: real, answer: (Hit, bool), r: Ray, h: Hittable)
    requires ReportsNearest(h, r, last) && answer == h(r, tMin, bound)
    requires found <==> SomeRoot(init, tMin, tMax)
    requires !found ==> bound == tMax
    requires found ==> tMin <= bound <= tMax && BelowAllRoots(init, tMin, tMax, bound)
                       && exists k :: 0 <= k < |init| && bound in init[k]
    ensures (answer.1 || found) <==> SomeRoot(init + [last], tMin, tMax)
    ensures answer.1 ==>
              tMin <= answer.0.scalar <= tMax && answer.0.scalar in last
              && BelowAllRoots(init + [last], tMin, tMax, answer.0.scalar)
    ensures !answer.1 && found ==>
              BelowAllRoots(init + [last], tMin, tMax, bound)
              && exists k :: 0 <= k < |init + [last]| && bound in (init + [last])[k]
  {
    var all := init + [last];
    assert forall k :: 0 <= k < |init| ==> all[k] == init[k];
    assert all[|init|] == last;
    if answer.1 {
      var s := answer.0.scalar;
      assert s in last && tMin <= s <= bound;
      forall k, t | 0 <= k < |all| && t in all[k] && tMin <= t <= tMax
        ensures s <= t
      {
        if k < |init| {
          assert found;
        } else if t > bound {
        } else {
          assert t in last && tMin <= t <= bound;
        }
      }
      assert SomeRoot(all, tMin, tMax) by {
        assert 0 <= |init| < |all| && s in all[|init|] && tMin <= s <= tMax;
      }
    } else {
      assert !exists t :: t in last && tMin <= t <= bound;
      if found {
        var k0 :| 0 <= k0 < |init| && bound in init[k0];
        assert bound in all[k0];
        assert SomeRoot(all, tMin, tMax) by {
          assert 0 <= k0 < |all| && bound in all[k0] && tMin <= bound <= tMax;
        }
        forall k, t | 0 <= k < |all| && t in all[k] && tMin <= t <= tMax
          ensures bound <= t
        {
          if k == |init| {
            assert t in last;
          }
        }
      } else {
        assert !SomeRoot(all, tMin, tMax);
      }
    }
  }

  /**
   * Ties go to the later item: if s is the least root in [tMin, tMax] and k
   * is the last item having s as a root, the hit returned is the one item k
   * reported, even when earlier items also have s as a root, because item k
   * is asked with a bound of at least s and no later item accepts.
   */
  lemma ScanTieGoesLater(items: seq<Hittable>, roots: seq<set<real>>, r: Ray, tMin: real, tMax: real,
                         k: nat, s: real)
    requires |roots| == |items| && k < |items|
    requires forall j :: 0 <= j < |items| ==> ReportsNearest(items[j], r, roots[j])
    requires s in roots[k] && tMin <= s <= tMax && BelowAllRoots(roots, tMin, tMax, s)
    requires forall j :: k < j < |items| ==> s !in roots[j]
    ensures Scan(items, r, tMin, tMax).found && Scan(items, r, tMin, tMax).closest == s
    ensures Query(items, r, tMin, tMax, k).1
    ensures Scan(items, r, tMin, tMax).out == Query(items, r, tMin, tMax, k).0
    ensures forall i :: k < i < |items| ==> !Query(items, r, tMin, tMax, i).1
  {
    var fin := Scan(items, r, tMin, tMax);
    ScanNearest(items, roots, r, tMin, tMax);
    assert SomeRoot(roots, tMin, tMax);
    var m :| 0 <= m < |roots| && fin.closest in roots[m];
    assert fin.closest == s;

    var pre := Scan(items[..k], r, tMin, tMax);
    ScanNearest(items[..k], roots[..k], r, tMin, tMax);
    if pre.found {
      var m' :| 0 <= m' < k && pre.closest in roots[..k][m'];
      assert roots[..k][m'] == roots[m'];
    }
    assert s <= pre.closest;
    assert ReportsNearest(items[k], r, roots[k]);
    assert Query(items, r, tMin, tMax, k).1;

    ScanLastAccepted(items, r, tMin, tMax);
    var j :| 0 <= j < |items| && Query(items, r, tMin, tMax, j).1
      && fin.out == Query(items, r, tMin, tMax, j).0
      && fin.closest == Query(items, r, tMin, tMax, j).0.scalar
      && forall i :: j < i < |items| ==> !Query(items, r, tMin, tMax, i).1;
    assert ReportsNearest(items[j], r, roots[j]);
    assert s in roots[j];
    assert j == k;
  }

  /** The scene: a slice of hittables, modelled as its backing array and length. */
  class World {
    var slots: array<Slot>
    var len: nat
    /** The hittables in the slice, in order. */
    ghost var elems: seq<Hittable>

    ghost predicate Valid()
      reads this, slots
    {
      len <= slots.Length && |elems| == len &&
      forall i :: 0 <= i < len ==> slots[i] == Obj(elems[i])
    }

    /** The empty world: a nil slice. */
    constructor ()
      ensures Valid() && elems == []
    {
      slots := new Slot[0];
      len := 0;
      elems := [];
    }

    /** A world literal: the hittables listed, in order. */
    constructor Of(hs: seq<Hittable>)
      ensures Valid() && elems == hs
    {
      slots := new Slot[|hs|](i requires 0 <= i < |hs| => Obj(hs[i]));
      len := |hs|;
      elems := hs;
    }

    /**
     * append(*this, a): the new hittable goes at the end and the earlier
     * ones stay. Within the capacity it is stored in the same backing array;
     * past it the entries move to a new, larger array.
     */
    method Add(a: Hittable)
      requires Valid()
      modifies this, slots
      ensures Valid() && elems == old(elems) + [a]
      ensures old(len) < old(slots.Length) ==> slots == old(slots)
      ensures old(len) == old(slots.Length) ==> fresh(slots)
    {
      if len == slots.Length {
        var grown := new Slot[2 * slots.Length + 1];
        forall i | 0 <= i < len {
          grown[i] := slots[i];
        }
        slots := grown;
      }
      slots[len] := Obj(a);
      len := len + 1;
      elems := elems + [a];
    }

    /**
     * Clear: every entry in use is set to nil, then the slice is cut to
     * length 0 over the same backing array.
     */
    method Clear()
      requires Valid()
      modifies this, slots
      ensures Valid() && elems == [] && slots == old(slots)
      ensures forall i :: 0 <= i < old(len) ==> slots[i] == Nil
      ensures forall i :: old(len) <= i < slots.Length ==> slots[i] == old(slots[i])
    {
      var i := 0;
      while i < len
        invariant 0 <= i <= len <= slots.Length
        invariant forall j :: 0 <= j < i ==> slots[j] == Nil
        invariant forall j :: i <= j < slots.Length ==> slots[j] == old(slots[j])
        modifies slots
      {
        slots[i] := Nil;
        i := i + 1;
      }
      len := 0;
      elems := [];
    }

    /**
     * World.Hit: asks each hittable in order with tMin and the closest
     * accepted scalar so far, and returns the last accepted hit and whether
     * there was one.
     */
    method Hit(r: Ray, tMin: real, tMax: real) returns (out: Primitives.Hit, hitAnything: bool)
      requires Valid()
      ensures out == Scan(elems, r, tMin, tMax).out
      ensures hitAnything == Scan(elems, r, tMin, tMax).found
    {
      var closestSoFar := tMax;
      hitAnything := false;
      out := NoHit;
      var i := 0;
      while i < len
        invariant 0 <= i <= len
        invariant Scan(elems[..i], r, tMin, tMax) == Sweep(out, hitAnything, closestSoFar)
      {
        var hittable := slots[i].h;
        var answer := hittable(r, tMin, closestSoFar);
        ScanStep(elems, r, tMin, tMax, i);
        if answer.1 {
          hitAnything := true;
          closestSoFar := answer.0.scalar;
          out := answer.0;
        }
        i := i + 1;
      }
      assert elems[..i] == elems;
    }
  }
}
