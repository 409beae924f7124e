/** The fixed-capacity slot pools: free-slot scans in slot order, the population
    count, and the first asteroid in slot order that a point touches. */
module Pools {
  import opened Geometry
  import opened Entities

  datatype Option<T> = None | Some(value: T)

  /** The lowest-index inactive asteroid slot, if there is one. */
  function FirstFree(s: seq<Asteroid>): (r: Option<nat>)
    ensures r.Some? ==> r.value < |s| && !s[r.value].active
    ensures r.Some? ==> forall k :: 0 <= k < r.value ==> s[k].active
    ensures r.None? <==> forall k :: 0 <= k < |s| ==> s[k].active
  {
    if |s| == 0 then None
    else if !s[0].active then Some(0)
    else match FirstFree(s[1..])
      case None => None
      case Some(k) => Some(k + 1)
  }

  /** The lowest-index inactive projectile slot, if there is one. */
  function FirstFreeShot(s: seq<Shot>): (r: Option<nat>)
    ensures r.Some? ==> r.value < |s| && !s[r.value].active
    ensures r.Some? ==> forall k :: 0 <= k < r.value ==> s[k].active
    ensures r.None? <==> forall k :: 0 <= k < |s| ==> s[k].active
  {
    if |s| == 0 then None
    else if !s[0].active then Some(0)
    else match FirstFreeShot(s[1..])
      case None => None
      case Some(k) => Some(k + 1)
  }

  function Indicator(b: bool): nat
  {
    if b then 1 else 0
  }

  /** The number of active asteroid slots. */
  function CountActive(s: seq<Asteroid>): (n: nat)
    ensures n <= |s|
  {
    if |s| == 0 then 0
    else CountActive(s[..|s| - 1]) + Indicator(s[|s| - 1].active)
  }

  /** The pool is fully populated exactly when every slot is active. */
  lemma {:induction false} CountActiveFull(s: seq<Asteroid>)
    ensures CountActive(s) == |s| <==> forall k :: 0 <= k < |s| ==> s[k].active
  {
    if |s| > 0 {
      var n := |s| - 1;
      CountActiveFull(s[..n]);
      assert forall k :: 0 <= k < n ==> s[..n][k] == s[k];
    }
  }

  /** Overwriting one slot changes the count by the change of that slot's flag. */
  lemma {:induction false} CountActiveUpdate(s: seq<Asteroid>, i: nat, a: Asteroid)
    requires i < |s|
    ensures CountActive(s[i := a]) == CountActive(s) - Indicator(s[i].active) + Indicator(a.active)
  {
    var t := s[i := a];
    var n := |s| - 1;
    if i == n {
      assert t[..n] == s[..n];
    } else {
      assert t[..n] == s[..n][i := a];
      CountActiveUpdate(s[..n], i, a);
    }
  }

  /** The count over a prefix grows by the flag of the next slot. */
  lemma CountActivePrefix(s: seq<Asteroid>, i: nat)
    requires i < |s|
    ensures CountActive(s[..i + 1]) == CountActive(s[..i]) + Indicator(s[i].active)
  {
    assert s[..i + 1][..i] == s[..i];
  }

  /** A free slot exists exactly when the pool is not fully populated. */
  lemma FreeIffNotFull(s: seq<Asteroid>)
    ensures FirstFree(s).Some? <==> CountActive(s) < |s|
  {
    CountActiveFull(s);
  }

  /** Every slot holds one of the three size classes with its tabled radius. */
  predicate WellSized(s: seq<Asteroid>)
  {
    forall l :: 0 <= l < |s| ==> 1 <= s[l].size <= 3 && s[l].radius == Radius(s[l].size)
  }

  /** Asteroid `a` is active and the point `p` lies strictly closer to its
      centre than its radius plus the tolerance `tol`. */
  predicate Hits(a: Asteroid, p: Vec, tol: real)
  {
    a.active && Closer(Dist2(p, a.pos), a.radius + tol)
  }

  /** Only an active asteroid with a positive reach is hit, and only by a point
      strictly inside the square of that reach around its centre. */
  lemma HitsNearby(a: Asteroid, p: Vec, tol: real)
    ensures Hits(a, p, tol) ==> a.active && 0.0 < a.radius + tol
    ensures Hits(a, p, tol) ==>
      -(a.radius + tol) < p.x - a.pos.x < a.radius + tol && -(a.radius + tol) < p.y - a.pos.y < a.radius + tol
  {
    CloserBounds(p.x - a.pos.x, p.y - a.pos.y, a.radius + tol);
  }

  /** The lowest-index asteroid that the point `p` hits with tolerance `tol`. */
  function FirstHit(s: seq<Asteroid>, p: Vec, tol: real): (r: Option<nat>)
    ensures r.Some? ==> r.value < |s| && Hits(s[r.value], p, tol)
    ensures r.Some? ==> forall k :: 0 <= k < r.value ==> !Hits(s[k], p, tol)
    ensures r.None? <==> forall k :: 0 <= k < |s| ==> !Hits(s[k], p, tol)
  {
    if |s| == 0 then None
    else if Hits(s[0], p, tol) then Some(0)
    else match FirstHit(s[1..], p, tol)
      case None => None
      case Some(k) => Some(k + 1)
  }
}
