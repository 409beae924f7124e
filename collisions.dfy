/** The projectile-versus-asteroid pass as functions on pool values: which
    asteroid a projectile strikes, where the split children go, and what a whole
    pass over the projectile pool does to both pools and to the score. */
module Collisions {
  import opened Geometry
  import opened Entities
  import opened Pools

  /** Score for each asteroid destroyed. */
  const POINTS: int := 100
  /** Children a split tries to place. */
  const CHILDREN_PER_SPLIT: nat := 2

  /** The random draws one split consumes, one per child. */
  datatype ChildDraws = ChildDraws(first: SplitDraw, second: SplitDraw)

  function DrawFor(p: ChildDraws, k: nat): SplitDraw
  {
    if k == 0 then p.first else p.second
  }

  function Min(a: int, b: int): int
  {
    if a <= b then a else b
  }

  /** Slot l was free before and holds an asteroid after. */
  predicate Born(s: seq<Asteroid>, r: seq<Asteroid>, l: nat)
    requires l < |s| && l < |r|
  {
    !s[l].active && r[l].active
  }

  /** `q` lies within the split offset range of `p` on both axes. */
  predicate Near(q: Vec, p: Vec)
  {
    -10.0 <= q.x - p.x <= 10.0 && -10.0 <= q.y - p.y <= 10.0
  }

  /** One child goes into the lowest free slot; with no free slot, none is placed. */
  function PlaceChild(s: seq<Asteroid>, parent: Vec, size: int, d: SplitDraw): (r: seq<Asteroid>)
    ensures |r| == |s|
  {
    match FirstFree(s)
    case None => s
    case Some(l) => s[l := Child(parent, size, d)]
  }

  /** The pool after the first k children of a split have been placed. */
  function Children(s: seq<Asteroid>, parent: Vec, size: int, p: ChildDraws, k: nat): (r: seq<Asteroid>)
    ensures |r| == |s|
  {
    if k == 0 then s
    else PlaceChild(Children(s, parent, size, p, k - 1), parent, size, DrawFor(p, k - 1))
  }

  /** The pool after asteroid j is struck: a size class above 1 first places
      its children, then the struck slot is switched off. */
  function Split(s: seq<Asteroid>, j: nat, p: ChildDraws): (r: seq<Asteroid>)
    requires j < |s|
    ensures |r| == |s|
  {
    var a := s[j];
    var t := if a.size > 1 then Children(s, a.pos, a.size - 1, p, CHILDREN_PER_SPLIT) else s;
    t[j := t[j].(active := false)]
  }

  /** Slots that no child was placed in are as they were. */
  predicate Untouched(s: seq<Asteroid>, r: seq<Asteroid>)
    requires |r| == |s|
  {
    forall l :: 0 <= l < |s| && !Born(s, r, l) ==> r[l] == s[l]
  }

  /** Every newly occupied slot holds a child of the given size near the parent. */
  predicate ChildrenFit(s: seq<Asteroid>, r: seq<Asteroid>, parent: Vec, size: int)
    requires |r| == |s|
  {
    forall l :: 0 <= l < |s| && Born(s, r, l) ==>
      r[l].size == size && r[l].radius == Radius(size) && Near(r[l].pos, parent)
  }

  /** The newly occupied slots are the lowest free ones: a free slot that stays
      free has no newly occupied slot above it. */
  predicate LowestFirst(s: seq<Asteroid>, r: seq<Asteroid>)
    requires |r| == |s|
  {
    forall l, m :: 0 <= m < l < |s| && Born(s, r, l) && !s[m].active ==> r[m].active
  }

  /** One placement keeps all three properties, relative to the pool before
      the first placement. */
  lemma PlaceChildStep(s: seq<Asteroid>, q: seq<Asteroid>, parent: Vec, size: int, d: SplitDraw)
    requires |q| == |s| && Untouched(s, q) && ChildrenFit(s, q, parent, size) && LowestFirst(s, q)
    ensures var r := PlaceChild(q, parent, size, d);
      Untouched(s, r) && ChildrenFit(s, r, parent, size) && LowestFirst(s, r)
  {
    var r := PlaceChild(q, parent, size, d);
    match FirstFree(q)
    case None =>
    case Some(f) =>
      assert !s[f].active;
      forall l, m | 0 <= m < l < |s| && Born(s, r, l) && !s[m].active
        ensures r[m].active
      {
        if l != f {
          assert Born(s, q, l);
          assert q[m].active;
        }
      }
  }

  /** One placement adds one asteroid exactly when a slot is free. */
  lemma PlaceChildCount(q: seq<Asteroid>, parent: Vec, size: int, d: SplitDraw)
    ensures CountActive(PlaceChild(q, parent, size, d)) == if CountActive(q) < |q| then CountActive(q) + 1 else CountActive(q)
  {
    FreeIffNotFull(q);
    var r := PlaceChild(q, parent, size, d);
    var n := CountActive(q);
    match FirstFree(q)
    case None =>
      assert r == q;
      assert n == |q|;
    case Some(f) =>
      var c := Child(parent, size, d);
      assert r == q[f := c];
      CountActiveUpdate(q, f, c);
      assert Indicator(q[f].active) == 0;
      assert Indicator(c.active) == 1;
      assert CountActive(r) == n + 1;
      assert n < |q|;
  }

  /** Placing k children: slots no child went into are untouched, the newly
      occupied slots are the lowest free ones, each holds a child of the given
      size near the parent, and min(k, free slots) of them are placed. */
  lemma {:induction false} ChildrenSpec(s: seq<Asteroid>, parent: Vec, size: int, p: ChildDraws, k: nat)
    ensures var r := Children(s, parent, size, p, k);
      && Untouched(s, r) && ChildrenFit(s, r, parent, size) && LowestFirst(s, r)
      && CountActive(r) == CountActive(s) + Min(k, |s| - CountActive(s))
  {
    if k > 0 {
      var q := Children(s, parent, size, p, k - 1);
      ChildrenSpec(s, parent, size, p, k - 1);
      PlaceChildStep(s, q, parent, size, DrawFor(p, k - 1));
      PlaceChildCount(q, parent, size, DrawFor(p, k - 1));
    }
  }

  /** A struck asteroid: it is switched off and never overwritten, active
      slots are untouched, children of the next size class down go into the
      lowest free slots near it, min(2, free slots) of them for a size class
      above 1 and none otherwise. */
  lemma SplitSpec(s: seq<Asteroid>, j: nat, p: ChildDraws)
    requires j < |s| && s[j].active
    ensures var r := Split(s, j, p); var a := s[j];
      && r[j] == a.(active := false)
      && (forall l :: 0 <= l < |s| && l != j && !Born(s, r, l) ==> r[l] == s[l])
      && (forall l :: 0 <= l < |s| && Born(s, r, l) ==>
            a.size > 1 && r[l].size == a.size - 1 && r[l].radius == Radius(a.size - 1) && Near(r[l].pos, a.pos))
      && (forall l, m :: 0 <= m < l < |s| && Born(s, r, l) && !s[m].active ==> Born(s, r, m))
      && CountActive(r) == CountActive(s) - 1
           + (if a.size > 1 then Min(CHILDREN_PER_SPLIT, |s| - CountActive(s)) else 0)
  {
    var a := s[j];
    var t := if a.size > 1 then Children(s, a.pos, a.size - 1, p, CHILDREN_PER_SPLIT) else s;
    if a.size > 1 {
      ChildrenSpec(s, a.pos, a.size - 1, p, CHILDREN_PER_SPLIT);
    }
    assert t[j] == a;
    CountActiveUpdate(t, j, a.(active := false));
  }

  /** What one active or inactive projectile does to the asteroid pool. */
  datatype ShotOutcome = ShotOutcome(asteroids: seq<Asteroid>, shot: Shot, points: int)

  /** An active projectile strikes the lowest-index asteroid it hits, if any:
      the projectile is switched off, the asteroid split, and POINTS scored. */
  function ResolveShot(s: seq<Asteroid>, shot: Shot, p: ChildDraws): (o: ShotOutcome)
    ensures |o.asteroids| == |s|
    ensures o.shot.pos == shot.pos && o.shot.vel == shot.vel
  {
    if !shot.active then ShotOutcome(s, shot, 0)
    else match FirstHit(s, shot.pos, 0.0)
      case None => ShotOutcome(s, shot, 0)
      case Some(j) => ShotOutcome(Split(s, j, p), shot.(active := false), POINTS)
  }

  /** A strike keeps every slot's size class valid. */
  lemma ResolveShotWellSized(s: seq<Asteroid>, shot: Shot, p: ChildDraws)
    requires WellSized(s)
    ensures WellSized(ResolveShot(s, shot, p).asteroids)
  {
    var h := FirstHit(s, shot.pos, 0.0);
    if shot.active && h.Some? {
      SplitSpec(s, h.value, p);
    }
  }

  /** Exactly one asteroid is destroyed, the first one hit, and POINTS scored,
      when the projectile is active and hits something; otherwise nothing
      changes and nothing is scored. The pool stays well sized. */
  lemma ResolveShotSpec(s: seq<Asteroid>, shot: Shot, p: ChildDraws)
    ensures var o := ResolveShot(s, shot, p); var h := FirstHit(s, shot.pos, 0.0);
      && (o.points == POINTS <==> shot.active && h.Some?)
      && (o.points == 0 <==> !(shot.active && h.Some?))
      && (o.shot.active <==> shot.active && h.None?)
      && (!(shot.active && h.Some?) ==> o.asteroids == s)
      && (forall l :: 0 <= l < |s| && s[l].active && !o.asteroids[l].active ==>
            shot.active && h == Some(l))
      && (shot.active && h.Some? ==> !o.asteroids[h.value].active)
      && (shot.active && h.Some? ==> o.asteroids == Split(s, h.value, p))
      && (WellSized(s) ==> WellSized(o.asteroids))
  {
    var h := FirstHit(s, shot.pos, 0.0);
    if shot.active && h.Some? {
      SplitSpec(s, h.value, p);
    }
    if WellSized(s) {
      ResolveShotWellSized(s, shot, p);
    }
  }

  /** Where a strike puts the children: the projectile lies strictly within
      the struck asteroid's radius of its centre, so every child placed lies
      strictly within that radius plus the split offset of the projectile. */
  lemma ChildrenNearShot(s: seq<Asteroid>, shot: Shot, p: ChildDraws)
    ensures var o := ResolveShot(s, shot, p); var h := FirstHit(s, shot.pos, 0.0);
      shot.active && h.Some? ==>
        var reach := s[h.value].radius + 10.0;
        forall l :: 0 <= l < |s| && Born(s, o.asteroids, l) ==>
          && -reach < o.asteroids[l].pos.x - shot.pos.x < reach
          && -reach < o.asteroids[l].pos.y - shot.pos.y < reach
  {
    var h := FirstHit(s, shot.pos, 0.0);
    if shot.active && h.Some? {
      var a := s[h.value];
      HitsNearby(a, shot.pos, 0.0);
      SplitSpec(s, h.value, p);
    }
  }

  /** Both pools and the points scored after the first n projectiles of the
      pass, each against the asteroid pool the earlier ones left behind. */
  datatype Volley = Volley(asteroids: seq<Asteroid>, shots: seq<Shot>, points: int)

  function ResolveShots(s: seq<Asteroid>, shots: seq<Shot>, draws: seq<ChildDraws>, n: nat): (v: Volley)
    requires n <= |shots| <= |draws|
    ensures |v.asteroids| == |s| && |v.shots| == |shots|
    ensures forall k :: n <= k < |shots| ==> v.shots[k] == shots[k]
    decreases n
  {
    if n == 0 then Volley(s, shots, 0)
    else
      var v := ResolveShots(s, shots, draws, n - 1);
      var o := ResolveShot(v.asteroids, shots[n - 1], draws[n - 1]);
      Volley(o.asteroids, v.shots[n - 1 := o.shot], v.points + o.points)
  }

  /** The number of projectiles among the first n that the pass switched off. */
  function Spent(before: seq<Shot>, after: seq<Shot>, n: nat): nat
    requires n <= |before| && n <= |after|
  {
    if n == 0 then 0
    else Spent(before, after, n - 1) + Indicator(before[n - 1].active && !after[n - 1].active)
  }

  lemma {:induction false} SpentAgree(before: seq<Shot>, a: seq<Shot>, b: seq<Shot>, n: nat)
    requires n <= |before| && n <= |a| && n <= |b|
    requires forall k :: 0 <= k < n ==> a[k] == b[k]
    ensures Spent(before, a, n) == Spent(before, b, n)
  {
    if n > 0 {
      SpentAgree(before, a, b, n - 1);
    }
  }

  /** Adding whole multiples of POINTS keeps a score's remainder. */
  lemma {:induction false} AddPoints(score: int, total: int, k: nat)
    requires total == score + POINTS * k
    ensures total % POINTS == score % POINTS
    decreases k
  {
    if k > 0 {
      AddPoints(score, total - POINTS, k - 1);
    }
  }

  /** One projectile scores POINTS exactly when it is spent on an asteroid,
      and nothing otherwise. */
  lemma ResolveShotScore(s: seq<Asteroid>, shot: Shot, p: ChildDraws)
    ensures var o := ResolveShot(s, shot, p);
      o.points == POINTS * Indicator(shot.active && !o.shot.active)
  {
  }

  /** Over a pass, the score grows by exactly POINTS per projectile spent on an
      asteroid, so by between nothing and POINTS per projectile. */
  lemma {:induction false} ResolveShotsPoints(s: seq<Asteroid>, shots: seq<Shot>, draws: seq<ChildDraws>, n: nat)
    requires n <= |shots| <= |draws|
    ensures var v := ResolveShots(s, shots, draws, n);
      && v.points == POINTS * Spent(shots, v.shots, n)
      && 0 <= v.points <= POINTS * n
  {
    if n > 0 {
      var u := ResolveShots(s, shots, draws, n - 1);
      var v := ResolveShots(s, shots, draws, n);
      ResolveShotsPoints(s, shots, draws, n - 1);
      ResolveShotScore(u.asteroids, shots[n - 1], draws[n - 1]);
      SpentAgree(shots, u.shots, v.shots, n - 1);
      assert u.shots[n - 1] == shots[n - 1];
    }
  }

  /** Over a pass no projectile is switched on and the pool stays well sized. */
  lemma {:induction false} ResolveShotsPools(s: seq<Asteroid>, shots: seq<Shot>, draws: seq<ChildDraws>, n: nat)
    requires n <= |shots| <= |draws|
    ensures var v := ResolveShots(s, shots, draws, n);
      && (forall k :: 0 <= k < |shots| && v.shots[k].active ==> shots[k].active)
      && (WellSized(s) ==> WellSized(v.asteroids))
  {
    if n > 0 {
      var u := ResolveShots(s, shots, draws, n - 1);
      ResolveShotsPools(s, shots, draws, n - 1);
      ResolveShotSpec(u.asteroids, shots[n - 1], draws[n - 1]);
      assert u.shots[n - 1] == shots[n - 1];
    }
  }

  /** The whole pass: points, projectiles and pool together. */
  lemma ResolveShotsSpec(s: seq<Asteroid>, shots: seq<Shot>, draws: seq<ChildDraws>, n: nat)
    requires n <= |shots| <= |draws|
    ensures var v := ResolveShots(s, shots, draws, n);
      && v.points == POINTS * Spent(shots, v.shots, n)
      && 0 <= v.points <= POINTS * n
      && (forall k :: 0 <= k < |shots| && v.shots[k].active ==> shots[k].active)
      && (WellSized(s) ==> WellSized(v.asteroids))
  {
    ResolveShotsPoints(s, shots, draws, n);
    ResolveShotsPools(s, shots, draws, n);
  }
}
