/** Plane geometry of the 800 x 600 playfield: vectors, the field rectangle,
    the three boundary policies and the square-root-free distance test. */
module Geometry {

  /** The playfield is the closed rectangle [0, WIDTH] x [0, HEIGHT]. */
  const WIDTH: real := 800.0
  const HEIGHT: real := 600.0

  datatype Vec = Vec(x: real, y: real)

  const ZERO: Vec := Vec(0.0, 0.0)

  function Add(a: Vec, b: Vec): Vec
  {
    Vec(a.x + b.x, a.y + b.y)
  }

  function Scale(a: Vec, k: real): Vec
  {
    Vec(a.x * k, a.y * k)
  }

  /** Squared Euclidean distance: the radicand of the sqrtf calls. */
  function Dist2(a: Vec, b: Vec): real
  {
    (a.x - b.x) * (a.x - b.x) + (a.y - b.y) * (a.y - b.y)
  }

  /** Moving by `t` covers the squared length of `t`. */
  lemma Dist2Moved(v: Vec, t: Vec)
    ensures Dist2(Add(v, t), v) == t.x * t.x + t.y * t.y
  {
    assert Add(v, t).x - v.x == t.x && Add(v, t).y - v.y == t.y;
  }

  predicate InField(p: Vec)
  {
    0.0 <= p.x <= WIDTH && 0.0 <= p.y <= HEIGHT
  }

  /** The comparison `sqrtf(d2) < r`, written without the square root. */
  predicate Closer(d2: real, r: real)
  {
    0.0 < r && d2 < r * r
  }

  /** Closer agrees with comparing the (non-negative) square root itself,
      for every possible radius: a negative or zero radius is never hit, and a
      point at distance exactly r is not closer than r. */
  lemma CloserIsRootLess(d2: real, root: real, r: real)
    requires 0.0 <= root && root * root == d2
    ensures Closer(d2, r) <==> root < r
  {
    assert r * r - root * root == (r - root) * (r + root);
    if root < r {
      PosMul(r - root, r + root);
    } else if 0.0 < r {
      NonNegMul(root - r, root + r);
    }
  }

  /** A point closer than r to a centre lies strictly within r of it on each axis. */
  lemma CloserBounds(dx: real, dy: real, r: real)
    ensures Closer(dx * dx + dy * dy, r) ==> -r < dx < r && -r < dy < r
  {
    if Closer(dx * dx + dy * dy, r) {
      SquareNonNeg(dx);
      SquareNonNeg(dy);
      if !(-r < dx < r) {
        SquareExceeds(dx, r);
      }
      if !(-r < dy < r) {
        SquareExceeds(dy, r);
      }
    }
  }

  lemma SquareNonNeg(x: real)
    ensures 0.0 <= x * x
  {
    if x < 0.0 {
      NonNegMul(-x, -x);
    } else {
      NonNegMul(x, x);
    }
  }

  lemma SquareExceeds(x: real, r: real)
    requires 0.0 < r && (r <= x || x <= -r)
    ensures r * r <= x * x
  {
    assert x * x - r * r == (x - r) * (x + r);
    if r <= x {
      NonNegMul(x - r, x + r);
    } else {
      assert (r - x) * (-r - x) == (x - r) * (x + r);
      NonNegMul(r - x, -r - x);
    }
  }

  lemma PosMul(a: real, b: real)
    requires 0.0 < a && 0.0 < b
    ensures 0.0 < a * b
  {
  }

  lemma NonNegMul(a: real, b: real)
    requires 0.0 <= a && 0.0 <= b
    ensures 0.0 <= a * b
  {
  }

  /** Asteroid wrap-around on one axis: leaving past the far wall re-enters at
      0, leaving below 0 re-enters at the far wall. */
  function Wrap(c: real, hi: real): (r: real)
    requires 0.0 <= hi
    ensures 0.0 <= r <= hi
    ensures 0.0 <= c <= hi ==> r == c
    ensures c > hi ==> r == 0.0
    ensures c < 0.0 ==> r == hi
  {
    var c1 := if c > hi then 0.0 else c;
    if c1 < 0.0 then hi else c1
  }

  /** Ship wall stop on one axis: a coordinate outside [0, hi] is moved onto the
      wall it crossed. */
  function Confine(c: real, hi: real): (r: real)
    requires 0.0 <= hi
    ensures 0.0 <= r <= hi
    ensures r == c <==> 0.0 <= c <= hi
    ensures c < 0.0 ==> r == 0.0
    ensures c > hi ==> r == hi
  {
    var c1 := if c < 0.0 then 0.0 else c;
    if c1 > hi then hi else c1
  }
}
