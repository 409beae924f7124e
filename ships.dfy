/** Ship controls and physics constants: the direction the held keys give,
    thrust, damping, the speed limit, and the respawn state. */
module Ships {
  import opened Geometry
  import opened Entities

  const THRUST: real := 0.3
  const DAMPING: real := 0.95
  const MAX_SPEED: real := 5.0
  /** Centre of the field, where the ship starts and respawns. */
  const CENTER: Vec := Vec(400.0, 300.0)

  /** The movement keys held during a frame: W, S, A, D. */
  datatype Keys = Keys(up: bool, down: bool, left: bool, right: bool)

  /** The raw direction the keys give, with the code's signs: the up key adds
      +1 to y and the down key -1, left adds -1 to x and right +1. */
  function Direction(k: Keys): (d: Vec)
    ensures d == ZERO <==> (k.up == k.down && k.left == k.right)
    ensures d.y > 0.0 <==> (k.up && !k.down)
    ensures d.x > 0.0 <==> (k.right && !k.left)
    ensures d.y < 0.0 <==> (k.down && !k.up)
    ensures d.x < 0.0 <==> (k.left && !k.right)
    ensures d.x in {-1.0, 0.0, 1.0} && d.y in {-1.0, 0.0, 1.0}
  {
    var y := (if k.up then 1.0 else 0.0) - (if k.down then 1.0 else 0.0);
    var x := (if k.right then 1.0 else 0.0) - (if k.left then 1.0 else 0.0);
    Vec(x, y)
  }

  /** `u` is the unit vector pointing the same way as the non-zero `d`: what
      dividing `d` by its length yields. */
  predicate UnitAlong(u: Vec, d: Vec)
  {
    u.x * u.x + u.y * u.y == 1.0 && u.x * d.y == u.y * d.x && 0.0 < u.x * d.x + u.y * d.y
  }

  /** The acceleration the keys give: thrust along the unit direction, or none.
      It is non-zero exactly while a direction is held, and then lies on the
      line of the keys' direction, pointing the same way. */
  function Thrust(k: Keys, unit: Vec): (r: Vec)
    requires Direction(k) != ZERO ==> UnitAlong(unit, Direction(k))
    ensures r == ZERO <==> Direction(k) == ZERO
    ensures Direction(k) != ZERO ==> 0.0 < r.x * Direction(k).x + r.y * Direction(k).y
    ensures r.x * Direction(k).y == r.y * Direction(k).x
  {
    if Direction(k) == ZERO then ZERO
    else
      ThrustAlong(unit, Direction(k));
      Scale(unit, THRUST)
  }

  /** Thrust along a vector on the line of `d` that points the way of `d`
      stays on that line and points the way of `d` too. */
  lemma ThrustAlong(u: Vec, d: Vec)
    requires 0.0 < u.x * d.x + u.y * d.y && u.x * d.y == u.y * d.x
    ensures var r := Scale(u, THRUST); r != ZERO && 0.0 < r.x * d.x + r.y * d.y
    ensures var r := Scale(u, THRUST); r.x * d.y == r.y * d.x
  {
    ScaledProduct(u.x, THRUST, d.x);
    ScaledProduct(u.y, THRUST, d.y);
    ScaledProduct(u.x, THRUST, d.y);
    ScaledProduct(u.y, THRUST, d.x);
  }

  lemma ScaledProduct(a: real, c: real, b: real)
    ensures (a * c) * b == c * (a * b)
  {
  }

  /** While a direction key is held, the acceleration has length THRUST
      whatever the direction; otherwise it is zero. */
  lemma ThrustMagnitude(k: Keys, unit: Vec)
    requires Direction(k) != ZERO ==> UnitAlong(unit, Direction(k))
    ensures var a := Thrust(k, unit);
      a.x * a.x + a.y * a.y == if Direction(k) == ZERO then 0.0 else THRUST * THRUST
  {
    if Direction(k) != ZERO {
      ScaledSquare(unit.x, THRUST);
      ScaledSquare(unit.y, THRUST);
    }
  }

  lemma ScaledSquare(x: real, c: real)
    ensures (x * c) * (x * c) == c * c * (x * x)
  {
  }

  /** The ship's velocity before the speed limit: with no key held it is damped,
      so the speed never grows; otherwise the thrust is added to it, so it moves
      by exactly THRUST. */
  function DriveVelocity(s: Ship, k: Keys, unit: Vec): (r: Vec)
    requires Direction(k) != ZERO ==> UnitAlong(unit, Direction(k))
    ensures Direction(k) == ZERO ==> Dist2(r, ZERO) <= Dist2(s.vel, ZERO)
    ensures Direction(k) != ZERO ==> Dist2(r, s.vel) == THRUST * THRUST
  {
    if Direction(k) == ZERO then
      ScaledSquare(s.vel.x, DAMPING);
      ScaledSquare(s.vel.y, DAMPING);
      Scale(s.vel, DAMPING)
    else
      var t := Thrust(k, unit);
      ThrustMagnitude(k, unit);
      Dist2Moved(s.vel, t);
      Add(s.vel, t)
  }

  /** One velocity component cut to the speed limit. */
  function ClampSpeed(v: real): (r: real)
    ensures -MAX_SPEED <= r <= MAX_SPEED
    ensures -MAX_SPEED <= v <= MAX_SPEED ==> r == v
    ensures v > MAX_SPEED ==> r == MAX_SPEED
    ensures v < -MAX_SPEED ==> r == -MAX_SPEED
  {
    var v1 := if v > MAX_SPEED then MAX_SPEED else v;
    if v1 < -MAX_SPEED then -MAX_SPEED else v1
  }

  predicate SpeedLimited(v: Vec)
  {
    -MAX_SPEED <= v.x <= MAX_SPEED && -MAX_SPEED <= v.y <= MAX_SPEED
  }

  /** The ship put back at the centre at rest after losing a life. */
  function Respawned(s: Ship): (r: Ship)
    ensures r.pos == CENTER && r.vel == ZERO && r.accel == ZERO && r.rotation == 0.0
    ensures r.active == s.active && InField(r.pos) && SpeedLimited(r.vel)
  {
    s.(pos := CENTER, vel := ZERO, accel := ZERO, rotation := 0.0)
  }
}
