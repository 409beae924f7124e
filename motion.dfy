/** Per-frame motion of asteroids and projectiles: asteroids wrap around the
    field, projectiles leave it and are switched off. */
module Motion {
  import opened Geometry
  import opened Entities

  /** An asteroid after one frame of drift: moved by its velocity, then
      wrapped onto the opposite edge on each axis it left the field on. */
  function Drifted(a: Asteroid): (r: Asteroid)
    ensures InField(r.pos)
    ensures r.vel == a.vel && r.size == a.size && r.radius == a.radius && r.active == a.active
    ensures InField(Add(a.pos, a.vel)) ==> r.pos == Add(a.pos, a.vel)
    ensures a.pos.x + a.vel.x > WIDTH ==> r.pos.x == 0.0
    ensures a.pos.x + a.vel.x < 0.0 ==> r.pos.x == WIDTH
    ensures a.pos.y + a.vel.y > HEIGHT ==> r.pos.y == 0.0
    ensures a.pos.y + a.vel.y < 0.0 ==> r.pos.y == HEIGHT
    ensures 0.0 <= a.pos.x + a.vel.x <= WIDTH ==> r.pos.x == a.pos.x + a.vel.x
    ensures 0.0 <= a.pos.y + a.vel.y <= HEIGHT ==> r.pos.y == a.pos.y + a.vel.y
  {
    a.(pos := Vec(Wrap(a.pos.x + a.vel.x, WIDTH), Wrap(a.pos.y + a.vel.y, HEIGHT)))
  }

  /** A projectile after one frame of flight: moved by its velocity, and still
      active exactly when it is inside the closed field (the boundary counts as
      inside). */
  function Travelled(s: Shot): (r: Shot)
    requires s.active
    ensures r.pos == Add(s.pos, s.vel) && r.vel == s.vel
    ensures r.active <==> InField(r.pos)
  {
    var p := Add(s.pos, s.vel);
    s.(pos := p, active := !(p.x < 0.0 || p.x > WIDTH || p.y < 0.0 || p.y > HEIGHT))
  }
}
