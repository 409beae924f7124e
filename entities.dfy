/** The three entity kinds of the game, the asteroid radius table, and the
    random draws that spawning consumes. */
module Entities {
  import opened Geometry

  const MAX_ASTEROIDS: nat := 8
  const MAX_SHOTS: nat := 10

  /** One slot of the asteroid pool; `active` is the slot's only existence marker. */
  datatype Asteroid = Asteroid(pos: Vec, vel: Vec, size: int, radius: real, active: bool)

  /** One slot of the projectile pool. */
  datatype Shot = Shot(pos: Vec, vel: Vec, active: bool)

  /** The player's ship; `rotation` is in degrees, 0 pointing up. */
  datatype Ship = Ship(pos: Vec, vel: Vec, rotation: real, accel: Vec, active: bool)

  /** A slot as zero-initialised storage leaves it before the first reset. */
  const EMPTY_ASTEROID: Asteroid := Asteroid(ZERO, ZERO, 0, 0.0, false)
  const EMPTY_SHOT: Shot := Shot(ZERO, ZERO, false)

  /** Results of `GetRandomValue(-15, 15)`: one velocity component in tenths. */
  type Tenths = t: int | -15 <= t <= 15
  /** Results of `GetRandomValue(-10, 10)`: one offset of a split child. */
  type Offset = o: int | -10 <= o <= 10
  /** Results of `GetRandomValue(0, 800)` and `GetRandomValue(0, 600)`. */
  type XCoord = x: int | 0 <= x <= 800
  type YCoord = y: int | 0 <= y <= 600

  /** The draws one fresh large asteroid consumes: its position, then the two
      velocity components drawn inside the asteroid constructor. */
  datatype SpawnDraw = SpawnDraw(x: XCoord, y: YCoord, vx: Tenths, vy: Tenths)

  /** The draws one split child consumes: its offset from the struck
      asteroid, then its two velocity components. */
  datatype SplitDraw = SplitDraw(dx: Offset, dy: Offset, vx: Tenths, vy: Tenths)

  /** Collision radius by size class: 3 is large, 2 medium, 1 small; any other
      class falls back to 20. */
  function Radius(size: int): (r: real)
    ensures 15.0 <= r <= 40.0
  {
    match size
    case 3 => 40.0
    case 2 => 25.0
    case 1 => 15.0
    case _ => 20.0
  }

  /** The asteroid the constructor writes into a slot: the given position and
      size class, the radius from the table, a velocity whose components are
      the drawn tenths, and the slot active. */
  function NewAsteroid(pos: Vec, size: int, vx: Tenths, vy: Tenths): (a: Asteroid)
    ensures a.active && a.pos == pos && a.size == size && a.radius == Radius(size)
    ensures -1.5 <= a.vel.x <= 1.5 && -1.5 <= a.vel.y <= 1.5
    ensures a.vel.x * 10.0 == vx as real && a.vel.y * 10.0 == vy as real
  {
    Asteroid(pos, Vec(vx as real / 10.0, vy as real / 10.0), size, Radius(size), true)
  }

  /** A fresh large asteroid at a random point of the field. */
  function Spawned(d: SpawnDraw): (a: Asteroid)
    ensures a.active && a.size == 3 && a.radius == 40.0 && InField(a.pos)
    ensures a.pos == Vec(d.x as real, d.y as real)
  {
    NewAsteroid(Vec(d.x as real, d.y as real), 3, d.vx, d.vy)
  }

  /** A split child of the given size class near the struck asteroid's centre. */
  function Child(parent: Vec, size: int, d: SplitDraw): (a: Asteroid)
    ensures a.active && a.size == size && a.radius == Radius(size)
    ensures -10.0 <= a.pos.x - parent.x <= 10.0 && -10.0 <= a.pos.y - parent.y <= 10.0
  {
    NewAsteroid(Vec(parent.x + d.dx as real, parent.y + d.dy as real), size, d.vx, d.vy)
  }
}
