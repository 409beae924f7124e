/** The game session: one ship, the asteroid and projectile pools, score and
    lives, and the operations that make up one frame. */
module Game {
  import opened Geometry
  import opened Entities
  import opened Pools
  import opened Collisions
  import opened Motion
  import opened Ships
  import opened Frame

  class Session {
    const asteroids: array<Asteroid>
    const shots: array<Shot>
    var ship: Ship
    var score: int
    var lives: int

    /** The pools have their fixed capacities. */
    ghost predicate Sized()
      reads this
    {
      asteroids.Length == MAX_ASTEROIDS && shots.Length == MAX_SHOTS
    }

    /** The session's state as a value. */
    ghost function Snapshot(): State
      reads this, asteroids, shots
    {
      State(ship, asteroids[..], shots[..], score, lives)
    }

    /** The session invariant: the pools have their capacities and the state
        is valid (Frame.ValidState). */
    ghost predicate Valid()
      reads this, asteroids, shots
    {
      Sized() && ValidState(Snapshot())
    }

    /** Program start: zero-initialised storage, then a reset. */
    constructor (spawns: seq<SpawnDraw>)
      requires |spawns| == MAX_ASTEROIDS
      ensures Valid() && fresh(asteroids) && fresh(shots)
      ensures ship == Ship(CENTER, ZERO, 0.0, ZERO, true) && score == 0 && lives == INITIAL_LIVES
      ensures forall i :: 0 <= i < MAX_ASTEROIDS ==> asteroids[i] == Spawned(spawns[i])
      ensures forall i :: 0 <= i < MAX_SHOTS ==> shots[i] == EMPTY_SHOT
    {
      asteroids := new Asteroid[MAX_ASTEROIDS](_ => EMPTY_ASTEROID);
      shots := new Shot[MAX_SHOTS](_ => EMPTY_SHOT);
      ship := Ship(ZERO, ZERO, 0.0, ZERO, false);
      score := 0;
      lives := INITIAL_LIVES;
      new;
      Reset(spawns);
    }

    /** Restart: the ship at the centre at rest and alive, score 0, three lives,
        every asteroid slot a fresh large asteroid, every projectile off. */
    method Reset(spawns: seq<SpawnDraw>)
      requires Sized() && |spawns| == MAX_ASTEROIDS
      modifies this, asteroids, shots
      ensures Valid()
      ensures ship == Ship(CENTER, ZERO, 0.0, ZERO, true) && score == 0 && lives == INITIAL_LIVES
      ensures forall i :: 0 <= i < MAX_ASTEROIDS ==> asteroids[i] == Spawned(spawns[i])
      ensures forall i :: 0 <= i < MAX_SHOTS ==> shots[i] == old(shots[i]).(active := false)
    {
      ship := Ship(CENTER, ZERO, 0.0, ZERO, true);
      score := 0;
      lives := INITIAL_LIVES;
      for i := 0 to MAX_ASTEROIDS
        invariant ship == Ship(CENTER, ZERO, 0.0, ZERO, true) && score == 0 && lives == INITIAL_LIVES
        invariant forall k :: 0 <= k < i ==> asteroids[k] == Spawned(spawns[k])
        invariant forall k :: 0 <= k < MAX_SHOTS ==> shots[k] == old(shots[k])
      {
        var d := spawns[i];
        CreateAsteroid(i, Vec(d.x as real, d.y as real), 3, d.vx, d.vy);
      }
      for i := 0 to MAX_SHOTS
        invariant ship == Ship(CENTER, ZERO, 0.0, ZERO, true) && score == 0 && lives == INITIAL_LIVES
        invariant forall k :: 0 <= k < MAX_ASTEROIDS ==> asteroids[k] == Spawned(spawns[k])
        invariant forall k :: 0 <= k < i ==> shots[k] == old(shots[k]).(active := false)
        invariant forall k :: i <= k < MAX_SHOTS ==> shots[k] == old(shots[k])
      {
        shots[i] := shots[i].(active := false);
      }
    }

    /** Writes a new asteroid of the given size class into slot `index`
        (velocity components `vx`, `vy` in tenths); no other slot changes. */
    method CreateAsteroid(index: nat, pos: Vec, size: int, vx: Tenths, vy: Tenths)
      requires index < asteroids.Length
      modifies asteroids
      ensures asteroids[..] == old(asteroids[..])[index := NewAsteroid(pos, size, vx, vy)]
    {
      asteroids[index] := NewAsteroid(pos, size, vx, vy);
    }

    /** Ship physics for one frame. */
    method UpdateShip(keys: Keys, unit: Vec, heading: real)
      requires Valid()
      requires Direction(keys) != ZERO ==> UnitAlong(unit, Direction(keys))
      modifies this
      ensures Valid()
      ensures ship.active == old(ship.active) && score == old(score) && lives == old(lives)
      ensures ship == ShipStep(old(ship), keys, unit, heading)
      ensures Snapshot() == ShipPhase(old(Snapshot()), keys, unit, heading)
      ensures ship.accel == Thrust(keys, unit)
      ensures ship.rotation == if Direction(keys) == ZERO then old(ship.rotation) else heading
      ensures var v := DriveVelocity(old(ship), keys, unit);
        var moved := Vec(old(ship.pos.x) + ClampSpeed(v.x), old(ship.pos.y) + ClampSpeed(v.y));
        && ship.pos == Vec(Confine(moved.x, WIDTH), Confine(moved.y, HEIGHT))
        && ship.vel.x == (if 0.0 <= moved.x <= WIDTH then ClampSpeed(v.x) else 0.0)
        && ship.vel.y == (if 0.0 <= moved.y <= HEIGHT then ClampSpeed(v.y) else 0.0)
      ensures InField(ship.pos) && SpeedLimited(ship.vel)
      ensures Direction(keys) == ZERO ==>
        ship.accel == ZERO && DriveVelocity(old(ship), keys, unit) == Scale(old(ship.vel), DAMPING)
    {
      var dir := Direction(keys);
      var s := ship;
      if dir != ZERO {
        s := s.(accel := Scale(unit, THRUST), rotation := heading);
      } else {
        s := s.(accel := ZERO, vel := Scale(s.vel, DAMPING));
      }
      var vx, vy := s.vel.x + s.accel.x, s.vel.y + s.accel.y;
      if vx > MAX_SPEED { vx := MAX_SPEED; }
      if vx < -MAX_SPEED { vx := -MAX_SPEED; }
      if vy > MAX_SPEED { vy := MAX_SPEED; }
      if vy < -MAX_SPEED { vy := -MAX_SPEED; }
      var px, py := s.pos.x + vx, s.pos.y + vy;
      if px < 0.0 {
        px, vx := 0.0, 0.0;
      }
      if px > WIDTH {
        px, vx := WIDTH, 0.0;
      }
      if py < 0.0 {
        py, vy := 0.0, 0.0;
      }
      if py > HEIGHT {
        py, vy := HEIGHT, 0.0;
      }
      ship := s.(pos := Vec(px, py), vel := Vec(vx, vy));
      assert ship == ShipStep(old(ship), keys, unit, heading);
      assert Snapshot() == old(Snapshot()).(ship := ship);
    }

    /** A fire event: the lowest-index free projectile slot, if any, starts at
        the ship's position with velocity `vel`; with no free slot nothing
        changes. */
    method Fire(vel: Vec)
      requires Valid()
      modifies shots
      ensures Valid()
      ensures shots[..] == Fired(old(shots[..]), ship.pos, vel)
      ensures Snapshot() == FirePhase(old(Snapshot()), vel)
      ensures match FirstFreeShot(old(shots[..]))
        case None => shots[..] == old(shots[..])
        case Some(i) => shots[..] == old(shots[..])[i := Shot(ship.pos, vel, true)]
    {
      for i := 0 to MAX_SHOTS
        invariant forall k :: 0 <= k < i ==> shots[k].active
        invariant shots[..] == old(shots[..])
      {
        if !shots[i].active {
          shots[i] := Shot(ship.pos, vel, true);
          break;
        }
      }
    }

    /** Every active asteroid drifts and wraps around; free slots are untouched. */
    method AdvanceAsteroids()
      requires Valid()
      modifies asteroids
      ensures Valid()
      ensures asteroids[..] == DriftAll(old(asteroids[..]))
      ensures Snapshot() == DriftPhase(old(Snapshot()))
      ensures forall i :: 0 <= i < MAX_ASTEROIDS ==>
        asteroids[i] == if old(asteroids[i].active) then Drifted(old(asteroids[i])) else old(asteroids[i])
      ensures forall i :: 0 <= i < MAX_ASTEROIDS && asteroids[i].active ==> InField(asteroids[i].pos)
    {
      for i := 0 to MAX_ASTEROIDS
        invariant forall k :: 0 <= k < i ==>
          asteroids[k] == if old(asteroids[k].active) then Drifted(old(asteroids[k])) else old(asteroids[k])
        invariant forall k :: i <= k < MAX_ASTEROIDS ==> asteroids[k] == old(asteroids[k])
      {
        if !asteroids[i].active {
          continue;
        }
        var a := asteroids[i];
        var x, y := a.pos.x + a.vel.x, a.pos.y + a.vel.y;
        if x > WIDTH { x := 0.0; }
        if x < 0.0 { x := WIDTH; }
        if y > HEIGHT { y := 0.0; }
        if y < 0.0 { y := HEIGHT; }
        asteroids[i] := a.(pos := Vec(x, y));
      }
      assert forall k :: 0 <= k < MAX_ASTEROIDS ==>
        asteroids[..][k].size == old(asteroids[..])[k].size && asteroids[..][k].radius == old(asteroids[..])[k].radius;
    }

    /** Every active projectile flies on and is switched off once it is outside
        the closed field; free slots are untouched. */
    method AdvanceShots()
      requires Valid()
      modifies shots
      ensures Valid()
      ensures shots[..] == TravelAll(old(shots[..]))
      ensures Snapshot() == FlightPhase(old(Snapshot()))
      ensures forall i :: 0 <= i < MAX_SHOTS ==>
        shots[i] == if old(shots[i].active) then Travelled(old(shots[i])) else old(shots[i])
    {
      for i := 0 to MAX_SHOTS
        invariant forall k :: 0 <= k < i ==>
          shots[k] == if old(shots[k].active) then Travelled(old(shots[k])) else old(shots[k])
        invariant forall k :: i <= k < MAX_SHOTS ==> shots[k] == old(shots[k])
      {
        if !shots[i].active {
          continue;
        }
        var p := Add(shots[i].pos, shots[i].vel);
        shots[i] := shots[i].(pos := p);
        if p.x < 0.0 || p.x > WIDTH || p.y < 0.0 || p.y > HEIGHT {
          shots[i] := shots[i].(active := false);
        }
      }
    }

    /** Places the children of the struck asteroid j, of the next size class
        down, each in the lowest slot then free and near asteroid j, which is
        itself left as it was. */
    method SpawnChildren(j: nat, p: ChildDraws)
      requires Sized() && j < MAX_ASTEROIDS && asteroids[j].active
      modifies asteroids
      ensures asteroids[..] ==
        Children(old(asteroids[..]), old(asteroids[j].pos), old(asteroids[j].size) - 1, p, CHILDREN_PER_SPLIT)
      ensures asteroids[j] == old(asteroids[j])
    {
      var newSize := asteroids[j].size - 1;
      for k := 0 to CHILDREN_PER_SPLIT
        invariant asteroids[..] == Children(old(asteroids[..]), old(asteroids[j].pos), newSize, p, k)
        invariant asteroids[j] == old(asteroids[j])
      {
        ghost var before := asteroids[..];
        for l := 0 to MAX_ASTEROIDS
          invariant forall m :: 0 <= m < l ==> asteroids[m].active
          invariant asteroids[..] == before
        {
          if !asteroids[l].active {
            var d := DrawFor(p, k);
            var pos := Vec(asteroids[j].pos.x + d.dx as real, asteroids[j].pos.y + d.dy as real);
            CreateAsteroid(l, pos, newSize, d.vx, d.vy);
            break;
          }
        }
      }
    }

    /** Projectile i against the asteroids in slot order: the first one it
        hits is split and switched off, the projectile is switched off, and
        POINTS are scored. */
    method Strike(i: nat, p: ChildDraws)
      requires Sized() && i < MAX_SHOTS
      modifies this`score, asteroids, shots
      ensures var o := ResolveShot(old(asteroids[..]), old(shots[i]), p);
        asteroids[..] == o.asteroids && shots[..] == old(shots[..])[i := o.shot]
        && score == old(score) + o.points
    {
      if !shots[i].active {
        return;
      }
      var j := 0;
      while j < MAX_ASTEROIDS
        invariant 0 <= j <= MAX_ASTEROIDS
        invariant forall m :: 0 <= m < j ==> !Hits(asteroids[m], shots[i].pos, 0.0)
        invariant asteroids[..] == old(asteroids[..]) && shots[..] == old(shots[..]) && score == old(score)
      {
        if !asteroids[j].active {
          j := j + 1;
          continue;
        }
        var dx := shots[i].pos.x - asteroids[j].pos.x;
        var dy := shots[i].pos.y - asteroids[j].pos.y;
        // Closer(d2, r) is the comparison sqrtf(d2) < r (Geometry.CloserIsRootLess).
        if Closer(dx * dx + dy * dy, asteroids[j].radius) {
          assert FirstHit(old(asteroids[..]), old(shots[i]).pos, 0.0) == Some(j);
          shots[i] := shots[i].(active := false);
          if asteroids[j].size > 1 {
            SpawnChildren(j, p);
          }
          asteroids[j] := asteroids[j].(active := false);
          score := score + POINTS;
          return;
        }
        j := j + 1;
      }
    }

    /** The projectile pass: each projectile, in slot order, against the
        asteroids as the earlier projectiles left them. */
    method StrikeAsteroids(draws: seq<ChildDraws>)
      requires Valid() && |draws| == MAX_SHOTS
      modifies this`score, asteroids, shots
      ensures Valid()
      ensures var v := ResolveShots(old(asteroids[..]), old(shots[..]), draws, MAX_SHOTS);
        asteroids[..] == v.asteroids && shots[..] == v.shots && score == old(score) + v.points
    {
      ghost var a0, s0 := asteroids[..], shots[..];
      for i := 0 to MAX_SHOTS
        invariant var v := ResolveShots(a0, s0, draws, i);
          asteroids[..] == v.asteroids && shots[..] == v.shots && score == old(score) + v.points
      {
        assert shots[i] == s0[i];
        Strike(i, draws[i]);
      }
      ResolveShotsSpec(a0, s0, draws, MAX_SHOTS);
      ghost var v := ResolveShots(a0, s0, draws, MAX_SHOTS);
      AddPoints(old(score), score, Spent(s0, v.shots, MAX_SHOTS));
      assert WellSized(asteroids[..]) && score % POINTS == 0;
    }

    /** The ship pass: the first asteroid in slot order that the live ship
        touches costs one life; the ship respawns while lives remain and is
        switched off otherwise. At most one life is lost. */
    method StrikeShip()
      requires Valid()
      modifies this
      ensures Valid()
      ensures var h := if old(ship.active) then FirstHit(asteroids[..], old(ship.pos), SHIP_TOLERANCE) else None;
        && lives == old(lives) - (if h.Some? then 1 else 0)
        && ship == (if h.None? then old(ship)
                    else if lives > 0 then Respawned(old(ship))
                    else old(ship).(active := false))
      ensures (ship, lives) == ShipPass(asteroids[..], old(ship), old(lives))
      ensures score == old(score)
    {
      for i := 0 to MAX_ASTEROIDS
        invariant ship == old(ship) && lives == old(lives)
        invariant ship.active ==> forall m :: 0 <= m < i ==> !Hits(asteroids[m], ship.pos, SHIP_TOLERANCE)
      {
        if !asteroids[i].active || !ship.active {
          continue;
        }
        var dx := ship.pos.x - asteroids[i].pos.x;
        var dy := ship.pos.y - asteroids[i].pos.y;
        assert dx * dx + dy * dy == Dist2(ship.pos, asteroids[i].pos);
        if Closer(dx * dx + dy * dy, asteroids[i].radius + SHIP_TOLERANCE) {
          assert Hits(asteroids[..][i], ship.pos, SHIP_TOLERANCE);
          ghost var h := FirstHit(asteroids[..], ship.pos, SHIP_TOLERANCE);
          assert h.Some? && h.value == i;
          lives := lives - 1;
          if lives > 0 {
            ship := ship.(pos := CENTER, vel := ZERO, accel := ZERO, rotation := 0.0);
          } else {
            ship := ship.(active := false);
          }
          return;
        }
        assert !Hits(asteroids[i], ship.pos, SHIP_TOLERANCE);
      }
      assert ship.active ==> FirstHit(asteroids[..], ship.pos, SHIP_TOLERANCE) == None;
    }

    /** Collision resolution: the projectile pass, then the ship pass. */
    method Collide(draws: seq<ChildDraws>)
      requires Valid() && |draws| == MAX_SHOTS
      modifies this, asteroids, shots
      ensures Valid()
      ensures var v := ResolveShots(old(asteroids[..]), old(shots[..]), draws, MAX_SHOTS);
        asteroids[..] == v.asteroids && shots[..] == v.shots && score == old(score) + v.points
      ensures (ship, lives) == ShipPass(asteroids[..], old(ship), old(lives))
      ensures var h := if old(ship.active) then FirstHit(asteroids[..], old(ship.pos), SHIP_TOLERANCE) else None;
        && lives == old(lives) - (if h.Some? then 1 else 0)
        && ship == (if h.None? then old(ship)
                    else if lives > 0 then Respawned(old(ship))
                    else old(ship).(active := false))
      ensures old(lives) - 1 <= lives <= old(lives)
      ensures Snapshot() == CollisionPhase(old(Snapshot()), draws)
    {
      StrikeAsteroids(draws);
      StrikeShip();
    }

    /** The number of active asteroids. */
    method CountActiveAsteroids() returns (n: nat)
      ensures n == CountActive(asteroids[..])
    {
      n := 0;
      for i := 0 to asteroids.Length
        invariant n == CountActive(asteroids[..i])
      {
        CountActivePrefix(asteroids[..], i);
        assert asteroids[..][..i + 1] == asteroids[..i + 1];
        if asteroids[i].active {
          n := n + 1;
        }
      }
      assert asteroids[..asteroids.Length] == asteroids[..];
    }

    /** Replenishment: at or below a third of the capacity, every free slot
        gets a fresh large asteroid; above it the pool is left alone. */
    method Replenish(spawns: seq<SpawnDraw>)
      requires Valid() && |spawns| == MAX_ASTEROIDS
      modifies asteroids
      ensures Valid()
      ensures asteroids[..] == Refill(old(asteroids[..]), spawns)
      ensures Snapshot() == RefillPhase(old(Snapshot()), spawns)
      ensures CountActive(old(asteroids[..])) <= MAX_ASTEROIDS / 3 ==>
        forall i :: 0 <= i < MAX_ASTEROIDS ==>
          asteroids[i] == if old(asteroids[i].active) then old(asteroids[i]) else Spawned(spawns[i])
      ensures CountActive(old(asteroids[..])) <= MAX_ASTEROIDS / 3 ==>
        CountActive(asteroids[..]) == MAX_ASTEROIDS
      ensures CountActive(old(asteroids[..])) > MAX_ASTEROIDS / 3 ==> asteroids[..] == old(asteroids[..])
      ensures CountActive(asteroids[..]) > MAX_ASTEROIDS / 3
    {
      var active := CountActiveAsteroids();
      if active <= MAX_ASTEROIDS / 3 {
        for i := 0 to MAX_ASTEROIDS
          invariant forall k :: 0 <= k < i ==>
            asteroids[k] == if old(asteroids[k].active) then old(asteroids[k]) else Spawned(spawns[k])
          invariant forall k :: i <= k < MAX_ASTEROIDS ==> asteroids[k] == old(asteroids[k])
        {
          if !asteroids[i].active {
            var d := spawns[i];
            CreateAsteroid(i, Vec(d.x as real, d.y as real), 3, d.vx, d.vy);
          }
        }
        CountActiveFull(asteroids[..]);
      }
    }

    /** One frame of the game: ship physics, an optional fire event, drift,
        flight, collisions and replenishment, in that order. The new state is
        Frame.Step of the old one; what a frame keeps and changes is proved
        about Step in module Frame. */
    method Tick(keys: Keys, unit: Vec, heading: real, fire: bool, shotVel: Vec,
                draws: seq<ChildDraws>, spawns: seq<SpawnDraw>)
      requires Valid() && |draws| == MAX_SHOTS && |spawns| == MAX_ASTEROIDS
      requires Direction(keys) != ZERO ==> UnitAlong(unit, Direction(keys))
      modifies this, asteroids, shots
      ensures Snapshot() == Step(old(Snapshot()), keys, unit, heading, fire, shotVel, draws, spawns)
      ensures Valid()
      ensures FrameBounded(old(Snapshot()), Snapshot())
      ensures OnlyFiredSlot(old(shots[..]), shots[..], fire)
    {
      ghost var st := Snapshot();
      UpdateShip(keys, unit, heading);
      ghost var launched := Snapshot();
      if fire {
        Fire(shotVel);
        launched := Snapshot();
      }
      assert launched == if fire then FirePhase(ShipPhase(st, keys, unit, heading), shotVel)
                         else ShipPhase(st, keys, unit, heading);
      AdvanceAsteroids();
      AdvanceShots();
      Collide(draws);
      assert Snapshot() == Collided(st, keys, unit, heading, fire, shotVel, draws);
      Replenish(spawns);
      ghost var r := Snapshot();
      assert r == Step(st, keys, unit, heading, fire, shotVel, draws, spawns);
      StepShots(st, keys, unit, heading, fire, shotVel, draws, spawns);
      StepBounded(st, keys, unit, heading, fire, shotVel, draws, spawns);
    }

    /** The restart prompt: once the ship is destroyed with no lives left, a
        restart request resets the session; otherwise nothing changes. Under
        the invariant, that is exactly when no lives remain. */
    method Restart(pressed: bool, spawns: seq<SpawnDraw>)
      requires Valid() && |spawns| == MAX_ASTEROIDS
      modifies this, asteroids, shots
      ensures Valid()
      ensures (!old(ship.active) && old(lives) <= 0) <==> old(lives) == 0
      ensures pressed && !old(ship.active) && old(lives) <= 0 ==>
        && ship == Ship(CENTER, ZERO, 0.0, ZERO, true) && score == 0 && lives == INITIAL_LIVES
        && (forall i :: 0 <= i < MAX_ASTEROIDS ==> asteroids[i] == Spawned(spawns[i]))
        && (forall i :: 0 <= i < MAX_SHOTS ==> shots[i] == old(shots[i]).(active := false))
      ensures !(pressed && !old(ship.active) && old(lives) <= 0) ==>
        && ship == old(ship) && score == old(score) && lives == old(lives)
        && asteroids[..] == old(asteroids[..]) && shots[..] == old(shots[..])
    {
      if !ship.active && lives <= 0 && pressed {
        Reset(spawns);
      }
    }
  }
}
