/** One frame of the game as a function of the state before it: the phases in
    the order the frame runs them, their composition, and what a whole frame
    keeps and changes. */
module Frame {
  import opened Geometry
  import opened Entities
  import opened Pools
  import opened Collisions
  import opened Motion
  import opened Ships

  const INITIAL_LIVES: int := 3
  /** Extra reach of the ship when it is tested against an asteroid. */
  const SHIP_TOLERANCE: real := 10.0

  /** Everything a frame reads and writes. */
  datatype State = State(ship: Ship, asteroids: seq<Asteroid>, shots: seq<Shot>, score: int, lives: int)

  /** The pools have their capacities; every asteroid slot has a size class
      1..3 with its tabled radius; the ship is on the field within the speed
      limit; the ship is alive exactly while lives remain; the score is a
      non-negative multiple of POINTS. */
  predicate ValidState(st: State)
  {
    && |st.asteroids| == MAX_ASTEROIDS && |st.shots| == MAX_SHOTS
    && WellSized(st.asteroids)
    && InField(st.ship.pos) && SpeedLimited(st.ship.vel)
    && 0 <= st.lives <= INITIAL_LIVES && (st.ship.active <==> st.lives > 0)
    && 0 <= st.score && st.score % POINTS == 0
  }

  /** Ship physics: thrust or damping, the speed limit per component, then
      the move, stopped at a wall with that velocity component zeroed. The
      ship ends on the field within the speed limit; on each axis it moves by
      its speed-limited velocity when that keeps it on the field, and
      otherwise stops at the wall it crossed with that component zeroed. */
  function ShipStep(s: Ship, k: Keys, unit: Vec, heading: real): (r: Ship)
    requires Direction(k) != ZERO ==> UnitAlong(unit, Direction(k))
    ensures InField(r.pos) && SpeedLimited(r.vel) && r.active == s.active
    ensures r.accel == Thrust(k, unit)
    ensures r.rotation == if Direction(k) == ZERO then s.rotation else heading
    ensures var v := DriveVelocity(s, k, unit); var px := s.pos.x + ClampSpeed(v.x);
      && (0.0 <= px <= WIDTH ==> r.pos.x == px && r.vel.x == ClampSpeed(v.x))
      && (px < 0.0 ==> r.pos.x == 0.0 && r.vel.x == 0.0)
      && (px > WIDTH ==> r.pos.x == WIDTH && r.vel.x == 0.0)
    ensures var v := DriveVelocity(s, k, unit); var py := s.pos.y + ClampSpeed(v.y);
      && (0.0 <= py <= HEIGHT ==> r.pos.y == py && r.vel.y == ClampSpeed(v.y))
      && (py < 0.0 ==> r.pos.y == 0.0 && r.vel.y == 0.0)
      && (py > HEIGHT ==> r.pos.y == HEIGHT && r.vel.y == 0.0)
  {
    var v := DriveVelocity(s, k, unit);
    var vx, vy := ClampSpeed(v.x), ClampSpeed(v.y);
    var px, py := s.pos.x + vx, s.pos.y + vy;
    s.(accel := Thrust(k, unit),
       rotation := if Direction(k) == ZERO then s.rotation else heading,
       pos := Vec(Confine(px, WIDTH), Confine(py, HEIGHT)),
       vel := Vec(if 0.0 <= px <= WIDTH then vx else 0.0, if 0.0 <= py <= HEIGHT then vy else 0.0))
  }

  /** The velocity ship physics starts from before the speed limit: with a
      direction held it is the old velocity plus the new acceleration, the
      thrust; with none it is the old velocity damped by DAMPING, and the
      acceleration is zero. */
  lemma ShipStepDrive(s: Ship, k: Keys, unit: Vec, heading: real)
    requires Direction(k) != ZERO ==> UnitAlong(unit, Direction(k))
    ensures var r := ShipStep(s, k, unit, heading);
      Direction(k) != ZERO ==> DriveVelocity(s, k, unit) == Add(s.vel, r.accel)
    ensures var r := ShipStep(s, k, unit, heading);
      Direction(k) == ZERO ==> DriveVelocity(s, k, unit) == Scale(s.vel, DAMPING) && r.accel == ZERO
  {
  }

  /** A fire event: exactly the lowest free projectile slot changes, to a
      projectile at `pos` with velocity `vel`; with every slot active the
      pool is unchanged. */
  function Fired(shots: seq<Shot>, pos: Vec, vel: Vec): (r: seq<Shot>)
    ensures |r| == |shots|
    ensures forall k :: 0 <= k < |shots| ==> (r[k] != shots[k] <==> FirstFreeShot(shots) == Some(k))
    ensures forall k :: 0 <= k < |shots| && r[k] != shots[k] ==> r[k] == Shot(pos, vel, true)
    ensures (forall k :: 0 <= k < |shots| ==> shots[k].active) ==> r == shots
  {
    match FirstFreeShot(shots)
    case None => shots
    case Some(i) => shots[i := Shot(pos, vel, true)]
  }

  /** Every active asteroid drifts; free slots are left alone. Afterwards
      every active asteroid is on the field, no flag has changed, and the
      pool is as well sized as before. */
  function DriftAll(s: seq<Asteroid>): (r: seq<Asteroid>)
    ensures |r| == |s|
    ensures forall i :: 0 <= i < |s| ==> r[i] == if s[i].active then Drifted(s[i]) else s[i]
    ensures forall i :: 0 <= i < |s| ==> r[i].active == s[i].active
    ensures forall i :: 0 <= i < |s| && r[i].active ==> InField(r[i].pos)
    ensures WellSized(s) ==> WellSized(r)
  {
    seq(|s|, i requires 0 <= i < |s| => if s[i].active then Drifted(s[i]) else s[i])
  }

  /** Every active projectile travels; free slots are left alone. Afterwards
      no projectile has been switched on, and every active one is on the
      field. */
  function TravelAll(s: seq<Shot>): (r: seq<Shot>)
    ensures |r| == |s|
    ensures forall i :: 0 <= i < |s| ==> r[i] == if s[i].active then Travelled(s[i]) else s[i]
    ensures forall i :: 0 <= i < |s| && r[i].active ==> s[i].active && InField(r[i].pos)
  {
    seq(|s|, i requires 0 <= i < |s| => if s[i].active then Travelled(s[i]) else s[i])
  }

  /** The ship pass: a live ship touched by an asteroid loses one life and is
      respawned while lives remain, switched off otherwise; otherwise nothing
      changes. Returns the ship and the lives. */
  function ShipPass(s: seq<Asteroid>, ship: Ship, lives: int): (r: (Ship, int))
    ensures r.1 == lives - 1 <==> ship.active && FirstHit(s, ship.pos, SHIP_TOLERANCE).Some?
    ensures r.1 == lives - 1 || r.1 == lives
    ensures r.1 == lives ==> r.0 == ship
    ensures r.1 < lives ==> r.0 == if r.1 > 0 then Respawned(ship) else ship.(active := false)
  {
    var h := if ship.active then FirstHit(s, ship.pos, SHIP_TOLERANCE) else None;
    if h.None? then (ship, lives)
    else if lives - 1 > 0 then (Respawned(ship), lives - 1)
    else (ship.(active := false), lives - 1)
  }

  /** Replenishment: at or below a third of the capacity every free slot gets
      a fresh large asteroid; above it the pool is left alone. */
  function Refill(s: seq<Asteroid>, spawns: seq<SpawnDraw>): (r: seq<Asteroid>)
    requires |spawns| == |s|
    ensures |r| == |s|
    ensures CountActive(s) <= MAX_ASTEROIDS / 3 ==>
      forall i :: 0 <= i < |s| ==> r[i] == if s[i].active then s[i] else Spawned(spawns[i])
    ensures CountActive(s) > MAX_ASTEROIDS / 3 ==> r == s
  {
    if CountActive(s) <= MAX_ASTEROIDS / 3 then
      seq(|s|, i requires 0 <= i < |s| => if s[i].active then s[i] else Spawned(spawns[i]))
    else s
  }

  /** After replenishment every slot is active if the pool was at or below a
      third of its capacity, and more than a third of the pool is active in
      any case; the pool stays well sized. */
  lemma RefillSpec(s: seq<Asteroid>, spawns: seq<SpawnDraw>)
    requires |spawns| == |s| == MAX_ASTEROIDS
    ensures var r := Refill(s, spawns);
      && (CountActive(s) <= MAX_ASTEROIDS / 3 ==> forall i :: 0 <= i < |s| ==> r[i].active)
      && CountActive(r) > MAX_ASTEROIDS / 3
      && (WellSized(s) ==> WellSized(r))
  {
    var r := Refill(s, spawns);
    CountActiveFull(r);
  }

  /** The phases of a frame, each as a change of the whole state. */
  function ShipPhase(st: State, keys: Keys, unit: Vec, heading: real): State
    requires Direction(keys) != ZERO ==> UnitAlong(unit, Direction(keys))
  {
    st.(ship := ShipStep(st.ship, keys, unit, heading))
  }

  function FirePhase(st: State, vel: Vec): State
  {
    st.(shots := Fired(st.shots, st.ship.pos, vel))
  }

  function DriftPhase(st: State): State
  {
    st.(asteroids := DriftAll(st.asteroids))
  }

  function FlightPhase(st: State): State
  {
    st.(shots := TravelAll(st.shots))
  }

  /** The projectile pass, then the ship pass against the asteroids the
      projectile pass left. */
  function CollisionPhase(st: State, draws: seq<ChildDraws>): (r: State)
    requires |st.shots| == MAX_SHOTS && |draws| == MAX_SHOTS
    ensures |r.asteroids| == |st.asteroids| && |r.shots| == MAX_SHOTS
    ensures r.lives == st.lives - 1 <==> st.ship.active && FirstHit(r.asteroids, st.ship.pos, SHIP_TOLERANCE).Some?
    ensures r.lives == st.lives - 1 || r.lives == st.lives
    ensures r.lives == st.lives ==> r.ship == st.ship
  {
    var v := ResolveShots(st.asteroids, st.shots, draws, MAX_SHOTS);
    var pass := ShipPass(v.asteroids, st.ship, st.lives);
    State(pass.0, v.asteroids, v.shots, st.score + v.points, pass.1)
  }

  function RefillPhase(st: State, spawns: seq<SpawnDraw>): State
    requires |spawns| == |st.asteroids|
  {
    st.(asteroids := Refill(st.asteroids, spawns))
  }

  /** The state just before replenishment: ship physics, an optional fire
      event from the moved ship, drift, flight, then collisions. */
  function Collided(st: State, keys: Keys, unit: Vec, heading: real, fire: bool, shotVel: Vec,
                    draws: seq<ChildDraws>): (r: State)
    requires |st.asteroids| == MAX_ASTEROIDS && |st.shots| == MAX_SHOTS && |draws| == MAX_SHOTS
    requires Direction(keys) != ZERO ==> UnitAlong(unit, Direction(keys))
    ensures |r.asteroids| == MAX_ASTEROIDS && |r.shots| == MAX_SHOTS
  {
    var moved := ShipPhase(st, keys, unit, heading);
    var launched := if fire then FirePhase(moved, shotVel) else moved;
    CollisionPhase(FlightPhase(DriftPhase(launched)), draws)
  }

  /** The whole frame. */
  function Step(st: State, keys: Keys, unit: Vec, heading: real, fire: bool, shotVel: Vec,
                draws: seq<ChildDraws>, spawns: seq<SpawnDraw>): (r: State)
    requires |st.asteroids| == MAX_ASTEROIDS && |st.shots| == MAX_SHOTS
    requires |draws| == MAX_SHOTS && |spawns| == MAX_ASTEROIDS
    requires Direction(keys) != ZERO ==> UnitAlong(unit, Direction(keys))
    ensures |r.asteroids| == MAX_ASTEROIDS && |r.shots| == MAX_SHOTS
  {
    RefillPhase(Collided(st, keys, unit, heading, fire, shotVel, draws), spawns)
  }

  /** Every projectile slot active in `after` but not in `before` is the
      lowest free slot of `before`, and only when a fire event happened. */
  predicate OnlyFiredSlot(before: seq<Shot>, after: seq<Shot>, fire: bool)
  {
    forall k :: 0 <= k < |before| && k < |after| && after[k].active && !before[k].active ==>
      fire && FirstFreeShot(before) == Some(k)
  }

  /** The collision phase switches no projectile on, adds exactly POINTS per
      projectile spent, so between nothing and POINTS per slot, keeps the
      score's remainder modulo POINTS and keeps the asteroid pool well sized. */
  lemma CollisionScore(st: State, draws: seq<ChildDraws>)
    requires |st.shots| == MAX_SHOTS && |draws| == MAX_SHOTS
    ensures var r := CollisionPhase(st, draws);
      && (forall k :: 0 <= k < MAX_SHOTS && r.shots[k].active ==> st.shots[k].active)
      && st.score <= r.score <= st.score + POINTS * MAX_SHOTS
      && r.score % POINTS == st.score % POINTS
      && (WellSized(st.asteroids) ==> WellSized(r.asteroids))
  {
    var v := ResolveShots(st.asteroids, st.shots, draws, MAX_SHOTS);
    ResolveShotsSpec(st.asteroids, st.shots, draws, MAX_SHOTS);
    AddPoints(st.score, st.score + v.points, Spent(st.shots, v.shots, MAX_SHOTS));
  }

  /** Without a fire event a frame switches no projectile on; with one, only
      the slot that was the lowest free one can be. */
  lemma StepShots(st: State, keys: Keys, unit: Vec, heading: real, fire: bool, shotVel: Vec,
                  draws: seq<ChildDraws>, spawns: seq<SpawnDraw>)
    requires |st.asteroids| == MAX_ASTEROIDS && |st.shots| == MAX_SHOTS
    requires |draws| == MAX_SHOTS && |spawns| == MAX_ASTEROIDS
    requires Direction(keys) != ZERO ==> UnitAlong(unit, Direction(keys))
    ensures OnlyFiredSlot(st.shots, Step(st, keys, unit, heading, fire, shotVel, draws, spawns).shots, fire)
  {
    var moved := ShipPhase(st, keys, unit, heading);
    var launched := if fire then FirePhase(moved, shotVel) else moved;
    var flown := FlightPhase(DriftPhase(launched));
    ResolveShotsPools(flown.asteroids, flown.shots, draws, MAX_SHOTS);
    var r := Step(st, keys, unit, heading, fire, shotVel, draws, spawns);
    assert r.shots == CollisionPhase(flown, draws).shots;
    forall k | 0 <= k < MAX_SHOTS && r.shots[k].active && !st.shots[k].active
      ensures fire && FirstFreeShot(st.shots) == Some(k)
    {
      assert launched.shots[k].active;
      assert launched.shots[k] != st.shots[k];
    }
  }

  /** A frame adds between nothing and POINTS per projectile slot to the
      score and keeps its remainder modulo POINTS. */
  lemma StepScore(st: State, keys: Keys, unit: Vec, heading: real, fire: bool, shotVel: Vec,
                  draws: seq<ChildDraws>, spawns: seq<SpawnDraw>)
    requires |st.asteroids| == MAX_ASTEROIDS && |st.shots| == MAX_SHOTS
    requires |draws| == MAX_SHOTS && |spawns| == MAX_ASTEROIDS
    requires Direction(keys) != ZERO ==> UnitAlong(unit, Direction(keys))
    ensures var r := Step(st, keys, unit, heading, fire, shotVel, draws, spawns);
      && st.score <= r.score <= st.score + POINTS * MAX_SHOTS
      && r.score % POINTS == st.score % POINTS
  {
    var moved := ShipPhase(st, keys, unit, heading);
    var launched := if fire then FirePhase(moved, shotVel) else moved;
    CollisionScore(FlightPhase(DriftPhase(launched)), draws);
  }

  /** A frame costs at most one life, and none when the ship is already
      destroyed; a lost life leaves the ship respawned at the centre while
      lives remain, and destroyed otherwise. */
  lemma StepLives(st: State, keys: Keys, unit: Vec, heading: real, fire: bool, shotVel: Vec,
                  draws: seq<ChildDraws>, spawns: seq<SpawnDraw>)
    requires |st.asteroids| == MAX_ASTEROIDS && |st.shots| == MAX_SHOTS
    requires |draws| == MAX_SHOTS && |spawns| == MAX_ASTEROIDS
    requires Direction(keys) != ZERO ==> UnitAlong(unit, Direction(keys))
    ensures var r := Step(st, keys, unit, heading, fire, shotVel, draws, spawns);
      && st.lives - 1 <= r.lives <= st.lives
      && (!st.ship.active ==> r.lives == st.lives && !r.ship.active)
      && (r.lives < st.lives && r.lives > 0 ==>
            r.ship.active && r.ship.pos == CENTER && r.ship.vel == ZERO && r.ship.accel == ZERO && r.ship.rotation == 0.0)
      && (r.lives < st.lives && r.lives <= 0 ==> !r.ship.active)
  {
  }

  /** After a frame more than a third of the asteroid pool is active; when
      the collisions left at most a third, every slot is, and otherwise the
      pool is as the collisions left it. */
  lemma StepAsteroids(st: State, keys: Keys, unit: Vec, heading: real, fire: bool, shotVel: Vec,
                      draws: seq<ChildDraws>, spawns: seq<SpawnDraw>)
    requires |st.asteroids| == MAX_ASTEROIDS && |st.shots| == MAX_SHOTS
    requires |draws| == MAX_SHOTS && |spawns| == MAX_ASTEROIDS
    requires Direction(keys) != ZERO ==> UnitAlong(unit, Direction(keys))
    ensures var r := Step(st, keys, unit, heading, fire, shotVel, draws, spawns);
      var c := Collided(st, keys, unit, heading, fire, shotVel, draws).asteroids;
      && CountActive(r.asteroids) > MAX_ASTEROIDS / 3
      && (CountActive(c) <= MAX_ASTEROIDS / 3 ==> forall i :: 0 <= i < MAX_ASTEROIDS ==> r.asteroids[i].active)
      && (CountActive(c) > MAX_ASTEROIDS / 3 ==> r.asteroids == c)
  {
    RefillSpec(Collided(st, keys, unit, heading, fire, shotVel, draws).asteroids, spawns);
  }

  /** The bounds a frame keeps between the state before it and the state
      after it: more than a third of the asteroid pool active, at most one
      life lost, and between nothing and POINTS per projectile slot scored. */
  predicate FrameBounded(before: State, after: State)
  {
    && CountActive(after.asteroids) > MAX_ASTEROIDS / 3
    && before.lives - 1 <= after.lives <= before.lives
    && before.score <= after.score <= before.score + POINTS * MAX_SHOTS
  }

  /** Every frame keeps those bounds. */
  lemma StepBounded(st: State, keys: Keys, unit: Vec, heading: real, fire: bool, shotVel: Vec,
                    draws: seq<ChildDraws>, spawns: seq<SpawnDraw>)
    requires |st.asteroids| == MAX_ASTEROIDS && |st.shots| == MAX_SHOTS
    requires |draws| == MAX_SHOTS && |spawns| == MAX_ASTEROIDS
    requires Direction(keys) != ZERO ==> UnitAlong(unit, Direction(keys))
    ensures FrameBounded(st, Step(st, keys, unit, heading, fire, shotVel, draws, spawns))
  {
    StepScore(st, keys, unit, heading, fire, shotVel, draws, spawns);
    StepLives(st, keys, unit, heading, fire, shotVel, draws, spawns);
    StepAsteroids(st, keys, unit, heading, fire, shotVel, draws, spawns);
  }

  /** The collision phase keeps the state valid. */
  lemma CollisionKeepsValid(st: State, draws: seq<ChildDraws>)
    requires ValidState(st) && |draws| == MAX_SHOTS
    ensures ValidState(CollisionPhase(st, draws))
  {
    CollisionScore(st, draws);
  }

  /** A frame keeps the state valid. */
  lemma StepKeepsValid(st: State, keys: Keys, unit: Vec, heading: real, fire: bool, shotVel: Vec,
                       draws: seq<ChildDraws>, spawns: seq<SpawnDraw>)
    requires ValidState(st) && |draws| == MAX_SHOTS && |spawns| == MAX_ASTEROIDS
    requires Direction(keys) != ZERO ==> UnitAlong(unit, Direction(keys))
    ensures ValidState(Step(st, keys, unit, heading, fire, shotVel, draws, spawns))
  {
    var moved := ShipPhase(st, keys, unit, heading);
    assert ValidState(moved);
    var launched := if fire then FirePhase(moved, shotVel) else moved;
    assert ValidState(launched);
    var flown := FlightPhase(DriftPhase(launched));
    assert ValidState(flown);
    CollisionKeepsValid(flown, draws);
    var c := CollisionPhase(flown, draws);
    RefillSpec(c.asteroids, spawns);
  }
}
