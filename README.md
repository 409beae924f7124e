# Asteroides BR — a verified model of the game simulation

This project models the simulation core of a small Asteroids game written in C on top of raylib
(`main.c`). The game is one ship, an asteroid pool of 8 slots, a projectile pool of 10 slots,
a score and a lives counter. It advances frame by frame:

- the ship accelerates, is damped, speed-limited and stopped at the walls;
- a fire event takes the lowest free projectile slot;
- asteroids drift and wrap around the 800 x 600 field;
- projectiles fly and are switched off once they leave the field;
- projectiles strike asteroids (splitting them and scoring 100 each), and then asteroids strike the ship (costing a life and respawning it);
- the asteroid pool is refilled with large asteroids once at most a third of it is populated.

The model follows the program's own form. The session is a class `Game.Session` whose two pools
are arrays updated in place by loops with the same `continue`/`break` structure as the C. The pure
functions the methods are proved against live in their own modules:

- the asteroid constructor lives in module `Entities`;
- the free-slot scans, population count and first-hit search live in `Pools`;
- the split and the whole projectile pass live in `Collisions`;
- drift and flight live in `Motion`;
- ship controls and physics constants live in `Ships`;
- one frame, phase by phase, lives in `Frame`: `ShipPhase`, `FirePhase`, `DriftPhase`, `FlightPhase`,
  `CollisionPhase` and `RefillPhase`, each a function from the whole state (`Frame.State`) to the next,
  and `Frame.Step`, their composition in the order `AtualizarJogo` runs them.

Each frame operation of the session states its new state as the matching phase function of
`old(Snapshot())`, where `Snapshot()` is the session's state as a `Frame.State`:
`UpdateShip`, `Fire`, `AdvanceAsteroids`, `AdvanceShots`, `Collide` and `Replenish`. `Tick`, the
whole frame, states `Snapshot() == Frame.Step(old(Snapshot()), …)`. What a frame keeps and changes
is proved as lemmas about `Step` (`StepKeepsValid`, `StepShots`, `StepScore`, `StepLives`, `StepAsteroids`, `StepBounded`).
The lower-level operations `CreateAsteroid`, `SpawnChildren` and `Strike` are stated against
`NewAsteroid`, `Children` and `ResolveShot` on the pools alone.

The class invariant `Valid()` is `Frame.ValidState` of the snapshot, plus the array capacities. It
covers five things:
- every asteroid slot has a size class 1..3 with its tabled radius;
- the ship is inside the field within the speed limit;
- the lives counter lies between 0 and the initial 3;
- the ship is alive exactly while lives remain;
- the score is a non-negative multiple of 100.

The constructor, `Reset` and `Restart` establish it. `UpdateShip`, `Fire`, `AdvanceAsteroids`,
`AdvanceShots`, `StrikeAsteroids`, `StrikeShip`, `Collide`, `Replenish` and `Tick` preserve it.
`CreateAsteroid`, `SpawnChildren` and `Strike` are steps inside those operations and neither
require nor ensure it.

Modelling choices:

- Coordinates and velocities are exact `real`s. The C test `sqrtf(dx*dx + dy*dy) < r` is the predicate
  `Geometry.Closer(d2, r)`, which is `0 < r && d2 < r*r`. `Geometry.CloserIsRootLess` proves it equal to comparing the
  non-negative square root itself, for every `r`. A distance equal to the radius is therefore not a hit.
- Every `GetRandomValue` result is an input, with the range it is drawn from as a subset type:
  - `Tenths` is -15..15;
  - `Offset` is -10..10;
  - `XCoord` is 0..800 and `YCoord` is 0..600.
- Grouping of the draws:
  - a reset or refill takes one `SpawnDraw` per asteroid slot;
  - a projectile pass takes one `ChildDraws` (two child draws) per projectile slot.

  The C consumes these values from one generator stream in program order. The model hands each slot its own draws instead,
  which lets every outcome the stream can produce be expressed.
- Key and mouse state are boolean inputs (`Ships.Keys`, `fire`, `pressed`).
- The unit direction of travel, the heading in degrees and the fired velocity are also inputs.
  The unit direction is required to be a unit vector along the pressed direction (`Ships.UnitAlong`).
- The signs are the code's: the W key adds +1 to the direction's y (main.c:122). The comment on
  main.c:120 says W decreases Y; the model follows the code.
- A projectile stays active on the boundary of the field; only a position strictly outside the
  closed rectangle [0, 800] x [0, 600] switches it off (main.c:247).

## Model

| member | source | states |
|---|---|---|
| Entities.Radius | main.c:107-116 | the collision radius table: 40, 25, 15 for size classes 3, 2, 1 and 20 for any other class; always between 15 and 40 |
| Entities.NewAsteroid | main.c:98-117 | the slot written by the asteroid constructor is active with the given position and size class, the tabled radius, and each velocity component equal to the drawn tenths, hence within [-1.5, 1.5] |
| Entities.Spawned | main.c:87-89 | a fresh asteroid at a random point is large (size 3, radius 40), active and inside the field |
| Entities.Child | main.c:287-291 | a split child is active with the requested size class and its radius, within 10 of the struck asteroid's centre on both axes |
| Game.Session.CreateAsteroid | main.c:98-117 | slot `index` becomes the new asteroid and every other slot is unchanged |
| Game.Session.constructor | main.c:42-46 | program start: zeroed storage followed by a reset, leaving the session valid |
| Game.Session.Reset | main.c:73-96 | the ship at (400,300), at rest, rotation 0 and alive; score 0, three lives; every asteroid slot a fresh large asteroid; every projectile slot switched off; the invariant holds |
| Ships.Direction | main.c:121-125 | the raw key direction is zero exactly when opposite keys cancel; each component is -1, 0 or 1; y is positive exactly when only W of W/S is held and negative exactly when only S is; x is positive exactly when only D of A/D is held and negative exactly when only A is |
| Ships.Thrust | main.c:127-139 | the acceleration is zero exactly when no direction is held; otherwise it lies on the line of the raw key direction (zero cross product) and points the same way along it (positive dot product); with `ThrustMagnitude` this fixes it as 0.3 times the unit direction |
| Ships.ThrustMagnitude | main.c:127-139 | while a direction is held the acceleration has length 0.3 whatever the direction, otherwise it is zero |
| Ships.DriveVelocity | main.c:137-145 | the velocity before the speed limit: with no key held the damping never increases the speed; with a key held it differs from the old velocity by exactly the thrust length 0.3 |
| Frame.ShipStepDrive | main.c:137-145 | with a key held the pre-limit velocity is the old velocity plus the ship's new acceleration; with none it is the old velocity times 0.95 and the acceleration is zero |
| Ships.ClampSpeed | main.c:147-151 | a velocity component ends in [-5, 5]: above 5 it becomes 5, below -5 it becomes -5, and inside it is left alone |
| Geometry.Confine | main.c:157-172 | a ship coordinate ends inside [0, hi]: below 0 it becomes 0, above hi it becomes hi, and it equals the moved coordinate exactly when that was already inside |
| Ships.Respawned | main.c:324-329 | the respawned ship is at the centre with zero velocity, acceleration and rotation, keeps its active flag, and is valid |
| Frame.ShipStep | main.c:121-172 | ship physics as a function: the ship ends in the field within the speed limit, keeps its active flag, has the keys' thrust as acceleration and the heading as rotation while a key is held; on each axis it moves by its speed-limited velocity when that keeps it on the field, and otherwise stops on the wall it crossed (0 below, the far edge above) with that component zeroed |
| Game.Session.UpdateShip | main.c:121-172 | the new ship is `Frame.ShipStep` of the old one and nothing else changes; spelled out: acceleration, rotation, clamped velocity, and position stopped at the walls with the clamped component zeroed. With no direction the acceleration is zero and the pre-clamp velocity is 0.95 times the old one |
| Pools.FirstFreeShot | main.c:176-177 | the lowest-index inactive projectile slot; none exactly when every slot is active |
| Frame.Fired | main.c:175-185 | a slot changes exactly when it is the lowest free one, and then becomes an active projectile at the ship's position with the fired velocity; with every slot active the pool is unchanged |
| Game.Session.Fire | main.c:175-185 | the projectile pool becomes `Frame.Fired` of the old one, at the ship's position: exactly the lowest free slot becomes active with the fired velocity; with all ten active the pool is unchanged; nothing else changes |
| Geometry.Wrap | main.c:224-227 | an asteroid coordinate past the far edge becomes 0, below 0 becomes the far edge, and is otherwise kept; the result is always inside [0, hi] |
| Motion.Drifted | main.c:220-227 | a drifted asteroid lies inside the field, keeps velocity, size, radius and flag, and on each axis a moved coordinate inside the field is kept, whatever the other axis does; on each axis a moved coordinate past the far edge re-enters at 0 and one below 0 re-enters at the far edge |
| Frame.DriftAll | main.c:216-229 | every active slot drifts and every free slot is kept; no flag changes, every active asteroid ends inside the field, and a well-sized pool stays well sized |
| Game.Session.AdvanceAsteroids | main.c:216-229 | the asteroid pool becomes `Frame.DriftAll` of the old one: every active asteroid drifts and lies inside the field afterwards, inactive slots are untouched, nothing else changes, and the invariant holds |
| Motion.Travelled | main.c:244-249 | an active projectile moves by its velocity and is active afterwards exactly when its new position is inside the closed field |
| Frame.TravelAll | main.c:240-251 | every active slot travels and every free slot is kept; no projectile is switched on and every active one is inside the field |
| Game.Session.AdvanceShots | main.c:240-251 | the projectile pool becomes `Frame.TravelAll` of the old one: every active projectile travels, inactive slots are untouched, nothing else changes |
| Geometry.CloserIsRootLess | main.c:276-278 | the square-root-free test agrees with `root < r` for the non-negative root of the squared distance, for any radius |
| Pools.HitsNearby | main.c:274-278 | a hit (the `Hits` test, also the ship test at main.c:318-322) means an active asteroid with a positive reach, and a point strictly within that reach of its centre on both axes; `ChildrenNearShot` uses it to place the children |
| Pools.FirstHit | main.c:271-278 | the lowest-index active asteroid strictly closer than its radius plus the tolerance; none exactly when no asteroid is hit |
| Pools.FirstFree | main.c:285-286 | the lowest-index inactive asteroid slot; none exactly when every slot is active |
| Pools.FreeIffNotFull | main.c:285-286 | a free asteroid slot exists exactly when fewer than all slots are active |
| Pools.CountActive | main.c:192-195 | the number of active asteroid slots, never more than the pool size |
| Pools.CountActiveFull | main.c:192-196 | the count of active asteroids equals the capacity exactly when every slot is active |
| Pools.CountActiveUpdate | main.c:192-195 | overwriting one slot changes the count by exactly the change of that slot's flag |
| Collisions.PlaceChild | main.c:285-293 | one child placed into the lowest free slot, none with the pool full; its properties are `PlaceChildStep` and `PlaceChildCount` |
| Collisions.PlaceChildStep | main.c:285-293 | one placement keeps, relative to the pool before the split: untouched slots equal, every newly occupied slot a child of the next size near the parent, and the newly occupied slots the lowest free ones |
| Collisions.PlaceChildCount | main.c:285-293 | one placement adds exactly one asteroid when a slot is free and none otherwise |
| Collisions.Children | main.c:284-295 | the first k placements of a split; its properties are `ChildrenSpec` |
| Collisions.ChildrenSpec | main.c:284-295 | placing k children leaves occupied slots untouched, fills the lowest free slots, each with a child of the next size near the parent, and adds min(k, free slots) asteroids |
| Collisions.Split | main.c:281-298 | the pool after a strike; its properties are `SplitSpec` |
| Collisions.SplitSpec | main.c:281-298 | the struck slot is never overwritten and ends switched off. Only free slots change otherwise, and only for size class above 1. Those slots receive children of size s-1 within 10 of the struck centre, in the lowest free slots. The count changes by min(2, free) - 1, or by -1 for size class 1 |
| Collisions.ResolveShot | main.c:269-301 | one projectile against the pool; it keeps its position and velocity; its properties are `ResolveShotSpec` |
| Collisions.ResolveShotScore | main.c:269-301 | one projectile scores 100 exactly when it is spent on an asteroid and nothing otherwise |
| Collisions.ResolveShotWellSized | main.c:281-298 | a strike keeps every slot's size class valid with its tabled radius |
| Collisions.ResolveShotSpec | main.c:269-301 | an active projectile destroys at most one asteroid: the lowest-index one it hits. It then scores exactly 100 and is switched off. The pool after a strike is exactly `Split` of the struck slot, whose properties are `SplitSpec`. Otherwise nothing changes and nothing is scored. Every slot keeps a valid size class |
| Collisions.ChildrenNearShot | main.c:274-291 | on a strike, every child placed lies, on each axis, strictly within the struck asteroid's radius plus the split offset of 10 from the projectile |
| Collisions.ResolveShots | main.c:268-303 | the first n projectiles of the pass, each against the pool the earlier ones left; slots from n on are untouched; its properties are `ResolveShotsSpec` |
| Collisions.ResolveShotsPoints | main.c:268-303 | over the first n projectiles of the pass, the points equal 100 times the number spent on asteroids, between 0 and 100 per projectile |
| Collisions.ResolveShotsPools | main.c:268-303 | over the first n projectiles of the pass, no projectile is switched on and a well-sized pool stays well sized |
| Collisions.ResolveShotsSpec | main.c:268-303 | over the projectile pass, the points equal 100 times the number of projectiles spent on asteroids, which is between 0 and 100 per projectile. No projectile is switched on, and the asteroid pool stays well sized |
| Game.Session.SpawnChildren | main.c:284-295 | the nested free-slot scan leaves the pool equal to placing two children in turn into the lowest free slot, and the struck slot unchanged |
| Game.Session.Strike | main.c:269-301 | one projectile against the asteroid pool in slot order: both pools and the score become the outcome `ResolveShot` describes |
| Game.Session.StrikeAsteroids | main.c:268-303 | the projectile pass leaves both pools and the score as `ResolveShots` of the old pools describes, and keeps the invariant; the score stays a multiple of 100 by `Collisions.AddPoints` (adding whole multiples of 100 keeps the remainder) |
| Frame.ShipPass | main.c:315-335 | a life is lost exactly when the ship is live and some asteroid is hit within its radius plus 10; at most one is lost; without a loss the ship is unchanged, with one it is respawned while lives remain and switched off otherwise |
| Game.Session.StrikeShip | main.c:315-335 | the ship and lives become `Frame.ShipPass` of the pool and the old ship: a live ship hit by an asteroid loses exactly one life (the first asteroid hit in slot order counts), and none when it is not hit or is already inactive. It is respawned at the centre while lives remain and switched off otherwise. The score is unchanged and the invariant holds |
| Frame.CollisionPhase | main.c:267-335 | the whole collision check as a change of state: the pools keep their sizes; a life is lost exactly when the live ship is hit by an asteroid of the pool the projectile pass left; at most one is lost, and without a loss the ship is unchanged; its score and validity are `CollisionScore` and `CollisionKeepsValid` |
| Frame.CollisionScore | main.c:267-303 | the collision phase switches no projectile on, adds between 0 and 1000 points, keeps the score's remainder modulo 100 and keeps the pool well sized |
| Frame.CollisionKeepsValid | main.c:267-335 | the collision phase keeps the whole state valid |
| Game.Session.Collide | main.c:267-335 | the new state is `Frame.CollisionPhase` of the old one: the pools and score as `ResolveShots` describes, then the ship and lives as `ShipPass` against the pool the projectiles left, at most one life lost |
| Game.Session.CountActiveAsteroids | main.c:192-195 | the counting loop returns the number of active asteroid slots |
| Frame.Refill | main.c:196-203 | at most 8/3 = 2 active asteroids: every free slot becomes a fresh large asteroid and occupied slots are kept; above that the pool is unchanged |
| Frame.RefillSpec | main.c:191-203 | after replenishment more than 2 asteroids are active, every slot is when at most 2 were, and a well-sized pool stays well sized |
| Game.Session.Replenish | main.c:191-203 | the asteroid pool becomes `Frame.Refill` of the old one: at most 2 active asteroids triggers a refill in which every slot becomes active, free slots receive fresh large asteroids and occupied slots are kept. Above that the pool is unchanged. Either way more than 2 asteroids are active afterwards |
| Frame.Collided | main.c:121-189 | the state after ship physics, the optional fire event, drift, flight and collisions, with the pools at their capacities |
| Frame.Step | main.c:119-204 | one whole frame: replenishment after `Collided`, with the pools at their capacities |
| Frame.StepKeepsValid | main.c:119-204 | a frame keeps the state valid: well-sized pool, ship in the field within the speed limit, alive exactly while lives remain, lives 0..3, score a non-negative multiple of 100 |
| Frame.StepShots | main.c:174-189 | a projectile is switched on by a frame only with a fire event and only in the slot that was the lowest free one (`OnlyFiredSlot`) |
| Frame.StepScore | main.c:267-303 | a frame adds between 0 and 1000 points and keeps the score's remainder modulo 100 |
| Frame.StepLives | main.c:315-335 | a frame costs at most one life and none once the ship is destroyed; a lost life leaves the ship respawned at the centre at rest while lives remain and destroyed otherwise |
| Frame.StepAsteroids | main.c:191-203 | after a frame more than 2 asteroids are active; when the collisions left at most 2, every slot is active, and otherwise the pool is as the collisions left it |
| Frame.StepBounded | main.c:119-204 | every frame keeps `FrameBounded`: more than 2 asteroids active afterwards, at most one life lost, between 0 and 1000 points added |
| Game.Session.Tick | main.c:119-204 | the new state is `Frame.Step` of the old one, so every lemma about `Step` holds of it; spelled out: the invariant holds, `FrameBounded` holds between the old and new state (more than 2 asteroids active, at most one life lost, between 0 and 1000 points added), and `OnlyFiredSlot` holds (a projectile is switched on only by the fire event, in the lowest free slot) |
| Game.Session.Restart | main.c:407-411 | when the ship is inactive with no lives, which under the invariant is exactly when lives are 0, a restart request resets the session; in every other case nothing changes |

## Left out

- Windowing, frame pacing and rendering (main.c:58-71, 361-415) are raylib I/O. The one
  exception is the restart request inside the drawing code, which is `Game.Session.Restart`.
- Input polling (`IsKeyDown`, `IsMouseButtonPressed`, `IsKeyPressed`) is replaced by boolean parameters.
- Trigonometry is replaced by inputs:
  - the heading from `atan2f` (main.c:136);
  - the fired velocity from `sin`/`cos` (main.c:180-181).

  The model does not relate the heading to the direction or the fired velocity to the heading.
- The `sqrtf` normalisation of the direction (main.c:128-130) is replaced by an input unit vector constrained by `Ships.UnitAlong`.
- Ships.UnitAlong: for a diagonal key press the unit vector has components ±1/√2, which is irrational. No `real` literal equals it, and the model does not prove such a real exists. The diagonal cases of `UpdateShip` and `Tick` are therefore proved for every unit vector meeting the requirement, but no concrete diagonal input is exhibited.
- IEEE single-precision rounding is left out: arithmetic is exact over the reals.
- How `GetRandomValue` produces its values is left out. Draws are per-slot inputs within their ranges, not one consumed stream.
- Game.Session.Tick: does not model 32-bit `int` overflow of the score or lives counters, because the counters are unbounded integers here; the score grows by at most 1000 per frame.
