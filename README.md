# Space-game ship: damage, explosion and missile cooldown

This project models the gameplay state of the ship sprite in the SpriteKit physics-collisions
sample (`ShipSprite`) and proves properties of it in Dafny 4.11. The ship has two small
state machines:

- **Damage.** `ApplyDamage(amount)` works on an `int` health field. A hit at least as large as
  the health zeroes it and explodes the ship. A smaller hit subtracts. If that leaves health below
  `showDamageBelowHealth` (4), the hit shows a damage emitter the first time and doubles the
  emitter's particle birth rate on every later such hit. An explosion adds `numberOfChunks` (30)
  inert debris chunks to the scene. Each chunk is a circle of radius 0.25 with category, collision
  and contact-test masks 0. The explosion also schedules one wait-then-remove action on the ship.
- **Missile cooldown.** `AttemptMissileLaunch(currentTime)` fires one missile into the scene, and
  records the time, only when strictly more than `firingInterval` has passed since the last one.

The model has two files:

- `ship_rules.dfy` (module `ShipRules`) states these rules on values. `AfterDamage` maps a hull
  (health and damage effect) to the next hull. `FiredTimes` picks the fired times out of a
  sequence of launch attempts. The lemmas there are about sequences of hits and of attempts.
- `ship_sprite.dfy` (module `SpaceShip`) is the ship as an object. It has the source's fields
  `health`, `visibleDamageNode`, `exhaustNode` and `timeLastFiredMissile`, the ship's own child
  nodes, and the actions it runs. Its methods update these in place. Each method's postcondition
  ties the new state to the rules.

Behaviour of the code that the model keeps, although a reader might expect otherwise:

- `health` has no initialiser (line 34), so it starts at 0. `startingShipHealth` = 10 (line 12)
  is never read. A new ship therefore explodes on its first non-negative hit.
- Nothing latches the explosion. After a lethal hit, health is 0, so every further
  non-negative hit explodes the ship again. Each such hit adds another 30 chunks and schedules
  another removal. A documented design says destruction fires exactly once and later hits do
  nothing; the code does not do that, and the model follows the code.
- A negative amount takes the subtracting branch and raises health. C# `int` arithmetic
  wraps around, and the model writes this out (`Wrap32`). One hit of `int.MinValue` on a new ship
  wraps health to `int.MinValue`. From then on the `health >= 0` guard (line 88) is false, so no
  non-negative hit ever explodes the ship (`MinValueHitMakesShipIndestructible`). Without such an
  overflow, health is never negative.
- `timeLastFiredMissile` also starts at 0. A launch attempt at time 0 therefore does not fire.
  A documented scenario says it would; the code does not, and the model follows the code.
- The float constants are compared as the exact single-precision values they hold:
  `firingInterval` is 0.100000001490116119384765625 and `removeShipTime` is
  0.3499999940395355224609375.

## Model

| member | source | states |
|---|---|---|
| `ShipRules.Wrap32` | SpriteKitPhysicsCollisions/SpriteKitPhysicsCollisions/ShipSprite.cs:93 | `health -= amount` is C# unchecked `int` arithmetic. The result is in range, is congruent to the exact difference modulo 2^32, and is the exact difference when that fits. |
| `ShipRules.AfterDamage` | SpriteKitPhysicsCollisions/SpriteKitPhysicsCollisions/ShipSprite.cs:85-103 | A lethal hit (amount >= health >= 0) sets health to 0 and leaves the damage effect alone. After an overflow to negative health, a hit at least that large changes nothing. A smaller hit subtracts with wrap-around; for a non-negative amount the new health lies in (0, old health]. A non-negative health stays non-negative unless the subtraction overflows. The effect changes exactly when a non-lethal hit leaves health below 4: it is created with no doublings, or its doublings go up by one. |
| `ShipRules.Debris` | SpriteKitPhysicsCollisions/SpriteKitPhysicsCollisions/ShipSprite.cs:107-120 | An explosion's chunks: exactly `n` nodes, each a circle of radius 0.25 with category, collision and contact-test masks all 0. |
| `ShipRules.NonNegativeDamageKeepsHealthNonNegative` | SpriteKitPhysicsCollisions/SpriteKitPhysicsCollisions/ShipSprite.cs:85-103 | Over any sequence of non-negative hits, a non-negative health stays between 0 and its starting value. |
| `ShipRules.EveryHitAtZeroHealthExplodes` | SpriteKitPhysicsCollisions/SpriteKitPhysicsCollisions/ShipSprite.cs:87-91 | At health 0, every one of a sequence of non-negative hits explodes the ship. The hull, including the damage effect, is left as it was. |
| `ShipRules.LethalHitThenEveryHitExplodes` | SpriteKitPhysicsCollisions/SpriteKitPhysicsCollisions/ShipSprite.cs:87-91 | There is no once-only latch: a lethal hit followed by `k` non-negative hits gives `k + 1` explosions. |
| `ShipRules.FreshShipExplodesOnEveryHit` | SpriteKitPhysicsCollisions/SpriteKitPhysicsCollisions/ShipSprite.cs:34-91 | Since health starts at 0, a new ship explodes on every one of a sequence of non-negative hits. |
| `ShipRules.EffectIntensifiesOncePerEvent` | SpriteKitPhysicsCollisions/SpriteKitPhysicsCollisions/ShipSprite.cs:94-101 | After any sequence of hits, the effect is the starting one intensified once per damage event. The first event creates the emitter and each later event doubles its birth rate; the emitter is never created twice. |
| `ShipRules.ShownEffectIsKept` | SpriteKitPhysicsCollisions/SpriteKitPhysicsCollisions/ShipSprite.cs:94-101 | Once the damage emitter exists, no sequence of hits removes it or lowers its birth rate. |
| `ShipRules.NegativeHealthIgnoresDamage` | SpriteKitPhysicsCollisions/SpriteKitPhysicsCollisions/ShipSprite.cs:87-93 | When health is negative, which only an overflow causes, non-negative hits change nothing and never explode the ship. |
| `ShipRules.MinValueHitMakesShipIndestructible` | SpriteKitPhysicsCollisions/SpriteKitPhysicsCollisions/ShipSprite.cs:85-101 | On a new ship, a hit of `int.MinValue` wraps health to `int.MinValue` and shows the damage emitter. No later non-negative hit explodes the ship. |
| `ShipRules.StartingHealthScenario` | SpriteKitPhysicsCollisions/SpriteKitPhysicsCollisions/ShipSprite.cs:12-13 | Had health started at `startingShipHealth` (10), a hit of 7 would leave 3 and show the emitter. A second hit of 7 would zero health and explode the ship once, keeping the emitter. |
| `ShipRules.FiredTimesAreRateLimited` | SpriteKitPhysicsCollisions/SpriteKitPhysicsCollisions/ShipSprite.cs:172-190 | For any attempt sequence, every missile is fired at one of the attempt times. Each fires strictly more than `firingInterval` after the last missile before the sequence and after every earlier missile. A refused attempt is never fired later. |
| `ShipRules.AttemptsWithinIntervalFireNothing` | SpriteKitPhysicsCollisions/SpriteKitPhysicsCollisions/ShipSprite.cs:174-175 | Attempts no more than `firingInterval` after the last missile fire nothing. |
| `ShipRules.FreshShipFiringScenario` | SpriteKitPhysicsCollisions/SpriteKitPhysicsCollisions/ShipSprite.cs:172-176 | A new ship (last fired at 0) attempting at 0, 0.05 and 0.11 fires only at 0.11. Further attempts at 0.15 and 0.25 fire only at 0.25. |
| `SpaceShip.ShipSprite.constructor` | SpriteKitPhysicsCollisions/SpriteKitPhysicsCollisions/ShipSprite.cs:29-34 | A new ship has health 0, no damage or exhaust emitter, no children, no actions, and its last missile time is 0. |
| `SpaceShip.ShipSprite.Exhaust` | SpriteKitPhysicsCollisions/SpriteKitPhysicsCollisions/ShipSprite.cs:73-83 | The exhaust getter creates and attaches a fresh emitter only when none exists. Otherwise it returns the cached emitter and attaches nothing. |
| `SpaceShip.ShipSprite.ApplyDamage` | SpriteKitPhysicsCollisions/SpriteKitPhysicsCollisions/ShipSprite.cs:85-103 | The hull becomes `AfterDamage` of the old hull. A lethal hit adds exactly the 30 debris chunks to the scene and one wait-then-remove action; any other hit adds neither. A newly shown damage emitter is fresh and attached once; an existing one is kept. The ship's children stay exactly its emitters. |
| `SpaceShip.ShipSprite.Explode` | SpriteKitPhysicsCollisions/SpriteKitPhysicsCollisions/ShipSprite.cs:105-126 | Appends exactly `numberOfChunks` inert chunks to the scene and schedules wait-`removeShipTime`-then-remove on the ship. Nothing else changes. |
| `SpaceShip.ShipSprite.AttemptMissileLaunch` | SpriteKitPhysicsCollisions/SpriteKitPhysicsCollisions/ShipSprite.cs:172-190 | When `currentTime - timeLastFiredMissile > firingInterval`, records `currentTime` and adds one missile to the scene. Otherwise no field changes and nothing is added. |

## Left out

- Thrust and rotation (`ActivateMainEngine`, `DeactivateMainEngine`, `ReverseThrust`, `RotateShipLeft`, `RotateShipRight`, `ShipOrientation`, `ShipExhaustAngle`, lines 128-170): floating-point trigonometry forwarded to the physics engine.
- Debris kinematics (lines 36-40, 108-117): random angles, speeds and positions drawn from a process-global random generator, and the chunk velocities. Only the count, radius and masks of the chunks are modelled. So is the spawn-position argument that uses `Position.Y + dispersion` as the upper bound of the x range.
- Physics-body construction in the constructor (the polygon path, bitmasks and damping, lines 42-71), and the missile's spawn position, velocity and impulse (lines 178-189): engine configuration and float vectors. A missile is recorded only as a node added to the scene.
- `engineEngagedAlpha` (line 77) and all emitter alphas and angles, and the configured initial birth rate of the damage emitter: these live in the emitter classes, which are not part of this model. The birth rate is modelled as the number of doublings applied to it.
- Running the scheduled removal action frame by frame: the model records only the action that was scheduled.
- The ship outside a scene: the model's ship always belongs to a scene. In the C# code, an explosion or launch before the ship is added to a scene would dereference a null `Scene`.
- Floating-point time: timestamps are reals. The double-precision rounding of `currentTime - timeLastFiredMissile`, NaN times, and float overflow of a birth rate doubled more than about 128 times are not modelled.
- `ShipRules.AfterDamage`: health is promised non-negative only when the subtraction does not overflow. That is always so for non-negative amounts. It is not so for every amount, because `int` arithmetic wraps around.
- Rotation/HandlingRotation/AppDelegate.cs: window and navigation-controller setup, UI plumbing.
- CoreImage/FilterHolder.cs: a property holder whose only logic is a reflection lookup of an availability attribute and a console warning: foreign calls and I/O.
