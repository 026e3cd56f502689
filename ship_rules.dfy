/** The gameplay rules of the space-game ship, stated on values: how a hit changes the
    ship's health and its damage effect, and when the missile launcher may fire.
    The class in ship_sprite.dfy performs these rules on its fields. */
module ShipRules {

  // ---------------------------------------------------------------------------
  // Constants of the ship

  /** Declared by the ship but never read: health is not initialised from it. */
  const StartingShipHealth: int := 10
  /** A hit that leaves health below this shows (or intensifies) the damage effect. */
  const ShowDamageBelowHealth: int := 4
  /** Number of debris chunks an explosion adds to the scene. */
  const NumberOfChunks: nat := 30
  /** Radius of the circular physics body of one debris chunk. */
  const ChunkRadius: real := 0.25
  /** Delay before an exploded ship removes itself: the single-precision value of 0.35. */
  const RemoveShipTime: real := 0.3499999940395355224609375
  /** Minimum time between two missiles: the single-precision value of 0.1, compared in
      double precision, so an elapsed time of exactly 0.1 does not suffice. */
  const FiringInterval: real := 0.100000001490116119384765625

  // ---------------------------------------------------------------------------
  // 32-bit signed integers, as C# `int` with unchecked arithmetic

  const MinInt32: int := -0x8000_0000
  const MaxInt32: int := 0x7fff_ffff

  type Int32 = x: int | MinInt32 <= x <= MaxInt32

  /** Two's-complement wrap-around of an unbounded integer into the `int` range. */
  function Wrap32(x: int): (r: Int32)
    ensures MinInt32 <= x <= MaxInt32 ==> r == x
    ensures (x - r) % 0x1_0000_0000 == 0
    ensures x > MaxInt32 && x - 0x1_0000_0000 <= MaxInt32 ==> r == x - 0x1_0000_0000
  {
    (x - MinInt32) % 0x1_0000_0000 + MinInt32
  }

  // ---------------------------------------------------------------------------
  // Damage

  /** The visible damage effect: absent, or present with its particle birth rate
      doubled `doublings` times since it was created. */
  datatype Effect = Hidden | Shown(doublings: nat)

  /** What a hit reads and changes: the health and the damage effect. */
  datatype Hull = Hull(health: Int32, effect: Effect)

  /** The hull of a freshly built ship: health is never initialised, so it is 0. */
  const FreshHull: Hull := Hull(0, Hidden)

  /** A hit explodes the ship when it is at least the current health and the health
      is not negative (the second half only fails after an overflow). */
  predicate Explodes(h: Hull, amount: Int32) {
    amount >= h.health && h.health >= 0
  }

  /** A non-lethal hit that leaves health below the threshold shows the effect. */
  predicate DamageShown(h: Hull, amount: Int32) {
    amount < h.health && Wrap32(h.health - amount) < ShowDamageBelowHealth
  }

  /** The damage effect after one more damage event: created if absent, else doubled. */
  function Intensified(e: Effect): Effect {
    match e
    case Hidden => Shown(0)
    case Shown(k) => Shown(k + 1)
  }

  /** The hull after a hit of `amount`. */
  function AfterDamage(h: Hull, amount: Int32): (r: Hull)
    // health never becomes negative unless the subtraction overflows
    ensures 0 <= h.health && h.health - amount <= MaxInt32 ==> 0 <= r.health
    // a lethal hit zeroes health and leaves the effect alone
    ensures Explodes(h, amount) ==> r.health == 0 && r.effect == h.effect
    // after an overflow to a negative health, a hit at least that large does nothing
    ensures amount >= h.health && h.health < 0 ==> r == h
    // a non-lethal hit subtracts, with 32-bit wrap-around
    ensures amount < h.health ==> r.health == Wrap32(h.health - amount)
    ensures 0 <= amount < h.health ==> 0 < r.health <= h.health
    // the effect changes exactly on a non-lethal hit leaving health below the threshold
    ensures r.effect != h.effect <==> DamageShown(h, amount)
    ensures DamageShown(h, amount) ==>
      && r.effect.Shown?
      && (h.effect.Hidden? ==> r.effect.doublings == 0)
      && (h.effect.Shown? ==> r.effect.doublings == h.effect.doublings + 1)
  {
    if amount >= h.health then
      if h.health >= 0 then Hull(0, h.effect) else h
    else
      var health := Wrap32(h.health - amount);
      Hull(health, if health < ShowDamageBelowHealth then Intensified(h.effect) else h.effect)
  }

  /** The hull after a sequence of hits, in order. */
  function AfterHits(h: Hull, amounts: seq<Int32>): Hull
    decreases |amounts|
  {
    if amounts == [] then h else AfterHits(AfterDamage(h, amounts[0]), amounts[1..])
  }

  /** How many of a sequence of hits explode the ship. */
  function Explosions(h: Hull, amounts: seq<Int32>): nat
    decreases |amounts|
  {
    if amounts == [] then 0
    else (if Explodes(h, amounts[0]) then 1 else 0) + Explosions(AfterDamage(h, amounts[0]), amounts[1..])
  }

  /** How many of a sequence of hits show or intensify the damage effect. */
  function DamageEvents(h: Hull, amounts: seq<Int32>): nat
    decreases |amounts|
  {
    if amounts == [] then 0
    else (if DamageShown(h, amounts[0]) then 1 else 0) + DamageEvents(AfterDamage(h, amounts[0]), amounts[1..])
  }

  /** The effect after `n` damage events: the first creates it, each later one doubles it. */
  function IntensifiedTimes(e: Effect, n: nat): Effect {
    if n == 0 then e
    else match e
      case Hidden => Shown(n - 1)
      case Shown(k) => Shown(k + n)
  }

  predicate AllNonNegative(amounts: seq<Int32>) {
    forall i :: 0 <= i < |amounts| ==> amounts[i] >= 0
  }

  /** Non-negative damage never makes a non-negative health negative, and never raises it. */
  lemma {:induction false} NonNegativeDamageKeepsHealthNonNegative(h: Hull, amounts: seq<Int32>)
    requires 0 <= h.health
    requires AllNonNegative(amounts)
    ensures 0 <= AfterHits(h, amounts).health <= h.health
    decreases |amounts|
  {
    if amounts != [] {
      NonNegativeDamageKeepsHealthNonNegative(AfterDamage(h, amounts[0]), amounts[1..]);
    }
  }

  /** There is no once-only latch: once health is 0, every further non-negative hit
      explodes the ship again, and the hull stays as it is. */
  lemma {:induction false} EveryHitAtZeroHealthExplodes(h: Hull, amounts: seq<Int32>)
    requires h.health == 0
    requires AllNonNegative(amounts)
    ensures Explosions(h, amounts) == |amounts|
    ensures AfterHits(h, amounts) == h
    decreases |amounts|
  {
    if amounts != [] {
      EveryHitAtZeroHealthExplodes(AfterDamage(h, amounts[0]), amounts[1..]);
    }
  }

  /** After a lethal hit, each of the following non-negative hits explodes once more. */
  lemma LethalHitThenEveryHitExplodes(h: Hull, amount: Int32, rest: seq<Int32>)
    requires Explodes(h, amount)
    requires AllNonNegative(rest)
    ensures Explosions(h, [amount] + rest) == 1 + |rest|
  {
    var s := [amount] + rest;
    assert s[0] == amount && s[1..] == rest;
    EveryHitAtZeroHealthExplodes(AfterDamage(h, amount), rest);
  }

  /** The damage effect is created at most once and then only doubled: after any hits,
      it is the starting effect intensified once per damage event. */
  lemma {:induction false} EffectIntensifiesOncePerEvent(h: Hull, amounts: seq<Int32>)
    ensures AfterHits(h, amounts).effect == IntensifiedTimes(h.effect, DamageEvents(h, amounts))
    decreases |amounts|
  {
    if amounts != [] {
      var next := AfterDamage(h, amounts[0]);
      EffectIntensifiesOncePerEvent(next, amounts[1..]);
      if DamageShown(h, amounts[0]) {
        assert next.effect == Intensified(h.effect);
      } else {
        assert next.effect == h.effect;
      }
    }
  }

  /** Once shown, the damage effect is never removed and its birth rate never drops. */
  lemma ShownEffectIsKept(h: Hull, amounts: seq<Int32>)
    requires h.effect.Shown?
    ensures AfterHits(h, amounts).effect.Shown?
    ensures AfterHits(h, amounts).effect.doublings >= h.effect.doublings
  {
    EffectIntensifiesOncePerEvent(h, amounts);
  }

  /** Once health is negative (only an overflow gets it there), non-negative damage
      changes nothing and never explodes the ship. */
  lemma {:induction false} NegativeHealthIgnoresDamage(h: Hull, amounts: seq<Int32>)
    requires h.health < 0
    requires AllNonNegative(amounts)
    ensures AfterHits(h, amounts) == h
    ensures Explosions(h, amounts) == 0
    decreases |amounts|
  {
    if amounts != [] {
      NegativeHealthIgnoresDamage(AfterDamage(h, amounts[0]), amounts[1..]);
    }
  }

  /** A fresh ship hit by the most negative `int` wraps its health to that value, shows
      the damage effect, and can never again be exploded by ordinary damage. */
  lemma MinValueHitMakesShipIndestructible(amounts: seq<Int32>)
    requires AllNonNegative(amounts)
    ensures AfterDamage(FreshHull, MinInt32) == Hull(MinInt32, Shown(0))
    ensures Explosions(AfterDamage(FreshHull, MinInt32), amounts) == 0
  {
    assert Wrap32(0 - MinInt32) == MinInt32;
    NegativeHealthIgnoresDamage(AfterDamage(FreshHull, MinInt32), amounts);
  }

  /** A fresh ship explodes on its first non-negative hit, and on every later one. */
  lemma FreshShipExplodesOnEveryHit(amounts: seq<Int32>)
    requires AllNonNegative(amounts)
    ensures Explosions(FreshHull, amounts) == |amounts|
  {
    EveryHitAtZeroHealthExplodes(FreshHull, amounts);
  }

  /** A ship whose health had been set to StartingShipHealth: a hit of 7 leaves 3 and
      shows the effect; a second hit of 7 zeroes health and explodes it, effect kept. */
  lemma StartingHealthScenario()
    ensures AfterHits(Hull(StartingShipHealth, Hidden), [7]) == Hull(3, Shown(0))
    ensures AfterHits(Hull(StartingShipHealth, Hidden), [7, 7]) == Hull(0, Shown(0))
    ensures Explosions(Hull(StartingShipHealth, Hidden), [7, 7]) == 1
  {
    var s := [7, 7];
    assert s[1..] == [7];
  }

  // ---------------------------------------------------------------------------
  // Debris

  /** Collision, contact-test and category masks of a physics body, and its radius. */
  datatype Body = CircleBody(radius: real, categoryMask: bv32, collisionMask: bv32, contactTestMask: bv32)

  /** Nodes the ship adds to its scene. */
  datatype SceneNode = Explosion(body: Body) | Missile

  /** A debris chunk: a small circle that collides with and reports nothing. */
  predicate IsInertChunk(n: SceneNode) {
    n.Explosion? && n.body.radius == ChunkRadius &&
    n.body.categoryMask == 0 && n.body.collisionMask == 0 && n.body.contactTestMask == 0
  }

  const InertChunk: SceneNode := Explosion(CircleBody(ChunkRadius, 0, 0, 0))

  /** The chunks one explosion adds to the scene. */
  function Debris(n: nat): (r: seq<SceneNode>)
    ensures |r| == n
    ensures forall i :: 0 <= i < |r| ==> IsInertChunk(r[i])
  {
    seq(n, _ => InertChunk)
  }

  /** One step of an action the ship runs on itself. */
  datatype ActionStep = WaitForDuration(seconds: real) | RemoveFromParent

  /** The action an explosion schedules: wait, then remove the ship from the scene. */
  const RemoveShipAction: seq<ActionStep> := [WaitForDuration(RemoveShipTime), RemoveFromParent]

  // ---------------------------------------------------------------------------
  // Missile cooldown

  /** A launch attempt at `now` fires when strictly more than the firing interval has
      passed since the last missile. */
  predicate CanFire(lastFired: real, now: real) {
    now - lastFired > FiringInterval
  }

  /** The times, among a sequence of launch attempts, at which a missile is fired. */
  function FiredTimes(lastFired: real, attempts: seq<real>): seq<real>
    decreases |attempts|
  {
    if attempts == [] then []
    else if CanFire(lastFired, attempts[0]) then [attempts[0]] + FiredTimes(attempts[0], attempts[1..])
    else FiredTimes(lastFired, attempts[1..])
  }

  /** The launcher is a rate limiter: every missile is fired at an attempt time, more than
      the firing interval after the previous missile and after every earlier one, and
      attempts that were refused are not fired later. */
  lemma {:induction false} FiredTimesAreRateLimited(lastFired: real, attempts: seq<real>)
    ensures |FiredTimes(lastFired, attempts)| <= |attempts|
    ensures forall t :: t in FiredTimes(lastFired, attempts) ==> t in attempts
    ensures forall i :: 0 <= i < |FiredTimes(lastFired, attempts)| ==>
      FiredTimes(lastFired, attempts)[i] - lastFired > FiringInterval
    ensures forall i, j :: 0 <= i < j < |FiredTimes(lastFired, attempts)| ==>
      FiredTimes(lastFired, attempts)[j] - FiredTimes(lastFired, attempts)[i] > FiringInterval
    decreases |attempts|
  {
    if attempts != [] {
      var t := attempts[0];
      if CanFire(lastFired, t) {
        FiredTimesAreRateLimited(t, attempts[1..]);
        var rest := FiredTimes(t, attempts[1..]);
        var f := FiredTimes(lastFired, attempts);
        assert f == [t] + rest;
        forall i, j | 0 <= i < j < |f| ensures f[j] - f[i] > FiringInterval {
          if i == 0 {
            assert f[j] == rest[j - 1];
          } else {
            assert f[j] == rest[j - 1] && f[i] == rest[i - 1];
          }
        }
      } else {
        FiredTimesAreRateLimited(lastFired, attempts[1..]);
      }
    }
  }

  /** Attempts within the firing interval of the last missile fire nothing. */
  lemma AttemptsWithinIntervalFireNothing(lastFired: real, attempts: seq<real>)
    requires forall i :: 0 <= i < |attempts| ==> attempts[i] - lastFired <= FiringInterval
    ensures FiredTimes(lastFired, attempts) == []
  {
    FiredTimesAreRateLimited(lastFired, attempts);
  }

  /** A fresh ship (last fired at time 0): attempts at 0, 0.05 and 0.11 fire only at 0.11,
      and a further attempt at 0.15 is refused while one at 0.25 fires. */
  lemma FreshShipFiringScenario()
    ensures FiredTimes(0.0, [0.0, 0.05, 0.11]) == [0.11]
    ensures FiredTimes(0.0, [0.0, 0.05, 0.11, 0.15, 0.25]) == [0.11, 0.25]
  {
    var a := [0.0, 0.05, 0.11, 0.15, 0.25];
    assert a[1..] == [0.05, 0.11, 0.15, 0.25];
    assert a[1..][1..] == [0.11, 0.15, 0.25];
    assert a[1..][1..][1..] == [0.15, 0.25];
    assert a[1..][1..][1..][1..] == [0.25];
    var b := [0.0, 0.05, 0.11];
    assert b[1..] == [0.05, 0.11];
    assert b[1..][1..] == [0.11];
  }
}
