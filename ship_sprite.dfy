/** The ship sprite as an object: its fields are updated in place by its methods, which
    perform the rules of module ShipRules and add nodes to the scene it lives in. */
module SpaceShip {
  import opened ShipRules

  /** The scene graph the ship lives in, as far as the ship changes it: the nodes the
      ship adds, in order. */
  class Scene {
    var children: seq<SceneNode>

    constructor ()
      ensures children == []
    {
      children := [];
    }
  }

  /** The particle emitter that shows damage. Its birth rate is the emitter's configured
      rate doubled `birthRateDoublings` times. */
  class DamageNode {
    var birthRateDoublings: nat

    constructor ()
      ensures birthRateDoublings == 0
    {
      birthRateDoublings := 0;
    }
  }

  /** The engine exhaust emitter. */
  class ExhaustNode {
    constructor ()
    {
    }
  }

  class ShipSprite {
    /** The scene the ship has been added to. */
    const scene: Scene
    var health: Int32
    var visibleDamageNode: DamageNode?
    var exhaustNode: ExhaustNode?
    var timeLastFiredMissile: real
    /** The ship's own child nodes, in the order they were attached. */
    var children: seq<object>
    /** The actions the ship has been asked to run on itself, in order. */
    var actions: seq<seq<ActionStep>>

    /** The ship's children are exactly its damage and exhaust emitters, each attached
        once, and only once they exist. */
    ghost predicate Valid()
      reads this
    {
      && (visibleDamageNode != null ==> visibleDamageNode in children)
      && (exhaustNode != null ==> exhaustNode in children)
      && (forall c :: c in children ==> c == visibleDamageNode || c == exhaustNode)
      && |children| == (if visibleDamageNode == null then 0 else 1) + (if exhaustNode == null then 0 else 1)
    }

    /** The part of the ship's state that a hit reads and changes. */
    ghost function HullState(): Hull
      reads this, visibleDamageNode
    {
      Hull(health, if visibleDamageNode == null then Hidden else Shown(visibleDamageNode.birthRateDoublings))
    }

    /** A new ship in `scene`: no field is initialised, so health is 0, no emitter exists
        and the last missile counts as fired at time 0. */
    constructor (scene: Scene)
      ensures this.scene == scene
      ensures Valid()
      ensures HullState() == FreshHull
      ensures exhaustNode == null && children == []
      ensures timeLastFiredMissile == 0.0 && actions == []
    {
      this.scene := scene;
      health := 0;
      visibleDamageNode := null;
      exhaustNode := null;
      timeLastFiredMissile := 0.0;
      children := [];
      actions := [];
    }

    /** The exhaust emitter, created and attached to the ship on first use only. */
    method Exhaust() returns (e: ExhaustNode)
      requires Valid()
      modifies this`exhaustNode, this`children
      ensures Valid()
      ensures exhaustNode == e
      ensures old(exhaustNode) != null ==> e == old(exhaustNode) && children == old(children)
      ensures old(exhaustNode) == null ==> fresh(e) && children == old(children) + [e]
    {
      if exhaustNode == null {
        var emitter := new ExhaustNode();
        children := children + [emitter];
        exhaustNode := emitter;
      }
      e := exhaustNode;
    }

    /** Applies a hit of `amount`: the hull changes as AfterDamage says, and a lethal
        hit explodes the ship; a newly shown damage effect is a fresh emitter attached
        to the ship, and an existing one is kept. */
    method ApplyDamage(amount: Int32)
      requires Valid()
      modifies this, scene, visibleDamageNode
      ensures Valid()
      ensures HullState() == AfterDamage(old(HullState()), amount)
      ensures scene.children == old(scene.children) +
        (if Explodes(old(HullState()), amount) then Debris(NumberOfChunks) else [])
      ensures actions == old(actions) + (if Explodes(old(HullState()), amount) then [RemoveShipAction] else [])
      ensures old(visibleDamageNode) != null ==> visibleDamageNode == old(visibleDamageNode)
      ensures old(visibleDamageNode) == null && visibleDamageNode != null ==>
        fresh(visibleDamageNode) && children == old(children) + [visibleDamageNode]
      ensures old(visibleDamageNode) != null || visibleDamageNode == null ==> children == old(children)
      ensures exhaustNode == old(exhaustNode) && timeLastFiredMissile == old(timeLastFiredMissile)
    {
      if amount >= health {
        if health >= 0 {
          health := 0;
          Explode();
        }
      } else {
        health := Wrap32(health - amount);
        if health < ShowDamageBelowHealth {
          if visibleDamageNode == null {
            visibleDamageNode := new DamageNode();
            children := children + [visibleDamageNode];
          } else {
            visibleDamageNode.birthRateDoublings := visibleDamageNode.birthRateDoublings + 1;
          }
        }
      }
    }

    /** Adds the debris chunks to the scene and schedules the ship's removal. */
    method Explode()
      modifies scene, this`actions
      ensures scene.children == old(scene.children) + Debris(NumberOfChunks)
      ensures actions == old(actions) + [RemoveShipAction]
    {
      for i := 0 to NumberOfChunks
        invariant scene.children == old(scene.children) + Debris(i)
        invariant actions == old(actions)
      {
        assert Debris(i + 1) == Debris(i) + [InertChunk];
        scene.children := scene.children + [InertChunk];
      }
      actions := actions + [RemoveShipAction];
    }

    /** Fires one missile into the scene, and records the time, only when strictly more
        than the firing interval has passed since the last one. */
    method AttemptMissileLaunch(currentTime: real)
      modifies this`timeLastFiredMissile, scene
      ensures CanFire(old(timeLastFiredMissile), currentTime) ==>
        timeLastFiredMissile == currentTime && scene.children == old(scene.children) + [Missile]
      ensures !CanFire(old(timeLastFiredMissile), currentTime) ==>
        timeLastFiredMissile == old(timeLastFiredMissile) && scene.children == old(scene.children)
    {
      var timeSinceLastFired := currentTime - timeLastFiredMissile;
      if timeSinceLastFired > FiringInterval {
        timeLastFiredMissile := currentTime;
        scene.children := scene.children + [Missile];
      }
    }
  }

  /** A client of the ship's contracts: a fresh ship explodes on each of two hits, while
      the exhaust emitter is attached once, and its first missile waits for the interval. */
  method FreshShipScenario()
  {
    var scene := new Scene();
    var ship := new ShipSprite(scene);
    ship.ApplyDamage(5);
    assert |scene.children| == NumberOfChunks && ship.health == 0;
    ship.ApplyDamage(5);
    assert |scene.children| == 2 * NumberOfChunks;
    assert ship.actions == [RemoveShipAction, RemoveShipAction];
    var e1 := ship.Exhaust();
    var e2 := ship.Exhaust();
    assert e1 == e2 && |ship.children| == 1;
    ship.AttemptMissileLaunch(0.0);
    ship.AttemptMissileLaunch(0.05);
    assert |scene.children| == 2 * NumberOfChunks;
    ship.AttemptMissileLaunch(0.11);
    assert scene.children[2 * NumberOfChunks..] == [Missile];
  }
}
