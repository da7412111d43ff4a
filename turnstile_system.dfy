/** The turnstile system as the object that owns the state: the turnstile
    entities it sees, the set of rotating gates, and the event log. Every
    handler updates those fields in place; its contract ties the new state to
    the specification function of the same name and, for the entry points,
    keeps the system invariant. */
module TurnstileSystem {
  import opened TurnstileTypes
  import Spec = TurnstileSpec
  import opened TurnstileUpdate

  class SharedTurnstileSystem {
    /** Every turnstile entity with its component, exemption and body state. */
    var gates: map<EntityId, Gate>
    /** The turnstiles that are currently rotating. */
    var active: set<EntityId>
    /** What the system has emitted so far. */
    var log: seq<Event>

    /** The abstract value of the system. */
    function Abstract(): World
      reads this
    {
      World(gates, active, log)
    }

    predicate Valid()
      reads this
    {
      TurnstileTypes.Valid(Abstract())
    }

    constructor ()
      ensures Abstract() == World(map[], {}, [])
      ensures Valid()
    {
      gates, active, log := map[], {}, [];
    }

    method SetCollidable(uid: EntityId, collidable: bool)
      modifies this
      ensures Abstract() == Spec.SetCollidable(old(Abstract()), uid, collidable)
    {
      if uid !in gates {
        return;
      }
      var g := gates[uid];
      if g.canCollide.Some? {
        gates := gates[uid := g.(canCollide := Some(collidable))];
      }
    }

    method SetState(uid: EntityId, s: TurnstileState, now: Time)
      modifies this
      ensures Abstract() == Spec.SetState(old(Abstract()), uid, s, now)
    {
      if uid !in gates {
        return;
      }
      var g := gates[uid];
      // No change: nothing is raised.
      if s == g.state {
        return;
      }
      match s {
        case Rotating =>
          active := active + {uid};
          g := g.(nextStateChange := Some(now + g.turnTime));
        case Idle =>
          active := active - {uid};
      }
      gates := gates[uid := g.(state := s)];
      log := log + [StateChanged(uid, s)];
    }

    method OnComponentInit(uid: EntityId, persisted: Gate)
      requires Valid()
      requires uid !in gates
      modifies this
      ensures Valid()
      ensures Abstract() == Spec.ComponentInit(old(Abstract()), uid, persisted)
    {
      var g := persisted;
      // A turnstile is never spawned rotating.
      if g.state == Rotating {
        g := g.(state := Idle);
      }
      gates := gates[uid := g];
      SetCollidable(uid, true);
    }

    method HandleCollide(uid: EntityId, other: EntityId, isBumpOpener: bool,
                         facing: Direction, contact: Direction, now: Time)
      requires Valid()
      requires uid in gates
      modifies this
      ensures Valid()
      ensures Abstract() == Spec.HandleCollide(old(Abstract()), uid, other, isBumpOpener, facing, contact, now)
    {
      if !isBumpOpener {
        return;
      }
      var g := gates[uid];
      if g.state == Idle {
        if facing == contact {
          // Admit the entity.
          ghost var before := Abstract();
          gates := gates[uid := g.(admitted := Some(other))];
          log := log + [TurnSound(uid)];
          assert Abstract() == before.(gates := before.gates[uid := before.gates[uid].(admitted := Some(other))],
                                       log := before.log + [TurnSound(uid)]);
          SetCollidable(uid, false);
          SetState(uid, Rotating, now);
        } else {
          log := log + [BumpSound(uid)];
        }
      } else {
        log := log + [BumpSound(uid)];
      }
    }

    method NextState(uid: EntityId, now: Time, aabb: EntityId -> Box)
      requires uid in gates
      modifies this
      ensures Abstract() == Spec.NextState(old(Abstract()), uid, now, aabb)
    {
      var g := gates[uid];
      if g.state == Rotating {
        var stillColliding := Spec.IsCollidingWithAdmitted(Abstract(), uid, aabb);
        if !stillColliding {
          gates := gates[uid := g.(nextStateChange := None)];
          SetState(uid, Idle, now);
          // Remove the exemption.
          gates := gates[uid := gates[uid].(admitted := None)];
        } else {
          gates := gates[uid := g.(nextStateChange := Some(now + g.turnTime))];
        }
      }
    }

    method OnRemove(uid: EntityId)
      requires Valid()
      modifies this
      ensures Valid()
      ensures Abstract() == Spec.OnRemove(old(Abstract()), uid)
    {
      active := active - {uid};
      gates := gates - {uid};
    }

    method OnHandleState(uid: EntityId, replicated: Gate)
      requires uid in gates
      modifies this
      ensures old(Valid()) && (replicated.state == Rotating <==> replicated.nextStateChange.Some?) ==> Valid()
      ensures Abstract() == Spec.OnHandleState(old(Abstract()), uid, replicated)
    {
      gates := gates[uid := replicated];
      if replicated.nextStateChange.None? {
        active := active - {uid};
      } else {
        active := active + {uid};
      }
      log := log + [StateChanged(uid, replicated.state)];
    }

    /** The work of one periodic tick on one entry of the snapshot of the
        active set (the body of the update's loop). */
    method UpdateEntry(id: EntityId, now: Time, paused: set<EntityId>, aabb: EntityId -> Box)
      modifies this
      ensures Abstract() == UpdateStep(old(Abstract()), id, now, paused, aabb)
    {
      SetCollidable(id, true);
      if id !in gates || gates[id].nextStateChange.None? {
        active := active - {id};
      } else if id !in paused && gates[id].nextStateChange.value < now {
        // A paused gate is skipped and keeps its timestamp.
        NextState(id, now, aabb);
      }
    }

    /** One periodic tick at time now. The gates of a snapshot of the active
        set are visited in some order; `paused` names the gates whose world is
        paused and `aabb` gives every entity's world bounding box. */
    method Update(now: Time, paused: set<EntityId>, aabb: EntityId -> Box)
      requires Valid()
      modifies this
      ensures Valid()
      ensures gates.Keys == old(gates).Keys
      ensures forall id :: id in old(gates) ==>
                gates[id] == if id in old(active) then TickGate(id, old(gates)[id], id in paused, now, aabb)
                             else old(gates)[id]
      ensures forall id :: id in active <==>
                id in old(active) && StaysActive(id, old(gates)[id], id in paused, now, aabb)
      ensures exists order :: IsEnumeration(order, old(active))
                && log == old(log) + ReleasedEvents(old(gates), order, now, paused, aabb)
    {
      ghost var start := Abstract();
      var order := ToList(active);
      for i := 0 to |order|
        invariant Abstract() == UpdateOver(start, order[..i], now, paused, aabb)
      {
        UpdateOverSnoc(start, order[..i], order[i], now, paused, aabb);
        assert order[..i + 1] == order[..i] + [order[i]];
        UpdateEntry(order[i], now, paused, aabb);
      }
      assert order[..|order|] == order;
      assert IsEnumeration(order, start.active);
      assert forall id :: id in start.gates ==>
               gates[id] == if id in order then TickGate(id, start.gates[id], id in paused, now, aabb)
                            else start.gates[id] by {
        UpdateOverGates(start, order, now, paused, aabb);
      }
      assert forall id :: id in active <==>
               id in start.active && StaysActive(id, start.gates[id], id in paused, now, aabb) by {
        UpdateOverActive(start, order, now, paused, aabb);
      }
      assert log == start.log + ReleasedEvents(start.gates, order, now, paused, aabb) by {
        UpdateOverLog(start, order, now, paused, aabb);
      }
    }
  }
}
