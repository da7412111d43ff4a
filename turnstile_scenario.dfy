/** A passage through a gate, end to end: a freshly initialised turnstile
    admits an entity contacting it from the side it faces, and a later
    periodic tick, over any snapshot of the active set that lists the gate,
    either holds the gate (timeout not passed, world paused, or the entity
    still inside the gate's bounds) or returns it to Idle. */
module TurnstileScenario {
  import opened TurnstileTypes
  import opened TurnstileSpec
  import opened TurnstileUpdate

  /** The system right after the gate uid was initialised from `persisted`
      and then contacted at t0 by other, a bump opener, from its facing side. */
  function Admitted(w: World, uid: EntityId, persisted: Gate, other: EntityId,
                    facing: Direction, t0: Time): (a: World)
    requires uid !in w.gates
    ensures uid in a.gates && uid in a.active
    ensures a.gates[uid] == Gate(Rotating, Some(t0 + persisted.turnTime), persisted.turnTime, Some(other),
                                 if persisted.canCollide.Some? then Some(false) else None)
    ensures a.log == w.log + [TurnSound(uid), StateChanged(uid, Rotating)]
    ensures Valid(w) ==> Valid(a)
  {
    HandleCollide(ComponentInit(w, uid, persisted), uid, other, true, facing, facing, t0)
  }

  /** The first tick after the admission. Before the timeout has strictly
      passed, or while the world is paused, the gate keeps rotating with
      its timestamp. Afterwards it keeps rotating, rescheduled, while the
      entity still overlaps it, and otherwise it is Idle, inactive, without
      timeout or exemption, and its return to Idle is logged. In every case
      the body collides again. */
  lemma {:induction false} AdmitThenTick(w: World, uid: EntityId, persisted: Gate, other: EntityId,
                                         facing: Direction, t0: Time, order: seq<EntityId>,
                                         now: Time, paused: set<EntityId>, aabb: EntityId -> Box)
    requires uid !in w.gates
    requires Distinct(order) && uid in order
    ensures var a := Admitted(w, uid, persisted, other, facing, t0);
            var r := UpdateOver(a, order, now, paused, aabb);
            var g := r.gates[uid];
            && |a.log| <= |r.log|
            && g.turnTime == persisted.turnTime && g.canCollide == (if persisted.canCollide.Some? then Some(true) else None)
            && (uid in paused || now <= t0 + persisted.turnTime ==>
                  g.state == Rotating && g.nextStateChange == Some(t0 + persisted.turnTime)
                  && g.admitted == Some(other) && uid in r.active
                  && StateChanged(uid, Idle) !in r.log[|a.log|..])
            && (uid !in paused && t0 + persisted.turnTime < now && Intersects(aabb(uid), aabb(other)) ==>
                  g.state == Rotating && g.nextStateChange == Some(now + persisted.turnTime)
                  && g.admitted == Some(other) && uid in r.active
                  && StateChanged(uid, Idle) !in r.log[|a.log|..])
            && (uid !in paused && t0 + persisted.turnTime < now && !Intersects(aabb(uid), aabb(other)) ==>
                  g.state == Idle && g.nextStateChange.None? && g.admitted.None? && uid !in r.active
                  && StateChanged(uid, Idle) in r.log[|a.log|..])
  {
    var a := Admitted(w, uid, persisted, other, facing, t0);
    var ga := a.gates[uid];
    var r := UpdateOver(a, order, now, paused, aabb);
    var events := ReleasedEvents(a.gates, order, now, paused, aabb);
    assert r.gates[uid] == TickGate(uid, ga, uid in paused, now, aabb) by {
      UpdateOverGates(a, order, now, paused, aabb);
    }
    assert uid in r.active <==> StaysActive(uid, ga, uid in paused, now, aabb) by {
      UpdateOverActive(a, order, now, paused, aabb);
    }
    assert r.log == a.log + events by {
      UpdateOverLog(a, order, now, paused, aabb);
    }
    assert r.log[|a.log|..] == events;
    assert StateChanged(uid, Idle) in events <==> Releases(uid, ga, uid in paused, now, aabb) by {
      ReleasedEventsMention(a.gates, order, uid, now, paused, aabb);
    }
  }
}
