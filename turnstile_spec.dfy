/** The turnstile system's event handlers and helpers as functions on the
    whole-system value. Each function's contract states the effect the
    system promises and that the system invariant is kept. */
module TurnstileSpec {
  import opened TurnstileTypes

  /** Sets the physics body's collidable flag. A missing turnstile or a
      missing physics body makes this a no-op. */
  function SetCollidable(w: World, uid: EntityId, collidable: bool): (r: World)
    ensures r.active == w.active && r.log == w.log
    ensures uid !in w.gates || w.gates[uid].canCollide.None? ==> r == w
    ensures uid in w.gates && w.gates[uid].canCollide.Some? ==>
      r.gates == w.gates[uid := w.gates[uid].(canCollide := Some(collidable))]
    ensures Valid(w) ==> Valid(r)
  {
    if uid in w.gates && w.gates[uid].canCollide.Some? then
      w.(gates := w.gates[uid := w.gates[uid].(canCollide := Some(collidable))])
    else
      w
  }

  /** Moves a gate to state s. Requesting the current state (or naming an
      entity without a turnstile) changes nothing and emits nothing. Entering
      Rotating joins the active set and schedules the timeout; entering Idle
      leaves the active set and keeps the timestamp as it is. */
  function SetState(w: World, uid: EntityId, s: TurnstileState, now: Time): (r: World)
    ensures r.gates.Keys == w.gates.Keys
    ensures uid !in w.gates || w.gates[uid].state == s ==> r == w
    ensures uid in w.gates && w.gates[uid].state != s ==> r.log == w.log + [StateChanged(uid, s)]
    ensures uid in w.gates && w.gates[uid].state == Idle && s == Rotating ==>
      && r.gates == w.gates[uid := w.gates[uid].(state := Rotating,
                                                  nextStateChange := Some(now + w.gates[uid].turnTime))]
      && r.active == w.active + {uid}
    ensures uid in w.gates && w.gates[uid].state == Rotating && s == Idle ==>
      && r.gates == w.gates[uid := w.gates[uid].(state := Idle)]
      && r.active == w.active - {uid}
    ensures Valid(w) ==> Valid(r)
  {
    if uid !in w.gates || w.gates[uid].state == s then
      w
    else
      var g := w.gates[uid];
      match s
      case Rotating =>
        World(w.gates[uid := g.(state := Rotating, nextStateChange := Some(now + g.turnTime))],
              w.active + {uid},
              w.log + [StateChanged(uid, Rotating)])
      case Idle =>
        World(w.gates[uid := g.(state := Idle)],
              w.active - {uid},
              w.log + [StateChanged(uid, Idle)])
  }

  /** Component initialisation of a freshly added turnstile whose persisted
      fields are `persisted`: a gate is never left rotating (the two-state
      machine therefore always starts Idle), its body is made collidable, and
      nothing else about it or the rest of the system changes. */
  function ComponentInit(w: World, uid: EntityId, persisted: Gate): (r: World)
    requires uid !in w.gates
    ensures r.active == w.active && r.log == w.log
    ensures r.gates == w.gates[uid := persisted.(state := Idle,
                                                 canCollide := if persisted.canCollide.Some? then Some(true) else None)]
    ensures Valid(w) ==> Valid(r)
  {
    var normalized := if persisted.state == Rotating then persisted.(state := Idle) else persisted;
    assert normalized == persisted.(state := Idle) by {
      if persisted.state == Idle {
        assert persisted == Gate(Idle, persisted.nextStateChange, persisted.turnTime,
                                 persisted.admitted, persisted.canCollide);
      }
    }
    SetCollidable(w.(gates := w.gates[uid := normalized]), uid, true)
  }

  /** A contact between the gate uid and the entity other. An entity without
      the bump-opener tag is ignored. On an Idle gate contacted from the side
      it faces, the entity is admitted: it becomes the gate's exemption, the
      turn sound plays, the body stops colliding and the gate starts
      rotating. Every other tagged contact (wrong side, or a busy gate) only
      plays the bump sound. */
  function HandleCollide(w: World, uid: EntityId, other: EntityId, isBumpOpener: bool,
                         facing: Direction, contact: Direction, now: Time): (r: World)
    requires uid in w.gates
    ensures r.gates.Keys == w.gates.Keys
    ensures !isBumpOpener ==> r == w
    ensures isBumpOpener && w.gates[uid].state == Idle && facing == contact ==>
      var g := w.gates[uid];
      && r.gates == w.gates[uid := Gate(Rotating, Some(now + g.turnTime), g.turnTime, Some(other),
                                        if g.canCollide.Some? then Some(false) else None)]
      && r.active == w.active + {uid}
      && r.log == w.log + [TurnSound(uid), StateChanged(uid, Rotating)]
    ensures isBumpOpener && (w.gates[uid].state == Rotating || facing != contact) ==>
      r == w.(log := w.log + [BumpSound(uid)])
    ensures Valid(w) ==> Valid(r)
  {
    if !isBumpOpener then
      w
    else if w.gates[uid].state == Idle && facing == contact then
      var exempted := w.(gates := w.gates[uid := w.gates[uid].(admitted := Some(other))],
                         log := w.log + [TurnSound(uid)]);
      SetState(SetCollidable(exempted, uid, false), uid, Rotating, now)
    else
      w.(log := w.log + [BumpSound(uid)])
  }

  /** Whether the gate is still overlapping the entity it admitted, given
      the world bounding box of every entity. With no exemption record (or
      no turnstile) the answer is "not colliding". */
  function IsCollidingWithAdmitted(w: World, uid: EntityId, aabb: EntityId -> Box): (r: bool)
    ensures uid !in w.gates || w.gates[uid].admitted.None? ==> !r
    ensures r ==> Intersects(aabb(uid), aabb(w.gates[uid].admitted.value))
    ensures uid in w.gates && w.gates[uid].admitted.Some? ==>
      (Intersects(aabb(uid), aabb(w.gates[uid].admitted.value)) ==> r)
  {
    uid in w.gates && StillOverlapping(uid, w.gates[uid], aabb)
  }

  /** The timeout of a gate has passed. A rotating gate whose admitted entity
      has cleared its bounds returns to Idle: the timeout is cleared, the gate
      leaves the active set and the exemption is removed. Otherwise the
      timeout is pushed to now + turnTime. A gate that is not rotating is not
      touched. */
  function NextState(w: World, uid: EntityId, now: Time, aabb: EntityId -> Box): (r: World)
    requires uid in w.gates
    ensures r.gates.Keys == w.gates.Keys
    ensures w.gates[uid].state != Rotating ==> r == w
    ensures w.gates[uid].state == Rotating && !IsCollidingWithAdmitted(w, uid, aabb) ==>
      && r.gates == w.gates[uid := w.gates[uid].(state := Idle, nextStateChange := None, admitted := None)]
      && r.active == w.active - {uid}
      && r.log == w.log + [StateChanged(uid, Idle)]
    ensures w.gates[uid].state == Rotating && IsCollidingWithAdmitted(w, uid, aabb) ==>
      && r.gates == w.gates[uid := w.gates[uid].(nextStateChange := Some(now + w.gates[uid].turnTime))]
      && r.active == w.active && r.log == w.log
    ensures Valid(w) ==> Valid(r)
  {
    var g := w.gates[uid];
    if g.state == Rotating then
      if !IsCollidingWithAdmitted(w, uid, aabb) then
        var cleared := w.(gates := w.gates[uid := g.(nextStateChange := None)]);
        var idle := SetState(cleared, uid, Idle, now);
        idle.(gates := idle.gates[uid := idle.gates[uid].(admitted := None)])
      else
        w.(gates := w.gates[uid := g.(nextStateChange := Some(now + g.turnTime))])
    else
      w
  }

  /** Removal of the turnstile component: the handler drops the gate from
      the active set and the engine then drops the turnstile component. The
      gate's record goes with it; the exemption and the physics body, which
      outlive the component, are no longer tracked. */
  function OnRemove(w: World, uid: EntityId): (r: World)
    ensures uid !in r.gates && uid !in r.active
    ensures r.gates == w.gates - {uid}
    ensures forall id :: id != uid ==> (id in r.active <==> id in w.active)
    ensures r.log == w.log
    ensures Valid(w) ==> Valid(r)
  {
    World(w.gates - {uid}, w.active - {uid}, w.log)
  }

  /** A replicated state has been applied to the gate: the engine has copied
      the authoritative fields `replicated` into the component, and the
      handler then makes membership of the active set follow whether a
      timeout is pending and raises the state-changed event. The invariant
      survives exactly when the replicated record is itself consistent. */
  function OnHandleState(w: World, uid: EntityId, replicated: Gate): (r: World)
    requires uid in w.gates
    ensures r.gates == w.gates[uid := replicated]
    ensures uid in r.active <==> replicated.nextStateChange.Some?
    ensures forall id :: id != uid ==> (id in r.active <==> id in w.active)
    ensures r.log == w.log + [StateChanged(uid, replicated.state)]
    ensures Valid(w) && (replicated.state == Rotating <==> replicated.nextStateChange.Some?) ==> Valid(r)
  {
    var active := if replicated.nextStateChange.None? then w.active - {uid} else w.active + {uid};
    World(w.gates[uid := replicated], active, w.log + [StateChanged(uid, replicated.state)])
  }
}
