/** Data model of the turnstile admission machinery: the per-gate record, the
    events the system emits, integer bounding boxes and the whole-system value
    that the specification functions transform. */
module TurnstileTypes {

  datatype Option<+T> = None | Some(value: T)

  /** An entity identifier (the engine's EntityUid). */
  type EntityId = int

  /** Time in ticks (the engine's TimeSpan, as read from the game timing). */
  type Time = int

  datatype TurnstileState = Idle | Rotating

  /** The engine's eight cardinal directions and the invalid direction. Facing
      and contact directions are inputs of the model, not computed here. */
  datatype Direction =
    | Invalid | South | SouthEast | East | NorthEast | North | NorthWest | West | SouthWest

  /** A world-space axis-aligned bounding box with closed integer bounds. */
  datatype Box = Box(left: int, bottom: int, right: int, top: int)

  /** Two closed boxes intersect when they overlap on both axes; touching
      edges count as intersecting. */
  predicate Intersects(a: Box, b: Box)
  {
    a.left <= b.right && b.left <= a.right && a.bottom <= b.top && b.bottom <= a.top
  }

  /** Everything the system reads or writes about one turnstile entity:
      - state, nextStateChange, turnTime: the turnstile component's fields;
      - admitted: the Uid held by the entity's pass-through exemption
        component, None when the entity has no such component;
      - canCollide: the physics body's collidable flag, None when the entity
        has no physics body. */
  datatype Gate = Gate(
    state: TurnstileState,
    nextStateChange: Option<Time>,
    turnTime: nat,
    admitted: Option<EntityId>,
    canCollide: Option<bool>)

  /** Observable effects: the state-changed event raised on the gate, and the
      two sounds played at the gate. */
  datatype Event =
    | StateChanged(gate: EntityId, state: TurnstileState)
    | TurnSound(gate: EntityId)
    | BumpSound(gate: EntityId)

  /** The system: every turnstile entity by id, the set of rotating gates the
      periodic update walks, and the append-only log of emitted events. */
  datatype World = World(gates: map<EntityId, Gate>, active: set<EntityId>, log: seq<Event>)

  /** A gate's record agrees with its membership of the active set: it is
      active exactly when it is rotating with a pending timeout, and a
      rotating gate always has a pending timeout. */
  predicate GateConsistent(g: Gate, isActive: bool)
  {
    && (isActive <==> g.state == Rotating && g.nextStateChange.Some?)
    && (g.state == Rotating ==> g.nextStateChange.Some?)
  }

  /** The system invariant: the active set names only existing gates, and
      every existing gate is consistent with its membership. */
  predicate Valid(w: World)
  {
    && w.active <= w.gates.Keys
    && forall id :: id in w.gates ==> GateConsistent(w.gates[id], id in w.active)
  }

  /** The gate uid, whose record is g, still overlaps the entity it
      admitted, given the world bounding box of every entity. With no
      exemption record it does not. */
  predicate StillOverlapping(uid: EntityId, g: Gate, aabb: EntityId -> Box)
  {
    g.admitted.Some? && Intersects(aabb(uid), aabb(g.admitted.value))
  }
}
