/** The periodic update: what one tick does to one gate, the per-entry step
    the update performs for each gate of the snapshot of the active set, the
    fold of that step over the snapshot in enumeration order, and the lemmas
    that the result does not depend on that order beyond the order of the
    emitted events. */
module TurnstileUpdate {
  import opened TurnstileTypes
  import opened TurnstileSpec

  /** The gate's timeout has passed at now: a timestamp is pending, the gate
      is not paused, and the timestamp lies strictly before now (a timestamp
      equal to now has not yet passed). */
  predicate Due(g: Gate, isPaused: bool, now: Time)
  {
    g.nextStateChange.Some? && !isPaused && g.nextStateChange.value < now
  }

  /** This tick returns the gate to Idle. */
  predicate Releases(uid: EntityId, g: Gate, isPaused: bool, now: Time, aabb: EntityId -> Box)
  {
    Due(g, isPaused, now) && g.state == Rotating && !StillOverlapping(uid, g, aabb)
  }

  /** A gate of the snapshot is still in the active set after this tick: its
      timeout is pending and this tick does not release it. */
  predicate StaysActive(uid: EntityId, g: Gate, isPaused: bool, now: Time, aabb: EntityId -> Box)
  {
    g.nextStateChange.Some? && !Releases(uid, g, isPaused, now, aabb)
  }

  /** What one tick does to the record of a gate of the snapshot, stated gate
      by gate: the body collides again; a due rotating gate whose admitted
      entity has cleared it becomes Idle with neither timeout nor exemption;
      a due rotating gate still overlapping its entity is rescheduled to
      now + turnTime; nothing else changes. */
  function TickGate(uid: EntityId, g: Gate, isPaused: bool, now: Time, aabb: EntityId -> Box): Gate
  {
    var collidable := g.(canCollide := if g.canCollide.Some? then Some(true) else None);
    if !Due(g, isPaused, now) || g.state != Rotating then
      collidable
    else if StillOverlapping(uid, g, aabb) then
      collidable.(nextStateChange := Some(now + g.turnTime))
    else
      collidable.(state := Idle, nextStateChange := None, admitted := None)
  }

  /** The event the tick emits for gate id: a return to Idle, or nothing. */
  function ReleasedEvent(gates: map<EntityId, Gate>, id: EntityId, now: Time,
                         paused: set<EntityId>, aabb: EntityId -> Box): seq<Event>
  {
    if id in gates && Releases(id, gates[id], id in paused, now, aabb) then [StateChanged(id, Idle)] else []
  }

  /** The events the tick emits when it visits the gates in the given order. */
  function ReleasedEvents(gates: map<EntityId, Gate>, order: seq<EntityId>, now: Time,
                          paused: set<EntityId>, aabb: EntityId -> Box): seq<Event>
    decreases |order|
  {
    if order == [] then []
    else ReleasedEvent(gates, order[0], now, paused, aabb) + ReleasedEvents(gates, order[1..], now, paused, aabb)
  }

  /** What one tick does to the system on behalf of entry id of the
      snapshot, stated gate by gate: the gate gets its TickGate record, it
      leaves the active set unless it still exists and StaysActive holds,
      and its return-to-Idle event (if any) is appended. Nothing about any
      other gate changes. */
  function TickStep(w: World, id: EntityId, now: Time, paused: set<EntityId>, aabb: EntityId -> Box): (r: World)
    ensures Valid(w) ==> Valid(r)
  {
    if id in w.gates then
      var g := w.gates[id];
      World(w.gates[id := TickGate(id, g, id in paused, now, aabb)],
            if StaysActive(id, g, id in paused, now, aabb) then w.active else w.active - {id},
            w.log + ReleasedEvent(w.gates, id, now, paused, aabb))
    else
      w.(active := w.active - {id})
  }

  /** The update's work on one entry of the snapshot, composed from the
      handlers as the loop body does it: make the body collide again; drop
      an entry whose gate is gone or has no pending timeout; skip a paused
      gate; run NextState on a gate whose timeout has strictly passed. It
      agrees with the gate-by-gate statement TickStep. */
  function UpdateStep(w: World, id: EntityId, now: Time, paused: set<EntityId>, aabb: EntityId -> Box): (r: World)
    ensures r == TickStep(w, id, now, paused, aabb)
  {
    var w1 := SetCollidable(w, id, true);
    if id !in w1.gates || w1.gates[id].nextStateChange.None? then
      w1.(active := w1.active - {id})
    else if id !in paused && w1.gates[id].nextStateChange.value < now then
      NextState(w1, id, now, aabb)
    else
      w1
  }

  /** The update over a snapshot visited in the given order. */
  function UpdateOver(w: World, order: seq<EntityId>, now: Time, paused: set<EntityId>,
                      aabb: EntityId -> Box): (r: World)
    ensures r.gates.Keys == w.gates.Keys
    ensures Valid(w) ==> Valid(r)
    decreases |order|
  {
    if order == [] then w
    else UpdateOver(TickStep(w, order[0], now, paused, aabb), order[1..], now, paused, aabb)
  }

  /** No entry of the sequence occurs twice. */
  predicate Distinct(order: seq<EntityId>)
  {
    forall i, j :: 0 <= i < j < |order| ==> order[i] != order[j]
  }

  /** Appending a new entry keeps a sequence distinct. */
  lemma DistinctSnoc(order: seq<EntityId>, id: EntityId)
    requires Distinct(order) && id !in order
    ensures Distinct(order + [id])
  {
  }

  /** Order is an enumeration of the set s: each member exactly once. */
  ghost predicate IsEnumeration(order: seq<EntityId>, s: set<EntityId>)
  {
    Distinct(order) && forall id :: id in order <==> id in s
  }

  /** The snapshot of a set as a list (the order is the set's enumeration
      order, which nothing here fixes). */
  method ToList(s: set<EntityId>) returns (order: seq<EntityId>)
    ensures IsEnumeration(order, s)
  {
    order := [];
    var rest := s;
    while exists id :: id in rest
      invariant rest <= s
      invariant Distinct(order)
      invariant forall id :: id in order ==> id in s && id !in rest
      invariant forall id :: id in s ==> id in order || id in rest
      decreases rest
    {
      var id :| id in rest;
      DistinctSnoc(order, id);
      order := order + [id];
      rest := rest - {id};
    }
  }

  /** Visiting one more entry at the end of the snapshot is one more step. */
  lemma {:induction false} UpdateOverSnoc(w: World, order: seq<EntityId>, id: EntityId, now: Time,
                                          paused: set<EntityId>, aabb: EntityId -> Box)
    ensures UpdateOver(w, order + [id], now, paused, aabb)
         == TickStep(UpdateOver(w, order, now, paused, aabb), id, now, paused, aabb)
    decreases |order|
  {
    if order == [] {
      assert order + [id] == [id];
      assert [id][1..] == [];
    } else {
      assert (order + [id])[0] == order[0];
      assert (order + [id])[1..] == order[1..] + [id];
      UpdateOverSnoc(TickStep(w, order[0], now, paused, aabb), order[1..], id, now, paused, aabb);
    }
  }

  /** The tail of a distinct non-empty sequence is distinct, does not hold
      the head, and together with the head holds exactly the entries. */
  lemma DistinctTail(order: seq<EntityId>)
    requires order != [] && Distinct(order)
    ensures Distinct(order[1..])
    ensures order[0] !in order[1..]
    ensures forall id :: id in order <==> id == order[0] || id in order[1..]
  {
  }

  /** The events of a visit depend only on the records of the visited gates. */
  lemma {:induction false} ReleasedEventsFrame(g1: map<EntityId, Gate>, g2: map<EntityId, Gate>,
                                               order: seq<EntityId>, now: Time,
                                               paused: set<EntityId>, aabb: EntityId -> Box)
    requires forall id :: id in order ==> (id in g1 <==> id in g2) && (id in g1 ==> g1[id] == g2[id])
    ensures ReleasedEvents(g1, order, now, paused, aabb) == ReleasedEvents(g2, order, now, paused, aabb)
    decreases |order|
  {
    if order != [] {
      assert order[0] in order;
      assert order == [order[0]] + order[1..];
      ReleasedEventsFrame(g1, g2, order[1..], now, paused, aabb);
    }
  }

  /** The update over a snapshot gives every visited gate exactly its
      TickGate record and leaves every other record as it was. */
  lemma {:induction false} UpdateOverGates(w: World, order: seq<EntityId>, now: Time,
                                           paused: set<EntityId>, aabb: EntityId -> Box)
    requires Distinct(order)
    ensures var r := UpdateOver(w, order, now, paused, aabb);
      forall id :: id in w.gates ==>
        r.gates[id] == if id in order then TickGate(id, w.gates[id], id in paused, now, aabb) else w.gates[id]
    decreases |order|
  {
    if order != [] {
      DistinctTail(order);
      var w1 := TickStep(w, order[0], now, paused, aabb);
      UpdateOverGates(w1, order[1..], now, paused, aabb);
    }
  }

  /** After the update over a snapshot, a visited gate is still active
      exactly when it was, it still exists and StaysActive holds; every other
      id keeps its membership. */
  lemma {:induction false} UpdateOverActive(w: World, order: seq<EntityId>, now: Time,
                                            paused: set<EntityId>, aabb: EntityId -> Box)
    requires Distinct(order)
    ensures forall id :: id in UpdateOver(w, order, now, paused, aabb).active <==>
              id in w.active
              && (id in order ==> id in w.gates && StaysActive(id, w.gates[id], id in paused, now, aabb))
    decreases |order|
  {
    if order != [] {
      DistinctTail(order);
      var w1 := TickStep(w, order[0], now, paused, aabb);
      UpdateOverActive(w1, order[1..], now, paused, aabb);
    }
  }

  /** The update over a snapshot appends one return-to-Idle event per
      released gate, in visiting order, and nothing else. */
  lemma {:induction false} UpdateOverLog(w: World, order: seq<EntityId>, now: Time,
                                         paused: set<EntityId>, aabb: EntityId -> Box)
    requires Distinct(order)
    ensures UpdateOver(w, order, now, paused, aabb).log == w.log + ReleasedEvents(w.gates, order, now, paused, aabb)
    decreases |order|
  {
    if order == [] {
      assert w.log + [] == w.log;
    } else {
      var x, rest := order[0], order[1..];
      var w1 := TickStep(w, x, now, paused, aabb);
      var head := ReleasedEvent(w.gates, x, now, paused, aabb);
      var tail := ReleasedEvents(w.gates, rest, now, paused, aabb);
      assert w1.log == w.log + head;
      assert ReleasedEvents(w1.gates, rest, now, paused, aabb) == tail by {
        DistinctTail(order);
        ReleasedEventsFrame(w1.gates, w.gates, rest, now, paused, aabb);
      }
      assert UpdateOver(w1, rest, now, paused, aabb).log == w1.log + tail by {
        DistinctTail(order);
        UpdateOverLog(w1, rest, now, paused, aabb);
      }
      assert (w.log + head) + tail == w.log + (head + tail);
    }
  }

  /** A return-to-Idle event for gate id is emitted exactly when id is
      visited, still exists and this tick releases it. */
  lemma {:induction false} ReleasedEventsMention(gates: map<EntityId, Gate>, order: seq<EntityId>, id: EntityId,
                                                 now: Time, paused: set<EntityId>, aabb: EntityId -> Box)
    ensures StateChanged(id, Idle) in ReleasedEvents(gates, order, now, paused, aabb) <==>
              id in order && id in gates && Releases(id, gates[id], id in paused, now, aabb)
    ensures forall e :: e in ReleasedEvents(gates, order, now, paused, aabb) ==> e.StateChanged? && e.state == Idle
    decreases |order|
  {
    if order != [] {
      ReleasedEventsMention(gates, order[1..], id, now, paused, aabb);
      assert order == [order[0]] + order[1..];
    }
  }
}
