# Turnstile admission state machine

This project models the shared turnstile system of the game. A turnstile
("gate") is always either `Idle` or `Rotating`. The system keeps a set of the
gates that are rotating. When an entity bumps into a gate, the system does one
of three things:

- it ignores the entity if it lacks the door-bump-opener tag;
- it admits the entity if it comes from the side the gate faces, and the gate
  then rotates;
- it rejects the entity otherwise, with a bump sound.

A periodic update walks a snapshot of the rotating set. It makes each gate's
body collide again, drops entries that are gone or have no pending timeout,
and skips gates whose world is paused. A gate whose timeout has strictly
passed returns to `Idle` once the admitted entity no longer overlaps it, with
its timeout and exemption cleared. Otherwise its timeout is pushed to
`now + turnTime`.

The model has three parts:

- **`TurnstileTypes`** holds the data model.
  - `Gate` is one turnstile entity's record. It combines the component's
    state, timeout and turn time, the entity admitted by the pass-through
    exemption, and the physics body's collidable flag.
  - `Event` holds what the system emits: state-changed events and the two
    sounds.
  - `World` holds the gates, the active set and the event log.
  - `Valid` is the invariant: a gate is active exactly when it is rotating
    with a pending timeout, and a rotating gate always has a timeout.
- **Specification functions.**
  - `TurnstileSpec` has one function per handler.
  - `TurnstileUpdate` has the periodic update: the per-entry step, its
    gate-by-gate statement `TickStep`, and their fold over the snapshot.
  - `TurnstileScenario` has an end-to-end passage: admission, then a tick.
- **`TurnstileSystem.SharedTurnstileSystem`** is a class with the fields
  `gates`, `active` and `log`, which its methods update in place. Each method
  is proved to leave its fields equal to the specification function applied
  to the old state. The entry points other than `OnHandleState` also keep
  `Valid`; `OnHandleState` keeps it when the replicated record is consistent
  (rotating exactly when it has a timeout). `Update` is the source
  loop over a list snapshot of the active set, and its contract states the
  result gate by gate.

The system reads several things from the engine. The model takes them as
parameters:

- the current time `now`;
- the set of paused gates;
- the world bounding box of every entity, as closed integer boxes;
- the tag check, as `isBumpOpener`;
- the facing direction and the direction of contact.

## Model

| member | source | states |
|---|---|---|
| `TurnstileSpec.SetCollidable` | Content.Shared/Turnstile/Systems/SharedTurnstileSystem.cs:200-211 | If there is no turnstile or no physics body, nothing changes. Otherwise only that gate's collidable flag is set, and the active set and log stay the same. The invariant is kept. |
| `TurnstileSpec.SetState` | Content.Shared/Turnstile/Systems/SharedTurnstileSystem.cs:213-238 | Asking for the current state, or naming a missing turnstile, changes nothing and emits nothing. Idle to Rotating joins the active set, sets the timeout to now + turnTime and emits exactly one StateChanged(Rotating). Rotating to Idle leaves the active set, keeps the timestamp and emits StateChanged(Idle). The invariant is kept. |
| `TurnstileSpec.ComponentInit` | Content.Shared/Turnstile/Systems/SharedTurnstileSystem.cs:61-71 | The new gate is Idle whatever state it was persisted in, and it is collidable if it has a body. Its other fields, the active set and the log are unchanged. The invariant is kept. |
| `TurnstileSpec.HandleCollide` | Content.Shared/Turnstile/Systems/SharedTurnstileSystem.cs:74-114 | An untagged contact changes nothing. A tagged contact on an Idle gate from the facing side admits the entity: the entity becomes the single exemption, the body stops colliding, the gate is Rotating with timeout now + turnTime and is active, and the log gains TurnSound then StateChanged(Rotating). Any other tagged contact only appends BumpSound. The invariant is kept. |
| `TurnstileSpec.IsCollidingWithAdmitted` | Content.Shared/Turnstile/Systems/SharedTurnstileSystem.cs:145-157 | With no turnstile or no exemption the answer is false. Otherwise it is true exactly when the gate's box and the admitted entity's box intersect. |
| `TurnstileSpec.NextState` | Content.Shared/Turnstile/Systems/SharedTurnstileSystem.cs:119-138 | A gate that is not Rotating is untouched. A Rotating gate no longer overlapping its admitted entity becomes Idle with no timeout and no exemption, leaves the active set, and StateChanged(Idle) is logged. A Rotating gate still overlapping is rescheduled to now + turnTime and nothing else changes. The invariant is kept. |
| `TurnstileSpec.OnRemove` | Content.Shared/Turnstile/Systems/SharedTurnstileSystem.cs:140-143 | The gate leaves the active set and the records. Every other id keeps its membership, and the log is unchanged. The invariant is kept. |
| `TurnstileSpec.OnHandleState` | Content.Shared/Turnstile/Systems/SharedTurnstileSystem.cs:49-59 | The replicated record is installed. The gate is active exactly when that record has a timeout, other memberships are unchanged, and StateChanged is logged with the replicated state. The invariant survives when the replicated record is consistent. |
| `TurnstileUpdate.TickStep` | Content.Shared/Turnstile/Systems/SharedTurnstileSystem.cs:165-181 | One entry's tick, gate by gate. It keeps the invariant. |
| `TurnstileUpdate.UpdateStep` | Content.Shared/Turnstile/Systems/SharedTurnstileSystem.cs:167-179 | The loop body as written equals the gate-by-gate TickStep. The loop body sets the body collidable, drops a deleted entry or one with no timeout, skips a paused gate, and runs NextState only when the timestamp is strictly before now. |
| `TurnstileUpdate.UpdateOver` | Content.Shared/Turnstile/Systems/SharedTurnstileSystem.cs:165-181 | Folding the step over a snapshot keeps the set of gates and the invariant. |
| `TurnstileUpdate.ToList` | Content.Shared/Turnstile/Systems/SharedTurnstileSystem.cs:165 | The snapshot lists each member of the active set exactly once. |
| `TurnstileUpdate.UpdateOverSnoc` | Content.Shared/Turnstile/Systems/SharedTurnstileSystem.cs:165-181 | Visiting one more snapshot entry is one more step, which links the loop to the fold. |
| `TurnstileUpdate.ReleasedEventsFrame` | Content.Shared/Turnstile/Systems/SharedTurnstileSystem.cs:178-179 | The events a visit emits depend only on the records of the visited gates. |
| `TurnstileUpdate.UpdateOverGates` | Content.Shared/Turnstile/Systems/SharedTurnstileSystem.cs:165-181 | After the update over a duplicate-free snapshot, every visited gate has its TickGate record: collidable again, and then released, rescheduled or unchanged. Every other gate is untouched. |
| `TurnstileUpdate.UpdateOverActive` | Content.Shared/Turnstile/Systems/SharedTurnstileSystem.cs:169-179 | A visited id stays active exactly when it was active, still exists, has a timeout and is not released. Unvisited ids keep their membership. |
| `TurnstileUpdate.UpdateOverLog` | Content.Shared/Turnstile/Systems/SharedTurnstileSystem.cs:178-179 | The update appends exactly one StateChanged(Idle) per released gate, in visiting order, and nothing else. |
| `TurnstileUpdate.ReleasedEventsMention` | Content.Shared/Turnstile/Systems/SharedTurnstileSystem.cs:178-179 | Every event the update emits is a return to Idle. One for gate id appears exactly when id was visited, exists and is released: due (not paused, timestamp strictly before now), rotating and clear of its entity. |
| `TurnstileScenario.Admitted` | Content.Shared/Turnstile/Systems/SharedTurnstileSystem.cs:61-114 | A freshly initialised gate contacted at t0 from its facing side by a tagged entity is active and Rotating, with timeout t0 + turnTime, that entity as exemption and its body not colliding. The log gains TurnSound and StateChanged(Rotating). |
| `TurnstileScenario.AdmitThenTick` | Content.Shared/Turnstile/Systems/SharedTurnstileSystem.cs:162-182 | After admission, a tick over any snapshot listing the gate gives one of three outcomes. If the world is paused or the timeout has not strictly passed, the gate keeps rotating with its timestamp. If the entity still overlaps, the gate keeps rotating, rescheduled to now + turnTime. Otherwise it is Idle, inactive, with no timeout or exemption, and its return to Idle is logged. In every case the body collides again. |
| `TurnstileSystem.SharedTurnstileSystem.constructor` | Content.Shared/Turnstile/Systems/SharedTurnstileSystem.cs:34 | The system starts with no gates, an empty active set and an empty log, and the invariant holds. |
| `TurnstileSystem.SharedTurnstileSystem.SetCollidable` | Content.Shared/Turnstile/Systems/SharedTurnstileSystem.cs:200-211 | The new state is TurnstileSpec.SetCollidable of the old one. |
| `TurnstileSystem.SharedTurnstileSystem.SetState` | Content.Shared/Turnstile/Systems/SharedTurnstileSystem.cs:213-238 | The new state is TurnstileSpec.SetState of the old one, including the early return when nothing changes. |
| `TurnstileSystem.SharedTurnstileSystem.OnComponentInit` | Content.Shared/Turnstile/Systems/SharedTurnstileSystem.cs:61-71 | The new state is TurnstileSpec.ComponentInit of the old one, and the invariant is kept. |
| `TurnstileSystem.SharedTurnstileSystem.HandleCollide` | Content.Shared/Turnstile/Systems/SharedTurnstileSystem.cs:74-114 | The new state is TurnstileSpec.HandleCollide of the old one, and the invariant is kept. |
| `TurnstileSystem.SharedTurnstileSystem.NextState` | Content.Shared/Turnstile/Systems/SharedTurnstileSystem.cs:119-138 | The new state is TurnstileSpec.NextState of the old one. |
| `TurnstileSystem.SharedTurnstileSystem.OnRemove` | Content.Shared/Turnstile/Systems/SharedTurnstileSystem.cs:140-143 | The new state is TurnstileSpec.OnRemove of the old one, and the invariant is kept. |
| `TurnstileSystem.SharedTurnstileSystem.OnHandleState` | Content.Shared/Turnstile/Systems/SharedTurnstileSystem.cs:49-59 | The new state is TurnstileSpec.OnHandleState of the old one. The invariant is kept when it held before and the replicated record is rotating exactly when it has a timeout. |
| `TurnstileSystem.SharedTurnstileSystem.UpdateEntry` | Content.Shared/Turnstile/Systems/SharedTurnstileSystem.cs:166-180 | One pass of the loop body leaves the state equal to UpdateStep of the old one. |
| `TurnstileSystem.SharedTurnstileSystem.Update` | Content.Shared/Turnstile/Systems/SharedTurnstileSystem.cs:162-182 | The invariant is kept and the gate ids are unchanged. Each gate in the old active set gets its TickGate record and the others are untouched. A gate remains active exactly when it was active and StaysActive holds. The log gains the return-to-Idle events of the released gates, in the order of some enumeration of the old active set. |

## Left out

- The spinner entity and revolute-joint setup in Content.Shared/Turnstile/Systems/TurnstileSystem.cs is left out. It is entity spawning and physics-library configuration.
- Content.Shared/Turnstile/Components/TurnstileComponent.cs holds data only. The fields the system reads (State, NextStateChange, TurnstileTurnTime) are declared in `Gate`.
- GetFacingDirection, GetDirectionOfContact and the angle bucketing behind them (SharedTurnstileSystem.cs:184-198) are left out. That is floating-point arithmetic inside the engine, so both directions are inputs.
- The world bounding-box lookup and `Box2.Intersects` are engine code that is not part of this model. Boxes are closed integer rectangles, so touching edges count as overlapping. Floating-point boxes are not modelled.
- Audio playback is recorded only as log entries, not as sound parameters. Appearance data, `Dirty` and network replication are engine plumbing with no effect on the state machine.
- OnHandleState covers only the handler's effect. The engine's copying of the replicated fields is taken as a given record.
- The engine's event subscription and its error logging on a failed component lookup are left out. A failed lookup is modelled as the same early return the code takes.
- HashSet enumeration order is not fixed. `Update` promises only that the events follow some enumeration of the snapshot.
- The timeout check is the code's strict comparison (`NextStateChange < now`, SharedTurnstileSystem.cs:178), so a timestamp equal to now is not yet due.
- Component init does not clear a persisted timeout, so an Idle gate may still carry a timestamp. The invariant allows that.
- TurnstileSpec.OnRemove: drops the gate's whole record, so the model does not track what outlives the turnstile component. Removing the component does not remove the pass-through exemption (added at SharedTurnstileSystem.cs:92-93 and removed only at :131) or the physics body. A gate removed while Rotating therefore leaves its admitted entity exempt. A gate removed in the tick it admitted an entity keeps a body that does not collide, because only the Update loop (:167) makes it collide again and that loop no longer visits it. The same holds for `TurnstileSystem.SharedTurnstileSystem.OnRemove`.
