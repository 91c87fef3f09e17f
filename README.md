# Space invaders: the per-frame game rules in Dafny

This project models the simulation core of a small browser space-invaders game. The core has four parts:

- the player controller: steering with damped momentum, edge-triggered firing, and bullet flight and expiry;
- the alien swarm: the grid layout, the random swarm dimensions, and the periodic impulse with damping and translation;
- the collision resolver: a broad phase against the swarm group's box, then a full scan of the grid slots;
- the key-state map that the input listeners write and the controllers read.

`GameLoop.Frame` composes them in the order of one `render` callback.

Modules, leaves first:

- `Wrappers`: `Option`.
- `Geometry`: vectors and axis-aligned boxes. `Intersects` is the closed per-axis overlap that `intersectsBox` uses, and `Union` is the hull.
- `Physics`: the damping law `v / exp(4 * deltaT)` and the constant pi. The exponential is passed in as a function `exp`. It is constrained by `IsExp`: positive everywhere, at least 1 on non-negative arguments, and above 1 on positive ones.
- `Input`: the `InputManager` class over a `map<string, bool>`. Around it sit the pure readings `Down`/`Up` and event replay.
- `Players`: the pure step `Step` on a `PlayerState` value. The `Player` class has an `Update` method, proved equal to `Step` and written as the source's loop over a snapshot of the bullet list.
- `Swarms`: `Layout`, `RandomInteger`, the pure motion step `MoveStep`, and the `AlienSwarm` class. Its slots are an `array<Option<Alien>>`, and `None` is a destroyed alien (a tombstone).
- `Collisions`: the pure fold `Resolve` and the nested-loop method `ResolveCollisions`. The method works in place on the slot array and is proved equal to the fold.
- `GameLoop`: one frame on the two live objects, and the invariant a frame keeps.

Bullets are values `Bullet(id, x, y, z)`. The source removes a bullet by reference (`b !== bullet`) and moves it by mutating its mesh. The model gives every bullet a distinct `id` for that mesh identity. The player hands out identities from a counter `nextId`, which stands for allocating a fresh mesh. The invariant `Player.Valid()` says the identities are distinct and below `nextId`.

## Model

The pure step functions carry no `ensures` of their own; the lemmas in the table below state their properties. They are `Players.Step` (src/Player.ts:48-96), `Swarms.MoveStep` (src/AlienSwarm.ts:51-66), `Collisions.Resolve` (src/main.ts:150-173), `Collisions.SwarmBox` (src/main.ts:152), `GameLoop.FrameStep` (src/main.ts:146-173) and the reading behind `Input.InputManager.IsKeyDown`, `Input.Down` (src/InputManager.ts:25-27).

| member | source | states |
|---|---|---|
| Input.Up | src/InputManager.ts:25-31 | `isKeyUp` is exactly the negation of `isKeyDown`, also for a key that was never seen |
| Input.UnseenKey | src/InputManager.ts:25-31 | a key with no entry in the map reads as not down and as up |
| Input.EventEffect | src/InputManager.ts:4-13 | after a key-down event the key is down and after a key-up event it is not, in both `isKeyDown` and `isKeyUp` |
| Input.EventLeavesOthers | src/InputManager.ts:4-13 | an event for one key leaves every other key reading as before |
| Input.MostRecentEventWins | src/InputManager.ts:4-13 | after any sequence of events, a key's state is set by its most recent event, or is the old state if the key had no event |
| Input.InputManager.constructor | src/InputManager.ts:2 | the manager starts with an empty key map |
| Input.InputManager.KeyDown | src/InputManager.ts:4-8 | the listener records `true` for the key; the key is then down and every other key is unchanged |
| Input.InputManager.KeyUp | src/InputManager.ts:9-13 | the listener records `false` for the key; the key is then not down and every other key is unchanged |
| Input.InputManager.IsKeyUp | src/InputManager.ts:29-31 | the up query is the negation of the down query |
| Physics.DecayShrinks | src/Player.ts:66 | damping over a frame of length at least 0 keeps the sign and does not increase the magnitude; over a positive frame a non-zero value shrinks strictly |
| Physics.DecayRepeatedMonotone | src/AlienSwarm.ts:61 | repeated damping is monotone: the sign never changes and the magnitude never grows from one frame to the next |
| Physics.DecayRepeatedShift | src/AlienSwarm.ts:61 | one frame of damping followed by n more equals n + 1 frames of damping |
| Physics.DecayRepeatedBound | src/Player.ts:66 | after n frames with factor e the magnitude times 1 + n * (e - 1) is at most the initial magnitude |
| Physics.DecayConverges | src/Player.ts:66 | with a positive frame length, repeated damping converges to zero: for every tolerance, from some frame on the magnitude stays below it |
| Geometry.Union | src/main.ts:152 | the hull of two boxes encloses both |
| Geometry.IntersectsEnclosing | src/main.ts:152-156 | a box that meets an alien's box also meets every box enclosing it |
| Players.CreatePlayerBullet | src/Player.ts:102-118 | a new bullet has a fresh identity (not in the well-formed list), the player's x, height 0.06 and z equal to the depth of the player's box |
| Players.TieBreak | src/Player.ts:57-64 | with right and left both down, the momentum moves exactly as for right alone |
| Players.IdleMomentum | src/Player.ts:55-66 | with no horizontal key down the momentum is only damped, keeps its sign and does not grow |
| Players.Pose | src/Player.ts:68-69 | x grows by momentum * deltaT * 2 with the new momentum, the roll is momentum / 20 + pi, and y and z stay the same |
| Players.FireEdge | src/Player.ts:71-84 | a bullet is made iff the fire flag was clear and a fire key is down; afterwards the flag equals "a fire key is down" |
| Players.ReleaseFire | src/Player.ts:75-77 | with no fire key down the flag clears, no bullet is made, and only the old bullets fly |
| Players.FrameBullets | src/Player.ts:78-93 | the new list is the old list plus the fired bullet (if any), each advanced by 5 * deltaT, with those past 20 dropped and the order kept; no bullet past 20 stays |
| Players.StepWellFormed | src/Player.ts:78-93 | one frame keeps the list invariant: identities stay distinct and all of them already handed out |
| Players.RunShots | src/Player.ts:75-84 | over any sequence of frames, each with its own key snapshot and frame length, the number of bullets made equals the number of rising edges of the fire input |
| Players.HoldFireOneBullet | src/Player.ts:75-84 | holding fire for one or more frames of any lengths, starting released, makes exactly one bullet |
| Players.PressReleasePress | src/Player.ts:75-84 | press, release, press makes exactly two bullets, whatever the three frame lengths |
| Players.RunWithoutFire | src/Player.ts:86-93 | with fire up in every frame, the bullet list changes by flight alone, over the run's own frame lengths |
| Players.IdleRun | src/Player.ts:55-66 | with a constant frame length and no horizontal key down in any frame, the momentum after n frames is the initial momentum damped n times, so it converges to zero |
| Players.SurvivorsMembers | src/Player.ts:88-92 | a bullet is kept by the expiry filter iff it was in the list and its z is at most 20 |
| Players.SurvivorsAllInRange | src/Player.ts:88-92 | a list whose bullets are all within 20 passes the expiry filter unchanged |
| Players.AdvanceAndExpire | src/Player.ts:86-93 | each bullet moves by exactly 5 * deltaT and is kept iff its new z is at most 20; every kept bullet is an advanced bullet of the old list |
| Players.FlyTravel | src/Player.ts:86-93 | over frames of any non-negative lengths, a lone bullet within range is present, advanced by 5 times the total time, exactly while that keeps it within 20 |
| Players.FlySingle | src/Player.ts:86-93 | with n frames of one length, a lone bullet is present, advanced by 5 * deltaT * n, exactly while that travel stays within 20 |
| Players.FlyTenths | src/Player.ts:86-93 | from z = 0 with frames of 0.1 s, a bullet moves 0.5 per frame and is present exactly for the first 40 frames |
| Players.BulletLifetime | src/Player.ts:86-93 | a bullet starting at 0, with frames of 0.1 s, is present after 40 frames at travel 20 and absent after 41 |
| Players.Player.constructor | src/Player.ts:40 | a loaded player is at rest with no bullets and satisfies the invariant |
| Players.Player.Update | src/Player.ts:48-96 | `updatePlayer` on the object computes `Step` of the old state and keeps the invariant |
| Players.Player.AdvanceBullets | src/Player.ts:86-93 | the loop over a snapshot, with in-place advance and filter-by-identity removal, leaves the advanced list with expired bullets dropped and changes nothing else |
| Swarms.Layout | src/AlienSwarm.ts:24-43 | the swarm has rows * columns slots |
| Swarms.LayoutAt | src/AlienSwarm.ts:24-43 | the alien of row y and column x is at index y * columns + x, with x = -(w + 0.2) * x and z = (d + 0.2) * y |
| Swarms.LayoutIndex | src/AlienSwarm.ts:24-43 | slot i holds the alien of row i / columns and column i % columns |
| Swarms.RandomInteger | src/AlienSwarm.ts:68-70 | for a random draw in [0, 1) the result lies in [min, max] |
| Swarms.RandomIntegerReaches | src/AlienSwarm.ts:68-70 | every integer of [min, max] is produced by some draw |
| Swarms.RandomSwarmShape | src/AlienSwarm.ts:72-80 | rows and columns lie in [3, 8]; the kind is `alien_0` iff the third draw exceeds 0.5 |
| Swarms.TriggerEffect | src/AlienSwarm.ts:56-61 | the impulse fires iff at least 2 s have passed since the last one; it then resets the timer and adds 70 * deltaT before damping; otherwise the acceleration is only damped |
| Swarms.CadenceAfterUpdate | src/AlienSwarm.ts:56-59 | after any update, less than 2 s have passed since the recorded impulse time |
| Swarms.AccelerationStaysNonNegative | src/AlienSwarm.ts:56-61 | over a frame of non-negative length, a non-negative acceleration stays non-negative |
| Swarms.Translation | src/AlienSwarm.ts:61-63 | the group's z drops by exactly the damped acceleration times deltaT; when the acceleration and deltaT are non-negative it never moves towards +z |
| Swarms.QuietRun | src/AlienSwarm.ts:56-61 | with a constant frame length and no impulse due in any frame, the acceleration after n frames is the initial one damped n times, and the timer stays |
| Swarms.ImpulsesSpaced | src/AlienSwarm.ts:56-59 | over any run of frames, impulse times are at least 2 s apart, and the state records the last one |
| Swarms.AlienSwarm.constructor | src/AlienSwarm.ts:16-46 | the slot array has rows * columns slots, each holding the laid-out alien; acceleration and timer start at 0 |
| Swarms.AlienSwarm.Update | src/AlienSwarm.ts:51-66 | `updateAlienSwarm` on the object computes `MoveStep` of the old motion and leaves the slots untouched |
| Collisions.SwarmBoxEncloses | src/main.ts:152 | the group's box is empty iff no slot is live, and otherwise encloses every live alien's box |
| Collisions.BroadPhaseSound | src/main.ts:151-156 | the broad phase never skips a bullet that meets a live alien |
| Collisions.BroadPhaseTransparent | src/main.ts:150-173 | one bullet's turn tombstones exactly the live slots its box meets (every one; there is no `break`) and removes the bullet iff it hit; a miss changes nothing |
| Collisions.OnlyTombstones | src/main.ts:158-172 | the grid keeps its size, and every slot either keeps its alien or becomes a tombstone |
| Collisions.TombstoneIff | src/main.ts:150-173 | a slot ends the pass as a tombstone iff it was one already or some bullet's box meets its box |
| Collisions.BulletsFiltered | src/main.ts:166-168 | the remaining list is the original list without the bullets that hit, order kept |
| Collisions.RemovedIff | src/main.ts:150-173 | with distinct identities, a bullet's identity is recorded as removed iff it hit an alien still live at its turn |
| Collisions.BulletOutcome | src/main.ts:150-173 | a bullet of the snapshot remains iff it did not hit an alien still live at its turn |
| Collisions.CenterHit | src/main.ts:150-173 | in a full 3 x 3 swarm, a bullet meeting only the centre alien tombstones exactly slot 4 and is itself removed |
| Collisions.ResolveCollisions | src/main.ts:150-173 | the nested loops, writing the slot array in place, leave the slots and the bullet list that `Resolve` gives |
| Collisions.ScanSlots | src/main.ts:158-172 | the scan for one bullet tombstones exactly the struck live slots and filters the bullet out iff it struck at least one, however many it strikes |
| GameLoop.FrameInvariant | src/main.ts:146-173 | a frame keeps the player's list invariant, leaves no bullet past 20, keeps the grid size and only creates tombstones |
| GameLoop.Frame | src/main.ts:146-173 | player update, then swarm update, then the collision pass, on the live objects; the result is `FrameStep` plus `MoveStep`, the invariant holds, and the slot array, the grid dimensions and the group's x and y stay as they were |

## Left out

- Rendering, the scene graph, the post-processing passes, the star field, the camera follow and its `isMouseDown` guard (src/main.ts:37-80, 94-140, 174-198) are presentation, not game rules. This covers the renderer, the camera, the development-only OrbitControls and helpers, and the lights.
- Model loading is left out. The GLTF loader and `createAlien` are asynchronous I/O. The constructors model a successful load, and the loaded sizes and positions arrive as parameters (`w`, `d`, `x0`, `y0`, `z0`). A failing load is not modelled.
- World boxes are left out. `Box3.setFromObject` needs meshes, scales and transforms the model does not hold. The collision code takes each slot's box (`alienBoxes`) and each bullet's box (`boxOf`) as inputs, and the player's box depth as `depth`. The swarm group's box is modelled as the hull of the live slots' boxes, since the group's children are exactly the live aliens' meshes.
- The initial group placement at src/main.ts:86-92 is setup code, not part of the frame. `AlienSwarm.constructor` leaves the group at the origin.
- The alien y coordinate and the group's x and y are not updated by any core rule. `Alien` holds only the coordinates the layout sets.
- RandomInteger: the default arguments `min = 0, max = 1` of `generateRandomInteger` (src/AlienSwarm.ts:68) are not modelled; both bounds are always passed, as at every call site (src/AlienSwarm.ts:75-76).
- The clock (`clock.getDelta`, `clock.getElapsedTime`) and `Math.random` are parameters: `deltaT`, `elapsedTime`, and the draws `r1`, `r2`, `r3`.
- `Math.exp` is the parameter `exp`, constrained only by the laws `IsExp` lists. IEEE rounding is not modelled, and all arithmetic is on `real`.
- The fire flag is a module-level variable in src/Player.ts:43. It is held here as a field of `Player`. With one player the two are the same.
- `InputManager.getInstance` and `isMouseDown` are called by the source but are not defined in src/InputManager.ts. The frame reads a key-map snapshot `keys` instead. Listener registration and `dispose` (src/InputManager.ts:15-23) are DOM wiring, and the `preventDefault` and `stopPropagation` calls are not modelled.
- `scene.add` and `scene.remove`, and removing an alien's mesh from the group, affect only rendering. They are not modelled beyond the tombstone and the list filter.
- Player.constructor: the initial roll is not modelled. The source turns the loaded mesh by `rotateY(Math.PI)` (src/Player.ts:29), and three.js then reports an Euler z of pi (or -pi, depending on the sign of a zero matrix entry). The constructor starts the roll at 0. The first `Update` sets it to momentum / 20 + pi before any rule reads it.
- Player identity and fresh allocation are the `id` and `nextId` device described above. Reference equality of meshes is not otherwise modelled.
