/** One call of the `render` callback in `src/main.ts`: the player update,
    then the swarm update, then the collision pass over the player's bullets
    and the swarm's slots. Rendering, the camera and the clock are left out;
    the clock's readings arrive as `deltaT` and `elapsedTime`, and the world
    boxes of this frame's meshes as `alienBoxes` and `boxOf`. */
module GameLoop {
  import opened Physics
  import opened Geometry
  import opened Wrappers
  import opened Players
  import opened Swarms
  import opened Collisions

  /** The part of the game state the frame changes besides the swarm's motion:
      the player and the grid slots. */
  datatype World = World(player: PlayerState, slots: seq<Option<Alien>>)

  /** The player and the grid after one frame: `updatePlayer` first, then the
      collision pass over the list it produced. */
  function FrameStep(w: World, keys: map<string, bool>, deltaT: real, exp: real -> real, depth: real,
                     alienBoxes: seq<AABB>, boxOf: Bullet -> AABB): World
    requires IsExp(exp) && |alienBoxes| == |w.slots|
  {
    var q := Step(w.player, keys, deltaT, exp, depth);
    var r := Resolve(q.bullets, w.slots, alienBoxes, boxOf);
    World(q.(bullets := r.bullets), r.slots)
  }

  /** A frame keeps the player's list invariant (distinct identities, all
      handed out already), leaves no bullet past the maximum distance, keeps
      the grid's size and only ever turns live slots into tombstones. */
  lemma FrameInvariant(w: World, keys: map<string, bool>, deltaT: real, exp: real -> real, depth: real,
                       alienBoxes: seq<AABB>, boxOf: Bullet -> AABB)
    requires IsExp(exp) && |alienBoxes| == |w.slots| && WellFormed(w.player)
    ensures var w' := FrameStep(w, keys, deltaT, exp, depth, alienBoxes, boxOf);
      WellFormed(w'.player) &&
      (forall b :: b in w'.player.bullets ==> b.z <= MAX_BULLET_DISTANCE) &&
      |w'.slots| == |w.slots| &&
      (forall i :: 0 <= i < |w.slots| ==> w'.slots[i] == w.slots[i] || w'.slots[i] == None)
  {
    var q := Step(w.player, keys, deltaT, exp, depth);
    var r := Resolve(q.bullets, w.slots, alienBoxes, boxOf);
    StepWellFormed(w.player, keys, deltaT, exp, depth);
    FrameBullets(w.player, keys, deltaT, exp, depth);
    BulletsFiltered(q.bullets, q.bullets, w.slots, alienBoxes, boxOf);
    WithoutIdsMembers(q.bullets, r.removed);
    OnlyTombstones(Resolution(w.slots, q.bullets, {}), q.bullets, alienBoxes, boxOf);
  }

  /** The frame as the callback runs it, on the two live objects. */
  method Frame(player: Player, swarm: AlienSwarm, keys: map<string, bool>, deltaT: real, elapsedTime: real,
               exp: real -> real, depth: real, alienBoxes: seq<AABB>, boxOf: Bullet -> AABB)
    requires player.Valid() && IsExp(exp) && |alienBoxes| == swarm.aliens.Length
    modifies player, swarm, swarm.aliens
    ensures player.Valid()
    ensures World(player.State(), swarm.aliens[..]) ==
      FrameStep(World(old(player.State()), old(swarm.aliens[..])), keys, deltaT, exp, depth, alienBoxes, boxOf)
    ensures swarm.CurrentMotion() == MoveStep(old(swarm.CurrentMotion()), elapsedTime, deltaT, exp)
    ensures swarm.aliens == old(swarm.aliens) && swarm.groupX == old(swarm.groupX) && swarm.groupY == old(swarm.groupY)
    ensures swarm.rows == old(swarm.rows) && swarm.columns == old(swarm.columns)
  {
    ghost var w := World(player.State(), swarm.aliens[..]);
    player.Update(keys, deltaT, exp, depth);
    swarm.Update(elapsedTime, deltaT, exp);
    var remaining := ResolveCollisions(player.bullets, swarm.aliens, alienBoxes, boxOf);
    player.bullets := remaining;
    FrameInvariant(w, keys, deltaT, exp, depth, alienBoxes, boxOf);
  }
}
