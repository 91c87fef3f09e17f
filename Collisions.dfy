/** The collision pass of the frame loop in `src/main.ts`: for each bullet, a
    broad-phase test against the bounding box of the whole swarm group, then a
    scan over every grid slot that tombstones each live alien whose box meets
    the bullet's and filters the bullet out of the player's list. The scan
    does not stop at the first hit.

    Boxes are inputs: `boxes[i]` is the world box of the alien in slot `i`
    for this frame and `boxOf` gives a bullet's world box. The group's box is
    recomputed for every bullet; the group holds exactly the live aliens'
    meshes, so it is the hull of their boxes, and empty when none is live. */
module Collisions {
  import opened Geometry
  import opened Wrappers
  import opened Players
  import opened Swarms

  /** `new Box3().setFromObject(alienSwarm.group)`. */
  function SwarmBox(slots: seq<Option<Alien>>, boxes: seq<AABB>): Option<AABB>
    requires |boxes| == |slots|
  {
    if slots == [] then None
    else
      var hull := SwarmBox(slots[..|slots| - 1], boxes[..|boxes| - 1]);
      var last := boxes[|boxes| - 1];
      if slots[|slots| - 1].None? then hull
      else match hull
        case None => Some(last)
        case Some(h) => Some(Union(h, last))
  }

  /** `intersectsBox` against a box that may be empty; an empty box meets nothing. */
  predicate Overlaps(box: AABB, hull: Option<AABB>)
  {
    hull.Some? && Intersects(box, hull.value)
  }

  predicate BroadPhase(box: AABB, slots: seq<Option<Alien>>, boxes: seq<AABB>)
    requires |boxes| == |slots|
  {
    Overlaps(box, SwarmBox(slots, boxes))
  }

  /** Slot `i` holds a live alien whose box meets `box`. */
  predicate Struck(slots: seq<Option<Alien>>, boxes: seq<AABB>, box: AABB, i: int)
    requires |boxes| == |slots|
  {
    0 <= i < |slots| && slots[i].Some? && Intersects(box, boxes[i])
  }

  predicate HitsAny(slots: seq<Option<Alien>>, boxes: seq<AABB>, box: AABB)
    requires |boxes| == |slots|
  {
    exists i :: 0 <= i < |slots| && Struck(slots, boxes, box, i)
  }

  /** The narrow phase for one bullet box: every struck slot becomes a tombstone. */
  function Scan(slots: seq<Option<Alien>>, boxes: seq<AABB>, box: AABB): (r: seq<Option<Alien>>)
    requires |boxes| == |slots|
    ensures |r| == |slots|
  {
    seq(|slots|, i requires 0 <= i < |slots| => if Struck(slots, boxes, box, i) then None else slots[i])
  }

  /** The slots, the player's bullet list, and the identities of the bullets
      that have hit something so far. */
  datatype Resolution = Resolution(slots: seq<Option<Alien>>, bullets: seq<Bullet>, removed: set<nat>)

  /** One turn of the outer loop. */
  function ResolveBullet(r: Resolution, b: Bullet, boxes: seq<AABB>, boxOf: Bullet -> AABB): (r': Resolution)
    requires |boxes| == |r.slots|
    ensures |r'.slots| == |r.slots|
  {
    var box := boxOf(b);
    if !BroadPhase(box, r.slots, boxes) then r
    else if HitsAny(r.slots, boxes, box)
    then Resolution(Scan(r.slots, boxes, box), WithoutId(r.bullets, b.id), r.removed + {b.id})
    else Resolution(Scan(r.slots, boxes, box), r.bullets, r.removed)
  }

  /** The outer loop over the bullets `bs`, starting from `start`. */
  function ResolveFrom(start: Resolution, bs: seq<Bullet>, boxes: seq<AABB>, boxOf: Bullet -> AABB): (r: Resolution)
    requires |boxes| == |start.slots|
    ensures |r.slots| == |start.slots|
  {
    if bs == [] then start
    else ResolveBullet(ResolveFrom(start, bs[..|bs| - 1], boxes, boxOf), bs[|bs| - 1], boxes, boxOf)
  }

  /** The collision pass over the bullet list `snapshot` and the grid `slots`. */
  function Resolve(snapshot: seq<Bullet>, slots: seq<Option<Alien>>, boxes: seq<AABB>, boxOf: Bullet -> AABB): Resolution
    requires |boxes| == |slots|
  {
    ResolveFrom(Resolution(slots, snapshot, {}), snapshot, boxes, boxOf)
  }

  // ---------------------------------------------------------------------
  // The broad phase

  /** The group's box is empty exactly when no slot is live, and otherwise
      encloses the box of every live slot. */
  lemma {:induction false} SwarmBoxEncloses(slots: seq<Option<Alien>>, boxes: seq<AABB>)
    requires |boxes| == |slots|
    ensures SwarmBox(slots, boxes).Some? <==> exists i :: 0 <= i < |slots| && slots[i].Some?
    ensures forall i :: 0 <= i < |slots| && slots[i].Some? ==>
      SwarmBox(slots, boxes).Some? && Contains(SwarmBox(slots, boxes).value, boxes[i])
  {
    if slots != [] {
      var n := |slots| - 1;
      var init, initBoxes := slots[..n], boxes[..n];
      SwarmBoxEncloses(init, initBoxes);
      assert forall i :: 0 <= i < n ==> init[i] == slots[i] && initBoxes[i] == boxes[i];
      if SwarmBox(slots, boxes).Some? && slots[n].None? {
        var k :| 0 <= k < n && init[k].Some?;
        assert slots[k].Some?;
      }
    }
  }

  /** The broad phase never rejects a bullet that meets a live alien. */
  lemma BroadPhaseSound(box: AABB, slots: seq<Option<Alien>>, boxes: seq<AABB>, i: int)
    requires |boxes| == |slots| && Struck(slots, boxes, box, i)
    ensures BroadPhase(box, slots, boxes)
  {
    SwarmBoxEncloses(slots, boxes);
    IntersectsEnclosing(box, boxes[i], SwarmBox(slots, boxes).value);
  }

  /** Whatever the broad phase decides, one turn tombstones exactly the live
      slots the bullet's box meets (all of them: there is no `break`), leaves
      every other slot as it was, and drops the bullet from the list iff it
      hit at least one. A bullet that misses every live alien changes nothing.
      So the broad phase only saves work. */
  lemma BroadPhaseTransparent(r: Resolution, b: Bullet, boxes: seq<AABB>, boxOf: Bullet -> AABB)
    requires |boxes| == |r.slots|
    ensures var r' := ResolveBullet(r, b, boxes, boxOf);
      r'.slots == Scan(r.slots, boxes, boxOf(b)) &&
      (if HitsAny(r.slots, boxes, boxOf(b))
       then r'.bullets == WithoutId(r.bullets, b.id) && r'.removed == r.removed + {b.id}
       else r' == r)
  {
    var box := boxOf(b);
    if HitsAny(r.slots, boxes, box) {
      var i :| Struck(r.slots, boxes, box, i);
      BroadPhaseSound(box, r.slots, boxes, i);
    } else {
      assert Scan(r.slots, boxes, box) == r.slots;
    }
  }

  // ---------------------------------------------------------------------
  // The whole pass

  /** The grid keeps its length; every slot either keeps its alien or becomes
      a tombstone, and a tombstone stays one (it is never matched again). */
  lemma {:induction false} OnlyTombstones(start: Resolution, bs: seq<Bullet>, boxes: seq<AABB>, boxOf: Bullet -> AABB)
    requires |boxes| == |start.slots|
    ensures var r := ResolveFrom(start, bs, boxes, boxOf);
      |r.slots| == |start.slots| &&
      forall i :: 0 <= i < |r.slots| ==> r.slots[i] == start.slots[i] || r.slots[i] == None
  {
    if bs != [] {
      var prev := ResolveFrom(start, bs[..|bs| - 1], boxes, boxOf);
      OnlyTombstones(start, bs[..|bs| - 1], boxes, boxOf);
      BroadPhaseTransparent(prev, bs[|bs| - 1], boxes, boxOf);
    }
  }

  /** A slot ends up a tombstone iff it already was one or the box of some
      bullet of the pass meets its alien's box, whichever bullets came first. */
  lemma {:induction false} TombstoneIff(start: Resolution, bs: seq<Bullet>, boxes: seq<AABB>, boxOf: Bullet -> AABB, i: int)
    requires |boxes| == |start.slots| && 0 <= i < |start.slots|
    ensures ResolveFrom(start, bs, boxes, boxOf).slots[i] == None <==>
      start.slots[i] == None || exists j :: 0 <= j < |bs| && Intersects(boxOf(bs[j]), boxes[i])
  {
    if bs != [] {
      var init, b := bs[..|bs| - 1], bs[|bs| - 1];
      var prev := ResolveFrom(start, init, boxes, boxOf);
      TombstoneIff(start, init, boxes, boxOf, i);
      BroadPhaseTransparent(prev, b, boxes, boxOf);
      if exists j :: 0 <= j < |bs| && Intersects(boxOf(bs[j]), boxes[i]) {
        var j :| 0 <= j < |bs| && Intersects(boxOf(bs[j]), boxes[i]);
        if j < |init| {
          assert init[j] == bs[j];
        }
      }
      assert forall j :: 0 <= j < |init| ==> init[j] == bs[j];
    }
  }

  lemma WithoutIdsNone(s: seq<Bullet>)
    ensures WithoutIds(s, {}) == s
  {
  }

  /** The bullet list after the pass is the original list with every
      bullet that hit filtered out, order kept. */
  lemma {:induction false} BulletsFiltered(snapshot: seq<Bullet>, bs: seq<Bullet>, slots: seq<Option<Alien>>, boxes: seq<AABB>, boxOf: Bullet -> AABB)
    requires |boxes| == |slots|
    ensures var r := ResolveFrom(Resolution(slots, snapshot, {}), bs, boxes, boxOf);
      r.bullets == WithoutIds(snapshot, r.removed)
  {
    var start := Resolution(slots, snapshot, {});
    if bs == [] {
      WithoutIdsNone(snapshot);
    } else {
      var prev := ResolveFrom(start, bs[..|bs| - 1], boxes, boxOf);
      BulletsFiltered(snapshot, bs[..|bs| - 1], slots, boxes, boxOf);
      BroadPhaseTransparent(prev, bs[|bs| - 1], boxes, boxOf);
      WithoutIdsAdd(snapshot, prev.removed, bs[|bs| - 1].id);
    }
  }

  /** Whether bullet `j` of the pass hits: some slot is still live when its
      turn comes and its box meets that slot's. */
  predicate HitAtTurn(start: Resolution, bs: seq<Bullet>, boxes: seq<AABB>, boxOf: Bullet -> AABB, j: int)
    requires |boxes| == |start.slots| && 0 <= j < |bs|
  {
    HitsAny(ResolveFrom(start, bs[..j], boxes, boxOf).slots, boxes, boxOf(bs[j]))
  }

  /** With distinct identities, a bullet's identity is recorded iff it hit at its turn. */
  lemma {:induction false} RemovedIff(start: Resolution, bs: seq<Bullet>, boxes: seq<AABB>, boxOf: Bullet -> AABB, j: int)
    requires |boxes| == |start.slots| && start.removed == {}
    requires DistinctIds(bs) && 0 <= j < |bs|
    ensures bs[j].id in ResolveFrom(start, bs, boxes, boxOf).removed <==> HitAtTurn(start, bs, boxes, boxOf, j)
    decreases |bs|
  {
    var n := |bs| - 1;
    var init, b := bs[..n], bs[n];
    var prev := ResolveFrom(start, init, boxes, boxOf);
    BroadPhaseTransparent(prev, b, boxes, boxOf);
    assert bs[..n] == init;
    if j < n {
      assert DistinctIds(init) by {
        forall p, q | 0 <= p < q < |init| ensures init[p].id != init[q].id {
          assert init[p] == bs[p] && init[q] == bs[q];
        }
      }
      assert init[j] == bs[j] && init[..j] == bs[..j];
      RemovedIff(start, init, boxes, boxOf, j);
      assert bs[j].id != b.id;
    } else {
      NotYetRemoved(start, init, boxes, boxOf, b.id);
    }
  }

  /** An identity none of whose bullets has had its turn is not recorded. */
  lemma {:induction false} NotYetRemoved(start: Resolution, bs: seq<Bullet>, boxes: seq<AABB>, boxOf: Bullet -> AABB, id: nat)
    requires |boxes| == |start.slots| && start.removed == {}
    requires forall k :: 0 <= k < |bs| ==> bs[k].id != id
    ensures id !in ResolveFrom(start, bs, boxes, boxOf).removed
    decreases |bs|
  {
    if bs != [] {
      var n := |bs| - 1;
      BroadPhaseTransparent(ResolveFrom(start, bs[..n], boxes, boxOf), bs[n], boxes, boxOf);
      NotYetRemoved(start, bs[..n], boxes, boxOf, id);
    }
  }

  /** The bullet outcome of the collision pass over the player's list: the
      remaining list keeps the original order and holds exactly the bullets
      that did not hit an alien still live at their turn. */
  lemma BulletOutcome(snapshot: seq<Bullet>, slots: seq<Option<Alien>>, boxes: seq<AABB>, boxOf: Bullet -> AABB, j: int)
    requires |boxes| == |slots| && DistinctIds(snapshot) && 0 <= j < |snapshot|
    ensures var r := Resolve(snapshot, slots, boxes, boxOf);
      r.bullets == WithoutIds(snapshot, r.removed) &&
      (snapshot[j] in r.bullets <==> !HitAtTurn(Resolution(slots, snapshot, {}), snapshot, boxes, boxOf, j))
  {
    var r := Resolve(snapshot, slots, boxes, boxOf);
    BulletsFiltered(snapshot, snapshot, slots, boxes, boxOf);
    RemovedIff(Resolution(slots, snapshot, {}), snapshot, boxes, boxOf, j);
    WithoutIdsMembers(snapshot, r.removed);
  }

  // ---------------------------------------------------------------------
  // A worked scenario

  /** A unit cube's box for the grid cell of row `y` and column `x`, spaced
      like the layout with aliens of width and depth 1. */
  function CellBox(y: int, x: int): AABB
  {
    var cx, cz := -1.2 * x as real, 1.2 * y as real;
    AABB(Vec3(cx - 0.5, 0.0, cz - 0.5), Vec3(cx + 0.5, 1.0, cz + 0.5))
  }

  /** A full 3 x 3 swarm and one bullet whose box meets only the alien of
      row 1, column 1: after the pass exactly slot 4 is a tombstone, the other
      eight aliens are alive, and the bullet is gone from the list. */
  lemma CenterHit(aliens: seq<Alien>, b: Bullet, boxOf: Bullet -> AABB)
    requires |aliens| == 9
    requires boxOf(b) == AABB(Vec3(-1.3, 0.4, 1.1), Vec3(-1.1, 0.6, 1.3))
    ensures var slots := seq(9, k requires 0 <= k < 9 => Some(aliens[k]));
      var boxes := seq(9, k requires 0 <= k < 9 => CellBox(k / 3, k % 3));
      var r := Resolve([b], slots, boxes, boxOf);
      r.slots == slots[4 := None] && r.bullets == []
  {
    var slots := seq(9, k requires 0 <= k < 9 => Some(aliens[k]));
    var boxes := seq(9, k requires 0 <= k < 9 => CellBox(k / 3, k % 3));
    var start := Resolution(slots, [b], {});
    assert [b][..0] == [];
    assert Struck(slots, boxes, boxOf(b), 4);
    BroadPhaseTransparent(start, b, boxes, boxOf);
    forall k | 0 <= k < 9
      ensures Scan(slots, boxes, boxOf(b))[k] == slots[4 := None][k]
    {
      assert k == 0 || k == 1 || k == 2 || k == 3 || k == 4 || k == 5 || k == 6 || k == 7 || k == 8;
      assert boxes[k] == CellBox(k / 3, k % 3);
    }
    assert Scan(slots, boxes, boxOf(b)) == slots[4 := None];
    assert ResolveFrom(start, [b], boxes, boxOf) == ResolveBullet(start, b, boxes, boxOf);
    assert WithoutId([b], b.id) == [];
  }

  // ---------------------------------------------------------------------
  // The loop as the frame runs it

  /** Lines 150-173 of the frame callback: the outer loop walks the bullet
      list as it was when the loop began; `aliens` is the swarm's slot array
      and is written in place. */
  method ResolveCollisions(bullets: seq<Bullet>, aliens: array<Option<Alien>>, boxes: seq<AABB>, boxOf: Bullet -> AABB)
      returns (remaining: seq<Bullet>)
    requires |boxes| == aliens.Length
    modifies aliens
    ensures var r := Resolve(bullets, old(aliens[..]), boxes, boxOf);
      aliens[..] == r.slots && remaining == r.bullets
  {
    remaining := bullets;
    ghost var start := Resolution(aliens[..], bullets, {});
    for j := 0 to |bullets|
      invariant var r := ResolveFrom(start, bullets[..j], boxes, boxOf);
        aliens[..] == r.slots && remaining == r.bullets
    {
      ghost var prev := ResolveFrom(start, bullets[..j], boxes, boxOf);
      assert bullets[..j + 1][..j] == bullets[..j];
      var bullet := bullets[j];
      var bulletBox := boxOf(bullet);
      var swarmBox := SwarmBox(aliens[..], boxes);
      if !Overlaps(bulletBox, swarmBox) {
        continue;
      }
      remaining := ScanSlots(aliens, boxes, bulletBox, bullet.id, remaining);
    }
    assert bullets[..|bullets|] == bullets;
  }

  /** Lines 158-172: the scan of every slot for one bullet box. Each struck
      live alien is tombstoned and the bullet is filtered out of `list`, once
      per alien it strikes. */
  method ScanSlots(aliens: array<Option<Alien>>, boxes: seq<AABB>, bulletBox: AABB, id: nat, list: seq<Bullet>)
      returns (remaining: seq<Bullet>)
    requires |boxes| == aliens.Length
    modifies aliens
    ensures aliens[..] == Scan(old(aliens[..]), boxes, bulletBox)
    ensures remaining == if HitsAny(old(aliens[..]), boxes, bulletBox) then WithoutId(list, id) else list
  {
    remaining := list;
    ghost var before := aliens[..];
    ghost var hit := false;
    for i := 0 to aliens.Length
      invariant forall k :: 0 <= k < i ==> aliens[k] == if Struck(before, boxes, bulletBox, k) then None else before[k]
      invariant forall k :: i <= k < aliens.Length ==> aliens[k] == before[k]
      invariant hit <==> exists k :: 0 <= k < i && Struck(before, boxes, bulletBox, k)
      invariant remaining == if hit then WithoutId(list, id) else list
    {
      var alien := aliens[i];
      if alien.None? {
        continue;
      }
      if Intersects(bulletBox, boxes[i]) {
        WithoutIdIdempotent(list, id);
        remaining := WithoutId(remaining, id);
        aliens[i] := None;
        hit := true;
      }
    }
    assert aliens[..] == Scan(before, boxes, bulletBox);
  }
}
