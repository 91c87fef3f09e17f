/** The player controller of `src/Player.ts`: steering with exponential
    damping, the roll that follows momentum, edge-triggered fire and the
    advance-and-expire pass over the bullet list.

    A bullet's `id` stands for the identity of its mesh: the source removes a
    bullet from the list by reference (`b !== bullet`), which here is removal
    by `id`. `nextId` stands for allocating a fresh mesh. */
module Players {
  import opened Physics
  import Input

  const PLAYER_ACCELERATION: real := 26.0
  const BULLET_ACCELERATION: real := 5.0
  const MAX_BULLET_DISTANCE: real := 20.0
  /** The height every new bullet is placed at. */
  const BULLET_HEIGHT: real := 0.06

  datatype Bullet = Bullet(id: nat, x: real, y: real, z: real)

  /** The player's mesh position and roll, its momentum, its bullets, the
      module-level `fireKeyPressed` flag and the next fresh bullet identity. */
  datatype PlayerState = PlayerState(
    x: real, y: real, z: real,
    rotationZ: real,
    momentum: real,
    bullets: seq<Bullet>,
    fireKeyPressed: bool,
    nextId: nat)

  // ---------------------------------------------------------------------
  // Input vocabulary

  predicate RightDown(keys: map<string, bool>)
  {
    Input.Down(keys, "d") || Input.Down(keys, "ArrowRight")
  }

  predicate LeftDown(keys: map<string, bool>)
  {
    Input.Down(keys, "a") || Input.Down(keys, "ArrowLeft")
  }

  predicate FireDown(keys: map<string, bool>)
  {
    Input.Down(keys, " ") || Input.Down(keys, "w") || Input.Down(keys, "ArrowUp")
  }

  // ---------------------------------------------------------------------
  // Bullet lists

  ghost function IdsOf(s: seq<Bullet>): set<nat>
  {
    set b | b in s :: b.id
  }

  ghost predicate DistinctIds(s: seq<Bullet>)
  {
    forall i, j :: 0 <= i < j < |s| ==> s[i].id != s[j].id
  }

  /** The list invariant of a player: bullet identities are distinct and all
      were handed out before. */
  ghost predicate WellFormed(p: PlayerState)
  {
    DistinctIds(p.bullets) && forall b :: b in p.bullets ==> b.id < p.nextId
  }

  /** One frame of flight. */
  function Advance(b: Bullet, deltaT: real): Bullet
  {
    b.(z := b.z + BULLET_ACCELERATION * deltaT)
  }

  function AdvanceAll(s: seq<Bullet>, deltaT: real): (r: seq<Bullet>)
    ensures |r| == |s|
  {
    seq(|s|, i requires 0 <= i < |s| => Advance(s[i], deltaT))
  }

  /** The bullets that have not travelled past the maximum distance. */
  function Survivors(s: seq<Bullet>): seq<Bullet>
  {
    if s == [] then []
    else Survivors(s[..|s| - 1]) + (if s[|s| - 1].z <= MAX_BULLET_DISTANCE then [s[|s| - 1]] else [])
  }

  /** `list.filter(b => b !== bullet)`: every element with that identity goes. */
  function WithoutId(s: seq<Bullet>, id: nat): seq<Bullet>
  {
    if s == [] then [] else (if s[0].id == id then [] else [s[0]]) + WithoutId(s[1..], id)
  }

  /** The same filter for a set of identities at once. */
  function WithoutIds(s: seq<Bullet>, ids: set<nat>): seq<Bullet>
  {
    if s == [] then [] else (if s[0].id in ids then [] else [s[0]]) + WithoutIds(s[1..], ids)
  }

  /** The list as seen after mutating the mesh `b.id` in place: the element
      with that identity now reads as `b`. */
  function ReplaceId(s: seq<Bullet>, b: Bullet): (r: seq<Bullet>)
    ensures |r| == |s|
  {
    seq(|s|, i requires 0 <= i < |s| => if s[i].id == b.id then b else s[i])
  }

  // ---------------------------------------------------------------------
  // The update rule

  /** Steering: right is checked first and so wins a tie. */
  function Steer(momentum: real, right: bool, left: bool, deltaT: real): real
  {
    if right then momentum - PLAYER_ACCELERATION * deltaT
    else if left then momentum + PLAYER_ACCELERATION * deltaT
    else momentum
  }

  /** `createPlayerBullet`: a fresh mesh at the player's x, at the fixed
      bullet height, and at the depth of the player's bounding box. */
  function CreatePlayerBullet(p: PlayerState, depth: real): (b: Bullet)
    ensures b.id == p.nextId
    ensures WellFormed(p) ==> b.id !in IdsOf(p.bullets)
    ensures b.x == p.x && b.y == BULLET_HEIGHT && b.z == depth
  {
    Bullet(p.nextId, p.x, BULLET_HEIGHT, depth)
  }

  /** Whether this frame fires: the flag is first cleared if fire is released,
      then a bullet is made if fire is down and the flag is clear. */
  predicate Fires(fireKeyPressed: bool, fireDown: bool)
  {
    var held := if fireKeyPressed && !fireDown then false else fireKeyPressed;
    !held && fireDown
  }

  /** The player after the steering and the fire steps, before the bullet pass. */
  function Moved(p: PlayerState, keys: map<string, bool>, deltaT: real, exp: real -> real): PlayerState
    requires IsExp(exp)
  {
    var m := Decay(Steer(p.momentum, RightDown(keys), LeftDown(keys), deltaT), deltaT, exp);
    p.(momentum := m, x := p.x + m * deltaT * 2.0, rotationZ := m / 20.0 + PI)
  }

  /** The bullet list the pass iterates over: the old list plus the new bullet
      when this frame fires. */
  function Pending(p: PlayerState, keys: map<string, bool>, deltaT: real, exp: real -> real, depth: real): seq<Bullet>
    requires IsExp(exp)
  {
    if Fires(p.fireKeyPressed, FireDown(keys))
    then p.bullets + [CreatePlayerBullet(Moved(p, keys, deltaT, exp), depth)]
    else p.bullets
  }

  /** `updatePlayer`, as a function of the old state, the key snapshot, the
      frame length, the exponential and the player's box depth. */
  function Step(p: PlayerState, keys: map<string, bool>, deltaT: real, exp: real -> real, depth: real): PlayerState
    requires IsExp(exp)
  {
    var fires := Fires(p.fireKeyPressed, FireDown(keys));
    Moved(p, keys, deltaT, exp).(
      bullets := Survivors(AdvanceAll(Pending(p, keys, deltaT, exp, depth), deltaT)),
      fireKeyPressed := FireDown(keys),
      nextId := if fires then p.nextId + 1 else p.nextId)
  }

  // ---------------------------------------------------------------------
  // Lemmas about bullet lists

  lemma SurvivorsSnoc(s: seq<Bullet>, b: Bullet)
    ensures Survivors(s + [b]) == Survivors(s) + (if b.z <= MAX_BULLET_DISTANCE then [b] else [])
  {
    assert (s + [b])[..|s|] == s;
  }

  /** The expiry filter keeps exactly the bullets within range. */
  lemma {:induction false} SurvivorsMembers(s: seq<Bullet>)
    ensures forall b :: b in Survivors(s) <==> b in s && b.z <= MAX_BULLET_DISTANCE
  {
    if s != [] {
      var init, last := s[..|s| - 1], s[|s| - 1];
      assert s == init + [last];
      SurvivorsMembers(init);
    }
  }

  /** The expiry filter works element by element, so it keeps relative order. */
  lemma {:induction false} SurvivorsAppend(a: seq<Bullet>, b: seq<Bullet>)
    ensures Survivors(a + b) == Survivors(a) + Survivors(b)
  {
    if b != [] {
      var init, last := b[..|b| - 1], b[|b| - 1];
      assert b == init + [last];
      assert a + b == (a + init) + [last];
      SurvivorsAppend(a, init);
      SurvivorsSnoc(a + init, last);
      SurvivorsSnoc(init, last);
    } else {
      assert a + b == a;
    }
  }

  /** A list whose bullets are all within range is kept unchanged. */
  lemma {:induction false} SurvivorsAllInRange(s: seq<Bullet>)
    requires forall b :: b in s ==> b.z <= MAX_BULLET_DISTANCE
    ensures Survivors(s) == s
  {
    if s != [] {
      var init := s[..|s| - 1];
      assert s == init + [s[|s| - 1]];
      SurvivorsAllInRange(init);
    }
  }

  lemma {:induction false} SurvivorsDistinct(s: seq<Bullet>)
    requires DistinctIds(s)
    ensures DistinctIds(Survivors(s)) && IdsOf(Survivors(s)) <= IdsOf(s)
  {
    if s != [] {
      var init, last := s[..|s| - 1], s[|s| - 1];
      assert s == init + [last];
      SurvivorsDistinct(init);
      DistinctSnoc(init, last);
      SurvivorsMembers(init);
      if last.z <= MAX_BULLET_DISTANCE {
        DistinctSnoc(Survivors(init), last);
      }
    }
  }

  lemma DistinctSnoc(s: seq<Bullet>, b: Bullet)
    ensures DistinctIds(s + [b]) <==> DistinctIds(s) && b.id !in IdsOf(s)
  {
    var t := s + [b];
    if DistinctIds(t) {
      forall c | c in s ensures c.id != b.id {
        var k :| 0 <= k < |s| && s[k] == c;
        assert t[k] == c && t[|s|] == b;
      }
      assert forall i, j :: 0 <= i < j < |s| ==> s[i] == t[i] && s[j] == t[j];
    }
    if DistinctIds(s) && b.id !in IdsOf(s) {
      forall i, j | 0 <= i < j < |t| ensures t[i].id != t[j].id {
        if j == |s| {
          assert t[i] == s[i] && s[i] in s;
        } else {
          assert t[i] == s[i] && t[j] == s[j];
        }
      }
    }
  }

  /** Flight changes positions, not identities. */
  lemma AdvanceAllIds(s: seq<Bullet>, deltaT: real)
    ensures IdsOf(AdvanceAll(s, deltaT)) == IdsOf(s)
    ensures DistinctIds(AdvanceAll(s, deltaT)) <==> DistinctIds(s)
  {
    var r := AdvanceAll(s, deltaT);
    assert forall i :: 0 <= i < |s| ==> r[i].id == s[i].id;
    forall id | id in IdsOf(r) ensures id in IdsOf(s) {
      var c :| c in r && c.id == id;
      var k :| 0 <= k < |r| && r[k] == c;
      assert s[k] in s && s[k].id == id;
    }
    forall id | id in IdsOf(s) ensures id in IdsOf(r) {
      var c :| c in s && c.id == id;
      var k :| 0 <= k < |s| && s[k] == c;
      assert r[k] in r && r[k].id == id;
    }
  }

  lemma AdvanceAllSnoc(s: seq<Bullet>, b: Bullet, deltaT: real)
    ensures AdvanceAll(s + [b], deltaT) == AdvanceAll(s, deltaT) + [Advance(b, deltaT)]
  {
  }

  /** Advancing whole lists distributes over concatenation. */
  lemma AdvanceAllAppend(a: seq<Bullet>, b: seq<Bullet>, deltaT: real)
    ensures AdvanceAll(a + b, deltaT) == AdvanceAll(a, deltaT) + AdvanceAll(b, deltaT)
  {
  }

  /** Every bullet of the old list, as advanced by exactly one frame, is in the
      surviving list iff it is within range; nothing else is. */
  lemma AdvanceAndExpire(s: seq<Bullet>, deltaT: real)
    ensures forall i :: 0 <= i < |s| ==>
      (Advance(s[i], deltaT) in Survivors(AdvanceAll(s, deltaT)) <==> s[i].z + BULLET_ACCELERATION * deltaT <= MAX_BULLET_DISTANCE)
    ensures forall b :: b in Survivors(AdvanceAll(s, deltaT)) ==>
      b.z <= MAX_BULLET_DISTANCE && exists i :: 0 <= i < |s| && b == Advance(s[i], deltaT)
  {
    var r := AdvanceAll(s, deltaT);
    SurvivorsMembers(r);
    forall i | 0 <= i < |s| ensures Advance(s[i], deltaT) in r {
      assert r[i] == Advance(s[i], deltaT);
    }
    forall b | b in Survivors(r) ensures exists i :: 0 <= i < |s| && b == Advance(s[i], deltaT) {
      var k :| 0 <= k < |r| && r[k] == b;
    }
  }

  lemma {:induction false} WithoutIdAppend(a: seq<Bullet>, b: seq<Bullet>, id: nat)
    ensures WithoutId(a + b, id) == WithoutId(a, id) + WithoutId(b, id)
  {
    if a == [] {
      assert a + b == b;
    } else {
      assert (a + b)[1..] == a[1..] + b;
      WithoutIdAppend(a[1..], b, id);
    }
  }

  lemma {:induction false} WithoutIdAbsent(s: seq<Bullet>, id: nat)
    requires id !in IdsOf(s)
    ensures WithoutId(s, id) == s
  {
    if s != [] {
      assert s[0] in s;
      assert IdsOf(s[1..]) <= IdsOf(s) by {
        forall c | c in s[1..] ensures c in s { }
      }
      WithoutIdAbsent(s[1..], id);
    }
  }

  lemma ReplaceIdAt(p: seq<Bullet>, c: Bullet, r: seq<Bullet>, b: Bullet)
    requires c.id == b.id && b.id !in IdsOf(p) && b.id !in IdsOf(r)
    ensures ReplaceId(p + [c] + r, b) == p + [b] + r
  {
    var s := p + [c] + r;
    forall k | 0 <= k < |s| ensures ReplaceId(s, b)[k] == (p + [b] + r)[k] {
      if k < |p| {
        assert s[k] == p[k] && p[k] in p;
      } else if k > |p| {
        assert s[k] == r[k - |p| - 1] && r[k - |p| - 1] in r;
      }
    }
  }

  lemma WithoutIdAt(p: seq<Bullet>, b: Bullet, r: seq<Bullet>)
    requires b.id !in IdsOf(p) && b.id !in IdsOf(r)
    ensures WithoutId(p + [b] + r, b.id) == p + r
  {
    var tail := [b] + r;
    assert p + [b] + r == p + tail;
    assert tail[0] == b && tail[1..] == r;
    assert WithoutId(tail, b.id) == WithoutId(r, b.id);
    WithoutIdAppend(p, tail, b.id);
    WithoutIdAbsent(p, b.id);
    WithoutIdAbsent(r, b.id);
  }

  lemma DistinctSplit(s: seq<Bullet>, i: nat)
    requires DistinctIds(s) && i < |s|
    ensures s[i].id !in IdsOf(s[..i]) && s[i].id !in IdsOf(s[i + 1..])
  {
    forall c | c in s[..i] ensures c.id != s[i].id {
      var k :| 0 <= k < i && s[..i][k] == c;
    }
    forall c | c in s[i + 1..] ensures c.id != s[i].id {
      var k :| 0 <= k < |s| - i - 1 && s[i + 1..][k] == c;
      assert c == s[i + 1 + k];
    }
  }

  /** One turn of the bullet pass over a list of distinct bullets: bumping the
      current bullet's mesh and, when it is out of range, filtering it out of
      the rebuilt list, extends the processed prefix by that bullet's fate and
      leaves the unvisited suffix alone. */
  lemma PassStep(snapshot: seq<Bullet>, i: nat, deltaT: real)
    requires DistinctIds(snapshot) && i < |snapshot|
    ensures var b := Advance(snapshot[i], deltaT);
      var replaced := ReplaceId(Survivors(AdvanceAll(snapshot[..i], deltaT)) + snapshot[i..], b);
      (if b.z > MAX_BULLET_DISTANCE then WithoutId(replaced, b.id) else replaced)
        == Survivors(AdvanceAll(snapshot[..i + 1], deltaT)) + snapshot[i + 1..]
  {
    var b := Advance(snapshot[i], deltaT);
    var done := Survivors(AdvanceAll(snapshot[..i], deltaT));
    var rest := snapshot[i + 1..];
    PassFresh(snapshot, i, deltaT);
    assert done + snapshot[i..] == done + [snapshot[i]] + rest by {
      assert snapshot[i..] == [snapshot[i]] + rest;
    }
    var replaced := ReplaceId(done + snapshot[i..], b);
    assert replaced == done + [b] + rest by {
      ReplaceIdAt(done, snapshot[i], rest, b);
    }
    PassPrefix(snapshot, i, deltaT);
    if b.z > MAX_BULLET_DISTANCE {
      assert WithoutId(replaced, b.id) == done + rest by {
        WithoutIdAt(done, b, rest);
      }
      assert Survivors(AdvanceAll(snapshot[..i + 1], deltaT)) == done + [];
      assert done + [] == done;
    } else {
      assert Survivors(AdvanceAll(snapshot[..i + 1], deltaT)) == done + [b];
    }
  }

  /** The current bullet's identity occurs neither in the processed prefix
      nor in the unvisited suffix. */
  lemma PassFresh(snapshot: seq<Bullet>, i: nat, deltaT: real)
    requires DistinctIds(snapshot) && i < |snapshot|
    ensures snapshot[i].id !in IdsOf(Survivors(AdvanceAll(snapshot[..i], deltaT)))
    ensures snapshot[i].id !in IdsOf(snapshot[i + 1..])
  {
    DistinctSplit(snapshot, i);
    AdvanceAllIds(snapshot[..i], deltaT);
    var advanced := AdvanceAll(snapshot[..i], deltaT);
    SurvivorsMembers(advanced);
    assert IdsOf(Survivors(advanced)) <= IdsOf(advanced);
  }

  /** Extending the processed prefix by one bullet adds that bullet's fate. */
  lemma PassPrefix(snapshot: seq<Bullet>, i: nat, deltaT: real)
    requires i < |snapshot|
    ensures var b := Advance(snapshot[i], deltaT);
      Survivors(AdvanceAll(snapshot[..i + 1], deltaT)) ==
        Survivors(AdvanceAll(snapshot[..i], deltaT)) + (if b.z <= MAX_BULLET_DISTANCE then [b] else [])
  {
    assert snapshot[..i + 1] == snapshot[..i] + [snapshot[i]];
    AdvanceAllSnoc(snapshot[..i], snapshot[i], deltaT);
    SurvivorsSnoc(AdvanceAll(snapshot[..i], deltaT), Advance(snapshot[i], deltaT));
  }

  /** Removing one identity is idempotent: the source may filter the same
      bullet out once per alien it hits. */
  lemma {:induction false} WithoutIdIdempotent(s: seq<Bullet>, id: nat)
    ensures WithoutId(WithoutId(s, id), id) == WithoutId(s, id)
  {
    if s != [] {
      var w := WithoutId(s[1..], id);
      WithoutIdIdempotent(s[1..], id);
      if s[0].id != id {
        assert WithoutId(s, id) == [s[0]] + w;
        assert ([s[0]] + w)[0] == s[0] && ([s[0]] + w)[1..] == w;
      } else {
        assert WithoutId(s, id) == [] + w == w;
      }
    }
  }

  /** Removing identities one after another is removing the set of them. */
  lemma {:induction false} WithoutIdsAdd(s: seq<Bullet>, ids: set<nat>, id: nat)
    ensures WithoutId(WithoutIds(s, ids), id) == WithoutIds(s, ids + {id})
  {
    if s != [] {
      WithoutIdsAdd(s[1..], ids, id);
      var rest := WithoutIds(s[1..], ids);
      if s[0].id !in ids {
        assert WithoutIds(s, ids) == [s[0]] + rest;
        assert ([s[0]] + rest)[0] == s[0] && ([s[0]] + rest)[1..] == rest;
        if s[0].id == id {
          assert WithoutId([s[0]] + rest, id) == [] + WithoutId(rest, id);
        } else {
          assert WithoutId([s[0]] + rest, id) == [s[0]] + WithoutId(rest, id);
        }
      } else {
        assert WithoutIds(s, ids) == [] + rest == rest;
      }
    }
  }

  /** The set filter keeps exactly the bullets whose identities are not in the
      set, and keeps the list's invariant. */
  lemma WithoutIdsMembers(s: seq<Bullet>, ids: set<nat>)
    ensures forall b :: b in WithoutIds(s, ids) <==> b in s && b.id !in ids
    ensures DistinctIds(s) ==> DistinctIds(WithoutIds(s, ids))
  {
    WithoutIdsIn(s, ids);
    if DistinctIds(s) {
      WithoutIdsDistinct(s, ids);
    }
  }

  lemma {:induction false} WithoutIdsIn(s: seq<Bullet>, ids: set<nat>)
    ensures forall b :: b in WithoutIds(s, ids) <==> b in s && b.id !in ids
  {
    if s != [] {
      WithoutIdsIn(s[1..], ids);
      assert forall b :: b in s <==> b == s[0] || b in s[1..];
    }
  }

  lemma {:induction false} WithoutIdsDistinct(s: seq<Bullet>, ids: set<nat>)
    requires DistinctIds(s)
    ensures DistinctIds(WithoutIds(s, ids))
  {
    if s != [] {
      var tail := s[1..];
      assert DistinctIds(tail) by {
        forall i, j | 0 <= i < j < |tail| ensures tail[i].id != tail[j].id {
          assert tail[i] == s[i + 1] && tail[j] == s[j + 1];
        }
      }
      WithoutIdsDistinct(tail, ids);
      var rest := WithoutIds(tail, ids);
      if s[0].id !in ids {
        WithoutIdsIn(tail, ids);
        var t := [s[0]] + rest;
        forall i, j | 0 <= i < j < |t| ensures t[i].id != t[j].id {
          if i == 0 {
            assert t[j] in tail;
            var k :| 0 <= k < |tail| && tail[k] == t[j];
            assert s[k + 1] == t[j];
          } else {
            assert t[i] == rest[i - 1] && t[j] == rest[j - 1];
          }
        }
        assert WithoutIds(s, ids) == t;
      } else {
        assert WithoutIds(s, ids) == [] + rest;
      }
    }
  }

  // ---------------------------------------------------------------------
  // Lemmas about one frame

  /** Both horizontal keys down: momentum moves exactly as for right alone. */
  lemma TieBreak(p: PlayerState, keys: map<string, bool>, deltaT: real, exp: real -> real, depth: real)
    requires IsExp(exp) && RightDown(keys) && LeftDown(keys)
    ensures Step(p, keys, deltaT, exp, depth).momentum == Decay(p.momentum - PLAYER_ACCELERATION * deltaT, deltaT, exp)
  {
  }

  /** No horizontal key down and a non-negative frame: momentum is only damped,
      keeps its sign and does not grow in magnitude. */
  lemma IdleMomentum(p: PlayerState, keys: map<string, bool>, deltaT: real, exp: real -> real, depth: real)
    requires IsExp(exp) && !RightDown(keys) && !LeftDown(keys) && 0.0 <= deltaT
    ensures var m := Step(p, keys, deltaT, exp, depth).momentum;
      m == Decay(p.momentum, deltaT, exp) &&
      (0.0 <= p.momentum ==> 0.0 <= m <= p.momentum) &&
      (p.momentum <= 0.0 ==> p.momentum <= m <= 0.0)
  {
    DecayShrinks(p.momentum, deltaT, exp);
  }

  /** Position and roll follow the damped momentum; height and depth stay. */
  lemma Pose(p: PlayerState, keys: map<string, bool>, deltaT: real, exp: real -> real, depth: real)
    requires IsExp(exp)
    ensures var q := Step(p, keys, deltaT, exp, depth);
      q.x == p.x + q.momentum * deltaT * 2.0 && q.rotationZ == q.momentum / 20.0 + PI &&
      q.y == p.y && q.z == p.z
  {
  }

  /** Fire is edge-triggered: a bullet is made iff the flag was clear and a
      fire key is down; afterwards the flag says whether a fire key is down. */
  lemma FireEdge(p: PlayerState, keys: map<string, bool>, deltaT: real, exp: real -> real, depth: real)
    requires IsExp(exp)
    ensures var q := Step(p, keys, deltaT, exp, depth);
      q.fireKeyPressed == FireDown(keys) &&
      (q.nextId == p.nextId + 1 <==> !p.fireKeyPressed && FireDown(keys)) &&
      (q.nextId == p.nextId || q.nextId == p.nextId + 1)
  {
  }

  /** Releasing every fire key clears the flag and makes no bullet: the pass
      runs over the old list only. */
  lemma ReleaseFire(p: PlayerState, keys: map<string, bool>, deltaT: real, exp: real -> real, depth: real)
    requires IsExp(exp) && !FireDown(keys)
    ensures var q := Step(p, keys, deltaT, exp, depth);
      !q.fireKeyPressed && q.nextId == p.nextId &&
      q.bullets == Survivors(AdvanceAll(p.bullets, deltaT))
  {
  }

  /** The bullet pass: the new list is the pending list (old bullets, then the
      new one if any) with every bullet advanced by exactly one frame and those
      past the maximum distance dropped, order kept. A bullet made this frame
      starts at the player's new x, the bullet height, and the box depth plus
      one frame of flight. */
  lemma FrameBullets(p: PlayerState, keys: map<string, bool>, deltaT: real, exp: real -> real, depth: real)
    requires IsExp(exp)
    ensures var q := Step(p, keys, deltaT, exp, depth);
      var flown := Survivors(AdvanceAll(p.bullets, deltaT));
      (forall b :: b in q.bullets ==> b.z <= MAX_BULLET_DISTANCE) &&
      (if Fires(p.fireKeyPressed, FireDown(keys))
       then q.bullets == flown + Survivors([Bullet(p.nextId, q.x, BULLET_HEIGHT, depth + BULLET_ACCELERATION * deltaT)])
       else q.bullets == flown)
  {
    var q := Step(p, keys, deltaT, exp, depth);
    var pending := Pending(p, keys, deltaT, exp, depth);
    assert q.bullets == Survivors(AdvanceAll(pending, deltaT));
    SurvivorsMembers(AdvanceAll(pending, deltaT));
    if Fires(p.fireKeyPressed, FireDown(keys)) {
      var b := CreatePlayerBullet(Moved(p, keys, deltaT, exp), depth);
      assert pending == p.bullets + [b];
      assert q.x == b.x;
      ExpireSplit(p.bullets, [b], deltaT);
      assert AdvanceAll([b], deltaT) == [Bullet(p.nextId, q.x, BULLET_HEIGHT, depth + BULLET_ACCELERATION * deltaT)];
    }
  }

  /** Flight and expiry act on each part of a list independently. */
  lemma ExpireSplit(a: seq<Bullet>, b: seq<Bullet>, deltaT: real)
    ensures Survivors(AdvanceAll(a + b, deltaT)) == Survivors(AdvanceAll(a, deltaT)) + Survivors(AdvanceAll(b, deltaT))
  {
    AdvanceAllAppend(a, b, deltaT);
    SurvivorsAppend(AdvanceAll(a, deltaT), AdvanceAll(b, deltaT));
  }

  /** The list the bullet pass walks has distinct identities. */
  lemma PendingDistinct(p: PlayerState, keys: map<string, bool>, deltaT: real, exp: real -> real, depth: real)
    requires IsExp(exp) && WellFormed(p)
    ensures DistinctIds(Pending(p, keys, deltaT, exp, depth))
  {
    if Fires(p.fireKeyPressed, FireDown(keys)) {
      var b := CreatePlayerBullet(Moved(p, keys, deltaT, exp), depth);
      assert b.id !in IdsOf(p.bullets);
      DistinctSnoc(p.bullets, b);
    }
  }

  /** One frame keeps the list invariant. */
  lemma StepWellFormed(p: PlayerState, keys: map<string, bool>, deltaT: real, exp: real -> real, depth: real)
    requires IsExp(exp) && WellFormed(p)
    ensures WellFormed(Step(p, keys, deltaT, exp, depth))
  {
    var q := Step(p, keys, deltaT, exp, depth);
    var pending := Pending(p, keys, deltaT, exp, depth);
    PendingDistinct(p, keys, deltaT, exp, depth);
    assert forall b :: b in pending ==> b.id < q.nextId;
    AdvanceAllIds(pending, deltaT);
    SurvivorsDistinct(AdvanceAll(pending, deltaT));
    forall b | b in q.bullets ensures b.id < q.nextId {
      assert b.id in IdsOf(q.bullets);
      var c :| c in pending && c.id == b.id;
    }
  }

  // ---------------------------------------------------------------------
  // Several frames

  /** One call of `updatePlayer`'s inputs: the key snapshot and the frame
      length read from the clock. */
  datatype PlayerFrame = PlayerFrame(keys: map<string, bool>, deltaT: real)

  /** The player after a sequence of frames, each with its own key snapshot
      and frame length. */
  function Run(p: PlayerState, frames: seq<PlayerFrame>, exp: real -> real, depth: real): PlayerState
    requires IsExp(exp)
    decreases |frames|
  {
    if frames == [] then p
    else Run(Step(p, frames[0].keys, frames[0].deltaT, exp, depth), frames[1..], exp, depth)
  }

  /** The number of rising edges of the fire input, given whether it was down
      before the first frame. */
  function Shots(wasDown: bool, frames: seq<PlayerFrame>): nat
    decreases |frames|
  {
    if frames == [] then 0
    else
      var down := FireDown(frames[0].keys);
      (if down && !wasDown then 1 else 0) + Shots(down, frames[1..])
  }

  /** Over any sequence of frames, whatever their lengths, the number of
      bullets made is the number of rising edges of the fire input. */
  lemma {:induction false} RunShots(p: PlayerState, frames: seq<PlayerFrame>, exp: real -> real, depth: real)
    requires IsExp(exp)
    ensures Run(p, frames, exp, depth).nextId == p.nextId + Shots(p.fireKeyPressed, frames)
    decreases |frames|
  {
    if frames != [] {
      var f := frames[0];
      FireEdge(p, f.keys, f.deltaT, exp, depth);
      RunShots(Step(p, f.keys, f.deltaT, exp, depth), frames[1..], exp, depth);
    }
  }

  /** Holding fire through every frame makes no rising edge after the first. */
  lemma {:induction false} HeldFireNoShots(frames: seq<PlayerFrame>)
    requires forall i :: 0 <= i < |frames| ==> FireDown(frames[i].keys)
    ensures Shots(true, frames) == 0
    decreases |frames|
  {
    if frames != [] {
      assert forall i :: 0 <= i < |frames[1..]| ==> frames[1..][i] == frames[i + 1];
      HeldFireNoShots(frames[1..]);
    }
  }

  /** Holding fire across N >= 1 frames from a released state makes exactly one bullet. */
  lemma HoldFireOneBullet(p: PlayerState, frames: seq<PlayerFrame>, exp: real -> real, depth: real)
    requires IsExp(exp) && !p.fireKeyPressed && |frames| >= 1
    requires forall i :: 0 <= i < |frames| ==> FireDown(frames[i].keys)
    ensures Run(p, frames, exp, depth).nextId == p.nextId + 1
  {
    RunShots(p, frames, exp, depth);
    assert forall i :: 0 <= i < |frames[1..]| ==> frames[1..][i] == frames[i + 1];
    HeldFireNoShots(frames[1..]);
  }

  /** Press, release, press makes exactly two bullets. */
  lemma PressReleasePress(p: PlayerState, f1: PlayerFrame, f2: PlayerFrame, f3: PlayerFrame, exp: real -> real, depth: real)
    requires IsExp(exp) && !p.fireKeyPressed && FireDown(f1.keys) && !FireDown(f2.keys) && FireDown(f3.keys)
    ensures Run(p, [f1, f2, f3], exp, depth).nextId == p.nextId + 2
  {
    RunShots(p, [f1, f2, f3], exp, depth);
    assert [f1, f2, f3][1..] == [f2, f3] && [f2, f3][1..] == [f3] && [f3][1..] == [];
    assert Shots(true, [f3]) == 0;
    assert Shots(false, [f3]) == 1;
    assert Shots(true, [f2, f3]) == 1;
    assert Shots(false, [f1, f2, f3]) == 2;
  }

  /** The frame lengths of a run. */
  function Lengths(frames: seq<PlayerFrame>): (r: seq<real>)
    ensures |r| == |frames| && forall i :: 0 <= i < |frames| ==> r[i] == frames[i].deltaT
  {
    if frames == [] then [] else [frames[0].deltaT] + Lengths(frames[1..])
  }

  /** Bullet flight with no new bullet, over frames of the given lengths. */
  function Fly(s: seq<Bullet>, lengths: seq<real>): seq<Bullet>
    decreases |lengths|
  {
    if lengths == [] then s else Fly(Survivors(AdvanceAll(s, lengths[0])), lengths[1..])
  }

  /** With fire up in every frame, the bullet list evolves by flight alone,
      over the run's own frame lengths. */
  lemma {:induction false} RunWithoutFire(p: PlayerState, frames: seq<PlayerFrame>, exp: real -> real, depth: real)
    requires IsExp(exp)
    requires forall i :: 0 <= i < |frames| ==> !FireDown(frames[i].keys)
    ensures Run(p, frames, exp, depth).bullets == Fly(p.bullets, Lengths(frames))
    decreases |frames|
  {
    if frames != [] {
      var f := frames[0];
      ReleaseFire(p, f.keys, f.deltaT, exp, depth);
      assert forall i :: 0 <= i < |frames[1..]| ==> frames[1..][i] == frames[i + 1];
      RunWithoutFire(Step(p, f.keys, f.deltaT, exp, depth), frames[1..], exp, depth);
      assert Lengths(frames)[0] == f.deltaT && Lengths(frames)[1..] == Lengths(frames[1..]);
    }
  }

  /** With a constant frame length and no horizontal key down in any frame,
      the momentum after the run is the initial momentum damped once per
      frame. */
  lemma {:induction false} IdleRun(p: PlayerState, frames: seq<PlayerFrame>, deltaT: real, exp: real -> real, depth: real)
    requires IsExp(exp)
    requires forall i :: 0 <= i < |frames| ==>
      frames[i].deltaT == deltaT && !RightDown(frames[i].keys) && !LeftDown(frames[i].keys)
    ensures Run(p, frames, exp, depth).momentum == DecayRepeated(p.momentum, deltaT, exp, |frames|)
    decreases |frames|
  {
    if frames != [] {
      var q := Step(p, frames[0].keys, deltaT, exp, depth);
      assert q.momentum == Decay(p.momentum, deltaT, exp);
      assert forall i :: 0 <= i < |frames[1..]| ==> frames[1..][i] == frames[i + 1];
      IdleRun(q, frames[1..], deltaT, exp, depth);
      DecayRepeatedShift(p.momentum, deltaT, exp, |frames| - 1);
    }
  }

  lemma {:induction false} FlyEmpty(lengths: seq<real>)
    ensures Fly([], lengths) == []
    decreases |lengths|
  {
    if lengths != [] {
      assert AdvanceAll([], lengths[0]) == [];
      FlyEmpty(lengths[1..]);
    }
  }

  predicate NonNegative(lengths: seq<real>)
  {
    forall i :: 0 <= i < |lengths| ==> 0.0 <= lengths[i]
  }

  /** The distance a bullet covers over frames of the given lengths. */
  function Travel(lengths: seq<real>): (t: real)
    ensures NonNegative(lengths) ==> 0.0 <= t
    decreases |lengths|
  {
    if lengths == [] then 0.0
    else
      assert NonNegative(lengths) ==> NonNegative(lengths[1..]) by {
        assert forall i :: 0 <= i < |lengths[1..]| ==> lengths[1..][i] == lengths[i + 1];
      }
      BULLET_ACCELERATION * lengths[0] + Travel(lengths[1..])
  }

  /** Over frames of any non-negative lengths, a lone bullet within range is
      still there, advanced by its accumulated travel, exactly as long as that
      travel keeps it within the maximum distance. */
  lemma {:induction false} FlyTravel(b: Bullet, lengths: seq<real>)
    requires NonNegative(lengths) && b.z <= MAX_BULLET_DISTANCE
    ensures Fly([b], lengths) ==
      if b.z + Travel(lengths) <= MAX_BULLET_DISTANCE then [b.(z := b.z + Travel(lengths))] else []
    decreases |lengths|
  {
    if lengths != [] {
      var rest := lengths[1..];
      assert NonNegative(rest) by {
        assert forall i :: 0 <= i < |rest| ==> rest[i] == lengths[i + 1];
      }
      var a := Advance(b, lengths[0]);
      assert a.z + Travel(rest) == b.z + Travel(lengths);
      assert Fly([b], lengths) == Fly(Survivors([a]), rest) by {
        assert AdvanceAll([b], lengths[0]) == [a];
      }
      assert Survivors([a]) == Survivors([]) + (if a.z <= MAX_BULLET_DISTANCE then [a] else []) by {
        assert [a][..0] == [];
      }
      if a.z <= MAX_BULLET_DISTANCE {
        FlyTravel(a, rest);
      } else {
        FlyEmpty(rest);
      }
    }
  }

  /** `n` frames of the same length. */
  function Uniform(deltaT: real, n: nat): (r: seq<real>)
    ensures |r| == n && forall i :: 0 <= i < n ==> r[i] == deltaT
  {
    seq(n, _ => deltaT)
  }

  lemma {:induction false} TravelClosedForm(deltaT: real, n: nat)
    ensures Travel(Uniform(deltaT, n)) == BULLET_ACCELERATION * deltaT * n as real
  {
    if n > 0 {
      assert Uniform(deltaT, n)[1..] == Uniform(deltaT, n - 1);
      TravelClosedForm(deltaT, n - 1);
      RealMulSucc(BULLET_ACCELERATION * deltaT, n);
    }
  }

  /** With n frames of one length, a lone bullet within range is still there,
      advanced by 5 * deltaT * n, exactly as long as that keeps it within
      the maximum distance. */
  lemma FlySingle(b: Bullet, deltaT: real, n: nat)
    requires 0.0 <= deltaT && b.z <= MAX_BULLET_DISTANCE
    ensures Fly([b], Uniform(deltaT, n)) ==
      if b.z + BULLET_ACCELERATION * deltaT * n as real <= MAX_BULLET_DISTANCE
      then [b.(z := b.z + BULLET_ACCELERATION * deltaT * n as real)]
      else []
  {
    FlyTravel(b, Uniform(deltaT, n));
    TravelClosedForm(deltaT, n);
  }

  lemma RealMulSucc(a: real, n: nat)
    requires 0 < n
    ensures a * n as real == a + a * (n - 1) as real
  {
  }

  /** A bullet starting at travel position 0 with frames of 0.1 s is present
      after 40 frames (at the maximum distance) and gone after 41. */
  lemma BulletLifetime(b: Bullet)
    requires b.z == 0.0
    ensures Fly([b], Uniform(0.1, 40)) == [b.(z := 20.0)]
    ensures Fly([b], Uniform(0.1, 41)) == []
  {
    FlyTenths(b, 0.1, 40);
    FlyTenths(b, 0.1, 41);
  }

  /** From travel position 0 with frames of 0.1 s, a bullet covers 0.5 per
      frame and is present exactly for the first 40 frames. */
  lemma FlyTenths(b: Bullet, deltaT: real, n: nat)
    requires b.z == 0.0 && deltaT == 0.1
    ensures Fly([b], Uniform(deltaT, n)) == if n <= 40 then [b.(z := 0.5 * n as real)] else []
  {
    FlySingle(b, deltaT, n);
    var t := BULLET_ACCELERATION * deltaT * n as real;
    assert t == 0.5 * n as real;
    assert b.z + t <= MAX_BULLET_DISTANCE <==> n <= 40;
  }

  // ---------------------------------------------------------------------
  // The mutable player

  class Player {
    var x: real
    var y: real
    var z: real
    var rotationZ: real
    var momentum: real
    var bullets: seq<Bullet>
    /** The module-level flag of the source, held per player. */
    var fireKeyPressed: bool
    var nextId: nat

    function State(): PlayerState
      reads this
    {
      PlayerState(x, y, z, rotationZ, momentum, bullets, fireKeyPressed, nextId)
    }

    ghost predicate Valid()
      reads this
    {
      WellFormed(State())
    }

    /** A loaded player at the mesh position the model file gives, at rest. */
    constructor (x0: real, y0: real, z0: real)
      ensures Valid()
      ensures State() == PlayerState(x0, y0, z0, 0.0, 0.0, [], false, 0)
    {
      x, y, z := x0, y0, z0;
      rotationZ, momentum := 0.0, 0.0;
      bullets, fireKeyPressed, nextId := [], false, 0;
    }

    /** `updatePlayer`. `keys` is the key-state snapshot for this frame and
        `depth` the depth of the player's bounding box. */
    method Update(keys: map<string, bool>, deltaT: real, exp: real -> real, depth: real)
      requires Valid() && IsExp(exp)
      modifies this
      ensures Valid()
      ensures State() == Step(old(State()), keys, deltaT, exp, depth)
    {
      ghost var p := State();
      var m := momentum;
      if Input.Down(keys, "d") || Input.Down(keys, "ArrowRight") {
        m := m - PLAYER_ACCELERATION * deltaT;
      } else if Input.Down(keys, "a") || Input.Down(keys, "ArrowLeft") {
        m := m + PLAYER_ACCELERATION * deltaT;
      }
      m := m / exp(deltaT * 4.0);
      x := x + m * deltaT * 2.0;
      rotationZ := m / 20.0 + PI;
      ghost var moved := Moved(p, keys, deltaT, exp);
      assert State().(momentum := m) == moved;

      var isFireDown := Input.Down(keys, " ") || Input.Down(keys, "w") || Input.Down(keys, "ArrowUp");
      assert isFireDown == FireDown(keys);
      ghost var fires := Fires(p.fireKeyPressed, isFireDown);
      if fireKeyPressed && !isFireDown {
        fireKeyPressed := false;
      }
      if !fireKeyPressed && isFireDown {
        fireKeyPressed := true;
        var bullet := Bullet(nextId, x, BULLET_HEIGHT, depth);
        assert bullet == CreatePlayerBullet(moved, depth);
        nextId := nextId + 1;
        bullets := bullets + [bullet];
      }
      ghost var pending := Pending(p, keys, deltaT, exp, depth);
      assert bullets == pending;
      assert fireKeyPressed == isFireDown;
      assert nextId == if fires then p.nextId + 1 else p.nextId;
      ghost var target := Step(p, keys, deltaT, exp, depth);
      assert State().(momentum := m, bullets := target.bullets) == target;
      PendingDistinct(p, keys, deltaT, exp, depth);
      StepWellFormed(p, keys, deltaT, exp, depth);
      AdvanceBullets(deltaT);
      momentum := m;
      assert State() == target;
    }

    /** The `for...of` pass of `updatePlayer`: it walks the list as it was
        when the loop began, bumps each bullet's mesh forward, and reassigns
        the list without that bullet when it is out of range. */
    method AdvanceBullets(deltaT: real)
      requires DistinctIds(bullets)
      modifies this
      ensures bullets == Survivors(AdvanceAll(old(bullets), deltaT))
      ensures State() == old(State()).(bullets := bullets)
    {
      var snapshot := bullets;
      for i := 0 to |snapshot|
        invariant bullets == Survivors(AdvanceAll(snapshot[..i], deltaT)) + snapshot[i..]
        invariant x == old(x) && y == old(y) && z == old(z) && rotationZ == old(rotationZ)
        invariant momentum == old(momentum) && fireKeyPressed == old(fireKeyPressed) && nextId == old(nextId)
      {
        var b := Advance(snapshot[i], deltaT);
        PassStep(snapshot, i, deltaT);
        ghost var next := Survivors(AdvanceAll(snapshot[..i + 1], deltaT)) + snapshot[i + 1..];
        bullets := ReplaceId(bullets, b);
        if b.z > MAX_BULLET_DISTANCE {
          bullets := WithoutId(bullets, b.id);
        }
        assert bullets == next;
      }
      assert snapshot[..|snapshot|] == snapshot;
      assert snapshot[|snapshot|..] == [];
    }
  }
}
