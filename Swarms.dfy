/** The alien swarm of `src/AlienSwarm.ts`: the row-major grid layout built when
    the swarm is assembled, the random choice of its dimensions, and the
    per-frame motion rule (a periodic impulse, exponential damping, and a rigid
    translation of the whole group along z). */
module Swarms {
  import opened Physics
  import opened Wrappers

  const SPACE_BETWEEN_ALIENS: real := 0.2
  const SWARM_MOVE_ACCELERATION: real := 70.0
  /** Seconds between two movement impulses. */
  const INITIAL_SWARM_MOVE_DELAY: real := 2.0

  datatype AlienType = Alien0 | Alien1

  /** An alien's kind and the position its mesh is given inside the group. */
  datatype Alien = Alien(kind: AlienType, x: real, z: real)

  // ---------------------------------------------------------------------
  // Layout

  /** `flatMap` over rows: the rows one after another. */
  function Flatten<T>(rows: seq<seq<T>>): seq<T>
  {
    if rows == [] then [] else rows[0] + Flatten(rows[1..])
  }

  /** Flattening rows of equal length `c` puts element `x` of row `y` at
      `y * c + x`. */
  lemma {:induction false} FlattenAt<T>(rows: seq<seq<T>>, c: nat, y: nat, x: nat)
    requires forall k :: 0 <= k < |rows| ==> |rows[k]| == c
    requires y < |rows| && x < c
    ensures |Flatten(rows)| == |rows| * c
    ensures y * c + x < |Flatten(rows)| && Flatten(rows)[y * c + x] == rows[y][x]
  {
    FlattenLength(rows, c);
    MulBound(y, |rows|, c, x);
    var tail := rows[1..];
    assert Flatten(rows) == rows[0] + Flatten(tail);
    if y == 0 {
      assert Flatten(rows)[x] == rows[0][x];
    } else {
      assert forall k :: 0 <= k < |tail| ==> tail[k] == rows[k + 1];
      assert tail[y - 1] == rows[y];
      FlattenAt(tail, c, y - 1, x);
      var k := (y - 1) * c + x;
      MulSucc(y - 1, c);
      assert y * c + x == c + k;
      assert Flatten(rows)[c + k] == Flatten(tail)[k];
    }
  }

  lemma MulSucc(n: nat, c: nat)
    ensures (n + 1) * c == c + n * c
  {
  }

  lemma {:induction false} MulBound(y: nat, n: nat, c: nat, x: nat)
    requires y < n && x < c
    ensures y * c + x < n * c
    decreases n
  {
    MulSucc(n - 1, c);
    if n - 1 > y {
      MulBound(y, n - 1, c, x);
    }
  }

  lemma {:induction false} MulMonotone(a: nat, b: nat, c: nat)
    requires a <= b
    ensures a * c <= b * c
    decreases b
  {
    if a < b {
      MulMonotone(a, b - 1, c);
      MulSucc(b - 1, c);
    }
  }

  lemma {:induction false} FlattenLength<T>(rows: seq<seq<T>>, c: nat)
    requires forall k :: 0 <= k < |rows| ==> |rows[k]| == c
    ensures |Flatten(rows)| == |rows| * c
  {
    if rows != [] {
      var tail := rows[1..];
      assert forall k :: 0 <= k < |tail| ==> tail[k] == rows[k + 1];
      FlattenLength(tail, c);
      assert |Flatten(rows)| == c + |tail| * c;
      MulSucc(|tail|, c);
    }
  }

  /** The alien for grid row `y` and column `x`, for an alien model whose
      bounding box has width `w` and depth `d`: columns grow towards -x,
      rows towards +z, with a fixed gap between neighbours. */
  function Placed(kind: AlienType, w: real, d: real, y: nat, x: nat): Alien
  {
    Alien(kind, (w + SPACE_BETWEEN_ALIENS) * x as real * -1.0, (d + SPACE_BETWEEN_ALIENS) * y as real)
  }

  function Row(kind: AlienType, w: real, d: real, columns: nat, y: nat): seq<Alien>
  {
    seq(columns, x requires 0 <= x < columns => Placed(kind, w, d, y, x))
  }

  /** The aliens of `createAlienSwarm`, in the order `Promise.all` returns
      them: the order of the `flatMap` over rows of the `map` over columns. */
  function Layout(rows: nat, columns: nat, kind: AlienType, w: real, d: real): (aliens: seq<Alien>)
    ensures |aliens| == rows * columns
  {
    var grid := seq(rows, y requires 0 <= y < rows => Row(kind, w, d, columns, y));
    assert forall k :: 0 <= k < |grid| ==> |grid[k]| == columns;
    FlattenLength(grid, columns);
    Flatten(grid)
  }

  /** The layout has one slot per grid cell, and the alien of row `y` and
      column `x` sits at index `y * columns + x` with x = -(w + 0.2) * x and
      z = (d + 0.2) * y. */
  lemma LayoutAt(rows: nat, columns: nat, kind: AlienType, w: real, d: real, y: nat, x: nat)
    requires y < rows && x < columns
    ensures |Layout(rows, columns, kind, w, d)| == rows * columns
    ensures y * columns + x < rows * columns
    ensures Layout(rows, columns, kind, w, d)[y * columns + x] ==
      Alien(kind, -(w + SPACE_BETWEEN_ALIENS) * x as real, (d + SPACE_BETWEEN_ALIENS) * y as real)
  {
    var grid := seq(rows, y requires 0 <= y < rows => Row(kind, w, d, columns, y));
    assert forall k :: 0 <= k < |grid| ==> |grid[k]| == columns;
    FlattenAt(grid, columns, y, x);
  }

  /** Read the other way: slot `i` holds the alien of row `i / columns` and
      column `i % columns`. */
  lemma LayoutIndex(rows: nat, columns: nat, kind: AlienType, w: real, d: real, i: nat)
    requires i < rows * columns
    ensures |Layout(rows, columns, kind, w, d)| == rows * columns
    ensures Layout(rows, columns, kind, w, d)[i] == Placed(kind, w, d, i / columns, i % columns)
  {
    assert columns > 0;
    var y, x := i / columns, i % columns;
    assert i == y * columns + x;
    if rows <= y {
      MulMonotone(rows, y, columns);
      assert false;
    }
    LayoutAt(rows, columns, kind, w, d, y, x);
  }

  // ---------------------------------------------------------------------
  // Random dimensions

  /** `generateRandomInteger`, given the value `r` drawn by `Math.random`. */
  function RandomInteger(r: real, min: int, max: int): (n: int)
    requires 0.0 <= r < 1.0
    ensures min <= max ==> min <= n <= max
  {
    var span := (max - min + 1) as real;
    assert min <= max ==> 0.0 <= r * span < span;
    (r * span).Floor + min
  }

  /** Every integer of the range is drawn for some random value. */
  lemma RandomIntegerReaches(k: int, min: int, max: int)
    requires min <= k <= max
    ensures var r := (k - min) as real / (max - min + 1) as real;
      0.0 <= r < 1.0 && RandomInteger(r, min, max) == k
  {
    var span := (max - min + 1) as real;
    var r := (k - min) as real / span;
    assert r * span == (k - min) as real;
    assert (k - min) as real < span;
  }

  /** `createRandomAlienSwarm`: the rows, the columns and the alien kind drawn
      from three random values; the dimensions lie in [3, 8]. */
  function RandomSwarmShape(r1: real, r2: real, r3: real): (shape: (nat, nat, AlienType))
    requires 0.0 <= r1 < 1.0 && 0.0 <= r2 < 1.0 && 0.0 <= r3 < 1.0
    ensures 3 <= shape.0 <= 8 && 3 <= shape.1 <= 8
    ensures shape.2 == if r3 > 0.5 then Alien0 else Alien1
  {
    (RandomInteger(r1, 3, 8), RandomInteger(r2, 3, 8), if r3 > 0.5 then Alien0 else Alien1)
  }

  // ---------------------------------------------------------------------
  // Motion

  /** The swarm's motion state: accumulated acceleration, the time of the last
      impulse, and the group's z position. */
  datatype Motion = Motion(acceleration: real, lastMoveTime: real, z: real)

  predicate Triggers(m: Motion, elapsedTime: real)
  {
    elapsedTime - m.lastMoveTime >= INITIAL_SWARM_MOVE_DELAY
  }

  /** `updateAlienSwarm` on the motion state. */
  function MoveStep(m: Motion, elapsedTime: real, deltaT: real, exp: real -> real): Motion
    requires IsExp(exp)
  {
    var kicked := if Triggers(m, elapsedTime)
      then m.(lastMoveTime := elapsedTime, acceleration := m.acceleration + SWARM_MOVE_ACCELERATION * deltaT)
      else m;
    var a := Decay(kicked.acceleration, deltaT, exp);
    kicked.(acceleration := a, z := kicked.z - a * deltaT)
  }

  /** The impulse fires iff two seconds have passed since the last one; it then
      resets the timer and adds 70 * deltaT before damping. Otherwise the
      timer stays and the acceleration is only damped. */
  lemma TriggerEffect(m: Motion, elapsedTime: real, deltaT: real, exp: real -> real)
    requires IsExp(exp)
    ensures var r := MoveStep(m, elapsedTime, deltaT, exp);
      if elapsedTime - m.lastMoveTime >= INITIAL_SWARM_MOVE_DELAY
      then r.lastMoveTime == elapsedTime &&
           r.acceleration == Decay(m.acceleration + SWARM_MOVE_ACCELERATION * deltaT, deltaT, exp)
      else r.lastMoveTime == m.lastMoveTime && r.acceleration == Decay(m.acceleration, deltaT, exp)
  {
  }

  /** After any update, less than two seconds have passed since the last impulse. */
  lemma CadenceAfterUpdate(m: Motion, elapsedTime: real, deltaT: real, exp: real -> real)
    requires IsExp(exp)
    ensures elapsedTime - MoveStep(m, elapsedTime, deltaT, exp).lastMoveTime < INITIAL_SWARM_MOVE_DELAY
  {
  }

  /** A non-negative acceleration stays non-negative over a non-negative frame. */
  lemma AccelerationStaysNonNegative(m: Motion, elapsedTime: real, deltaT: real, exp: real -> real)
    requires IsExp(exp) && 0.0 <= m.acceleration && 0.0 <= deltaT
    ensures 0.0 <= MoveStep(m, elapsedTime, deltaT, exp).acceleration
  {
    var kicked := if Triggers(m, elapsedTime) then m.acceleration + SWARM_MOVE_ACCELERATION * deltaT else m.acceleration;
    DecayShrinks(kicked, deltaT, exp);
  }

  /** The group moves by exactly the damped acceleration times the frame
      length, towards -z; it never moves towards +z while the acceleration is
      non-negative. */
  lemma Translation(m: Motion, elapsedTime: real, deltaT: real, exp: real -> real)
    requires IsExp(exp)
    ensures var r := MoveStep(m, elapsedTime, deltaT, exp);
      r.z == m.z - r.acceleration * deltaT &&
      (0.0 <= m.acceleration && 0.0 <= deltaT ==> r.z <= m.z)
  {
    if 0.0 <= m.acceleration && 0.0 <= deltaT {
      AccelerationStaysNonNegative(m, elapsedTime, deltaT, exp);
      var r := MoveStep(m, elapsedTime, deltaT, exp);
      assert 0.0 <= r.acceleration * deltaT;
    }
  }

  /** One frame of the clock: the session time and the frame length. */
  datatype Tick = Tick(elapsedTime: real, deltaT: real)

  function MoveRun(m: Motion, ticks: seq<Tick>, exp: real -> real): Motion
    requires IsExp(exp)
    decreases |ticks|
  {
    if ticks == [] then m else MoveRun(MoveStep(m, ticks[0].elapsedTime, ticks[0].deltaT, exp), ticks[1..], exp)
  }

  /** The session times at which an impulse fired over a run of frames. */
  function ImpulseTimes(m: Motion, ticks: seq<Tick>, exp: real -> real): seq<real>
    requires IsExp(exp)
    decreases |ticks|
  {
    if ticks == [] then []
    else
      var now := if Triggers(m, ticks[0].elapsedTime) then [ticks[0].elapsedTime] else [];
      now + ImpulseTimes(MoveStep(m, ticks[0].elapsedTime, ticks[0].deltaT, exp), ticks[1..], exp)
  }

  /** Each time is at least the delay after the one before it, the first at
      least the delay after `start`. */
  predicate SpacedFrom(start: real, times: seq<real>)
    decreases |times|
  {
    times == [] || (times[0] - start >= INITIAL_SWARM_MOVE_DELAY && SpacedFrom(times[0], times[1..]))
  }

  /** However the clock advances, impulses fire at most once per two seconds
      of session time, the first no sooner than two seconds after the last
      recorded one; the last impulse time is what the state records. */
  lemma {:induction false} ImpulsesSpaced(m: Motion, ticks: seq<Tick>, exp: real -> real)
    requires IsExp(exp)
    ensures SpacedFrom(m.lastMoveTime, ImpulseTimes(m, ticks, exp))
    ensures var times := ImpulseTimes(m, ticks, exp);
      MoveRun(m, ticks, exp).lastMoveTime == if times == [] then m.lastMoveTime else times[|times| - 1]
    decreases |ticks|
  {
    if ticks != [] {
      var t := ticks[0];
      var next := MoveStep(m, t.elapsedTime, t.deltaT, exp);
      ImpulsesSpaced(next, ticks[1..], exp);
      var rest := ImpulseTimes(next, ticks[1..], exp);
      if Triggers(m, t.elapsedTime) {
        assert ImpulseTimes(m, ticks, exp) == [t.elapsedTime] + rest;
        assert ([t.elapsedTime] + rest)[1..] == rest;
      } else {
        assert ImpulseTimes(m, ticks, exp) == [] + rest;
        assert [] + rest == rest;
      }
    }
  }

  /** With a constant frame length and no impulse due in any frame, the
      acceleration after the run is the initial one damped once per frame,
      and the impulse timer stays where it was. */
  lemma {:induction false} QuietRun(m: Motion, ticks: seq<Tick>, deltaT: real, exp: real -> real)
    requires IsExp(exp)
    requires forall i :: 0 <= i < |ticks| ==> ticks[i].deltaT == deltaT && !Triggers(m, ticks[i].elapsedTime)
    ensures MoveRun(m, ticks, exp).acceleration == DecayRepeated(m.acceleration, deltaT, exp, |ticks|)
    ensures MoveRun(m, ticks, exp).lastMoveTime == m.lastMoveTime
    decreases |ticks|
  {
    if ticks != [] {
      var next := MoveStep(m, ticks[0].elapsedTime, deltaT, exp);
      assert next.lastMoveTime == m.lastMoveTime;
      assert next.acceleration == Decay(m.acceleration, deltaT, exp);
      assert forall i :: 0 <= i < |ticks[1..]| ==> ticks[1..][i] == ticks[i + 1];
      QuietRun(next, ticks[1..], deltaT, exp);
      DecayRepeatedShift(m.acceleration, deltaT, exp, |ticks| - 1);
    }
  }

  // ---------------------------------------------------------------------
  // The mutable swarm

  class AlienSwarm {
    var rows: nat
    var columns: nat
    /** The grid slots; a destroyed alien becomes `None` and the array keeps
        its length. */
    var aliens: array<Option<Alien>>
    var groupX: real
    var groupY: real
    var groupZ: real
    var acceleration: real
    var lastMoveTime: real

    function CurrentMotion(): Motion
      reads this
    {
      Motion(acceleration, lastMoveTime, groupZ)
    }

    /** `createAlienSwarm` once every alien model has loaded; `w` and `d` are
        the width and depth of an alien's bounding box. */
    constructor (rows: nat, columns: nat, kind: AlienType, w: real, d: real)
      ensures this.rows == rows && this.columns == columns
      ensures fresh(aliens) && aliens.Length == rows * columns
      ensures forall i :: 0 <= i < aliens.Length ==> aliens[i] == Some(Layout(rows, columns, kind, w, d)[i])
      ensures acceleration == 0.0 && lastMoveTime == 0.0
      ensures groupX == 0.0 && groupY == 0.0 && groupZ == 0.0
    {
      var layout := Layout(rows, columns, kind, w, d);
      this.rows, this.columns := rows, columns;
      aliens := new Option<Alien>[rows * columns](i requires 0 <= i < rows * columns => Some(layout[i]));
      groupX, groupY, groupZ := 0.0, 0.0, 0.0;
      acceleration, lastMoveTime := 0.0, 0.0;
    }

    /** `updateAlienSwarm`: only the motion state and the group's z change. */
    method Update(elapsedTime: real, deltaT: real, exp: real -> real)
      requires IsExp(exp)
      modifies this
      ensures CurrentMotion() == MoveStep(old(CurrentMotion()), elapsedTime, deltaT, exp)
      ensures aliens == old(aliens) && rows == old(rows) && columns == old(columns)
      ensures groupX == old(groupX) && groupY == old(groupY)
    {
      if elapsedTime - lastMoveTime >= INITIAL_SWARM_MOVE_DELAY {
        lastMoveTime := elapsedTime;
        acceleration := acceleration + SWARM_MOVE_ACCELERATION * deltaT;
      }
      acceleration := acceleration / exp(deltaT * 4.0);
      groupZ := groupZ - acceleration * deltaT;
    }
  }
}
