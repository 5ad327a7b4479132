/** The rain particle pool of the ocean scene: a fixed pool of drops whose
    positions live in a flat buffer (three slots x, y, z per drop) beside a
    list of per-drop fall velocities.  The pool is spawned once from random
    draws in [0, 1) and then, once per animation frame, every drop falls by
    its own velocity and is put back at the top when it passes the floor. */
module Rain {

  /** Number of drops in the pool. */
  const RainCount: nat := 10000
  /** A drop whose height falls below this is reset. */
  const Floor: real := 0.0
  /** The height a reset drop is put back at. */
  const ResetHeight: real := 50.0

  // ---------------------------------------------------------------------
  // Random draws and the spawn formulas

  /** A value Math.random() can return. */
  predicate IsDraw(r: real) { 0.0 <= r < 1.0 }

  predicate AllDraws(draws: seq<real>) {
    forall j :: 0 <= j < |draws| ==> IsDraw(draws[j])
  }

  /** Horizontal spawn coordinate (used for both x and z). */
  function Horizontal(r: real): (c: real)
    ensures IsDraw(r) ==> -50.0 <= c < 50.0
  {
    (r - 0.5) * 100.0
  }

  /** Spawn height. */
  function SpawnY(r: real): (y: real)
    ensures IsDraw(r) ==> Floor <= y < ResetHeight
  {
    r * 50.0
  }

  /** Per-drop fall velocity: always strictly downwards. */
  function FallVelocity(r: real): (v: real)
    ensures IsDraw(r) ==> IsFallVelocity(v)
  {
    -0.2 - r * 0.5
  }

  predicate IsFallVelocity(v: real) { -0.7 < v <= -0.2 }

  // ---------------------------------------------------------------------
  // The flat position buffer: drop i occupies slots 3i, 3i+1, 3i+2

  function X(pos: seq<real>, i: nat): real
    requires 3 * i + 2 < |pos|
  {
    pos[3 * i]
  }

  function Y(pos: seq<real>, i: nat): real
    requires 3 * i + 2 < |pos|
  {
    pos[3 * i + 1]
  }

  function Z(pos: seq<real>, i: nat): real
    requires 3 * i + 2 < |pos|
  {
    pos[3 * i + 2]
  }

  /** Every drop lies in the spawn volume [-50, 50) x [0, 50] x [-50, 50)
      and falls with a velocity in (-0.7, -0.2]. */
  ghost predicate PoolInvariant(pos: seq<real>, vel: seq<real>) {
    |pos| == 3 * |vel| &&
    forall i :: 0 <= i < |vel| ==>
      -50.0 <= X(pos, i) < 50.0 &&
      Floor <= Y(pos, i) <= ResetHeight &&
      -50.0 <= Z(pos, i) < 50.0 &&
      IsFallVelocity(vel[i])
  }

  // ---------------------------------------------------------------------
  // Construction: four draws per drop, in the order x, y, z, velocity

  /** The position buffer the construction loop pushes, drop by drop. */
  function SpawnPositions(draws: seq<real>): (pos: seq<real>)
    requires |draws| % 4 == 0
    ensures |pos| == 3 * (|draws| / 4)
    decreases |draws|
  {
    if |draws| == 0 then []
    else
      var n := |draws| - 4;
      SpawnPositions(draws[..n]) + [Horizontal(draws[n]), SpawnY(draws[n + 1]), Horizontal(draws[n + 2])]
  }

  /** The velocity list the construction loop pushes, one per drop. */
  function SpawnVelocities(draws: seq<real>): (vel: seq<real>)
    requires |draws| % 4 == 0
    ensures |vel| == |draws| / 4
    decreases |draws|
  {
    if |draws| == 0 then []
    else
      var n := |draws| - 4;
      SpawnVelocities(draws[..n]) + [FallVelocity(draws[n + 3])]
  }

  /** Drop i is spawned from draws 4i .. 4i+3 and sits at slots 3i .. 3i+2. */
  lemma {:induction false} SpawnAt(draws: seq<real>, i: nat)
    requires |draws| % 4 == 0 && i < |draws| / 4
    ensures X(SpawnPositions(draws), i) == Horizontal(draws[4 * i])
    ensures Y(SpawnPositions(draws), i) == SpawnY(draws[4 * i + 1])
    ensures Z(SpawnPositions(draws), i) == Horizontal(draws[4 * i + 2])
    ensures SpawnVelocities(draws)[i] == FallVelocity(draws[4 * i + 3])
  {
    var n := |draws| - 4;
    var prefix := draws[..n];
    if i < |draws| / 4 - 1 {
      SpawnAt(prefix, i);
      assert draws[4 * i] == prefix[4 * i] && draws[4 * i + 1] == prefix[4 * i + 1];
      assert draws[4 * i + 2] == prefix[4 * i + 2] && draws[4 * i + 3] == prefix[4 * i + 3];
    } else {
      assert 4 * i == n;
    }
  }

  /** A freshly spawned pool satisfies the pool invariant, and no drop
      starts at the reset height itself. */
  lemma SpawnInvariant(draws: seq<real>)
    requires |draws| % 4 == 0 && AllDraws(draws)
    ensures PoolInvariant(SpawnPositions(draws), SpawnVelocities(draws))
    ensures forall i :: 0 <= i < |draws| / 4 ==> Y(SpawnPositions(draws), i) < ResetHeight
  {
    var pos, vel := SpawnPositions(draws), SpawnVelocities(draws);
    forall i | 0 <= i < |draws| / 4
      ensures -50.0 <= X(pos, i) < 50.0 && Floor <= Y(pos, i) < ResetHeight
      ensures -50.0 <= Z(pos, i) < 50.0 && IsFallVelocity(vel[i])
    {
      SpawnAt(draws, i);
      assert IsDraw(draws[4 * i]) && IsDraw(draws[4 * i + 1]);
      assert IsDraw(draws[4 * i + 2]) && IsDraw(draws[4 * i + 3]);
    }
  }

  // ---------------------------------------------------------------------
  // One animation frame

  /** A drop's new height: it falls by v, and a drop that ends up below the
      floor is put back at exactly the reset height (the overshoot is not
      carried over). */
  function NextY(y: real, v: real): (y': real)
    ensures Floor <= y'
    ensures y + v < Floor ==> y' == ResetHeight
    ensures Floor <= y + v ==> y' == y + v
  {
    var fallen := y + v;
    if fallen < Floor then ResetHeight else fallen
  }

  /** The whole buffer after one frame, drop by drop. */
  function Frame(pos: seq<real>, vel: seq<real>): (next: seq<real>)
    requires |pos| == 3 * |vel|
    ensures |next| == |pos|
    decreases |vel|
  {
    if |vel| == 0 then []
    else
      var n := |vel| - 1;
      var b := 3 * n;
      Frame(pos[..b], vel[..n]) + [pos[b], NextY(pos[b + 1], vel[n]), pos[b + 2]]
  }

  /** A frame keeps each drop's x and z, and its new y depends only on its
      own old y and its own velocity. */
  lemma {:induction false} FrameAt(pos: seq<real>, vel: seq<real>, i: nat)
    requires |pos| == 3 * |vel| && i < |vel|
    ensures X(Frame(pos, vel), i) == X(pos, i)
    ensures Y(Frame(pos, vel), i) == NextY(Y(pos, i), vel[i])
    ensures Z(Frame(pos, vel), i) == Z(pos, i)
  {
    var n := |vel| - 1;
    if i < n {
      FrameAt(pos[..3 * n], vel[..n], i);
    }
  }

  /** Slot by slot: a frame writes only the y slots (index 3i+1). */
  lemma FrameSlot(pos: seq<real>, vel: seq<real>, k: nat)
    requires |pos| == 3 * |vel| && k < |pos|
    ensures k % 3 != 1 ==> Frame(pos, vel)[k] == pos[k]
    ensures k % 3 == 1 ==> Frame(pos, vel)[k] == NextY(pos[k], vel[k / 3])
  {
    var i, slot := k / 3, k % 3;
    assert k == 3 * i + slot && slot < 3 && i < |vel|;
    FrameAt(pos, vel, i);
    if slot == 0 {
      assert k == 3 * i;
    } else if slot == 1 {
      assert k == 3 * i + 1;
    } else {
      assert k == 3 * i + 2;
    }
  }

  /** A frame preserves the pool invariant: heights stay in [0, 50]. */
  lemma FrameKeepsInvariant(pos: seq<real>, vel: seq<real>)
    requires PoolInvariant(pos, vel)
    ensures PoolInvariant(Frame(pos, vel), vel)
  {
    var next := Frame(pos, vel);
    forall i | 0 <= i < |vel|
      ensures -50.0 <= X(next, i) < 50.0 && Floor <= Y(next, i) <= ResetHeight
      ensures -50.0 <= Z(next, i) < 50.0
    {
      FrameAt(pos, vel, i);
    }
  }

  /** In each frame, each drop either falls strictly, or has passed the
      floor and is reset to exactly the reset height. */
  lemma FallOrReset(pos: seq<real>, vel: seq<real>, i: nat)
    requires PoolInvariant(pos, vel) && i < |vel|
    ensures Y(pos, i) + vel[i] >= Floor ==> Y(Frame(pos, vel), i) < Y(pos, i)
    ensures Y(pos, i) + vel[i] < Floor ==> Y(Frame(pos, vel), i) == ResetHeight
  {
    FrameAt(pos, vel, i);
  }

  /** A drop at height 0.3 falling at 0.5 per frame is reset to exactly 50
      after one frame; its x and z stay put. */
  lemma WorkedCase(x: real, z: real)
    ensures Frame([x, 0.3, z], [-0.5]) == [x, ResetHeight, z]
  {
    assert [x, 0.3, z][..0] == [];
  }

  // ---------------------------------------------------------------------
  // The pool over its whole lifetime: one frame per animation callback

  /** The buffer after k frames. */
  function Frames(pos: seq<real>, vel: seq<real>, k: nat): (after: seq<real>)
    requires |pos| == 3 * |vel|
    ensures |after| == |pos|
    decreases k
  {
    if k == 0 then pos else Frames(Frame(pos, vel), vel, k - 1)
  }

  /** `Frames` peeled from the other end: k + 1 frames are one more frame
      applied after k frames, which is how repeated calls of Step compose. */
  lemma {:induction false} FramesSucc(pos: seq<real>, vel: seq<real>, k: nat)
    requires |pos| == 3 * |vel|
    ensures Frames(pos, vel, k + 1) == Frame(Frames(pos, vel, k), vel)
    decreases k
  {
    if k > 0 {
      FramesSucc(Frame(pos, vel), vel, k - 1);
    }
  }

  /** Over any number of frames the pool invariant holds and the x and z
      coordinates of every drop never change. */
  lemma {:induction false} LifetimeInvariant(pos: seq<real>, vel: seq<real>, k: nat)
    requires PoolInvariant(pos, vel)
    ensures PoolInvariant(Frames(pos, vel, k), vel)
    ensures forall i :: 0 <= i < |vel| ==>
      X(Frames(pos, vel, k), i) == X(pos, i) && Z(Frames(pos, vel, k), i) == Z(pos, i)
    decreases k
  {
    if k > 0 {
      var next := Frame(pos, vel);
      FrameKeepsInvariant(pos, vel);
      LifetimeInvariant(next, vel, k - 1);
      forall i | 0 <= i < |vel|
        ensures X(next, i) == X(pos, i) && Z(next, i) == Z(pos, i)
      {
        FrameAt(pos, vel, i);
      }
    }
  }

  // ---------------------------------------------------------------------
  // The pool object

  class RainPool {
    /** The geometry's position buffer (a typed array of 3 * RainCount). */
    var positions: array<real>
    /** The fall velocity of each drop, fixed at construction. */
    const velocities: seq<real>

    ghost predicate Valid()
      reads this, positions
    {
      positions.Length == 3 * RainCount &&
      |velocities| == RainCount &&
      PoolInvariant(positions[..], velocities)
    }

    /** Spawns the pool from 4 * RainCount random draws, four per drop in
        the order x, y, z, velocity, pushing onto two lists and then copying
        the position list into the geometry's buffer. */
    constructor (draws: seq<real>)
      requires |draws| == 4 * RainCount && AllDraws(draws)
      ensures Valid() && fresh(positions)
      ensures positions[..] == SpawnPositions(draws)
      ensures velocities == SpawnVelocities(draws)
    {
      var ps: seq<real> := [];
      var vs: seq<real> := [];
      for i := 0 to RainCount
        invariant ps == SpawnPositions(draws[..4 * i])
        invariant vs == SpawnVelocities(draws[..4 * i])
      {
        var x := Horizontal(draws[4 * i]);
        var y := SpawnY(draws[4 * i + 1]);
        var z := Horizontal(draws[4 * i + 2]);
        ps := ps + [x, y, z];
        vs := vs + [FallVelocity(draws[4 * i + 3])];
        assert draws[..4 * (i + 1)][..4 * i] == draws[..4 * i];
      }
      assert draws[..4 * RainCount] == draws;
      velocities := vs;
      positions := new real[|ps|](j requires 0 <= j < |ps| => ps[j]);
      new;
      assert positions[..] == ps;
      SpawnInvariant(draws);
    }

    /** One frame of the animation: each drop's y slot is increased by its
        velocity and, if that leaves it below the floor, overwritten with the
        reset height. */
    method Step()
      requires Valid()
      modifies positions
      ensures Valid()
      ensures positions[..] == Frame(old(positions[..]), velocities)
    {
      ghost var before := positions[..];
      ghost var after := Frame(before, velocities);
      for i := 0 to RainCount
        invariant forall k :: 0 <= k < 3 * i ==> positions[k] == after[k]
        invariant forall k :: 3 * i <= k < positions.Length ==> positions[k] == before[k]
      {
        var j := 3 * i + 1;
        FrameAt(before, velocities, i);
        positions[j] := positions[j] + velocities[i];
        if positions[j] < Floor {
          positions[j] := ResetHeight;
        }
      }
      assert positions[..] == after;
      FrameKeepsInvariant(before, velocities);
    }
  }
}
