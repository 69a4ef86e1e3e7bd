/** The drifting particle field. Positions live in one flat buffer, three
    slots per particle (x, y, z); slot `k` belongs to particle `k / 3` and
    holds its y coordinate when `k % 3 == 1`.

    `Math.random` and the sine wave are not evaluated here: the random draws
    and the per-particle vertical offsets of a frame are inputs. */
module ParticleSystem {

  /** Width of the cube the particles start in along x and y, and its depth
      along z. */
  const Spread: real := 20.0
  const Depth: real := 10.0

  /** The height above which a particle is sent back to the bottom, and
      where it is sent. */
  const Ceiling: real := 10.0
  const Floor: real := -10.0

  /** The sine wave's amplitude. The offsets themselves are inputs here, so
      no member relies on them staying within it; `FloorIsNotGuarded` uses a
      downward nudge of this size. */
  const Step: real := 0.001

  predicate IsUnitDraw(r: real) {
    0.0 <= r < 1.0
  }

  predicate IsY(k: nat) {
    k % 3 == 1
  }

  /** The buffer's initial contents from `3 * count` draws taken in slot
      order: x and y in [-10, 10), z in [-5, 5). */
  method InitPositions(count: nat, draws: seq<real>) returns (pos: seq<real>)
    requires |draws| == 3 * count
    requires forall k :: 0 <= k < |draws| ==> IsUnitDraw(draws[k])
    ensures |pos| == 3 * count
    ensures forall k :: 0 <= k < |pos| ==>
              pos[k] == (draws[k] - 0.5) * (if k % 3 == 2 then Depth else Spread)
    ensures forall k :: 0 <= k < |pos| && k % 3 != 2 ==> -10.0 <= pos[k] < 10.0
    ensures forall k :: 0 <= k < |pos| && k % 3 == 2 ==> -5.0 <= pos[k] < 5.0
  {
    pos := [];
    var i := 0;
    while i < count
      invariant 0 <= i <= count
      invariant |pos| == 3 * i
      invariant forall k :: 0 <= k < |pos| ==>
                  pos[k] == (draws[k] - 0.5) * (if k % 3 == 2 then Depth else Spread)
      invariant forall k :: 0 <= k < |pos| && k % 3 != 2 ==> -10.0 <= pos[k] < 10.0
      invariant forall k :: 0 <= k < |pos| && k % 3 == 2 ==> -5.0 <= pos[k] < 5.0
    {
      var x := (draws[3 * i] - 0.5) * Spread;
      var y := (draws[3 * i + 1] - 0.5) * Spread;
      var z := (draws[3 * i + 2] - 0.5) * Depth;
      assert IsUnitDraw(draws[3 * i]) && IsUnitDraw(draws[3 * i + 1]) && IsUnitDraw(draws[3 * i + 2]);
      pos := pos + [x, y, z];
      i := i + 1;
    }
  }

  /** Where one y coordinate ends up after a frame's offset: back at the
      floor once it passes the ceiling, otherwise moved by the offset. */
  function NextY(y: real, offset: real): (y': real)
    ensures y' <= Ceiling
    ensures y + offset <= Ceiling ==> y' - y == offset
    ensures y + offset > Ceiling ==> y' == Floor
  {
    var moved := y + offset;
    if moved > Ceiling then Floor else moved
  }

  /** One frame of `useFrame` over the first `count` particles, given each
      particle's offset (the source's `sin(t * speed + i) * 0.001`). Only y
      slots change; none of them ends above the ceiling. */
  method AdvanceFrame(pos: seq<real>, count: nat, offsets: seq<real>) returns (next: seq<real>)
    requires |pos| == 3 * count && |offsets| == count
    ensures |next| == |pos|
    ensures forall k :: 0 <= k < |pos| && !IsY(k) ==> next[k] == pos[k]
    ensures forall k :: 0 <= k < |pos| && IsY(k) ==> next[k] == NextY(pos[k], offsets[k / 3])
    ensures forall k :: 0 <= k < |pos| && IsY(k) ==> next[k] <= Ceiling
  {
    next := pos;
    var i := 0;
    while i < count
      invariant 0 <= i <= count
      invariant |next| == |pos|
      invariant forall k :: 0 <= k < |pos| && (!IsY(k) || k >= 3 * i) ==> next[k] == pos[k]
      invariant forall k :: 0 <= k < 3 * i && IsY(k) ==> next[k] == NextY(pos[k], offsets[k / 3])
    {
      var i3 := 3 * i;
      assert (i3 + 1) / 3 == i && IsY(i3 + 1);
      next := next[i3 + 1 := NextY(next[i3 + 1], offsets[i])];
      i := i + 1;
    }
  }

  /** A particle's y coordinate over consecutive frames, given its offsets. */
  function Trajectory(y: real, offsets: seq<real>): (ys: seq<real>)
    ensures |ys| == |offsets|
    decreases |offsets|
  {
    if |offsets| == 0 then []
    else
      var y' := NextY(y, offsets[0]);
      [y'] + Trajectory(y', offsets[1..])
  }

  /** A particle that starts at or above the floor and only ever drifts
      upward stays between floor and ceiling after every frame. */
  lemma {:induction false} TrajectoryBounds(y: real, offsets: seq<real>)
    requires Floor <= y
    requires forall j :: 0 <= j < |offsets| ==> 0.0 <= offsets[j]
    ensures forall j :: 0 <= j < |offsets| ==> Floor <= Trajectory(y, offsets)[j] <= Ceiling
    decreases |offsets|
  {
    if |offsets| > 0 {
      var y' := NextY(y, offsets[0]);
      TrajectoryBounds(y', offsets[1..]);
      var ys := Trajectory(y, offsets);
      forall j | 0 <= j < |offsets| ensures Floor <= ys[j] <= Ceiling {
        if j > 0 {
          assert ys[j] == Trajectory(y', offsets[1..])[j - 1];
          assert offsets[1..][j - 1] == offsets[j];
        }
      }
    }
  }

  /** Only the top is guarded: a downward offset carries a particle below
      the floor, and the reset does not act there. */
  lemma FloorIsNotGuarded()
    ensures Trajectory(Floor, [-Step]) == [Floor - Step]
    ensures Floor - Step < Floor
  {
  }
}
