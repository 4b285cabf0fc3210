/** Trick shot (day 17). A probe starts at the origin with velocity
    (dx, dy). Each step it moves by its velocity; drag brings `dx` one
    closer to 0 from above (the code decrements `dx` every step and moves
    by `max(0, dx)`), and gravity lowers `dy` by one. `simulate` follows
    the probe while it can still reach the target box and reports the
    highest point reached up to the first step that lands in the box. */
module Trajectory {
  import opened Arith

  datatype Pos = Pos(x: int, y: int)

  /** The target area, lower corner first. */
  datatype Box = Box(first: Pos, second: Pos)

  /** `contains`: inside the box on both axes, bounds included. */
  predicate Contains(x: int, y: int, box: Box) {
    box.first.x <= x <= box.second.x && box.first.y <= y <= box.second.y
  }

  /** The probe: its position and its velocity. */
  datatype Probe = Probe(x: int, y: int, dx: int, dy: int)

  /** One step of the loop body. */
  function Step(p: Probe): (q: Probe)
    ensures q.x >= p.x
    ensures q.y == p.y + p.dy && q.dy == p.dy - 1 && q.dx == p.dx - 1
  {
    Probe(p.x + Max(0, p.dx), p.y + p.dy, p.dx - 1, p.dy - 1)
  }

  /** The probe after `n` steps. */
  function After(dx: int, dy: int, n: nat): Probe {
    if n == 0 then Probe(0, 0, dx, dy) else Step(After(dx, dy, n - 1))
  }

  /** The loop condition: the probe is neither past the box nor below it. */
  predicate InReach(p: Probe, target: Box) {
    p.x <= target.second.x && p.y >= target.first.y
  }

  /** `INT_MIN`, the starting value of `max_y`. */
  const IntMin: int := -0x8000_0000

  /** The highest point among steps 1..n. */
  function Highest(dx: int, dy: int, n: nat): int {
    if n == 0 then IntMin else Max(After(dx, dy, n).y, Highest(dx, dy, n - 1))
  }

  /** Steps 0..n-1 all pass the loop test, and none after the start is in
      the box. */
  predicate Misses(dx: int, dy: int, target: Box, n: nat) {
    forall j :: 0 <= j < n ==>
      InReach(After(dx, dy, j), target) && (j > 0 ==> !Contains(After(dx, dy, j).x, After(dx, dy, j).y, target))
  }

  /** Step `n` is the first to land in the box. */
  predicate FirstHit(dx: int, dy: int, target: Box, n: nat) {
    n > 0 && Misses(dx, dy, target, n) && Contains(After(dx, dy, n).x, After(dx, dy, n).y, target)
  }

  /** The probe leaves reach at step `n` without having hit the box. */
  predicate Leaves(dx: int, dy: int, target: Box, n: nat) {
    Misses(dx, dy, target, n) && !InReach(After(dx, dy, n), target)
  }

  lemma MissesStep(dx: int, dy: int, target: Box, k: nat)
    requires Misses(dx, dy, target, k) && InReach(After(dx, dy, k), target)
    requires k > 0 ==> !Contains(After(dx, dy, k).x, After(dx, dy, k).y, target)
    ensures Misses(dx, dy, target, k + 1)
  {
  }

  /** `simulate`: the highest point up to the first hit, or 0 when the
      probe leaves reach first. */
  method Simulate(dx: int, dy: int, target: Box) returns (r: int)
    ensures (exists n :: FirstHit(dx, dy, target, n) && r == Highest(dx, dy, n))
      || (exists n :: Leaves(dx, dy, target, n) && r == 0)
  {
    var p := Probe(0, 0, dx, dy);
    var maxY := IntMin;
    ghost var k: nat := 0;
    while p.x <= target.second.x && p.y >= target.first.y
      invariant p == After(dx, dy, k) && maxY == Highest(dx, dy, k)
      invariant Misses(dx, dy, target, k) && (k > 0 ==> !Contains(p.x, p.y, target))
      decreases if p.dy >= 0 then 1 else 0, if p.dy >= 0 then p.dy else p.y - target.first.y
    {
      MissesStep(dx, dy, target, k);
      p := Step(p);
      k := k + 1;
      maxY := Max(p.y, maxY);
      if Contains(p.x, p.y, target) {
        assert FirstHit(dx, dy, target, k);
        return maxY;
      }
    }
    assert Leaves(dx, dy, target, k);
    return 0;
  }

  /** Gravity in closed form: after `n` steps the height is
      n·dy − n(n−1)/2. */
  lemma {:induction false} HeightAfter(dx: int, dy: int, n: nat)
    ensures After(dx, dy, n).dy == dy - n
    ensures 2 * After(dx, dy, n).y == 2 * n * dy - n * (n - 1)
  {
    if n > 0 {
      HeightAfter(dx, dy, n - 1);
      StepHeight(After(dx, dy, n - 1).y, dy, n - 1);
    }
  }

  lemma StepHeight(y: int, dy: int, m: nat)
    requires 2 * y == 2 * m * dy - m * (m - 1)
    ensures 2 * (y + (dy - m)) == 2 * (m + 1) * dy - (m + 1) * m
  {
  }

  /** The probe never moves left, and stops moving right once `dx` has run
      out. */
  lemma {:induction false} DriftAfter(dx: int, dy: int, n: nat)
    ensures After(dx, dy, n).dx == dx - n
    ensures n > 0 ==> After(dx, dy, n).x >= After(dx, dy, n - 1).x
    ensures dx >= 0 && n >= dx ==> After(dx, dy, n).x == After(dx, dy, dx).x
  {
    if n > 0 {
      DriftAfter(dx, dy, n - 1);
    }
  }
}
