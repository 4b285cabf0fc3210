/** Dive (day 2). Every command is read as a direction point: "forward d"
    is (d, 0), "down d" is (0, d) and "up d" is (0, -d). `part1` adds the
    directions up; `part2` keeps the third coordinate as the aim, which
    "up" and "down" change, and a forward move of d goes d ahead and
    aim·d down. */
module Dive {
  import opened Wrappers
  import opened Arith
  import opened Points

  /** `read_data`: one command word and its distance; any other word is
      skipped. */
  function Command(word: string, distance: nat): Option<Point> {
    if word == "forward" then Some(Point(distance, 0, 0))
    else if word == "down" then Some(Point(0, distance, 0))
    else if word == "up" then Some(Point(0, -(distance as int), 0))
    else None
  }

  /** The shape every read command has: it moves ahead or vertically,
      never both, and never back. */
  predicate WellFormed(dir: Point) {
    dir.x >= 0 && (dir.x > 0 ==> dir.y == 0) && dir.z == 0
  }

  lemma CommandIsWellFormed(word: string, distance: nat)
    ensures Command(word, distance).Some? <==> word in {"forward", "down", "up"}
    ensures Command(word, distance).Some? ==> WellFormed(Command(word, distance).value)
  {
  }

  // ---------------------------------------------------------------------
  // Part 1

  /** The `submarine += dir` loop. */
  function Position(data: seq<Point>): Point {
    if data == [] then Point(0, 0, 0) else Add(Position(data[..|data| - 1]), data[|data| - 1])
  }

  function Xs(data: seq<Point>): seq<int> { seq(|data|, i requires 0 <= i < |data| => data[i].x) }
  function Ys(data: seq<Point>): seq<int> { seq(|data|, i requires 0 <= i < |data| => data[i].y) }
  function Zs(data: seq<Point>): seq<int> { seq(|data|, i requires 0 <= i < |data| => data[i].z) }

  /** The final position is the componentwise sum of the commands. */
  lemma {:induction false} PositionIsSum(data: seq<Point>)
    ensures Position(data) == Point(Sum(Xs(data)), Sum(Ys(data)), Sum(Zs(data)))
  {
    if data != [] {
      var n := |data|;
      var prefix, last := data[..n - 1], data[n - 1];
      PositionIsSum(prefix);
      assert Xs(data) == Xs(prefix) + [last.x];
      assert Ys(data) == Ys(prefix) + [last.y];
      assert Zs(data) == Zs(prefix) + [last.z];
      SumAppend(Xs(prefix), [last.x]);
      SumAppend(Ys(prefix), [last.y]);
      SumAppend(Zs(prefix), [last.z]);
    }
  }

  /** `part1`: horizontal position times depth, that is, the total of the
      forward moves times the total of the vertical ones. */
  function Part1(data: seq<Point>): (r: int)
    ensures r == Sum(Xs(data)) * Sum(Ys(data))
  {
    PositionIsSum(data);
    Position(data).x * Position(data).y
  }

  // ---------------------------------------------------------------------
  // Part 2

  /** One command of the `part2` loop on (position, depth, aim). */
  function Steer(s: Point, dir: Point): (r: Point)
    ensures dir.x > 0 ==> r.x == s.x + dir.x && r.y - s.y == s.z * dir.x && r.z == s.z
    ensures dir.x <= 0 ==> r.x == s.x && r.y == s.y && r.z == s.z + dir.y
  {
    if dir.x > 0 then Point(s.x + dir.x, s.y + s.z * dir.x, s.z)
    else if dir.y < 0 then Point(s.x, s.y, s.z + dir.y)
    else if dir.y > 0 then Point(s.x, s.y, s.z + dir.y)
    else s
  }

  /** A command that neither moves ahead nor vertically changes nothing. */
  lemma SteerIdle(s: Point, dir: Point)
    requires dir.x <= 0 && dir.y == 0
    ensures Steer(s, dir) == s
  {
  }

  /** The `part2` loop. */
  function Navigate(data: seq<Point>): Point {
    if data == [] then Point(0, 0, 0) else Steer(Navigate(data[..|data| - 1]), data[|data| - 1])
  }

  /** The depth `part2` reaches: every forward move of d goes down d times
      the vertical total of the commands before it. */
  function Descent(data: seq<Point>): int {
    if data == [] then 0
    else Descent(data[..|data| - 1]) + data[|data| - 1].x * Sum(Ys(data[..|data| - 1]))
  }

  /** On read commands the aim is `part1`'s depth, the position is
      `part1`'s position, and the depth is the descent above. */
  lemma {:induction false} NavigateFollowsPosition(data: seq<Point>)
    requires forall i :: 0 <= i < |data| ==> WellFormed(data[i])
    ensures Navigate(data).x == Position(data).x
    ensures Navigate(data).z == Position(data).y
    ensures Navigate(data).y == Descent(data)
  {
    if data != [] {
      var n := |data|;
      var prefix, last := data[..n - 1], data[n - 1];
      assert WellFormed(last);
      NavigateFollowsPosition(prefix);
      PositionIsSum(prefix);
    }
  }

  /** `part2`: horizontal position times depth; on read commands, the
      total of the forward moves times the descent. */
  function Part2(data: seq<Point>): (r: int)
    ensures (forall i :: 0 <= i < |data| ==> WellFormed(data[i])) ==> r == Sum(Xs(data)) * Descent(data)
  {
    assert (forall i :: 0 <= i < |data| ==> WellFormed(data[i])) ==>
      Navigate(data).x == Sum(Xs(data)) && Navigate(data).y == Descent(data) by {
      if forall i :: 0 <= i < |data| ==> WellFormed(data[i]) {
        NavigateFollowsPosition(data);
        PositionIsSum(data);
      }
    }
    Navigate(data).x * Navigate(data).y
  }
}
