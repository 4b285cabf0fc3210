/** Hydrothermal vents (day 5). A line runs between two points; walking it
    one unit step at a time (each coordinate moves by its sign) lists the
    points it covers. The answer counts the points covered by more than one
    line. Only horizontal, vertical and 45-degree lines ever reach their end
    point, so only those can be walked. */
module Vents {
  import opened Arith

  datatype Pt = Pt(x: int, y: int)

  datatype Line = Line(p1: Pt, p2: Pt)

  /** `line_t(pts)`: the first two numbers give `p1` and the next two
      `p2`; missing points stay at the origin. */
  function MakeLine(pts: seq<nat>): (l: Line)
    ensures |pts| > 1 ==> l.p1 == Pt(pts[0], pts[1])
    ensures |pts| > 3 ==> l.p2 == Pt(pts[2], pts[3])
    ensures |pts| <= 1 ==> l.p1 == Pt(0, 0)
    ensures |pts| <= 3 ==> l.p2 == Pt(0, 0)
  {
    if |pts| <= 1 then Line(Pt(0, 0), Pt(0, 0))
    else if |pts| <= 3 then Line(Pt(pts[0], pts[1]), Pt(0, 0))
    else Line(Pt(pts[0], pts[1]), Pt(pts[2], pts[3]))
  }

  /** `is_vertical` compares the `y` coordinates: the name is swapped
      relative to the geometry, and the code uses it as written. */
  predicate IsVertical(l: Line) {
    l.p1.y == l.p2.y
  }

  /** `is_horizontal` compares the `x` coordinates. */
  predicate IsHorizontal(l: Line) {
    l.p1.x == l.p2.x
  }

  /** The lines whose walk reaches the end point. */
  predicate Straight(l: Line) {
    var ax, ay := Abs(l.p2.x - l.p1.x), Abs(l.p2.y - l.p1.y);
    ax == 0 || ay == 0 || ax == ay
  }

  /** The unit step from `a` towards `b` on one axis. */
  function Sign(a: int, b: int): int {
    if a == b then 0 else if a < b then 1 else -1
  }

  /** `a` moved `i` unit steps in direction `d`. */
  function Offset(a: int, i: nat, d: int): int {
    if d == 0 then a else if d > 0 then a + i else a - i
  }

  /** The number of steps from `p1` to `p2`. */
  function Steps(l: Line): nat {
    Max(Abs(l.p2.x - l.p1.x), Abs(l.p2.y - l.p1.y))
  }

  /** The point reached after `i` steps. */
  function At(l: Line, i: nat): Pt {
    Pt(Offset(l.p1.x, i, Sign(l.p1.x, l.p2.x)), Offset(l.p1.y, i, Sign(l.p1.y, l.p2.y)))
  }

  /** Every point the walk visits, in order. */
  function Segment(l: Line): (s: seq<Pt>)
    ensures |s| == Steps(l) + 1
  {
    seq(Steps(l) + 1, i requires 0 <= i <= Steps(l) => At(l, i))
  }

  /** A straight line ends where `Steps` says. */
  lemma ArrivesAt(l: Line)
    requires Straight(l)
    ensures At(l, Steps(l)) == l.p2
  {
  }

  /** `points_on`: walk from `p1` until `p2`, then add `p2`. */
  method PointsOn(l: Line) returns (points: seq<Pt>)
    requires Straight(l)
    ensures points == Segment(l)
    ensures points[0] == l.p1 && points[|points| - 1] == l.p2
    ensures forall i :: 0 < i < |points| ==>
      points[i] == Pt(points[i - 1].x + Sign(l.p1.x, l.p2.x), points[i - 1].y + Sign(l.p1.y, l.p2.y))
  {
    var dx := Sign(l.p1.x, l.p2.x);
    var dy := Sign(l.p1.y, l.p2.y);
    ArrivesAt(l);
    points := [];
    var pt := l.p1;
    while pt != l.p2
      invariant |points| <= Steps(l)
      invariant pt == At(l, |points|)
      invariant points == Segment(l)[..|points|]
      decreases Steps(l) - |points|
    {
      points := points + [pt];
      pt := Pt(pt.x + dx, pt.y + dy);
    }
    points := points + [l.p2];
  }

  /** Geometric reading of the walk: a point is covered exactly when it
      lies in the box spanned by the end points and on the line through
      them. */
  predicate OnLine(l: Line, p: Pt) {
    var dx, dy := Sign(l.p1.x, l.p2.x), Sign(l.p1.y, l.p2.y);
    && Min(l.p1.x, l.p2.x) <= p.x <= Max(l.p1.x, l.p2.x)
    && Min(l.p1.y, l.p2.y) <= p.y <= Max(l.p1.y, l.p2.y)
    && (dx == 0 || dy == 0 || (p.x - l.p1.x) * dy == (p.y - l.p1.y) * dx)
  }

  /** The steps back to `p` from the start, on whichever axis moves. */
  function StepsTo(l: Line, p: Pt): int {
    if l.p1.x != l.p2.x then Abs(p.x - l.p1.x) else Abs(p.y - l.p1.y)
  }

  lemma SegmentIsOnLine(l: Line, p: Pt)
    requires Straight(l)
    ensures p in Segment(l) <==> OnLine(l, p)
  {
    if p in Segment(l) {
      var i :| 0 <= i <= Steps(l) && Segment(l)[i] == p;
      assert p == At(l, i);
    }
    if OnLine(l, p) {
      var i := StepsTo(l, p);
      assert 0 <= i <= Steps(l);
      assert Segment(l)[i] == At(l, i) == p;
    }
  }

  /** A walk never visits a point twice. */
  lemma SegmentDistinct(l: Line, i: nat, j: nat)
    requires i < j <= Steps(l)
    ensures Segment(l)[i] != Segment(l)[j]
  {
  }

  // ---------------------------------------------------------------------
  // Overlaps

  /** All points of all the lines, one entry per covering line: the keys
      and counts of the `points[p]++` map. */
  function Cover(lines: seq<Line>): seq<Pt> {
    if lines == [] then [] else Segment(lines[0]) + Cover(lines[1..])
  }

  /** The points counted more than once. */
  function Overlapping(lines: seq<Line>): (r: set<Pt>)
    ensures forall p :: p in r ==> multiset(Cover(lines))[p] > 1
  {
    var cover := Cover(lines);
    set p | p in cover && multiset(cover)[p] > 1
  }

  /** The number of points covered more than once. */
  function Overlap(lines: seq<Line>): nat {
    |Overlapping(lines)|
  }

  /** `part1`: the horizontal and vertical lines only. */
  function AxisLines(lines: seq<Line>): (r: seq<Line>)
    ensures forall l :: l in r <==> l in lines && (IsHorizontal(l) || IsVertical(l))
  {
    if lines == [] then []
    else (if IsHorizontal(lines[0]) || IsVertical(lines[0]) then [lines[0]] else []) + AxisLines(lines[1..])
  }

  /** `part1`: the points where two horizontal or vertical lines cross. */
  function Part1(lines: seq<Line>): (r: nat)
    ensures r == |Crossings(AxisLines(lines))|
  {
    OverlappingIsCrossings(AxisLines(lines));
    Overlap(AxisLines(lines))
  }

  /** `part2` walks every line, so every line must be straight; it counts
      the points where two lines cross. */
  function Part2(lines: seq<Line>): (r: nat)
    requires forall l :: l in lines ==> Straight(l)
    ensures r == |Crossings(lines)|
  {
    OverlappingIsCrossings(lines);
    Overlap(lines)
  }

  /** The number of lines that cover `p`. */
  function Hits(lines: seq<Line>, p: Pt): nat {
    if lines == [] then 0 else (if p in Segment(lines[0]) then 1 else 0) + Hits(lines[1..], p)
  }

  /** A sequence without repeats holds each value at most once. */
  lemma {:induction false} DistinctCount(s: seq<Pt>, p: Pt)
    requires forall i, j :: 0 <= i < j < |s| ==> s[i] != s[j]
    ensures multiset(s)[p] == if p in s then 1 else 0
  {
    if s != [] {
      DistinctCount(s[1..], p);
      assert s == [s[0]] + s[1..];
    }
  }

  /** The count of `p` in the map is the number of lines through it. */
  lemma {:induction false} CoverCount(lines: seq<Line>, p: Pt)
    ensures multiset(Cover(lines))[p] == Hits(lines, p)
  {
    if lines != [] {
      var s := Segment(lines[0]);
      forall i, j | 0 <= i < j < |s| ensures s[i] != s[j] {
        SegmentDistinct(lines[0], i, j);
      }
      DistinctCount(s, p);
      CoverCount(lines[1..], p);
    }
  }

  /** At least one line covers `p`. */
  lemma {:induction false} HitsOnce(lines: seq<Line>, p: Pt)
    ensures Hits(lines, p) >= 1 <==> exists i :: 0 <= i < |lines| && p in Segment(lines[i])
  {
    if lines != [] {
      HitsOnce(lines[1..], p);
      if exists i :: 0 <= i < |lines| && p in Segment(lines[i]) {
        var i :| 0 <= i < |lines| && p in Segment(lines[i]);
        if i > 0 {
          assert p in Segment(lines[1..][i - 1]);
        }
      }
      if exists i :: 0 <= i < |lines[1..]| && p in Segment(lines[1..][i]) {
        var i :| 0 <= i < |lines[1..]| && p in Segment(lines[1..][i]);
        assert p in Segment(lines[i + 1]);
      }
    }
  }

  /** Two different lines cover `p`. */
  lemma {:induction false} HitsTwice(lines: seq<Line>, p: Pt)
    ensures Hits(lines, p) >= 2 <==>
      exists i, j :: 0 <= i < j < |lines| && p in Segment(lines[i]) && p in Segment(lines[j])
  {
    if lines != [] {
      var rest := lines[1..];
      HitsTwice(rest, p);
      HitsOnce(rest, p);
      if exists i, j :: 0 <= i < j < |lines| && p in Segment(lines[i]) && p in Segment(lines[j]) {
        var i, j :| 0 <= i < j < |lines| && p in Segment(lines[i]) && p in Segment(lines[j]);
        assert p in Segment(rest[j - 1]);
        if i > 0 {
          assert p in Segment(rest[i - 1]);
        }
      }
      if Hits(lines, p) >= 2 {
        if p in Segment(lines[0]) {
          var j :| 0 <= j < |rest| && p in Segment(rest[j]);
          assert p in Segment(lines[j + 1]);
        } else {
          var i, j :| 0 <= i < j < |rest| && p in Segment(rest[i]) && p in Segment(rest[j]);
          assert p in Segment(lines[i + 1]) && p in Segment(lines[j + 1]);
        }
      }
    }
  }

  /** A point counts as an overlap exactly when two different lines cover
      it; a single line never overlaps itself. */
  lemma OverlappingIsTwoLines(lines: seq<Line>, p: Pt)
    ensures p in Overlapping(lines) <==>
      exists i, j :: 0 <= i < j < |lines| && p in Segment(lines[i]) && p in Segment(lines[j])
  {
    CoverCount(lines, p);
    HitsTwice(lines, p);
  }

  /** The points that lie on two different lines of the list. */
  function Crossings(lines: seq<Line>): set<Pt> {
    set i, j, p | 0 <= i < j < |lines| && p in Segment(lines[i]) && p in Segment(lines[j]) :: p
  }

  lemma OverlappingIsCrossings(lines: seq<Line>)
    ensures Overlapping(lines) == Crossings(lines)
  {
    forall p
      ensures p in Overlapping(lines) <==> p in Crossings(lines)
    {
      OverlappingIsTwoLines(lines, p);
    }
  }
}
