/** Smoke basin (day 9). A cell is a low point when every orthogonal
    neighbour inside the grid holds a larger character; its risk is its
    digit plus one, and `part1` adds up the risks of the low points,
    visited in row-major order. */
module Smoke {
  import opened Arith
  import opened Charmaps

  type Map = Charmap<char>

  /** `get(point)`, with the default `'\0'` off the grid. */
  function At(m: Map, p: Xy): char
    requires Fits(m)
  {
    Get(m, p.x, p.y, '\0')
  }

  predicate Inside(m: Map, p: Xy) {
    IsValid(m, p.x, p.y)
  }

  /** `_directions`, the order `neighbors_of` walks: up, right, down,
      left. */
  function Dirs(): seq<Xy> {
    [Xy(0, -1), Xy(1, 0), Xy(0, 1), Xy(-1, 0)]
  }

  function Step(p: Xy, k: nat): Xy
    requires k < 4
  {
    Xy(p.x + Dirs()[k].x, p.y + Dirs()[k].y)
  }

  /** `is_low`: every neighbour `neighbors_of` yields, which is every
      direction that stays in the grid, holds more than `ch`. */
  predicate IsLow(m: Map, p: Xy, ch: char)
    requires Fits(m)
  {
    forall k :: 0 <= k < 4 && Inside(m, Step(p, k)) ==> ch < At(m, Step(p, k))
  }

  /** Orthogonal neighbours, without reference to the direction table. */
  predicate Orthogonal(p: Xy, q: Xy) {
    (q.x == p.x && (q.y == p.y - 1 || q.y == p.y + 1))
    || (q.y == p.y && (q.x == p.x - 1 || q.x == p.x + 1))
  }

  lemma StepIsOrthogonal(p: Xy, q: Xy)
    ensures Orthogonal(p, q) <==> exists k :: 0 <= k < 4 && Step(p, k) == q
  {
    if Orthogonal(p, q) {
      if q.y == p.y - 1 {
        assert Step(p, 0) == q;
      } else if q.x == p.x + 1 {
        assert Step(p, 1) == q;
      } else if q.y == p.y + 1 {
        assert Step(p, 2) == q;
      } else {
        assert Step(p, 3) == q;
      }
    }
  }

  /** A cell is low exactly when it is below every orthogonal neighbour
      that lies in the grid; neighbours off the edge are not compared. */
  lemma IsLowIff(m: Map, p: Xy, ch: char)
    requires Fits(m)
    ensures IsLow(m, p, ch) <==> forall q :: Orthogonal(p, q) && Inside(m, q) ==> ch < At(m, q)
  {
    if IsLow(m, p, ch) {
      forall q | Orthogonal(p, q) && Inside(m, q)
        ensures ch < At(m, q)
      {
        StepIsOrthogonal(p, q);
      }
    }
    if forall q :: Orthogonal(p, q) && Inside(m, q) ==> ch < At(m, q) {
      forall k | 0 <= k < 4 && Inside(m, Step(p, k))
        ensures ch < At(m, Step(p, k))
      {
        StepIsOrthogonal(p, Step(p, k));
      }
    }
  }

  /** Two orthogonal neighbours are never both low. */
  lemma LowNotAdjacent(m: Map, p: Xy, q: Xy)
    requires Fits(m) && Inside(m, p) && Inside(m, q) && Orthogonal(p, q)
    ensures !(IsLow(m, p, At(m, p)) && IsLow(m, q, At(m, q)))
  {
    IsLowIff(m, p, At(m, p));
    IsLowIff(m, q, At(m, q));
    assert Orthogonal(q, p);
  }

  /** A cell below every other cell of the grid is low. */
  lemma StrictMinimumIsLow(m: Map, p: Xy)
    requires Fits(m) && Inside(m, p)
    requires forall q :: Inside(m, q) && q != p ==> At(m, p) < At(m, q)
    ensures IsLow(m, p, At(m, p))
  {
    IsLowIff(m, p, At(m, p));
  }

  // ---------------------------------------------------------------------
  // Risk

  /** The risk of a low point: its character plus one, less '0'. */
  function Risk(ch: char): int {
    ch as int + 1 - '0' as int
  }

  /** The cells of one row, left to right. */
  function RowPoints(w: nat, y: int): (r: seq<Xy>)
    ensures |r| == w && forall i :: 0 <= i < w ==> r[i] == Xy(i, y)
  {
    seq(w, i requires 0 <= i < w => Xy(i, y))
  }

  /** `all_points`: every cell of a `w` by `h` grid in row-major order. */
  function AllPoints(w: nat, h: nat): seq<Xy> {
    if h == 0 then [] else AllPoints(w, h - 1) + RowPoints(w, h - 1)
  }

  /** The walk visits exactly the cells of the grid. */
  lemma {:induction false} AllPointsCover(w: nat, h: nat, p: Xy)
    ensures p in AllPoints(w, h) <==> 0 <= p.x < w && 0 <= p.y < h
  {
    if h > 0 {
      AllPointsCover(w, h - 1, p);
      if p.y == h - 1 && 0 <= p.x < w {
        assert RowPoints(w, h - 1)[p.x] == p;
      }
    }
  }

  /** ... each once, in row-major order. */
  lemma {:induction false} AllPointsOrdered(w: nat, h: nat, i: nat, j: nat)
    requires i < j < |AllPoints(w, h)|
    ensures AllPoints(w, h)[i].y < AllPoints(w, h)[j].y
      || (AllPoints(w, h)[i].y == AllPoints(w, h)[j].y && AllPoints(w, h)[i].x < AllPoints(w, h)[j].x)
  {
    var prefix := AllPoints(w, h - 1);
    if j < |prefix| {
      AllPointsOrdered(w, h - 1, i, j);
    } else if i >= |prefix| {
    } else {
      AllPointsCover(w, h - 1, prefix[i]);
    }
  }

  /** The filter and transform of the pipeline: the risk of every low
      point, in walk order. */
  function LowRisks(m: Map, points: seq<Xy>): (r: seq<int>)
    requires Fits(m)
    ensures |r| <= |points|
  {
    if points == [] then []
    else
      var p := points[0];
      (if Inside(m, p) && IsLow(m, p, At(m, p)) then [Risk(At(m, p))] else [])
        + LowRisks(m, points[1..])
  }

  /** `part1`: the sum of the risks, over a rectangular map (the walk
      follows the rows, which are then the recorded sizes). */
  function Part1(m: Map): int
    requires Rect(m)
  {
    Sum(LowRisks(m, AllPoints(m.sizeX, m.sizeY)))
  }

  ghost predicate Digits(m: Map)
    requires Fits(m)
  {
    forall p :: Inside(m, p) ==> '0' <= At(m, p) <= '9'
  }

  /** On digits, every risk in the list is between 1 and 10, and some
      low point in the list puts its risk into the sum. */
  lemma {:induction false} LowRisksBounds(m: Map, points: seq<Xy>, p: Xy)
    requires Fits(m) && Digits(m)
    ensures forall i :: 0 <= i < |LowRisks(m, points)| ==> 1 <= LowRisks(m, points)[i] <= 10
    ensures 0 <= Sum(LowRisks(m, points)) <= 10 * |points|
    ensures p in points && Inside(m, p) && IsLow(m, p, At(m, p)) ==> Sum(LowRisks(m, points)) >= Risk(At(m, p))
  {
    if points != [] {
      var q := points[0];
      LowRisksBounds(m, points[1..], p);
      var head := if Inside(m, q) && IsLow(m, q, At(m, q)) then [Risk(At(m, q))] else [];
      assert LowRisks(m, points) == head + LowRisks(m, points[1..]);
      SumAppend(head, LowRisks(m, points[1..]));
      if p in points && p != q {
        assert p in points[1..];
      }
    }
  }

  lemma {:induction false} AllPointsCount(w: nat, h: nat)
    ensures |AllPoints(w, h)| == w * h
  {
    if h > 0 {
      AllPointsCount(w, h - 1);
      assert w * h == w * (h - 1) + w;
    }
  }

  /** On a grid of digits the answer is at most ten per cell, and every
      low point adds its digit plus one. */
  lemma Part1Bounds(m: Map, p: Xy)
    requires Rect(m) && Digits(m)
    ensures 0 <= Part1(m) <= 10 * (m.sizeX * m.sizeY)
    ensures Inside(m, p) && IsLow(m, p, At(m, p)) ==> Part1(m) >= Risk(At(m, p)) >= 1
  {
    AllPointsCount(m.sizeX, m.sizeY);
    AllPointsCover(m.sizeX, m.sizeY, p);
    LowRisksBounds(m, AllPoints(m.sizeX, m.sizeY), p);
  }
}
