/** Dumbo octopuses (day 11). The grid holds energy levels as the character
    codes of '0'..'9'. A step raises every cell; a cell raised past '9'
    flashes once and raises its eight neighbours, which may flash in turn;
    then every cell past '9' drops to '0'. `part1` adds up the flashes of
    100 steps. */
module Octopus {
  import opened Charmaps

  const Zero: int := '0' as int
  const Nine: int := '9' as int

  type Grid = Charmap<int>

  /** `get(point)`, with the default `'\0'` off the grid. */
  function At(g: Grid, p: Xy): int
    requires Fits(g)
  {
    Get(g, p.x, p.y, 0)
  }

  predicate Inside(g: Grid, p: Xy) {
    IsValid(g, p.x, p.y)
  }

  /** The positions of a `w` by `h` grid. */
  function Box(w: nat, h: nat): set<Xy> {
    set x: int, y: int | 0 <= x < w && 0 <= y < h :: Xy(x, y)
  }

  lemma InBox(w: nat, h: nat, p: Xy)
    ensures p in Box(w, h) <==> 0 <= p.x < w && 0 <= p.y < h
  {
    if 0 <= p.x < w && 0 <= p.y < h {
      assert Xy(p.x, p.y) in Box(w, h);
    }
  }

  /** One row of the box. */
  function Row(w: nat, y: int): set<Xy> {
    set x: int | 0 <= x < w :: Xy(x, y)
  }

  lemma {:induction false} RowCount(w: nat, y: int)
    ensures |Row(w, y)| == w
  {
    if w > 0 {
      RowCount(w - 1, y);
      assert Row(w, y) == Row(w - 1, y) + {Xy(w - 1, y)};
    }
  }

  /** The last row splits off the box. */
  lemma BoxSplit(w: nat, h: nat)
    requires h > 0
    ensures Box(w, h) == Box(w, h - 1) + Row(w, h - 1)
    ensures Box(w, h - 1) * Row(w, h - 1) == {}
  {
    forall p | p in Box(w, h)
      ensures p in Box(w, h - 1) + Row(w, h - 1)
    {
      InBox(w, h, p);
      if p.y < h - 1 {
        InBox(w, h - 1, p);
      } else {
        assert p == Xy(p.x, h - 1);
      }
    }
    forall p | p in Box(w, h - 1)
      ensures p.y < h - 1
    {
      InBox(w, h - 1, p);
    }
  }

  /** A `w` by `h` grid has `w * h` positions. */
  lemma {:induction false} BoxCount(w: nat, h: nat)
    ensures |Box(w, h)| == w * h
  {
    if h > 0 {
      BoxCount(w, h - 1);
      RowCount(w, h - 1);
      BoxSplit(w, h);
      assert w * h == w * (h - 1) + w;
    }
  }

  lemma {:induction false} SubsetCount<T>(a: set<T>, b: set<T>)
    requires a <= b
    ensures |a| <= |b|
    decreases b
  {
    if a != {} {
      var e :| e in a;
      SubsetCount(a - {e}, b - {e});
    }
  }

  // ---------------------------------------------------------------------
  // Raising cells

  /** `increase`: raise a cell by `time` and report whether it went past
      '9'; off the grid nothing changes and nothing is reported. */
  function Increase(g: Grid, p: Xy, time: nat): (r: (Grid, bool))
    requires Fits(g)
    ensures Fits(r.0) && r.0.sizeX == g.sizeX && r.0.sizeY == g.sizeY && (Rect(g) ==> Rect(r.0))
    ensures r.1 <==> Inside(g, p) && At(g, p) + time > Nine
    ensures forall q :: At(r.0, q) == if q == p && Inside(g, p) then At(g, p) + time else At(g, q)
  {
    if Inside(g, p) then
      var value := At(g, p) + time;
      (Set(g, p.x, p.y, value), value > Nine)
    else
      (g, false)
  }

  /** The eight neighbours of a cell. */
  predicate Adjacent(f: Xy, p: Xy) {
    p != f && -1 <= p.x - f.x <= 1 && -1 <= p.y - f.y <= 1
  }

  /** The directions, in the order `all_directions` lists them. */
  function Dirs(): seq<Xy> {
    [Xy(-1, -1), Xy(0, -1), Xy(1, -1), Xy(-1, 0), Xy(1, 0), Xy(-1, 1), Xy(0, 1), Xy(1, 1)]
  }

  function Offset(f: Xy, k: nat): Xy
    requires k < 8
  {
    Xy(f.x + Dirs()[k].x, f.y + Dirs()[k].y)
  }

  /** Where a neighbour's direction sits in `Dirs`. */
  function DirIndex(f: Xy, p: Xy): nat
    requires Adjacent(f, p)
  {
    var i := (p.y - f.y + 1) * 3 + (p.x - f.x + 1);
    if i > 4 then i - 1 else i
  }

  /** The directions reach exactly the eight neighbours, each once. */
  lemma OffsetIsNeighbor(f: Xy, k: nat)
    requires k < 8
    ensures Adjacent(f, Offset(f, k)) && DirIndex(f, Offset(f, k)) == k
  {
  }

  lemma NeighborIsOffset(f: Xy, p: Xy)
    requires Adjacent(f, p)
    ensures DirIndex(f, p) < 8 && Offset(f, DirIndex(f, p)) == p
  {
  }

  /** The flashed neighbours of a cell. */
  function Around(flashed: set<Xy>, p: Xy): set<Xy> {
    set f | f in flashed && Adjacent(f, p)
  }

  lemma AroundAdd(flashed: set<Xy>, f: Xy, p: Xy)
    requires f !in flashed
    ensures |Around(flashed + {f}, p)| == |Around(flashed, p)| + (if Adjacent(f, p) then 1 else 0)
  {
    if Adjacent(f, p) {
      assert Around(flashed + {f}, p) == Around(flashed, p) + {f};
    } else {
      assert Around(flashed + {f}, p) == Around(flashed, p);
    }
  }

  /** More flashed cells give every cell at least as large a raise. */
  lemma AroundGrows(a: set<Xy>, b: set<Xy>, p: Xy, time: nat)
    requires a <= b
    ensures time * |Around(a, p)| <= time * |Around(b, p)|
  {
    SubsetCount(Around(a, p), Around(b, p));
  }

  /** A set of cells closed under flashing: every cell that `raise`, plus
      `time` for each neighbour in the set, takes past '9' is in the set. */
  ghost predicate Closed(g: Grid, raise: nat, time: nat, cells: set<Xy>)
    requires Fits(g)
  {
    forall q :: Inside(g, q) && At(g, q) + raise + time * |Around(cells, q)| > Nine ==> q in cells
  }

  /** The reset: every cell past '9' becomes '0'. */
  function Reset(g: Grid): (r: Grid)
    requires Rect(g)
    ensures Rect(r) && r.sizeX == g.sizeX && r.sizeY == g.sizeY
    ensures forall q :: Inside(g, q) ==> At(r, q) == if At(g, q) > Nine then Zero else At(g, q)
  {
    Charmap(g.sizeX, g.sizeY, seq(|g.rows|, y requires 0 <= y < |g.rows| =>
      seq(|g.rows[y]|, x requires 0 <= x < |g.rows[y]| =>
        if g.rows[y][x] > Nine then Zero else g.rows[y][x])))
  }

  // ---------------------------------------------------------------------
  // One step

  /** Row-major order: `q` comes before column `x` of row `y`. */
  predicate Before(q: Xy, x: int, y: int) {
    q.y < y || (q.y == y && q.x < x)
  }

  /** The first pass of `flash`: raise every cell and collect those that
      went past '9'. */
  method RaiseAll(m: Grid, time: nat) returns (g: Grid, pending: set<Xy>)
    requires Rect(m)
    ensures Rect(g) && g.sizeX == m.sizeX && g.sizeY == m.sizeY
    ensures forall q :: Inside(m, q) ==> At(g, q) == At(m, q) + time
    ensures forall q :: q in pending <==> Inside(m, q) && At(g, q) > Nine
  {
    g, pending := m, {};
    var y := 0;
    while y < m.sizeY
      invariant 0 <= y <= m.sizeY
      invariant Rect(g) && g.sizeX == m.sizeX && g.sizeY == m.sizeY
      invariant forall q :: Inside(m, q) ==> At(g, q) == At(m, q) + (if q.y < y then time else 0)
      invariant forall q :: q in pending <==> Inside(m, q) && q.y < y && At(g, q) > Nine
    {
      var x := 0;
      while x < m.sizeX
        invariant 0 <= x <= m.sizeX
        invariant Rect(g) && g.sizeX == m.sizeX && g.sizeY == m.sizeY
        invariant forall q :: Inside(m, q) ==> At(g, q) == At(m, q) + (if Before(q, x, y) then time else 0)
        invariant forall q :: q in pending <==> Inside(m, q) && Before(q, x, y) && At(g, q) > Nine
      {
        var r := Increase(g, Xy(x, y), time);
        g := r.0;
        if r.1 {
          pending := pending + {Xy(x, y)};
        }
        x := x + 1;
      }
      y := y + 1;
    }
  }

  /** The flashes of one flasher: raise each neighbour, queueing those that
      went past '9' and have not flashed yet. */
  method Spread(ghost g1: Grid, g0: Grid, f: Xy, time: nat, flashed: set<Xy>, pending0: set<Xy>)
    returns (g: Grid, pending: set<Xy>)
    requires Rect(g0) && g0.sizeX == g1.sizeX && g0.sizeY == g1.sizeY && f in flashed
    requires forall q :: q in pending0 ==> Inside(g1, q) && q !in flashed
    requires forall q :: Inside(g1, q) ==> (At(g0, q) > Nine <==> q in pending0 || q in flashed)
    ensures Rect(g) && g.sizeX == g0.sizeX && g.sizeY == g0.sizeY
    ensures forall q :: q in pending ==> Inside(g1, q) && q !in flashed
    ensures forall q :: Inside(g1, q) ==> (At(g, q) > Nine <==> q in pending || q in flashed)
    ensures forall q :: Inside(g1, q) ==> At(g, q) == At(g0, q) + (if Adjacent(f, q) then time else 0)
  {
    g, pending := g0, pending0;
    var k := 0;
    while k < 8
      invariant 0 <= k <= 8
      invariant Rect(g) && g.sizeX == g0.sizeX && g.sizeY == g0.sizeY
      invariant forall q :: q in pending ==> Inside(g1, q) && q !in flashed
      invariant forall q :: Inside(g1, q) ==> (At(g, q) > Nine <==> q in pending || q in flashed)
      invariant forall q :: Inside(g1, q) ==>
        At(g, q) == At(g0, q) + (if Adjacent(f, q) && DirIndex(f, q) < k then time else 0)
    {
      var p := Offset(f, k);
      OffsetIsNeighbor(f, k);
      var r := Increase(g, p, time);
      g := r.0;
      if r.1 && p !in flashed {
        pending := pending + {p};
      }
      forall q | Inside(g1, q)
        ensures At(g, q) == At(g0, q) + (if Adjacent(f, q) && DirIndex(f, q) < k + 1 then time else 0)
      {
        if Adjacent(f, q) {
          NeighborIsOffset(f, q);
        }
      }
      k := k + 1;
    }
  }

  /** One more flashed neighbour is `time` more. */
  lemma RaiseStep(base: int, a: int, b: int, time: nat, n: nat, n': nat)
    requires a == base + time * n
    requires (n' == n + 1 && b == a + time) || (n' == n && b == a)
    ensures b == base + time * n'
  {
    if n' == n + 1 {
      assert time * n' == time * n + time;
    }
  }

  /** The loop's state: pending cells are unflashed cells of the grid, the
      cells past '9' are the pending and the flashed ones, and every cell
      is raised `time` more for every flashed neighbour. */
  ghost predicate Cascading(g1: Grid, g: Grid, time: nat, flashed: set<Xy>, pending: set<Xy>)
  {
    Rect(g1) && Rect(g) && g.sizeX == g1.sizeX && g.sizeY == g1.sizeY
    && (forall q :: q in pending ==> Inside(g1, q) && q !in flashed)
    && (forall q :: q in flashed ==> Inside(g1, q))
    && (forall q :: Inside(g1, q) ==> (At(g, q) > Nine <==> q in pending || q in flashed))
    && (forall q :: Inside(g1, q) ==> At(g, q) == At(g1, q) + time * |Around(flashed, q)|)
  }

  /** Cells pending in the loop belong to every closed set that holds the
      cells flashed so far. */
  lemma PendingInClosed(g1: Grid, g: Grid, time: nat, flashed: set<Xy>, pending: set<Xy>, cells: set<Xy>)
    requires Cascading(g1, g, time, flashed, pending)
    requires Closed(g1, 0, time, cells) && flashed <= cells
    ensures pending <= cells
  {
    forall q | q in pending
      ensures q in cells
    {
      AroundGrows(flashed, cells, q, time);
    }
  }

  /** One turn of the flashing loop: pop a pending cell, mark it flashed
      and spread its flash. */
  method Pop(g1: Grid, g0: Grid, time: nat, flashed0: set<Xy>, pending0: set<Xy>)
    returns (g: Grid, flashed: set<Xy>, pending: set<Xy>)
    requires pending0 != {} && Cascading(g1, g0, time, flashed0, pending0)
    requires forall cells :: Closed(g1, 0, time, cells) ==> flashed0 <= cells
    ensures Cascading(g1, g, time, flashed, pending)
    ensures forall cells :: Closed(g1, 0, time, cells) ==> flashed <= cells
    ensures |Box(g1.sizeX, g1.sizeY) - flashed| < |Box(g1.sizeX, g1.sizeY) - flashed0|
  {
    var f :| f in pending0;
    forall cells | Closed(g1, 0, time, cells)
      ensures flashed0 + {f} <= cells
    {
      PendingInClosed(g1, g0, time, flashed0, pending0, cells);
    }
    flashed := flashed0 + {f};
    g, pending := Spread(g1, g0, f, time, flashed, pending0 - {f});
    SpreadRaises(g1, g0, g, time, flashed0, f);
    InBox(g1.sizeX, g1.sizeY, f);
    Shrinks(Box(g1.sizeX, g1.sizeY), flashed0, f);
  }

  /** After a spread, every cell is raised `time` more for each flashed
      neighbour, the new flasher included. */
  lemma SpreadRaises(g1: Grid, g0: Grid, g: Grid, time: nat, flashed0: set<Xy>, f: Xy)
    requires Rect(g1) && Rect(g0) && Rect(g) && f !in flashed0
    requires forall q :: Inside(g1, q) ==> At(g0, q) == At(g1, q) + time * |Around(flashed0, q)|
    requires forall q :: Inside(g1, q) ==> At(g, q) == At(g0, q) + (if Adjacent(f, q) then time else 0)
    ensures forall q :: Inside(g1, q) ==> At(g, q) == At(g1, q) + time * |Around(flashed0 + {f}, q)|
  {
    forall q | Inside(g1, q)
      ensures At(g, q) == At(g1, q) + time * |Around(flashed0 + {f}, q)|
    {
      AroundAdd(flashed0, f, q);
      RaiseStep(At(g1, q), At(g0, q), At(g, q), time, |Around(flashed0, q)|, |Around(flashed0 + {f}, q)|);
    }
  }

  lemma Shrinks<T>(all: set<T>, done: set<T>, f: T)
    requires f in all && f !in done
    ensures |all - (done + {f})| < |all - done|
  {
    assert all - done == (all - (done + {f})) + {f};
  }

  /** The flashing loop of `flash`: pop a pending cell, mark it flashed
      and spread, until nothing is pending. Each cell flashes at most
      once, and at the end the cells past '9' are exactly the flashed ones,
      each raised `time` more for every flashed neighbour. The flashed
      cells are the least such set: every closed set holds them. */
  method Cascade(g1: Grid, time: nat, pending1: set<Xy>) returns (g: Grid, flashed: set<Xy>)
    requires Rect(g1)
    requires forall q :: q in pending1 <==> Inside(g1, q) && At(g1, q) > Nine
    ensures Rect(g) && g.sizeX == g1.sizeX && g.sizeY == g1.sizeY
    ensures forall q :: q in flashed ==> Inside(g1, q)
    ensures forall q :: Inside(g1, q) ==> (At(g, q) > Nine <==> q in flashed)
    ensures forall q :: Inside(g1, q) ==> At(g, q) == At(g1, q) + time * |Around(flashed, q)|
    ensures forall cells :: Closed(g1, 0, time, cells) ==> flashed <= cells
  {
    g, flashed := g1, {};
    var pending := pending1;
    while pending != {}
      invariant Cascading(g1, g, time, flashed, pending)
      invariant forall cells :: Closed(g1, 0, time, cells) ==> flashed <= cells
      decreases |Box(g1.sizeX, g1.sizeY) - flashed|
    {
      g, flashed, pending := Pop(g1, g, time, flashed, pending);
    }
  }

  /** Cells that flash are cells of the grid, so there are at most as many
      flashes as cells. */
  lemma FlashedCount(flashed: set<Xy>, w: nat, h: nat)
    requires forall q :: q in flashed ==> 0 <= q.x < w && 0 <= q.y < h
    ensures |flashed| <= w * h
  {
    forall q | q in flashed
      ensures q in Box(w, h)
    {
      InBox(w, h, q);
    }
    SubsetCount(flashed, Box(w, h));
    BoxCount(w, h);
  }

  /** `flash`: one step. Every cell flashes at most once; the cells that
      flash are exactly those whose raise, with `time` more for every
      flashing neighbour, takes them past '9', and no more: they lie in
      every set of cells closed under that rule; they end at '0' and every
      other cell at its raised value, so no cell ends past '9'. The count
      is the number of cells that flashed. */
  method Flash(m: Grid, time: nat) returns (count: nat, r: Grid, flashed: set<Xy>)
    requires Rect(m)
    ensures Rect(r) && r.sizeX == m.sizeX && r.sizeY == m.sizeY
    ensures count == |flashed| && count <= m.sizeX * m.sizeY
    ensures forall q :: q in flashed ==> Inside(m, q)
    ensures forall q :: Inside(m, q) ==>
      (q in flashed <==> At(m, q) + time + time * |Around(flashed, q)| > Nine)
    ensures forall cells :: Closed(m, time, time, cells) ==> flashed <= cells
    ensures forall q :: Inside(m, q) ==>
      At(r, q) == if q in flashed then Zero else At(m, q) + time + time * |Around(flashed, q)|
    ensures forall q :: Inside(m, q) ==> At(r, q) <= Nine
    ensures time >= 1 && (forall q :: Inside(m, q) ==> At(m, q) >= Zero) ==>
      forall q :: Inside(m, q) ==> (At(r, q) == Zero <==> q in flashed)
  {
    var g1, pending := RaiseAll(m, time);
    var g;
    g, flashed := Cascade(g1, time, pending);
    forall cells | Closed(m, time, time, cells)
      ensures flashed <= cells
    {
      assert Closed(g1, 0, time, cells);
    }
    r := Reset(g);
    count := |flashed|;
    FlashedCount(flashed, m.sizeX, m.sizeY);
    if time >= 1 && (forall q :: Inside(m, q) ==> At(m, q) >= Zero) {
      forall q | Inside(m, q)
        ensures At(r, q) == Zero <==> q in flashed
      {
        ZeroIffFlashed(At(m, q), time, |Around(flashed, q)|, q in flashed, At(r, q));
      }
    }
  }

  /** Starting from digits and raising by at least one, the cells at '0'
      after a step are exactly the ones that flashed. */
  lemma ZeroIffFlashed(at: int, time: nat, n: nat, flashed: bool, after: int)
    requires at >= Zero && time >= 1
    requires after == if flashed then Zero else at + time + time * n
    ensures after == Zero <==> flashed
  {
    assert time * n >= 0;
  }

  /** `part1`: the flashes of 100 steps of one unit. */
  method Part1(m: Grid) returns (flashes: nat)
    requires Rect(m)
    ensures flashes <= 100 * (m.sizeX * m.sizeY)
  {
    ghost var cells := m.sizeX * m.sizeY;
    flashes := 0;
    var g := m;
    var step := 0;
    while step < 100
      invariant 0 <= step <= 100
      invariant Rect(g) && g.sizeX == m.sizeX && g.sizeY == m.sizeY
      invariant flashes <= step * cells
    {
      var count, next, _ := Flash(g, 1);
      assert (step + 1) * cells == step * cells + cells;
      flashes := flashes + count;
      g := next;
      step := step + 1;
    }
  }
}
