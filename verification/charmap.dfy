/** The `charmap_t` grid shared by days 9, 11 and 15: rows of cells with a
    recorded width and height. The sizes are stored rather than derived
    from the rows, because `fill_lines` widens the map without recounting
    and an empty map keeps whatever width it had. The cell type is a
    parameter: the solvers that do arithmetic on cells use their character
    codes. */
module Charmaps {

  /** A grid position. */
  datatype Xy = Xy(x: int, y: int)

  datatype Charmap<T> = Charmap(sizeX: nat, sizeY: nat, rows: seq<seq<T>>)

  /** The empty map of the default constructor. */
  function Empty<T>(): Charmap<T> {
    Charmap(0, 0, [])
  }

  /** Every in-bounds cell exists in the rows, so `get` and `set` stay
      inside them. */
  predicate Fits<T>(m: Charmap<T>) {
    m.sizeY <= |m.rows| && forall y :: 0 <= y < m.sizeY ==> m.sizeX <= |m.rows[y]|
  }

  /** A rectangle whose recorded sizes are the rows' own. */
  predicate Rect<T>(m: Charmap<T>) {
    |m.rows| == m.sizeY && forall y :: 0 <= y < |m.rows| ==> |m.rows[y]| == m.sizeX
  }

  /** All rows as long as the first. */
  predicate Uniform<T>(rows: seq<seq<T>>) {
    forall y :: 0 <= y < |rows| ==> |rows[y]| == |rows[0]|
  }

  lemma RectFits<T>(m: Charmap<T>)
    requires Rect(m)
    ensures Fits(m)
  {
  }

  // ---------------------------------------------------------------------
  // Construction

  /** `update_size`: the height is the row count and the width the first
      row's length; a map without rows keeps its width. */
  function UpdateSize<T>(m: Charmap<T>): (r: Charmap<T>)
    ensures r.rows == m.rows && r.sizeY == |m.rows|
    ensures |m.rows| > 0 ==> r.sizeX == |m.rows[0]|
    ensures |m.rows| == 0 ==> r.sizeX == m.sizeX
    ensures Rect(r) <==> Uniform(m.rows)
  {
    Charmap(if |m.rows| > 0 then |m.rows[0]| else m.sizeX, |m.rows|, m.rows)
  }

  /** The constructors from lines: the rows as given, sized by
      `update_size`. */
  function FromRows<T>(lines: seq<seq<T>>): (r: Charmap<T>)
    ensures r.rows == lines && r.sizeY == |lines|
    ensures Rect(r) <==> Uniform(lines)
  {
    UpdateSize(Charmap(0, 0, lines))
  }

  /** The sized constructor: `size_y` rows of `size_x` copies of `fill`.
      With no rows the width stays at its initial 0. */
  function Filled<T>(sizeX: nat, sizeY: nat, fill: T): (r: Charmap<T>)
    ensures Rect(r) && r.sizeY == sizeY
    ensures r.sizeX == if sizeY > 0 then sizeX else 0
    ensures forall x, y :: IsValid(r, x, y) ==> r.rows[y][x] == fill
  {
    UpdateSize(Charmap(0, 0, seq(sizeY, _ => seq(sizeX, _ => fill))))
  }

  /** `add_line(ch)`: a new last row of `size_x` copies of `ch`. */
  function AddLine<T>(m: Charmap<T>, ch: T): (r: Charmap<T>)
    ensures |r.rows| == |m.rows| + 1 && r.rows[..|m.rows|] == m.rows
    ensures r.rows[|m.rows|] == seq(m.sizeX, _ => ch)
    ensures Rect(m) ==> Rect(r) && r.sizeX == m.sizeX && r.sizeY == m.sizeY + 1
  {
    UpdateSize(Charmap(m.sizeX, m.sizeY, m.rows + [seq(m.sizeX, _ => ch)]))
  }

  /** The largest of `w` and the lengths of the rows. */
  function Widest<T>(rows: seq<seq<T>>, w: nat): (r: nat)
    ensures r >= w && forall y :: 0 <= y < |rows| ==> |rows[y]| <= r
    ensures r == w || exists y :: 0 <= y < |rows| && |rows[y]| == r
  {
    if rows == [] then w
    else
      var r := Widest(rows[..|rows| - 1], w);
      if |rows[|rows| - 1]| > r then |rows[|rows| - 1]| else r
  }

  /** `fill_lines`: widen to the longest row and pad every row on the
      right with `filler`. The height is not recounted. */
  function FillLines<T>(m: Charmap<T>, filler: T): (r: Charmap<T>)
    ensures r.sizeY == m.sizeY && |r.rows| == |m.rows|
    ensures r.sizeX == Widest(m.rows, m.sizeX)
    ensures forall y :: 0 <= y < |m.rows| ==>
      |r.rows[y]| == r.sizeX && r.rows[y][..|m.rows[y]|] == m.rows[y]
    ensures forall y, x :: 0 <= y < |m.rows| && |m.rows[y]| <= x < r.sizeX ==> r.rows[y][x] == filler
  {
    var w := Widest(m.rows, m.sizeX);
    Charmap(w, m.sizeY, seq(|m.rows|, y requires 0 <= y < |m.rows| =>
      m.rows[y] + seq(w - |m.rows[y]|, _ => filler)))
  }

  /** After `fill_lines` the map is a rectangle exactly when its height
      was already the row count, and filling again changes nothing. */
  lemma FillLinesSquares<T>(m: Charmap<T>, filler: T)
    ensures Rect(FillLines(m, filler)) <==> m.sizeY == |m.rows|
    ensures FillLines(FillLines(m, filler), filler) == FillLines(m, filler)
  {
    var r := FillLines(m, filler);
    var r2 := FillLines(r, filler);
    assert Widest(r.rows, r.sizeX) == r.sizeX;
    forall y | 0 <= y < |r.rows|
      ensures r2.rows[y] == r.rows[y]
    {
      assert r2.rows[y][..|r.rows[y]|] == r.rows[y];
    }
  }

  // ---------------------------------------------------------------------
  // Cells

  /** `is_valid`: inside the recorded sizes. */
  predicate IsValid<T>(m: Charmap<T>, x: int, y: int) {
    0 <= x < m.sizeX && 0 <= y < m.sizeY
  }

  /** `get`: the cell when valid, `invalid` otherwise. */
  function Get<T>(m: Charmap<T>, x: int, y: int, invalid: T): (r: T)
    requires Fits(m)
  {
    if IsValid(m, x, y) then m.rows[y][x] else invalid
  }

  /** `set`: write the cell when valid; out of bounds nothing happens. */
  function Set<T>(m: Charmap<T>, x: int, y: int, c: T): (r: Charmap<T>)
    requires Fits(m)
    ensures r.sizeX == m.sizeX && r.sizeY == m.sizeY && |r.rows| == |m.rows|
    ensures Fits(r) && (Rect(m) ==> Rect(r))
    ensures !IsValid(m, x, y) ==> r == m
  {
    if IsValid(m, x, y) then Charmap(m.sizeX, m.sizeY, m.rows[y := m.rows[y][x := c]]) else m
  }

  /** Reading after a write gives the written value at that cell and the
      old value everywhere else; a write out of bounds is not seen. */
  lemma GetSet<T>(m: Charmap<T>, x: int, y: int, c: T, x': int, y': int, invalid: T)
    requires Fits(m)
    ensures Get(Set(m, x, y, c), x', y', invalid) ==
      if IsValid(m, x, y) && x' == x && y' == y then c else Get(m, x', y', invalid)
  {
  }

  /** A map built from rectangular lines reads back the lines in bounds
      and the default outside. */
  lemma GetFromRows<T>(lines: seq<seq<T>>, x: int, y: int, invalid: T)
    requires Uniform(lines)
    ensures Fits(FromRows(lines))
    ensures Get(FromRows(lines), x, y, invalid) ==
      if 0 <= y < |lines| && 0 <= x < |lines[y]| then lines[y][x] else invalid
  {
  }

  /** `is_char`: a valid cell holding `c`. */
  predicate IsChar<T(==)>(m: Charmap<T>, x: int, y: int, c: T)
    requires Fits(m)
  {
    IsValid(m, x, y) && m.rows[y][x] == c
  }

  /** `find_char`: the first cell holding `c` in row-major order, or
      (0, 0) when there is none. */
  method FindChar<T(==)>(m: Charmap<T>, c: T) returns (r: Xy)
    requires Fits(m)
    ensures (exists x, y :: IsChar(m, x, y, c)) ==> IsChar(m, r.x, r.y, c)
    ensures forall x, y :: IsChar(m, x, y, c) ==> r.y < y || (r.y == y && r.x <= x)
    ensures (forall x, y :: !IsChar(m, x, y, c)) ==> r == Xy(0, 0)
  {
    var y := 0;
    while y < m.sizeY
      invariant 0 <= y <= m.sizeY
      invariant forall x', y' :: IsChar(m, x', y', c) ==> y' >= y
    {
      var x := 0;
      while x < m.sizeX
        invariant 0 <= x <= m.sizeX
        invariant forall x', y' :: IsChar(m, x', y', c) ==> y' > y || (y' == y && x' >= x)
      {
        if IsValid(m, x, y) && m.rows[y][x] == c {
          assert IsChar(m, x, y, c);
          return Xy(x, y);
        }
        x := x + 1;
      }
      y := y + 1;
    }
    return Xy(0, 0);
  }
}
