/** Map tiling (day 15). `multiply` lays `dx` by `dy` copies of a risk map
    side by side; a copy `d` tiles away from the top left holds every
    digit raised by `d`, wrapping from '9' back round to '1'. */
module Tiles {
  import opened Charmaps

  type Map = Charmap<char>

  /** A cell's value `distance` tiles from its source: the character code
      raised by the distance, less 9 once it is past '9'. One subtraction
      only: the wrap is right while the distance is at most 8. */
  function Raise(ch: char, distance: nat): nat {
    var value := ch as nat + distance;
    if value > '9' as nat then value - 9 else value
  }

  /** `set` takes a `char`: the value is stored as its low byte. */
  function Store(v: nat): char {
    (v % 256) as char
  }

  /** The character `multiply` writes at (x, y): the source cell at the
      same offset within its tile, raised by the tile's Manhattan distance
      from the first tile. */
  function Cell(m: Map, x: nat, y: nat): char
    requires Fits(m) && m.sizeX > 0 && m.sizeY > 0
  {
    Store(Raise(Get(m, x % m.sizeX, y % m.sizeY, '\0'), x / m.sizeX + y / m.sizeY))
  }

  /** One row of the loop over `all_points`: every cell of row `y` is
      written and no other row changes. */
  method FillRow(m: Map, big0: Map, y: nat) returns (big: Map)
    requires Fits(m) && m.sizeX > 0 && m.sizeY > 0
    requires Rect(big0) && y < big0.sizeY
    ensures Rect(big) && big.sizeX == big0.sizeX && big.sizeY == big0.sizeY
    ensures forall x': nat, y': nat :: IsValid(big, x', y') ==>
      big.rows[y'][x'] == if y' == y then Cell(m, x', y') else big0.rows[y'][x']
  {
    big := big0;
    var x := 0;
    while x < |big.rows[y]|
      invariant 0 <= x <= big.sizeX
      invariant Rect(big) && big.sizeX == big0.sizeX && big.sizeY == big0.sizeY
      invariant forall x': nat, y': nat :: IsValid(big, x', y') ==>
        big.rows[y'][x'] == if y' == y && x' < x then Cell(m, x', y') else big0.rows[y'][x']
    {
      big := Set(big, x, y, Cell(m, x, y));
      x := x + 1;
    }
  }

  lemma PositiveFactors(a: nat, b: nat)
    requires a * b > 0
    ensures a > 0 && b > 0
  {
  }

  /** `multiply`: a map `dx` times as wide and `dy` times as tall whose
      every cell is the raised source cell. An empty source gives an empty
      map, so the divisions by the source's sizes never meet a zero. */
  method Multiply(m: Map, dx: nat, dy: nat) returns (big: Map)
    requires Fits(m)
    ensures Rect(big) && big.sizeY == m.sizeY * dy
    ensures big.sizeX == if m.sizeY * dy > 0 then m.sizeX * dx else 0
    ensures forall x: nat, y: nat :: IsValid(big, x, y) ==>
      m.sizeX > 0 && m.sizeY > 0 && big.rows[y][x] == Cell(m, x, y)
  {
    big := Filled(m.sizeX * dx, m.sizeY * dy, '\0');
    if big.sizeX == 0 || big.sizeY == 0 {
      return;
    }
    PositiveFactors(m.sizeX, dx);
    PositiveFactors(m.sizeY, dy);
    var y := 0;
    while y < |big.rows|
      invariant 0 <= y <= big.sizeY
      invariant Rect(big) && big.sizeX == m.sizeX * dx && big.sizeY == m.sizeY * dy
      invariant forall x': nat, y': nat :: IsValid(big, x', y') ==>
        big.rows[y'][x'] == if y' < y then Cell(m, x', y') else '\0'
    {
      big := FillRow(m, big, y);
      y := y + 1;
    }
  }

  // ---------------------------------------------------------------------
  // Properties of the tiling

  predicate IsDigit(ch: char) {
    '1' <= ch <= '9'
  }

  function Digit(ch: char): int {
    ch as int - '0' as int
  }

  /** Within a distance of 8 a digit stays a digit, and the wrap is the
      cyclic one: `((d + distance - 1) mod 9) + 1`. */
  lemma RaiseWraps(ch: char, distance: nat)
    requires IsDigit(ch) && distance <= 8
    ensures IsDigit(Store(Raise(ch, distance)))
    ensures Digit(Store(Raise(ch, distance))) == (Digit(ch) + distance - 1) % 9 + 1
  {
  }

  /** The digits of the source. */
  ghost predicate Digits(m: Map)
    requires Fits(m)
  {
    forall x, y :: IsValid(m, x, y) ==> IsDigit(m.rows[y][x])
  }

  /** A non-zero multiple of `w` is at least `w` away from 0. */
  lemma MultipleBound(w: int, k: int)
    requires w > 0
    ensures k >= 1 ==> w * k >= w
    ensures k <= -1 ==> w * k <= -w
  {
    if k >= 1 {
      assert w * k == w * (k - 1) + w;
    } else if k <= -1 {
      assert w * k == w * (k + 1) - w;
    }
  }

  lemma DivModTile(t: nat, w: nat, x: nat)
    requires x < w
    ensures (t * w + x) / w == t && (t * w + x) % w == x
  {
    var q := t * w + x;
    assert w * (t - q / w) == q % w - x;
    MultipleBound(w, t - q / w);
  }

  /** Tile (tx, ty) is the source raised by tx + ty; in particular the
      first tile is the source itself. */
  lemma TileIsRaisedSource(m: Map, tx: nat, ty: nat, x: nat, y: nat)
    requires Fits(m) && Digits(m) && x < m.sizeX && y < m.sizeY
    ensures Cell(m, tx * m.sizeX + x, ty * m.sizeY + y) == Store(Raise(m.rows[y][x], tx + ty))
    ensures tx == 0 && ty == 0 ==> Cell(m, x, y) == m.rows[y][x]
  {
    DivModTile(tx, m.sizeX, x);
    DivModTile(ty, m.sizeY, y);
  }

  /** Multiplying by a positive width keeps order. */
  lemma MulMono(w: int, a: int, b: int)
    requires w > 0
    ensures a >= b ==> w * a >= w * b
  {
    assert w * a - w * b == w * (a - b);
    MultipleBound(w, a - b);
  }

  /** A position left of `d` tiles of width `w` is in one of them. */
  lemma TileBound(x: nat, w: nat, d: nat)
    requires w > 0 && x < w * d
    ensures 0 <= x / w < d && x % w < w
  {
    assert x >= w * (x / w);
    MulMono(w, x / w, d);
  }

  /** A cell at most 8 tiles from the top left of a tiling of a digit map
      is a digit. */
  lemma {:induction false} CellIsDigit(m: Map, dx: nat, dy: nat, x: nat, y: nat)
    requires Fits(m) && Digits(m) && m.sizeX > 0 && m.sizeY > 0 && dx + dy <= 10
    requires x < m.sizeX * dx && y < m.sizeY * dy
    ensures IsDigit(Cell(m, x, y))
  {
    var w, h := m.sizeX, m.sizeY;
    var tx, ty, ox, oy := x / w, y / h, x % w, y % h;
    TileBound(x, w, dx);
    TileBound(y, h, dy);
    var d: nat := tx + ty;
    RaiseWraps(m.rows[oy][ox], d);
    assert Cell(m, x, y) == Store(Raise(m.rows[oy][ox], d));
  }

  /** Every cell of a tiling of a digit map at most 8 tiles from the top
      left, as `part2`'s five by five, is a digit. */
  lemma MultiplyKeepsDigits(m: Map, big: Map, dx: nat, dy: nat, x: nat, y: nat)
    requires Fits(m) && Digits(m) && dx + dy <= 10
    requires Rect(big) && big.sizeX == m.sizeX * dx && big.sizeY == m.sizeY * dy
    requires forall x: nat, y: nat :: IsValid(big, x, y) ==>
      m.sizeX > 0 && m.sizeY > 0 && big.rows[y][x] == Cell(m, x, y)
    requires IsValid(big, x, y)
    ensures IsDigit(big.rows[y][x])
  {
    CellIsDigit(m, dx, dy, x, y);
  }
}
