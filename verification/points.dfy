/** The shared geometry records: day 0's `point_t` and `vector_t` (also
    the shape of day 22's `vector_t`), and day 19's `point_t`, which carries
    an extra `w` field that equality and ordering ignore. */
module Points {
  import opened Wrappers
  import Tokenize

  datatype Point = Point(x: int, y: int, z: int)

  const Origin := Point(0, 0, 0)

  /** The vector constructor: x, y, z from the first up-to-three elements,
      0 for the missing ones. */
  function FromVector(v: seq<int>): (p: Point)
    ensures |v| == 0 ==> p == Origin
    ensures |v| >= 1 ==> p.x == v[0]
    ensures |v| >= 2 ==> p.y == v[1]
    ensures |v| < 2 ==> p.y == 0
    ensures |v| >= 3 ==> p.z == v[2]
    ensures |v| < 3 ==> p.z == 0
  {
    if |v| == 0 then Origin
    else if |v| == 1 then Point(v[0], 0, 0)
    else if |v| == 2 then Point(v[0], v[1], 0)
    else Point(v[0], v[1], v[2])
  }

  /** `operator<`: by z, then by y, then by x. */
  predicate Less(a: Point, b: Point) {
    if a.z == b.z then
      if a.y == b.y then a.x < b.x else a.y < b.y
    else a.z < b.z
  }

  /** `<` is a strict total order whose incomparable pairs are exactly the
      equal points (`==` compares all three coordinates, as datatype
      equality does; `!=` is its negation). */
  lemma LessIsStrictTotalOrder(a: Point, b: Point, c: Point)
    ensures !Less(a, a)
    ensures Less(a, b) && Less(b, c) ==> Less(a, c)
    ensures Less(a, b) || a == b || Less(b, a)
    ensures Less(a, b) ==> !Less(b, a) && a != b
  {
  }

  /** `+=` and `+`: componentwise sum. */
  function Add(a: Point, b: Point): (r: Point)
    ensures r.x - a.x == b.x && r.y - a.y == b.y && r.z - a.z == b.z
  {
    Point(a.x + b.x, a.y + b.y, a.z + b.z)
  }

  lemma AddIsCommutativeMonoid(a: Point, b: Point, c: Point)
    ensures Add(a, b) == Add(b, a)
    ensures Add(Add(a, b), c) == Add(a, Add(b, c))
    ensures Add(a, Origin) == a
  {
  }

  /** Adding the same point keeps the `<` order of two points. */
  lemma AddKeepsOrder(a: Point, b: Point, d: Point)
    ensures Less(a, b) <==> Less(Add(a, d), Add(b, d))
  {
  }

  /** `from_string`: the numbers of the text, through the vector
      constructor; `None` when a conversion throws. */
  function FromString(s: string): (r: Option<Point>)
    ensures r.Some? <==> Tokenize.NumbersOf(s).Some?
  {
    match Tokenize.NumbersOf(s)
    case Some(v) => Some(FromVector(v))
    case None => None
  }

  /** "x,y,z", the input format of the point lists. */
  function Show(p: Point): string {
    Tokenize.Join(Tokenize.ShowInts([p.x, p.y, p.z]), ',')
  }

  /** `from_string` reads a point back from its comma-separated form. */
  lemma FromStringOfShow(p: Point)
    ensures FromString(Show(p)) == Some(p)
  {
    Tokenize.NumbersOfJoin([p.x, p.y, p.z]);
  }

  /** Day 0's `vector_t`, and day 22's: a position and a direction. */
  datatype Vector = Vector(p: Point, dir: Point)

  /** The four-argument constructor: a planar position and direction. */
  function MakeVector(x: int, y: int, dx: int, dy: int): (v: Vector)
    ensures v.p.z == 0 && v.dir.z == 0
    ensures v.p == Point(x, y, 0) && v.dir == Point(dx, dy, 0)
  {
    Vector(Point(x, y, 0), Point(dx, dy, 0))
  }

  lemma MakeVectorInjective(x: int, y: int, dx: int, dy: int, x': int, y': int, dx': int, dy': int)
    ensures MakeVector(x, y, dx, dy) == MakeVector(x', y', dx', dy')
      <==> x == x' && y == y' && dx == dx' && dy == dy'
  {
  }

  /** `vector_t::operator<`: by position, then by direction. */
  predicate VectorLess(a: Vector, b: Vector) {
    if a.p == b.p then Less(a.dir, b.dir) else Less(a.p, b.p)
  }

  /** The vector order is a strict total order too; `==` holds iff both
      parts are equal. */
  lemma VectorLessIsStrictTotalOrder(a: Vector, b: Vector, c: Vector)
    ensures !VectorLess(a, a)
    ensures VectorLess(a, b) && VectorLess(b, c) ==> VectorLess(a, c)
    ensures VectorLess(a, b) || a == b || VectorLess(b, a)
    ensures VectorLess(a, b) ==> !VectorLess(b, a)
    ensures a == b <==> a.p == b.p && a.dir == b.dir
  {
    LessIsStrictTotalOrder(a.p, b.p, c.p);
    LessIsStrictTotalOrder(a.dir, b.dir, c.dir);
    LessIsStrictTotalOrder(b.p, c.p, a.p);
    LessIsStrictTotalOrder(b.dir, c.dir, a.dir);
  }

  /** Day 19's point: coordinates plus a `w` component that a copy or an
      assignment carries along but that `==` and `<` ignore. */
  datatype WPoint = WPoint(x: int, y: int, z: int, w: int)

  /** `==` compares x, y and z only. */
  predicate WEqual(a: WPoint, b: WPoint) {
    a.x == b.x && a.y == b.y && a.z == b.z
  }

  /** `<`: by z, then y, then x. */
  predicate WLess(a: WPoint, b: WPoint) {
    if a.z == b.z then
      if a.y == b.y then a.x < b.x else a.y < b.y
    else a.z < b.z
  }

  /** `<` is a strict weak order whose incomparable pairs are the points
      `==` identifies, so points differing only in `w` are not ordered. */
  lemma WLessIsStrictWeakOrder(a: WPoint, b: WPoint, c: WPoint)
    ensures !WLess(a, a)
    ensures WLess(a, b) && WLess(b, c) ==> WLess(a, c)
    ensures WLess(a, b) || WEqual(a, b) || WLess(b, a)
    ensures WLess(a, b) ==> !WLess(b, a) && !WEqual(a, b)
    ensures WEqual(a, b) ==> !WLess(a, b) && !WLess(b, a)
  {
  }

  /** `+` copies the left operand, `w` included, and adds coordinates. */
  function WAdd(a: WPoint, b: WPoint): (r: WPoint)
    ensures r.w == a.w
  {
    WPoint(a.x + b.x, a.y + b.y, a.z + b.z, a.w)
  }

  /** `-` copies the left operand, `w` included, and subtracts coordinates. */
  function WSub(a: WPoint, b: WPoint): (r: WPoint)
    ensures r.w == a.w
  {
    WPoint(a.x - b.x, a.y - b.y, a.z - b.z, a.w)
  }

  /** Subtracting undoes adding, exactly (the kept `w` included), and the
      sum's coordinates do not depend on the operands' order. */
  lemma WAddSubInverse(p: WPoint, q: WPoint)
    ensures WSub(WAdd(p, q), q) == p
    ensures WAdd(WSub(p, q), q) == p
    ensures WEqual(WAdd(p, q), WAdd(q, p))
  {
  }

  /** The vector constructor: x, y, z from the first up-to-three elements,
      `w` zero as for every newly built point. */
  function WFromVector(v: seq<int>): (p: WPoint)
    ensures p.w == 0
    ensures var q := FromVector(v); p.x == q.x && p.y == q.y && p.z == q.z
  {
    var q := FromVector(v);
    WPoint(q.x, q.y, q.z, 0)
  }

  function WFromString(s: string): (r: Option<WPoint>)
    ensures r.Some? <==> Tokenize.NumbersOf(s).Some?
    ensures r.Some? ==> r.value.w == 0
  {
    match Tokenize.NumbersOf(s)
    case Some(v) => Some(WFromVector(v))
    case None => None
  }

  lemma WFromStringOfShow(p: WPoint)
    ensures WFromString(Tokenize.Join(Tokenize.ShowInts([p.x, p.y, p.z]), ',')) == Some(p.(w := 0))
  {
    Tokenize.NumbersOfJoin([p.x, p.y, p.z]);
  }
}
