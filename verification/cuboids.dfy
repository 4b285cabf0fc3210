/** Reactor reboot (day 22): axis-aligned integer boxes, their intersection
    and the split of one box around another into at most six disjoint
    pieces, and the fold of on/off instructions over a list of disjoint
    boxes. Coordinates are inclusive on both ends. */
module Cuboids {
  import opened Arith
  import opened Points

  /** A box from corner `p1` to corner `p2`, both included. */
  datatype Cube = Cube(p1: Point, p2: Point)

  /** The default cube: lower corner (1,1,1) above upper corner (-1,-1,-1). */
  const EmptyCube: Cube := Cube(Point(1, 1, 1), Point(-1, -1, -1))

  /** Lattice point `p` lies inside `c`. */
  predicate Contains(c: Cube, p: Point) {
    && c.p1.x <= p.x <= c.p2.x
    && c.p1.y <= p.y <= c.p2.y
    && c.p1.z <= p.z <= c.p2.z
  }

  /** The checked six-coordinate constructor: it asserts that each lower
      coordinate is at most the matching upper one. */
  function MakeCube(x1: int, y1: int, z1: int, x2: int, y2: int, z2: int): (c: Cube)
    requires x1 <= x2 && y1 <= y2 && z1 <= z2
    ensures !IsEmpty(c)
    ensures Contains(c, Point(x1, y1, z1)) && Contains(c, Point(x2, y2, z2))
  {
    Cube(Point(x1, y1, z1), Point(x2, y2, z2))
  }

  /** The checked four-coordinate constructor: the points are built with
      z = 0, so the cube is one unit thick in z. */
  function MakeCube2(x1: int, y1: int, x2: int, y2: int): (c: Cube)
    requires x1 <= x2 && y1 <= y2
    ensures !IsEmpty(c)
    ensures forall p: Point :: Contains(c, p) ==> p.z == 0
  {
    Cube(Point(x1, y1, 0), Point(x2, y2, 0))
  }

  /** `operator<`: by lower corner, then by upper corner, each in the point
      order. */
  predicate CubeLess(a: Cube, b: Cube) {
    if a.p1 == b.p1 then Less(a.p2, b.p2) else Less(a.p1, b.p1)
  }

  /** The cube order is a strict total order; `==` compares both corners,
      as datatype equality does. */
  lemma CubeLessIsStrictTotalOrder(a: Cube, b: Cube, c: Cube)
    ensures !CubeLess(a, a)
    ensures CubeLess(a, b) && CubeLess(b, c) ==> CubeLess(a, c)
    ensures CubeLess(a, b) || a == b || CubeLess(b, a)
    ensures CubeLess(a, b) ==> !CubeLess(b, a)
  {
    LessIsStrictTotalOrder(a.p1, b.p1, c.p1);
    LessIsStrictTotalOrder(a.p2, b.p2, c.p2);
    LessIsStrictTotalOrder(b.p1, c.p1, a.p1);
    LessIsStrictTotalOrder(b.p2, c.p2, a.p2);
  }

  predicate IsEmpty(c: Cube) {
    c.p1.x > c.p2.x || c.p1.y > c.p2.y || c.p1.z > c.p2.z
  }

  /** The emptiness test is exactly "contains no lattice point". */
  lemma EmptyIffNoPoint(c: Cube)
    ensures IsEmpty(c) <==> forall p: Point :: !Contains(c, p)
  {
    if !IsEmpty(c) {
      assert Contains(c, c.p1);
    }
  }

  lemma DefaultCubeIsEmpty()
    ensures IsEmpty(EmptyCube)
    ensures forall p: Point :: !Contains(EmptyCube, p)
  {
  }

  predicate Intersects(a: Cube, b: Cube) {
    !(a.p2.x < b.p1.x || a.p1.x > b.p2.x
      || a.p2.y < b.p1.y || a.p1.y > b.p2.y
      || a.p2.z < b.p1.z || a.p1.z > b.p2.z)
  }

  /** The overlap of `a` and `b`, or the default empty cube. */
  function Intersection(a: Cube, b: Cube): (r: Cube)
    ensures forall p: Point :: Contains(r, p) <==> Contains(a, p) && Contains(b, p)
    ensures IsEmpty(r) ==> r == EmptyCube
  {
    var lo := Point(Max(a.p1.x, b.p1.x), Max(a.p1.y, b.p1.y), Max(a.p1.z, b.p1.z));
    var hi := Point(Min(a.p2.x, b.p2.x), Min(a.p2.y, b.p2.y), Min(a.p2.z, b.p2.z));
    if lo.x <= hi.x && lo.y <= hi.y && lo.z <= hi.z then Cube(lo, hi) else EmptyCube
  }

  lemma IntersectsSymmetric(a: Cube, b: Cube)
    ensures Intersects(a, b) <==> Intersects(b, a)
  {
  }

  /** `Intersects` agrees with a non-empty `Intersection` exactly when both
      operands are non-empty; an empty operand can still "intersect". */
  lemma IntersectsIffOverlap(a: Cube, b: Cube)
    ensures !IsEmpty(Intersection(a, b)) <==> Intersects(a, b) && !IsEmpty(a) && !IsEmpty(b)
  {
  }

  /** For non-empty cubes, not intersecting means sharing no lattice point. */
  lemma DisjointIffNoCommonPoint(a: Cube, b: Cube)
    requires !IsEmpty(a) && !IsEmpty(b)
    ensures !Intersects(a, b) <==> forall p: Point :: !(Contains(a, p) && Contains(b, p))
  {
    var r := Intersection(a, b);
    IntersectsIffOverlap(a, b);
    EmptyIffNoPoint(r);
  }

  /** Cube `inner` lies within cube `outer` (corner-wise). */
  predicate Inside(inner: Cube, outer: Cube) {
    && outer.p1.x <= inner.p1.x && inner.p2.x <= outer.p2.x
    && outer.p1.y <= inner.p1.y && inner.p2.y <= outer.p2.y
    && outer.p1.z <= inner.p1.z && inner.p2.z <= outer.p2.z
  }

  /** The intersection of two overlapping cubes lies inside both. */
  lemma IntersectionInsideBoth(a: Cube, b: Cube)
    requires !IsEmpty(Intersection(a, b))
    ensures Inside(Intersection(a, b), a) && Inside(Intersection(a, b), b)
  {
  }

  function Extent(lo: int, hi: int): nat
    requires lo <= hi
  {
    hi - lo + 1
  }

  /** The number of lattice points in `c`: zero when empty, otherwise the
      product of the three inclusive extents. */
  function Volume(c: Cube): (v: nat)
    ensures v == 0 <==> IsEmpty(c)
  {
    if IsEmpty(c) then 0
    else
      var v := Extent(c.p1.x, c.p2.x) * Extent(c.p1.y, c.p2.y) * Extent(c.p1.z, c.p2.z);
      Positive3(Extent(c.p1.x, c.p2.x), Extent(c.p1.y, c.p2.y), Extent(c.p1.z, c.p2.z));
      v
  }

  lemma Positive3(a: nat, b: nat, c: nat)
    requires a > 0 && b > 0 && c > 0
    ensures a * b * c > 0
  {
    assert a * b > 0;
  }

  /** The source asserts, when the cubes intersect, that their overlap is not
      empty; this is the condition it demands of `Subtract`'s operands. */
  predicate CanSubtract(a: Cube, b: Cube) {
    Intersects(a, b) ==> !IsEmpty(Intersection(a, b))
  }

  /** The six candidate pieces of `a` around an overlap `m` inside it. */
  function LeftPiece(a: Cube, m: Cube): seq<Cube>
    requires Inside(m, a) && !IsEmpty(m)
  {
    if a.p1.x < m.p1.x then [MakeCube(a.p1.x, a.p1.y, a.p1.z, m.p1.x - 1, a.p2.y, a.p2.z)] else []
  }

  function RightPiece(a: Cube, m: Cube): seq<Cube>
    requires Inside(m, a) && !IsEmpty(m)
  {
    if a.p2.x > m.p2.x then [MakeCube(m.p2.x + 1, a.p1.y, a.p1.z, a.p2.x, a.p2.y, a.p2.z)] else []
  }

  function FrontPiece(a: Cube, m: Cube): seq<Cube>
    requires Inside(m, a) && !IsEmpty(m)
  {
    if a.p1.y < m.p1.y then [MakeCube(m.p1.x, a.p1.y, a.p1.z, m.p2.x, m.p1.y - 1, a.p2.z)] else []
  }

  function BackPiece(a: Cube, m: Cube): seq<Cube>
    requires Inside(m, a) && !IsEmpty(m)
  {
    if a.p2.y > m.p2.y then [MakeCube(m.p1.x, m.p2.y + 1, a.p1.z, m.p2.x, a.p2.y, a.p2.z)] else []
  }

  function BottomPiece(a: Cube, m: Cube): seq<Cube>
    requires Inside(m, a) && !IsEmpty(m)
  {
    if a.p1.z < m.p1.z then [MakeCube(m.p1.x, m.p1.y, a.p1.z, m.p2.x, m.p2.y, m.p1.z - 1)] else []
  }

  function TopPiece(a: Cube, m: Cube): seq<Cube>
    requires Inside(m, a) && !IsEmpty(m)
  {
    if a.p2.z > m.p2.z then [MakeCube(m.p1.x, m.p1.y, m.p2.z + 1, m.p2.x, m.p2.y, a.p2.z)] else []
  }

  function Pieces(a: Cube, m: Cube): seq<Cube>
    requires Inside(m, a) && !IsEmpty(m)
  {
    LeftPiece(a, m) + RightPiece(a, m) + FrontPiece(a, m) + BackPiece(a, m)
    + BottomPiece(a, m) + TopPiece(a, m)
  }

  /** The pieces of `a` outside `b`: left/right slabs in x, then front/back
      in y over the overlap's x range, then bottom/top in z over the
      overlap's x and y ranges; `[a]` itself when they do not intersect. */
  function Subtract(a: Cube, b: Cube): (pieces: seq<Cube>)
    requires CanSubtract(a, b)
    ensures !Intersects(a, b) ==> pieces == [a]
    ensures |pieces| <= 6
    ensures Intersects(a, b) ==>
      forall i :: 0 <= i < |pieces| ==>
        !IsEmpty(pieces[i]) && Inside(pieces[i], a) && !Intersects(pieces[i], b)
  {
    if !Intersects(a, b) then [a]
    else
      var m := Intersection(a, b);
      PiecesSplit(a, b, m);
      Pieces(a, m)
  }

  /** The pieces of a split are pairwise disjoint. */
  lemma SubtractPiecesDisjoint(a: Cube, b: Cube)
    requires CanSubtract(a, b)
    ensures forall i, j :: 0 <= i < j < |Subtract(a, b)| ==>
      !Intersects(Subtract(a, b)[i], Subtract(a, b)[j])
  {
    if Intersects(a, b) {
      PiecesSplit(a, b, Intersection(a, b));
    }
  }

  /** The six regions around a non-empty box `m`, numbered in the order
      the pieces are cut: a piece is tagged by the first axis on which it
      leaves `m`, and by the side. */
  predicate InRegion(c: Cube, m: Cube, k: nat) {
    var overX := m.p1.x <= c.p1.x && c.p2.x <= m.p2.x;
    var overY := m.p1.y <= c.p1.y && c.p2.y <= m.p2.y;
    if k == 0 then c.p2.x < m.p1.x
    else if k == 1 then c.p1.x > m.p2.x
    else if k == 2 then overX && c.p2.y < m.p1.y
    else if k == 3 then overX && c.p1.y > m.p2.y
    else if k == 4 then overX && overY && c.p2.z < m.p1.z
    else if k == 5 then overX && overY && c.p1.z > m.p2.z
    else false
  }

  /** `c` lies in one of the regions numbered below `k`. */
  predicate Before(c: Cube, m: Cube, k: nat) {
    || (k > 0 && InRegion(c, m, 0)) || (k > 1 && InRegion(c, m, 1))
    || (k > 2 && InRegion(c, m, 2)) || (k > 3 && InRegion(c, m, 3))
    || (k > 4 && InRegion(c, m, 4)) || (k > 5 && InRegion(c, m, 5))
  }

  /** Boxes in different regions never meet. */
  lemma RegionsApart(c: Cube, d: Cube, m: Cube, k: nat)
    requires !IsEmpty(c) && !IsEmpty(d) && !IsEmpty(m)
    requires Before(c, m, k) && InRegion(d, m, k)
    ensures !Intersects(c, d)
  {
  }

  /** A prefix of the pieces of `a` around its overlap `m` with `b`: its
      boxes are non-empty, inside `a`, apart from `b` and from each other,
      and in regions below `k`. */
  predicate Split(s: seq<Cube>, a: Cube, b: Cube, m: Cube, k: nat) {
    && AllNonEmpty(s) && PairwiseDisjoint(s)
    && forall i :: 0 <= i < |s| ==> Inside(s[i], a) && !Intersects(s[i], b) && Before(s[i], m, k)
  }

  /** A candidate piece: empty, or one box inside `a`, apart from `b`, in
      region `k`. */
  predicate PieceIn(t: seq<Cube>, a: Cube, b: Cube, m: Cube, k: nat) {
    |t| <= 1 && forall i :: 0 <= i < |t| ==>
      !IsEmpty(t[i]) && Inside(t[i], a) && !Intersects(t[i], b) && InRegion(t[i], m, k)
  }

  lemma {:induction false} SplitSnoc(s: seq<Cube>, t: seq<Cube>, a: Cube, b: Cube, m: Cube, k: nat)
    requires !IsEmpty(m) && Split(s, a, b, m, k) && PieceIn(t, a, b, m, k)
    ensures Split(s + t, a, b, m, k + 1)
  {
    var r := s + t;
    forall i, j | 0 <= i < j < |r| ensures !Intersects(r[i], r[j]) {
      if j < |s| {
        assert r[i] == s[i] && r[j] == s[j];
      } else {
        assert i < |s| && r[i] == s[i] && r[j] == t[0];
        RegionsApart(s[i], t[0], m, k);
      }
    }
    forall i | 0 <= i < |r|
      ensures !IsEmpty(r[i]) && Inside(r[i], a) && !Intersects(r[i], b) && Before(r[i], m, k + 1)
    {
      if i < |s| {
        assert r[i] == s[i];
      } else {
        assert r[i] == t[0];
      }
    }
  }

  /** Each candidate piece lies in its own region. */
  lemma CandidatePieces(a: Cube, b: Cube, m: Cube)
    requires Intersects(a, b) && m == Intersection(a, b) && !IsEmpty(m) && Inside(m, a)
    ensures PieceIn(LeftPiece(a, m), a, b, m, 0) && PieceIn(RightPiece(a, m), a, b, m, 1)
    ensures PieceIn(FrontPiece(a, m), a, b, m, 2) && PieceIn(BackPiece(a, m), a, b, m, 3)
    ensures PieceIn(BottomPiece(a, m), a, b, m, 4) && PieceIn(TopPiece(a, m), a, b, m, 5)
  {
    SidePieces(a, b, m);
    FrontBackPieces(a, b, m);
  }

  lemma SidePieces(a: Cube, b: Cube, m: Cube)
    requires Intersects(a, b) && m == Intersection(a, b) && !IsEmpty(m) && Inside(m, a)
    ensures PieceIn(LeftPiece(a, m), a, b, m, 0) && PieceIn(RightPiece(a, m), a, b, m, 1)
  {
  }

  lemma FrontBackPieces(a: Cube, b: Cube, m: Cube)
    requires Intersects(a, b) && m == Intersection(a, b) && !IsEmpty(m) && Inside(m, a)
    ensures PieceIn(FrontPiece(a, m), a, b, m, 2) && PieceIn(BackPiece(a, m), a, b, m, 3)
  {
  }

  /** The six candidate pieces, in order, form a split. */
  lemma PiecesSplit(a: Cube, b: Cube, m: Cube)
    requires CanSubtract(a, b) && Intersects(a, b) && m == Intersection(a, b)
    ensures Inside(m, a) && !IsEmpty(m)
    ensures Split(Pieces(a, m), a, b, m, 6) && |Pieces(a, m)| <= 6
  {
    IntersectionInsideBoth(a, b);
    CandidatePieces(a, b, m);
    var L, R, F, K := LeftPiece(a, m), RightPiece(a, m), FrontPiece(a, m), BackPiece(a, m);
    var D, T := BottomPiece(a, m), TopPiece(a, m);
    var none: seq<Cube> := [];
    assert none + L == L;
    SplitSnoc(none, L, a, b, m, 0);
    SplitSnoc(L, R, a, b, m, 1);
    SplitSnoc(L + R, F, a, b, m, 2);
    SplitSnoc(L + R + F, K, a, b, m, 3);
    SplitSnoc(L + R + F + K, D, a, b, m, 4);
    SplitSnoc(L + R + F + K + D, T, a, b, m, 5);
  }

  /** Some cube of `cubes` contains `p`. */
  predicate Covered(cubes: seq<Cube>, p: Point) {
    exists i :: 0 <= i < |cubes| && Contains(cubes[i], p)
  }

  lemma CoveredAppend(a: seq<Cube>, b: seq<Cube>, p: Point)
    ensures Covered(a + b, p) <==> Covered(a, p) || Covered(b, p)
  {
    if Covered(a + b, p) {
      var i :| 0 <= i < |a + b| && Contains((a + b)[i], p);
      if i >= |a| {
        assert b[i - |a|] == (a + b)[i];
      }
    }
    if Covered(b, p) {
      var i :| 0 <= i < |b| && Contains(b[i], p);
      assert (a + b)[|a| + i] == b[i];
    }
    if Covered(a, p) {
      var i :| 0 <= i < |a| && Contains(a[i], p);
      assert (a + b)[i] == a[i];
    }
  }

  lemma CoveredSingle(c: Cube, p: Point)
    ensures Covered([c], p) <==> Contains(c, p)
  {
    if Contains(c, p) {
      assert [c][0] == c;
    }
  }

  /** The pieces cover exactly the points of `a` that are not in `b`. */
  lemma SubtractIsDifference(a: Cube, b: Cube, p: Point)
    requires CanSubtract(a, b)
    ensures Covered(Subtract(a, b), p) <==> Contains(a, p) && !Contains(b, p)
  {
    if Intersects(a, b) {
      var m := Intersection(a, b);
      IntersectionInsideBoth(a, b);
      CoveredPieces(a, m, p);
      PiecePoints(a, m, p);
    } else {
      CoveredSingle(a, p);
      if Contains(a, p) && Contains(b, p) {
        assert Intersects(a, b);
      }
    }
  }

  /** The candidate piece `t` holds `p`. */
  predicate Has(t: seq<Cube>, p: Point) {
    |t| > 0 && Contains(t[0], p)
  }

  /** The pieces cover a point when one of the six candidates holds it. */
  lemma CoveredPieces(a: Cube, m: Cube, p: Point)
    requires Inside(m, a) && !IsEmpty(m)
    ensures Covered(Pieces(a, m), p) <==>
      || Has(LeftPiece(a, m), p) || Has(RightPiece(a, m), p)
      || Has(FrontPiece(a, m), p) || Has(BackPiece(a, m), p)
      || Has(BottomPiece(a, m), p) || Has(TopPiece(a, m), p)
  {
    var l, r, f, k := LeftPiece(a, m), RightPiece(a, m), FrontPiece(a, m), BackPiece(a, m);
    var d, t := BottomPiece(a, m), TopPiece(a, m);
    CoveredAppend(l, r, p);
    CoveredAppend(l + r, f, p);
    CoveredAppend(l + r + f, k, p);
    CoveredAppend(l + r + f + k, d, p);
    CoveredAppend(l + r + f + k + d, t, p);
    if l != [] { CoveredSingle(l[0], p); }
    if r != [] { CoveredSingle(r[0], p); }
    if f != [] { CoveredSingle(f[0], p); }
    if k != [] { CoveredSingle(k[0], p); }
    if d != [] { CoveredSingle(d[0], p); }
    if t != [] { CoveredSingle(t[0], p); }
  }

  /** A point of `a` outside `m` is in the candidate for the first axis on
      which it leaves `m`, and no candidate holds any other point. */
  lemma PiecePoints(a: Cube, m: Cube, p: Point)
    requires Inside(m, a) && !IsEmpty(m)
    ensures (|| Has(LeftPiece(a, m), p) || Has(RightPiece(a, m), p)
             || Has(FrontPiece(a, m), p) || Has(BackPiece(a, m), p)
             || Has(BottomPiece(a, m), p) || Has(TopPiece(a, m), p))
      <==> Contains(a, p) && !Contains(m, p)
  {
    if Contains(a, p) && !Contains(m, p) {
      if p.x < m.p1.x {
        assert Has(LeftPiece(a, m), p);
      } else if p.x > m.p2.x {
        assert Has(RightPiece(a, m), p);
      } else if p.y < m.p1.y {
        assert Has(FrontPiece(a, m), p);
      } else if p.y > m.p2.y {
        assert Has(BackPiece(a, m), p);
      } else if p.z < m.p1.z {
        assert Has(BottomPiece(a, m), p);
      } else {
        assert Has(TopPiece(a, m), p);
      }
    }
  }

  /** Sum of the volumes of a cube list. */
  function VolumeSum(cubes: seq<Cube>): nat {
    if cubes == [] then 0 else Volume(cubes[0]) + VolumeSum(cubes[1..])
  }

  lemma {:induction false} VolumeSumAppend(a: seq<Cube>, b: seq<Cube>)
    ensures VolumeSum(a + b) == VolumeSum(a) + VolumeSum(b)
    decreases |a|
  {
    if a == [] {
      assert a + b == b;
    } else {
      assert (a + b)[1..] == a[1..] + b;
      VolumeSumAppend(a[1..], b);
    }
  }

  function PieceVolume(s: seq<Cube>): nat
    requires |s| <= 1
  {
    if s == [] then 0 else Volume(s[0])
  }

  lemma {:induction false} SlabSum(lx: int, w: int, rx: int, ly: int, h: int, ry: int, lz: int, d: int, rz: int)
    ensures (lx + w + rx) * (ly + h + ry) * (lz + d + rz)
      == lx * (ly + h + ry) * (lz + d + rz) + rx * (ly + h + ry) * (lz + d + rz)
       + w * ly * (lz + d + rz) + w * ry * (lz + d + rz)
       + w * h * lz + w * h * rz + w * h * d
  {
    var Y, Z := ly + h + ry, lz + d + rz;
    assert (lx + w + rx) * Y * Z == lx * Y * Z + rx * Y * Z + w * Y * Z;
    assert w * Y * Z == w * ly * Z + w * ry * Z + w * h * Z;
    assert w * h * Z == w * h * lz + w * h * rz + w * h * d;
  }

  lemma SingleVolumeSum(s: seq<Cube>)
    requires |s| <= 1
    ensures VolumeSum(s) == PieceVolume(s)
  {
    if s != [] { assert s[1..] == []; }
  }

  /** The volume of the split is the sum of its six candidate pieces. */
  lemma PiecesVolumeSum(a: Cube, m: Cube)
    requires Inside(m, a) && !IsEmpty(m)
    ensures VolumeSum(Pieces(a, m))
      == PieceVolume(LeftPiece(a, m)) + PieceVolume(RightPiece(a, m))
       + PieceVolume(FrontPiece(a, m)) + PieceVolume(BackPiece(a, m))
       + PieceVolume(BottomPiece(a, m)) + PieceVolume(TopPiece(a, m))
  {
    var L, R, F, K := LeftPiece(a, m), RightPiece(a, m), FrontPiece(a, m), BackPiece(a, m);
    var D, T := BottomPiece(a, m), TopPiece(a, m);
    SingleVolumeSum(L); SingleVolumeSum(R); SingleVolumeSum(F);
    SingleVolumeSum(K); SingleVolumeSum(D); SingleVolumeSum(T);
    VolumeSumAppend(L, R);
    VolumeSumAppend(L + R, F);
    VolumeSumAppend(L + R + F, K);
    VolumeSumAppend(L + R + F + K, D);
    VolumeSumAppend(L + R + F + K + D, T);
  }

  /** Each candidate piece's volume as a product of slab widths. */
  lemma PieceVolumes(a: Cube, m: Cube)
    requires Inside(m, a) && !IsEmpty(m)
    ensures var Y, Z := a.p2.y - a.p1.y + 1, a.p2.z - a.p1.z + 1;
      var w, h := m.p2.x - m.p1.x + 1, m.p2.y - m.p1.y + 1;
      && PieceVolume(LeftPiece(a, m)) == (m.p1.x - a.p1.x) * Y * Z
      && PieceVolume(RightPiece(a, m)) == (a.p2.x - m.p2.x) * Y * Z
      && PieceVolume(FrontPiece(a, m)) == w * (m.p1.y - a.p1.y) * Z
      && PieceVolume(BackPiece(a, m)) == w * (a.p2.y - m.p2.y) * Z
      && PieceVolume(BottomPiece(a, m)) == w * h * (m.p1.z - a.p1.z)
      && PieceVolume(TopPiece(a, m)) == w * h * (a.p2.z - m.p2.z)
  {
    SideVolumes(a, m);
    FrontBackVolumes(a, m);
    BottomTopVolumes(a, m);
  }

  lemma SideVolumes(a: Cube, m: Cube)
    requires Inside(m, a) && !IsEmpty(m)
    ensures var Y, Z := a.p2.y - a.p1.y + 1, a.p2.z - a.p1.z + 1;
      && PieceVolume(LeftPiece(a, m)) == (m.p1.x - a.p1.x) * Y * Z
      && PieceVolume(RightPiece(a, m)) == (a.p2.x - m.p2.x) * Y * Z
  {
    var Y, Z := a.p2.y - a.p1.y + 1, a.p2.z - a.p1.z + 1;
    if a.p1.x < m.p1.x {
      BoxVolume(a.p1.x, a.p1.y, a.p1.z, m.p1.x - 1, a.p2.y, a.p2.z);
    } else {
      ZeroProduct(m.p1.x - a.p1.x, Y, Z);
    }
    if a.p2.x > m.p2.x {
      BoxVolume(m.p2.x + 1, a.p1.y, a.p1.z, a.p2.x, a.p2.y, a.p2.z);
    } else {
      ZeroProduct(a.p2.x - m.p2.x, Y, Z);
    }
  }

  lemma FrontBackVolumes(a: Cube, m: Cube)
    requires Inside(m, a) && !IsEmpty(m)
    ensures var Z, w := a.p2.z - a.p1.z + 1, m.p2.x - m.p1.x + 1;
      && PieceVolume(FrontPiece(a, m)) == w * (m.p1.y - a.p1.y) * Z
      && PieceVolume(BackPiece(a, m)) == w * (a.p2.y - m.p2.y) * Z
  {
    var Z, w := a.p2.z - a.p1.z + 1, m.p2.x - m.p1.x + 1;
    if a.p1.y < m.p1.y {
      BoxVolume(m.p1.x, a.p1.y, a.p1.z, m.p2.x, m.p1.y - 1, a.p2.z);
    } else {
      ZeroProduct2(w, m.p1.y - a.p1.y, Z);
    }
    if a.p2.y > m.p2.y {
      BoxVolume(m.p1.x, m.p2.y + 1, a.p1.z, m.p2.x, a.p2.y, a.p2.z);
    } else {
      ZeroProduct2(w, a.p2.y - m.p2.y, Z);
    }
  }

  lemma BottomTopVolumes(a: Cube, m: Cube)
    requires Inside(m, a) && !IsEmpty(m)
    ensures var w, h := m.p2.x - m.p1.x + 1, m.p2.y - m.p1.y + 1;
      && PieceVolume(BottomPiece(a, m)) == w * h * (m.p1.z - a.p1.z)
      && PieceVolume(TopPiece(a, m)) == w * h * (a.p2.z - m.p2.z)
  {
    var w, h := m.p2.x - m.p1.x + 1, m.p2.y - m.p1.y + 1;
    if a.p1.z < m.p1.z {
      BoxVolume(m.p1.x, m.p1.y, a.p1.z, m.p2.x, m.p2.y, m.p1.z - 1);
    } else {
      ZeroProduct3(w, h, m.p1.z - a.p1.z);
    }
    if a.p2.z > m.p2.z {
      BoxVolume(m.p1.x, m.p1.y, m.p2.z + 1, m.p2.x, m.p2.y, a.p2.z);
    } else {
      ZeroProduct3(w, h, a.p2.z - m.p2.z);
    }
  }

  lemma BoxVolume(x1: int, y1: int, z1: int, x2: int, y2: int, z2: int)
    requires x1 <= x2 && y1 <= y2 && z1 <= z2
    ensures Volume(MakeCube(x1, y1, z1, x2, y2, z2)) == (x2 - x1 + 1) * (y2 - y1 + 1) * (z2 - z1 + 1)
  {
  }

  lemma ZeroProduct(a: int, b: int, c: int)
    requires a == 0
    ensures a * b * c == 0
  {
  }

  lemma ZeroProduct2(a: int, b: int, c: int)
    requires b == 0
    ensures a * b * c == 0
  {
  }

  lemma ZeroProduct3(a: int, b: int, c: int)
    requires c == 0
    ensures a * b * c == 0
  {
  }

  /** Volume is conserved by the split: the pieces plus the overlap make up
      the whole of `a`. */
  lemma SubtractConservesVolume(a: Cube, b: Cube)
    requires CanSubtract(a, b)
    ensures Volume(a) == VolumeSum(Subtract(a, b)) + Volume(Intersection(a, b))
  {
    IntersectsIffOverlap(a, b);
    if !Intersects(a, b) {
      assert Subtract(a, b) == [a];
      assert [a][1..] == [];
    } else {
      var m := Intersection(a, b);
      IntersectionInsideBoth(a, b);
      PiecesVolumeSum(a, m);
      PieceVolumes(a, m);
      var lx, w, rx := m.p1.x - a.p1.x, m.p2.x - m.p1.x + 1, a.p2.x - m.p2.x;
      var ly, h, ry := m.p1.y - a.p1.y, m.p2.y - m.p1.y + 1, a.p2.y - m.p2.y;
      var lz, d, rz := m.p1.z - a.p1.z, m.p2.z - m.p1.z + 1, a.p2.z - m.p2.z;
      assert Volume(m) == w * h * d;
      assert Volume(a) == (lx + w + rx) * (ly + h + ry) * (lz + d + rz);
      SlabSum(lx, w, rx, ly, h, ry, lz, d, rz);
    }
  }

  /** All cubes of the list are pairwise non-intersecting. */
  predicate PairwiseDisjoint(cubes: seq<Cube>) {
    forall i, j :: 0 <= i < j < |cubes| ==> !Intersects(cubes[i], cubes[j])
  }

  predicate AllNonEmpty(cubes: seq<Cube>) {
    forall i :: 0 <= i < |cubes| ==> !IsEmpty(cubes[i])
  }

  /** Every cube of the list lies inside `bound`. */
  predicate AllInside(cubes: seq<Cube>, bound: Cube) {
    forall i :: 0 <= i < |cubes| ==> Inside(cubes[i], bound)
  }

  /** No cube of the list intersects `other`. */
  predicate AllApart(cubes: seq<Cube>, other: Cube) {
    forall i :: 0 <= i < |cubes| ==> !Intersects(cubes[i], other)
  }

  /** The condition `add_cube` demands: each existing cube may be split
      around the new one. */
  predicate CanAdd(cubes: seq<Cube>, c: Cube) {
    forall i :: 0 <= i < |cubes| ==> CanSubtract(cubes[i], c)
  }

  /** The concatenation, in list order, of the pieces of every cube of
      `cubes` around `c`. */
  function SubtractAll(cubes: seq<Cube>, c: Cube): seq<Cube>
    requires CanAdd(cubes, c)
  {
    if cubes == [] then [] else Subtract(cubes[0], c) + SubtractAll(cubes[1..], c)
  }

  /** The kept pieces cover exactly the old on-points outside `c`. */
  lemma {:induction false} SubtractAllCovers(cubes: seq<Cube>, c: Cube, p: Point)
    requires CanAdd(cubes, c)
    ensures Covered(SubtractAll(cubes, c), p) <==> Covered(cubes, p) && !Contains(c, p)
    decreases |cubes|
  {
    if cubes != [] {
      SubtractAllCovers(cubes[1..], c, p);
      CoversStep(cubes, c, p);
    }
  }

  lemma {:induction false} CoversStep(cubes: seq<Cube>, c: Cube, p: Point)
    requires cubes != [] && CanAdd(cubes, c)
    requires Covered(SubtractAll(cubes[1..], c), p) <==> Covered(cubes[1..], p) && !Contains(c, p)
    ensures Covered(SubtractAll(cubes, c), p) <==> Covered(cubes, p) && !Contains(c, p)
  {
    var head, tail := cubes[0], cubes[1..];
    assert SubtractAll(cubes, c) == Subtract(head, c) + SubtractAll(tail, c);
    SubtractIsDifference(head, c, p);
    CoveredAppend(Subtract(head, c), SubtractAll(tail, c), p);
    assert cubes == [head] + tail;
    CoveredAppend([head], tail, p);
    CoveredSingle(head, p);
  }

  /** Non-empty cubes give non-empty pieces, none of which meets `c`. */
  lemma {:induction false} SubtractAllNonEmptyApart(cubes: seq<Cube>, c: Cube)
    requires CanAdd(cubes, c) && AllNonEmpty(cubes)
    ensures AllNonEmpty(SubtractAll(cubes, c)) && AllApart(SubtractAll(cubes, c), c)
    decreases |cubes|
  {
    if cubes != [] {
      SubtractAllNonEmptyApart(cubes[1..], c);
      var ps, rest := Subtract(cubes[0], c), SubtractAll(cubes[1..], c);
      assert forall i :: 0 <= i < |ps| ==> !IsEmpty(ps[i]) && !Intersects(ps[i], c);
      assert SubtractAll(cubes, c) == ps + rest;
    }
  }

  /** Pieces stay within any box that holds all the cubes, and away from any
      box that all the cubes avoid. */
  lemma {:induction false} SubtractAllBounded(cubes: seq<Cube>, c: Cube, bound: Cube, other: Cube)
    requires CanAdd(cubes, c) && AllNonEmpty(cubes)
    ensures AllInside(cubes, bound) ==> AllInside(SubtractAll(cubes, c), bound)
    ensures AllApart(cubes, other) ==> AllApart(SubtractAll(cubes, c), other)
    decreases |cubes|
  {
    if cubes != [] {
      SubtractAllBounded(cubes[1..], c, bound, other);
      var ps, rest := Subtract(cubes[0], c), SubtractAll(cubes[1..], c);
      assert forall i :: 0 <= i < |ps| ==> Inside(ps[i], cubes[0]) && !IsEmpty(ps[i]);
      assert SubtractAll(cubes, c) == ps + rest;
    }
  }

  lemma InsideApart(a: Cube, outer: Cube, b: Cube)
    requires Inside(a, outer) && !IsEmpty(a) && !Intersects(outer, b)
    ensures !Intersects(a, b)
  {
  }

  /** Splitting pairwise-disjoint cubes yields pairwise-disjoint pieces. */
  lemma {:induction false} SubtractAllDisjoint(cubes: seq<Cube>, c: Cube)
    requires CanAdd(cubes, c) && AllNonEmpty(cubes) && PairwiseDisjoint(cubes)
    ensures PairwiseDisjoint(SubtractAll(cubes, c))
    decreases |cubes|
  {
    if cubes != [] {
      var tail := cubes[1..];
      SubtractAllDisjoint(tail, c);
      var ps, rest := Subtract(cubes[0], c), SubtractAll(tail, c);
      SubtractPiecesDisjoint(cubes[0], c);
      assert AllApart(tail, cubes[0]) by {
        forall i | 0 <= i < |tail| ensures !Intersects(tail[i], cubes[0]) {
          assert !Intersects(cubes[0], cubes[i + 1]);
        }
      }
      SubtractAllBounded(tail, c, cubes[0], cubes[0]);
      DisjointAppend(ps, rest, cubes[0]);
    }
  }

  /** Two disjoint lists, the first inside a box the second avoids, join
      into a disjoint list. */
  lemma {:induction false} DisjointAppend(s: seq<Cube>, t: seq<Cube>, bound: Cube)
    requires AllNonEmpty(s) && PairwiseDisjoint(s) && PairwiseDisjoint(t)
    requires AllInside(s, bound) && AllApart(t, bound)
    ensures PairwiseDisjoint(s + t)
  {
    var r := s + t;
    forall i, j | 0 <= i < j < |r| ensures !Intersects(r[i], r[j]) {
      if j < |s| {
        assert r[i] == s[i] && r[j] == s[j];
      } else if i >= |s| {
        assert r[i] == t[i - |s|] && r[j] == t[j - |s|];
      } else {
        assert r[i] == s[i] && r[j] == t[j - |s|];
        InsideApart(s[i], bound, t[j - |s|]);
      }
    }
  }

  /** Splitting never increases the total volume. */
  lemma {:induction false} SubtractAllVolume(cubes: seq<Cube>, c: Cube)
    requires CanAdd(cubes, c)
    ensures VolumeSum(SubtractAll(cubes, c)) <= VolumeSum(cubes)
    decreases |cubes|
  {
    if cubes != [] {
      SubtractAllVolume(cubes[1..], c);
      SubtractConservesVolume(cubes[0], c);
      VolumeSumAppend(Subtract(cubes[0], c), SubtractAll(cubes[1..], c));
    }
  }

  /** One reboot step: split every on-cube around `c`, then append `c` when
      the instruction turns it on. */
  function AddCube(cubes: seq<Cube>, c: Cube, turnOn: bool): (r: seq<Cube>)
    requires CanAdd(cubes, c)
    ensures turnOn ==> |r| > 0 && r[|r| - 1] == c
  {
    SubtractAll(cubes, c) + (if turnOn then [c] else [])
  }

  /** The points lit after a step are the old ones outside `c`, plus those
      of `c` when it is turned on. */
  lemma AddCubeCovers(cubes: seq<Cube>, c: Cube, turnOn: bool, p: Point)
    requires CanAdd(cubes, c)
    ensures Covered(AddCube(cubes, c, turnOn), p) <==>
      (Covered(cubes, p) && !Contains(c, p)) || (turnOn && Contains(c, p))
  {
    SubtractAllCovers(cubes, c, p);
    CoveredAppend(SubtractAll(cubes, c), if turnOn then [c] else [], p);
    CoveredSingle(c, p);
  }

  /** Every kept cube is disjoint from `c`; `c` ends the list exactly when it
      is turned on; disjointness of the list is preserved. */
  lemma AddCubeShape(cubes: seq<Cube>, c: Cube, turnOn: bool)
    requires CanAdd(cubes, c) && AllNonEmpty(cubes) && !IsEmpty(c)
    ensures var r := AddCube(cubes, c, turnOn);
      && (forall i :: 0 <= i < |SubtractAll(cubes, c)| ==> !Intersects(r[i], c))
      && (turnOn <==> |r| > 0 && r[|r| - 1] == c)
      && (PairwiseDisjoint(cubes) ==> AllNonEmpty(r) && PairwiseDisjoint(r))
  {
    var kept := SubtractAll(cubes, c);
    var r := AddCube(cubes, c, turnOn);
    SubtractAllNonEmptyApart(cubes, c);
    assert forall i :: 0 <= i < |kept| ==> r[i] == kept[i];
    if !turnOn && |r| > 0 {
      assert r == kept && !Intersects(kept[|kept| - 1], c);
    }
    if PairwiseDisjoint(cubes) {
      SubtractAllDisjoint(cubes, c);
    }
  }

  /** With the instruction turning cubes off, the lit volume never grows. */
  lemma AddCubeOffShrinks(cubes: seq<Cube>, c: Cube)
    requires CanAdd(cubes, c)
    ensures VolumeSum(AddCube(cubes, c, false)) <= VolumeSum(cubes)
  {
    assert AddCube(cubes, c, false) == SubtractAll(cubes, c);
    SubtractAllVolume(cubes, c);
  }

  datatype Instruction = Instruction(turnOn: bool, cube: Cube)

  /** The box of the initialization phase. */
  const InitRegion: Cube := Cube(Point(-50, -50, -50), Point(50, 50, 50))

  /** The bounds filter of the initialization phase: the instruction is
      skipped when its box leaves [-50, 50] on any axis. */
  predicate InInitRegion(c: Cube) {
    !(c.p1.x < -50 || c.p2.x > 50 || c.p1.y < -50 || c.p2.y > 50 || c.p1.z < -50 || c.p2.z > 50)
  }

  /** Instructions are well formed when their cubes are non-empty, which is
      what the input reader's asserts guarantee. */
  predicate WellFormed(instrs: seq<Instruction>) {
    forall i :: 0 <= i < |instrs| ==> !IsEmpty(instrs[i].cube)
  }

  /** The instruction is applied in the phase: the initialization phase
      skips boxes that leave the region. */
  predicate Applies(instr: Instruction, initOnly: bool) {
    !initOnly || InInitRegion(instr.cube)
  }

  /** The reference meaning of a reboot: a point is on iff the last
      applied instruction whose box contains it turned it on. */
  function LitAfter(instrs: seq<Instruction>, initOnly: bool, p: Point): bool {
    if instrs == [] then false
    else
      var last := instrs[|instrs| - 1];
      if Applies(last, initOnly) && Contains(last.cube, p) then last.turnOn
      else LitAfter(instrs[..|instrs| - 1], initOnly, p)
  }

  /** Folding the instructions over the on-cube list: `initOnly` selects
      the first phase (`part1`), which skips out-of-region instructions. */
  function Reboot(instrs: seq<Instruction>, initOnly: bool): (cubes: seq<Cube>)
    requires WellFormed(instrs)
    ensures AllNonEmpty(cubes) && PairwiseDisjoint(cubes)
    ensures initOnly ==> AllInside(cubes, InitRegion)
  {
    if instrs == [] then []
    else
      var init := instrs[..|instrs| - 1];
      var last := instrs[|instrs| - 1];
      assert WellFormed(init) by {
        forall i | 0 <= i < |init| ensures !IsEmpty(init[i].cube) { assert init[i] == instrs[i]; }
      }
      var before := Reboot(init, initOnly);
      if !Applies(last, initOnly) then before
      else
        RebootStep(before, last, initOnly);
        AddCube(before, last.cube, last.turnOn)
  }

  lemma RebootStep(before: seq<Cube>, last: Instruction, initOnly: bool)
    requires AllNonEmpty(before) && PairwiseDisjoint(before) && !IsEmpty(last.cube)
    requires initOnly ==> AllInside(before, InitRegion)
    requires Applies(last, initOnly)
    ensures CanAdd(before, last.cube)
    ensures AllNonEmpty(AddCube(before, last.cube, last.turnOn))
    ensures PairwiseDisjoint(AddCube(before, last.cube, last.turnOn))
    ensures initOnly ==> AllInside(AddCube(before, last.cube, last.turnOn), InitRegion)
  {
    assert CanAdd(before, last.cube) by {
      forall i | 0 <= i < |before| ensures CanSubtract(before[i], last.cube) {
        IntersectsIffOverlap(before[i], last.cube);
      }
    }
    AddCubeShape(before, last.cube, last.turnOn);
    if initOnly {
      SubtractAllBounded(before, last.cube, InitRegion, InitRegion);
      var kept := SubtractAll(before, last.cube);
      var r := AddCube(before, last.cube, last.turnOn);
      forall i | 0 <= i < |r| ensures Inside(r[i], InitRegion) {
        if i < |kept| {
          assert r[i] == kept[i];
        }
      }
    }
  }

  /** The on-cube list lights exactly the points the reference semantics
      says are on. */
  lemma {:induction false} RebootMeaning(instrs: seq<Instruction>, initOnly: bool, p: Point)
    requires WellFormed(instrs)
    ensures Covered(Reboot(instrs, initOnly), p) <==> LitAfter(instrs, initOnly, p)
    decreases |instrs|
  {
    if instrs != [] {
      var init := instrs[..|instrs| - 1];
      var last := instrs[|instrs| - 1];
      assert WellFormed(init) by {
        forall i | 0 <= i < |init| ensures !IsEmpty(init[i].cube) { assert init[i] == instrs[i]; }
      }
      RebootMeaning(init, initOnly, p);
      if Applies(last, initOnly) {
        var before := Reboot(init, initOnly);
        RebootStep(before, last, initOnly);
        AddCubeCovers(before, last.cube, last.turnOn, p);
      }
    }
  }

  /** Total number of lit cubes after a reboot. */
  function LitVolume(instrs: seq<Instruction>, initOnly: bool): nat
    requires WellFormed(instrs)
  {
    VolumeSum(Reboot(instrs, initOnly))
  }
}
