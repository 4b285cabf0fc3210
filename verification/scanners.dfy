/** Beacon scanners (day 19). Every scanner keeps the histogram of the
    Manhattan distances between its beacons, so two scanners that see the
    same beacons share those distances whatever their orientation; the
    24-entry rotation table and the 4x4 matrix product are the tools for
    lining the scanners up. */
module Scanners {
  import opened Arith
  import opened Wrappers
  import opened Points

  /** `distance`: the Manhattan distance; `w` plays no part. */
  function Distance(p: WPoint, q: WPoint): nat {
    Abs(p.x - q.x) + Abs(p.y - q.y) + Abs(p.z - q.z)
  }

  /** The distance is a metric on the points `==` tells apart. */
  lemma DistanceIsMetric(p: WPoint, q: WPoint, r: WPoint)
    ensures Distance(p, q) == Distance(q, p)
    ensures Distance(p, q) == 0 <==> WEqual(p, q)
    ensures Distance(p, r) <= Distance(p, q) + Distance(q, r)
  {
  }

  // ---------------------------------------------------------------------
  // Distance histograms

  /** A histogram is a multiset: the multiplicity of `d` is the count the
      `unordered_map` keeps for `d`, 0 where it has no entry. */
  type Histogram = multiset<nat>

  /** `scanner_t`. */
  datatype Scanner = Scanner(id: nat, points: seq<WPoint>, distances: Histogram)

  /** The pairs of beacons, first index smaller, at distance `d`. */
  function Pairs(points: seq<WPoint>, d: nat): set<(nat, nat)> {
    set a: nat, b: nat | a < b < |points| && Distance(points[a], points[b]) == d :: (a, b)
  }

  /** The pairs the loops of `set_distances` have counted on reaching
      column `j` of row `i`. */
  function Counted(points: seq<WPoint>, i: nat, j: nat, d: nat): set<(nat, nat)> {
    set a: nat, b: nat | a < b < |points| && (a < i || (a == i && b < j))
      && Distance(points[a], points[b]) == d :: (a, b)
  }

  /** The number of pairs in the first `i` rows. */
  function Done(n: nat, i: nat): nat
    requires i <= n
  {
    if i == 0 then 0 else Done(n, i - 1) + (n - i)
  }

  lemma {:induction false} DoneIsPairs(n: nat, i: nat)
    requires i <= n
    ensures 2 * Done(n, i) == i * (2 * n - i - 1)
  {
    if i > 0 {
      DoneIsPairs(n, i - 1);
      assert i * (2 * n - i - 1) == (i - 1) * (2 * n - (i - 1) - 1) + 2 * (n - i);
    }
  }

  lemma CountedHit(points: seq<WPoint>, i: nat, j: nat, d: nat)
    requires i < j < |points| && Distance(points[i], points[j]) == d
    ensures Counted(points, i, j + 1, d) == Counted(points, i, j, d) + {(i, j)}
    ensures (i, j) !in Counted(points, i, j, d)
  {
  }

  lemma CountedMiss(points: seq<WPoint>, i: nat, j: nat, d: nat)
    requires i < j < |points| && Distance(points[i], points[j]) != d
    ensures Counted(points, i, j + 1, d) == Counted(points, i, j, d)
  {
  }

  /** Visiting pair (i, j) adds it to the pairs counted for its distance
      and to no other. */
  lemma CountedStep(points: seq<WPoint>, i: nat, j: nat, d: nat)
    requires i < j < |points|
    ensures |Counted(points, i, j + 1, d)| ==
      |Counted(points, i, j, d)| + (if Distance(points[i], points[j]) == d then 1 else 0)
  {
    if Distance(points[i], points[j]) == d {
      CountedHit(points, i, j, d);
    } else {
      CountedMiss(points, i, j, d);
    }
  }

  /** A row starts just after the diagonal. */
  lemma CountedRowStart(points: seq<WPoint>, i: nat, d: nat)
    ensures Counted(points, i, i + 1, d) == Counted(points, i, 0, d)
  {
  }

  /** A finished row is the start of the next. */
  lemma CountedRowEnd(points: seq<WPoint>, i: nat, d: nat)
    requires i < |points|
    ensures Counted(points, i, |points|, d) == Counted(points, i + 1, 0, d)
  {
  }

  lemma CountedAll(points: seq<WPoint>, d: nat)
    ensures Counted(points, |points|, 0, d) == Pairs(points, d)
  {
  }

  /** One row of `set_distances`: the pairs (i, j) for every j after i. */
  method CountRow(points: seq<WPoint>, i: nat, counts: Histogram) returns (distances: Histogram)
    requires i < |points|
    requires forall d :: counts[d] == |Counted(points, i, 0, d)|
    ensures forall d :: distances[d] == |Counted(points, i + 1, 0, d)|
    ensures |distances| == |counts| + (|points| - i - 1)
  {
    var n := |points|;
    forall d ensures Counted(points, i, i + 1, d) == Counted(points, i, 0, d) {
      CountedRowStart(points, i, d);
    }
    distances := counts;
    var j := i + 1;
    while j < n
      invariant i + 1 <= j <= n
      invariant forall d :: distances[d] == |Counted(points, i, j, d)|
      invariant |distances| == |counts| + (j - i - 1)
    {
      var dist := Distance(points[i], points[j]);
      forall d
        ensures |Counted(points, i, j + 1, d)| == |Counted(points, i, j, d)| + (if dist == d then 1 else 0)
      {
        CountedStep(points, i, j, d);
      }
      distances := distances + multiset{dist};
      j := j + 1;
    }
    forall d ensures Counted(points, i, n, d) == Counted(points, i + 1, 0, d) {
      CountedRowEnd(points, i, d);
    }
  }

  /** `set_distances`: for every pair of beacons, once each, count its
      distance. The histogram holds every pair's distance as often as it
      occurs, so it has n(n-1)/2 entries in all. */
  method SetDistances(points: seq<WPoint>) returns (distances: Histogram)
    ensures forall d :: distances[d] == |Pairs(points, d)|
    ensures 2 * |distances| == |points| * (|points| - 1)
  {
    var n := |points|;
    distances := multiset{};
    var i := 0;
    while i < n
      invariant 0 <= i <= n
      invariant forall d :: distances[d] == |Counted(points, i, 0, d)|
      invariant |distances| == Done(n, i)
    {
      distances := CountRow(points, i, distances);
      i := i + 1;
    }
    forall d ensures Counted(points, n, 0, d) == Pairs(points, d) {
      CountedAll(points, d);
    }
    DoneIsPairs(n, n);
  }

  /** The constructor: the beacons and their histogram. */
  method NewScanner(id: nat, points: seq<WPoint>) returns (s: Scanner)
    ensures s.id == id && s.points == points
    ensures forall d :: s.distances[d] == |Pairs(points, d)|
  {
    var distances := SetDistances(points);
    s := Scanner(id, points, distances);
  }

  /** `n` copies of `d`. */
  lemma {:induction false} CopiesCount(d: nat, n: nat)
    ensures |multiset{}[d := n]| == n
  {
    if n > 0 {
      CopiesCount(d, n - 1);
      assert multiset{}[d := n] == multiset{}[d := n - 1] + multiset{d};
    }
  }

  /** Taking every copy of `d` out of `a` takes out its share of `a * b`. */
  lemma DropKey(a: Histogram, b: Histogram, d: nat)
    ensures |a * b| == |a[d := 0] * b| + Min(a[d], b[d])
  {
    var copies := multiset{}[d := Min(a[d], b[d])];
    assert a * b == a[d := 0] * b + copies;
    CopiesCount(d, Min(a[d], b[d]));
  }

  /** `common_distances`: over the distances of the first scanner that the
      second also has, the smaller of the two counts. The sum is the size
      of the histograms' multiset intersection. */
  method CommonDistances(s1: Scanner, s2: Scanner) returns (common: nat)
    ensures common == |s1.distances * s2.distances|
  {
    var h1, h2 := s1.distances, s2.distances;
    common := 0;
    var keys := set d | d in h1;
    ghost var rest := h1;
    while keys != {}
      invariant forall d :: d in rest <==> d in keys
      invariant forall d :: d in keys ==> rest[d] == h1[d]
      invariant common + |rest * h2| == |h1 * h2|
      decreases |keys|
    {
      var d :| d in keys;
      if d in h2 {
        common := common + Min(h1[d], h2[d]);
      }
      DropKey(rest, h2, d);
      rest := rest[d := 0];
      keys := keys - {d};
    }
    assert rest == multiset{};
  }

  /** The common count is the same either way round and at most either
      scanner's number of pairs. */
  lemma CommonBounds(h1: Histogram, h2: Histogram)
    ensures |h1 * h2| == |h2 * h1|
    ensures |h1 * h2| <= |h1| && |h1 * h2| <= |h2|
  {
    assert h1 * h2 == h2 * h1;
    assert h1 == h1 * h2 + (h1 - h2);
    assert h2 == h2 * h1 + (h2 - h1);
  }

  /** Twelve shared beacons give 12 * 11 / 2 = 78 shared distances: the
      least count `part1` reports. */
  const Threshold: nat := 12 + 11 + 10 + 9 + 8 + 7 + 6 + 5 + 4 + 3 + 2 + 1

  /** A line of the report: the positions of two scanners in the input
      and their common count. */
  type Line = (nat, nat, nat)

  /** The common count of scanners `a` and `b`. */
  function CommonOf(scanners: seq<Scanner>, a: nat, b: nat): nat
    requires a < |scanners| && b < |scanners|
  {
    |scanners[a].distances * scanners[b].distances|
  }

  /** A line `part1` prints: two scanners, first before second, with
      their common count, which reaches the threshold. */
  predicate Reports(scanners: seq<Scanner>, t: Line) {
    t.0 < t.1 < |scanners| && t.2 == CommonOf(scanners, t.0, t.1) && t.2 >= Threshold
  }

  /** Every reportable pair before row `i`, column `j` is in the report. */
  predicate Covers(scanners: seq<Scanner>, report: seq<Line>, i: nat, j: nat) {
    forall a: nat, b: nat ::
      (a < i || (a == i && b < j)) && a < b < |scanners| && CommonOf(scanners, a, b) >= Threshold
      ==> (a, b, CommonOf(scanners, a, b)) in report
  }

  /** One row of `part1`: scanner `i` against every later one. */
  method ReportRow(scanners: seq<Scanner>, i: nat, report0: seq<Line>) returns (report: seq<Line>)
    requires i < |scanners|
    requires forall t :: t in report0 ==> Reports(scanners, t) && t.0 < i
    requires Covers(scanners, report0, i, i + 1)
    ensures forall t :: t in report ==> Reports(scanners, t) && t.0 <= i
    ensures Covers(scanners, report, i, |scanners|)
  {
    report := report0;
    var j := i + 1;
    while j < |scanners|
      invariant i + 1 <= j <= |scanners|
      invariant forall t :: t in report ==> Reports(scanners, t) && t.0 <= i
      invariant Covers(scanners, report, i, j)
    {
      var common := CommonDistances(scanners[i], scanners[j]);
      if common >= Threshold {
        report := report + [(i, j, common)];
      }
      j := j + 1;
    }
  }

  /** `part1`: every pair of scanners, first before second, whose common
      count reaches the threshold is reported, and nothing else; the
      answer itself is always "0". */
  method Part1(scanners: seq<Scanner>) returns (report: seq<Line>, answer: string)
    ensures answer == "0"
    ensures forall t :: t in report ==> Reports(scanners, t)
    ensures Covers(scanners, report, |scanners|, 0)
  {
    report := [];
    var i := 0;
    while i < |scanners|
      invariant 0 <= i <= |scanners|
      invariant forall t :: t in report ==> Reports(scanners, t) && t.0 < i
      invariant Covers(scanners, report, i, 0)
    {
      report := ReportRow(scanners, i, report);
      i := i + 1;
    }
    answer := "0";
  }

  // ---------------------------------------------------------------------
  // Rotations

  /** `rotations`: each entry is three rows; row k gives the k-th
      coordinate of the rotated point. */
  function Rotations(): seq<seq<Point>> {
    [
      [Point( 1,  0,  0), Point( 0,  1,  0), Point( 0,  0,  1)],
      [Point( 0,  0,  1), Point( 0,  1,  0), Point(-1,  0,  0)],
      [Point(-1,  0,  0), Point( 0,  1,  0), Point( 0,  0, -1)],
      [Point( 0,  0, -1), Point( 0,  1,  0), Point( 1,  0,  0)],

      [Point( 0, -1,  0), Point( 1,  0,  0), Point( 0,  0,  1)],
      [Point( 0,  0,  1), Point( 1,  0,  0), Point( 0,  1,  0)],
      [Point( 0,  1,  0), Point( 1,  0,  0), Point( 0,  0, -1)],
      [Point( 0,  0, -1), Point( 1,  0,  0), Point( 0, -1,  0)],

      [Point( 0,  1,  0), Point(-1,  0,  0), Point( 0,  0,  1)],
      [Point( 0,  0,  1), Point(-1,  0,  0), Point( 0, -1,  0)],
      [Point( 0, -1,  0), Point(-1,  0,  0), Point( 0,  0, -1)],
      [Point( 0,  0, -1), Point(-1,  0,  0), Point( 0,  1,  0)],

      [Point( 1,  0,  0), Point( 0,  0, -1), Point( 0,  1,  0)],
      [Point( 0,  1,  0), Point( 0,  0, -1), Point(-1,  0,  0)],
      [Point(-1,  0,  0), Point( 0,  0, -1), Point( 0, -1,  0)],
      [Point( 0, -1,  0), Point( 0,  0, -1), Point( 1,  0,  0)],

      [Point( 1,  0,  0), Point( 0, -1,  0), Point( 0,  0, -1)],
      [Point( 0,  0, -1), Point( 0, -1,  0), Point(-1,  0,  0)],
      [Point(-1,  0,  0), Point( 0, -1,  0), Point( 0,  0,  1)],
      [Point( 0,  0,  1), Point( 0, -1,  0), Point( 1,  0,  0)],

      [Point( 1,  0,  0), Point( 0,  0,  1), Point( 0, -1,  0)],
      [Point( 0, -1,  0), Point( 0,  0,  1), Point(-1,  0,  0)],
      [Point(-1,  0,  0), Point( 0,  0,  1), Point( 0,  1,  0)],
      [Point( 0,  1,  0), Point( 0,  0,  1), Point( 1,  0,  0)]
    ]
  }

  function Dot(p: WPoint, row: Point): int {
    p.x * row.x + p.y * row.y + p.z * row.z
  }

  /** The product of three rows with a point, into a fresh point whose
      `w` is 0. */
  function Apply(p: WPoint, rot: seq<Point>): WPoint
    requires |rot| == 3
  {
    WPoint(Dot(p, rot[0]), Dot(p, rot[1]), Dot(p, rot[2]), 0)
  }

  /** `rotate`: the product with entry `n` of the table. */
  function Rotate(p: WPoint, n: nat): (r: WPoint)
    requires n < |Rotations()|
    ensures r.w == 0
  {
    Apply(p, Rotations()[n])
  }

  /** There are 24 entries and the first is the identity. */
  lemma RotationsTable(p: WPoint)
    ensures |Rotations()| == 24
    ensures WEqual(Rotate(p, 0), p)
  {
  }

  function Coord(p: WPoint, i: nat): int {
    if i == 0 then p.x else if i == 1 then p.y else p.z
  }

  /** The axis a row picks out, and its sign, if the row is a signed unit
      vector. */
  function AxisOf(row: Point): Option<(nat, int)> {
    if row == Point(1, 0, 0) then Some((0, 1))
    else if row == Point(-1, 0, 0) then Some((0, -1))
    else if row == Point(0, 1, 0) then Some((1, 1))
    else if row == Point(0, -1, 0) then Some((1, -1))
    else if row == Point(0, 0, 1) then Some((2, 1))
    else if row == Point(0, 0, -1) then Some((2, -1))
    else None
  }

  /** Rows that are signed unit vectors on three different axes. */
  predicate SignedPermutation(rot: seq<Point>) {
    |rot| == 3 && AxisOf(rot[0]).Some? && AxisOf(rot[1]).Some? && AxisOf(rot[2]).Some?
    && AxisOf(rot[0]).value.0 != AxisOf(rot[1]).value.0
    && AxisOf(rot[0]).value.0 != AxisOf(rot[2]).value.0
    && AxisOf(rot[1]).value.0 != AxisOf(rot[2]).value.0
  }

  function Det(rot: seq<Point>): int
    requires |rot| == 3
  {
    rot[0].x * (rot[1].y * rot[2].z - rot[1].z * rot[2].y)
    - rot[0].y * (rot[1].x * rot[2].z - rot[1].z * rot[2].x)
    + rot[0].z * (rot[1].x * rot[2].y - rot[1].y * rot[2].x)
  }

  /** A proper rotation that maps axes onto axes. */
  predicate IsRotation(rot: seq<Point>) {
    SignedPermutation(rot) && Det(rot) == 1
  }

  lemma RotationsFirst(n: nat)
    requires n < 8
    ensures IsRotation(Rotations()[n])
  {
  }

  lemma RotationsMiddle(n: nat)
    requires 8 <= n < 16
    ensures IsRotation(Rotations()[n])
  {
  }

  lemma RotationsLast(n: nat)
    requires 16 <= n < 24
    ensures IsRotation(Rotations()[n])
  {
  }

  /** Every entry permutes the axes with signs and keeps handedness: the
      table holds rotations only. */
  lemma RotationsAreRotations(n: nat)
    requires n < |Rotations()|
    ensures IsRotation(Rotations()[n])
  {
    if n < 8 {
      RotationsFirst(n);
    } else if n < 16 {
      RotationsMiddle(n);
    } else {
      RotationsLast(n);
    }
  }

  lemma DotAxis(p: WPoint, q: WPoint, row: Point)
    requires AxisOf(row).Some?
    ensures Abs(Dot(p, row) - Dot(q, row)) == Abs(Coord(p, AxisOf(row).value.0) - Coord(q, AxisOf(row).value.0))
  {
  }

  /** The distance along one axis. */
  function Gap(p: WPoint, q: WPoint, k: nat): nat {
    Abs(Coord(p, k) - Coord(q, k))
  }

  lemma AxesSum(p: WPoint, q: WPoint, a: nat, b: nat, c: nat)
    requires a < 3 && b < 3 && c < 3 && a != b && a != c && b != c
    ensures Gap(p, q, a) + Gap(p, q, b) + Gap(p, q, c) == Distance(p, q)
  {
  }

  /** Any signed permutation of the axes keeps distances. */
  lemma PermutationKeepsDistance(p: WPoint, q: WPoint, rot: seq<Point>)
    requires SignedPermutation(rot)
    ensures Distance(Apply(p, rot), Apply(q, rot)) == Distance(p, q)
  {
    var a, b, c := AxisOf(rot[0]).value.0, AxisOf(rot[1]).value.0, AxisOf(rot[2]).value.0;
    assert Abs(Dot(p, rot[0]) - Dot(q, rot[0])) == Gap(p, q, a) by { DotAxis(p, q, rot[0]); }
    assert Abs(Dot(p, rot[1]) - Dot(q, rot[1])) == Gap(p, q, b) by { DotAxis(p, q, rot[1]); }
    assert Abs(Dot(p, rot[2]) - Dot(q, rot[2])) == Gap(p, q, c) by { DotAxis(p, q, rot[2]); }
    AxesSum(p, q, a, b, c);
  }

  /** Rotating both points by the same entry keeps their distance, so the
      histogram of a scanner does not depend on its orientation. */
  lemma RotatePreservesDistance(p: WPoint, q: WPoint, n: nat)
    requires n < |Rotations()|
    ensures Distance(Rotate(p, n), Rotate(q, n)) == Distance(p, q)
  {
    RotationsAreRotations(n);
    PermutationKeepsDistance(p, q, Rotations()[n]);
  }

  // ---------------------------------------------------------------------
  // 4x4 matrices

  /** `matrix_t`: four rows of four `uint64_t`. */
  predicate IsMatrix(m: seq<seq<nat>>) {
    |m| == 4 && forall i :: 0 <= i < 4 ==> |m[i]| == 4 && forall j :: 0 <= j < 4 ==> m[i][j] < Word
  }

  function Identity(): (m: seq<seq<nat>>)
    ensures IsMatrix(m)
  {
    [[1, 0, 0, 0], [0, 1, 0, 0], [0, 0, 1, 0], [0, 0, 0, 1]]
  }

  /** One entry of the product, wrapped to 64 bits. */
  function Entry(a: seq<seq<nat>>, b: seq<seq<nat>>, i: nat, j: nat): nat
    requires IsMatrix(a) && IsMatrix(b) && i < 4 && j < 4
  {
    (a[i][0] * b[0][j] + a[i][1] * b[1][j] + a[i][2] * b[2][j] + a[i][3] * b[3][j]) % Word
  }

  /** `compose`: the matrix product in `uint64_t` arithmetic. */
  function Compose(a: seq<seq<nat>>, b: seq<seq<nat>>): (r: seq<seq<nat>>)
    requires IsMatrix(a) && IsMatrix(b)
    ensures IsMatrix(r)
  {
    seq(4, i requires 0 <= i < 4 => seq(4, j requires 0 <= j < 4 => Entry(a, b, i, j)))
  }

  lemma IdentityLeft(m: seq<seq<nat>>, i: nat, j: nat)
    requires IsMatrix(m) && i < 4 && j < 4
    ensures Entry(Identity(), m, i, j) == m[i][j]
  {
    if i == 0 {} else if i == 1 {} else if i == 2 {} else {}
  }

  lemma IdentityRight(m: seq<seq<nat>>, i: nat, j: nat)
    requires IsMatrix(m) && i < 4 && j < 4
    ensures Entry(m, Identity(), i, j) == m[i][j]
  {
    if j == 0 {} else if j == 1 {} else if j == 2 {} else {}
  }

  /** The identity is neutral on either side. */
  lemma ComposeIdentity(m: seq<seq<nat>>)
    requires IsMatrix(m)
    ensures Compose(Identity(), m) == m
    ensures Compose(m, Identity()) == m
  {
    forall i | 0 <= i < 4
      ensures Compose(Identity(), m)[i] == m[i] && Compose(m, Identity())[i] == m[i]
    {
      forall j | 0 <= j < 4
        ensures Entry(Identity(), m, i, j) == m[i][j] && Entry(m, Identity(), i, j) == m[i][j]
      {
        IdentityLeft(m, i, j);
        IdentityRight(m, i, j);
      }
    }
  }
}
