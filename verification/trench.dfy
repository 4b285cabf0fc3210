/** Trench map (day 20). The image is an infinite grid whose lit pixels
    are kept as a finite set. One enhancement step reads, for every pixel,
    its 3×3 neighbourhood as a 9-bit index into a 512-character rule
    string. For rule strings whose first character is '#' the infinite
    background flips every step, so the code keeps the lit pixels after an
    even number of steps and the dark pixels after an odd number, and only
    scans a box around the kept set. */
module Trench {
  import opened Wrappers
  import opened Arith
  import opened Binary

  datatype Px = Px(x: int, y: int)

  /** A box given by its lower and its upper corner. */
  datatype Box = Box(lo: Px, hi: Px)

  predicate Within(p: Px, b: Box) {
    b.lo.x <= p.x <= b.hi.x && b.lo.y <= p.y <= b.hi.y
  }

  /** `bounds_of`: the smallest box holding every point. The code starts
      from `*points.begin()`, so the set must not be empty. */
  ghost function BoundsOf(points: set<Px>): (b: Box)
    requires points != {}
    ensures forall p :: p in points ==> Within(p, b)
    decreases points
  {
    var p :| p in points;
    if points == {p} then
      assert forall q :: q in points ==> q == p;
      Box(p, p)
    else
      var r := BoundsOf(points - {p});
      assert forall q :: q in points ==> q == p || q in points - {p};
      Box(Px(Min(p.x, r.lo.x), Min(p.y, r.lo.y)), Px(Max(p.x, r.hi.x), Max(p.y, r.hi.y)))
  }

  /** The box is the smallest: every side touches a point. */
  lemma {:induction false} BoundsTight(points: set<Px>)
    requires points != {}
    ensures exists p :: p in points && p.x == BoundsOf(points).lo.x
    ensures exists p :: p in points && p.y == BoundsOf(points).lo.y
    ensures exists p :: p in points && p.x == BoundsOf(points).hi.x
    ensures exists p :: p in points && p.y == BoundsOf(points).hi.y
    decreases points
  {
    var b := BoundsOf(points);
    var p :| p in points && b == (if points == {p} then Box(p, p) else
      var r := BoundsOf(points - {p});
      Box(Px(Min(p.x, r.lo.x), Min(p.y, r.lo.y)), Px(Max(p.x, r.hi.x), Max(p.y, r.hi.y))));
    if points != {p} {
      var rest := points - {p};
      var r := BoundsOf(rest);
      assert b == Box(Px(Min(p.x, r.lo.x), Min(p.y, r.lo.y)), Px(Max(p.x, r.hi.x), Max(p.y, r.hi.y)));
      BoundsTight(rest);
      var a :| a in rest && a.x == r.lo.x;
      var c :| c in rest && c.y == r.lo.y;
      var d :| d in rest && d.x == r.hi.x;
      var e :| e in rest && e.y == r.hi.y;
      assert (p.x == b.lo.x || a.x == b.lo.x) && (p.y == b.lo.y || c.y == b.lo.y);
      assert (p.x == b.hi.x || d.x == b.hi.x) && (p.y == b.hi.y || e.y == b.hi.y);
    }
  }

  /** `outset_box`: every side pushed out by `n`. */
  function Outset(b: Box, n: int): Box {
    Box(Px(b.lo.x - n, b.lo.y - n), Px(b.hi.x + n, b.hi.y + n))
  }

  /** `neighbors`: the 3×3 block around `p`, row by row, `p` in the
      middle. */
  function Neighbors(p: Px): (r: seq<Px>)
    ensures |r| == 9 && r[4] == p
    ensures forall i :: 0 <= i < 9 ==> r[i] == Px(p.x + i % 3 - 1, p.y + i / 3 - 1)
  {
    [Px(p.x - 1, p.y - 1), Px(p.x, p.y - 1), Px(p.x + 1, p.y - 1),
     Px(p.x - 1, p.y), Px(p.x, p.y), Px(p.x + 1, p.y),
     Px(p.x - 1, p.y + 1), Px(p.x, p.y + 1), Px(p.x + 1, p.y + 1)]
  }

  /** Outset by n, a box holds the neighbourhood of every point within
      n - 1 of the original box; a point outside the box outset by 1 has no
      neighbour inside the box. */
  lemma OutsetHoldsNeighbors(b: Box, n: int, p: Px)
    requires n >= 1
    ensures Within(p, Outset(b, n - 1)) ==> forall i :: 0 <= i < 9 ==> Within(Neighbors(p)[i], Outset(b, n))
    ensures !Within(p, Outset(b, 1)) ==> forall i :: 0 <= i < 9 ==> !Within(Neighbors(p)[i], b)
  {
  }

  // ---------------------------------------------------------------------
  // Pixel indices

  /** The neighbourhood as bits, first neighbour first. */
  function PixelBits(p: Px, points: set<Px>): (bits: seq<nat>)
    ensures |bits| == 9 && IsBits(bits)
  {
    seq(9, i requires 0 <= i < 9 => Bit(Neighbors(p)[i] in points))
  }

  function PixelIndex(p: Px, points: set<Px>): nat {
    Value(PixelBits(p, points))
  }

  /** `pixel_value`: shift left and or in a 1 for every lit neighbour. */
  method PixelValue(p: Px, points: set<Px>) returns (value: nat)
    ensures value == PixelIndex(p, points)
  {
    var ns := Neighbors(p);
    ghost var bits := PixelBits(p, points);
    value := 0;
    var i := 0;
    while i < 9
      invariant 0 <= i <= 9
      invariant value == Value(bits[..i])
    {
      assert bits[..i + 1][..i] == bits[..i];
      value := 2 * value;
      if ns[i] in points {
        value := value + 1;
      }
      i := i + 1;
    }
    assert bits[..9] == bits;
  }

  lemma Pow2Is512()
    ensures Pow2(9) == 512 && Pow2(8) == 256
  {
  }

  /** The index fits the rule string, and bit 8 - i of it is set exactly
      when neighbour i is in the set. */
  lemma PixelIndexBits(p: Px, points: set<Px>, i: nat)
    requires i < 9
    ensures PixelIndex(p, points) < 512
    ensures PixelIndex(p, points) / Pow2(8 - i) % 2 == 1 <==> Neighbors(p)[i] in points
  {
    Pow2Is512();
    ValueBound(PixelBits(p, points));
    ValueBit(PixelBits(p, points), i);
  }

  /** The index used in step `iteration`: on odd steps the low nine bits
      of its complement (`~pixel_index & 0x1ff`). */
  function Index(p: Px, points: set<Px>, iteration: nat): (r: nat)
    ensures r < 512
  {
    Pow2Is512();
    ValueBound(PixelBits(p, points));
    if iteration % 2 == 1 then 511 - PixelIndex(p, points) else PixelIndex(p, points)
  }

  /** On odd steps the index is the one read off the complement of the
      set. */
  lemma OddIndexIsComplement(p: Px, points: set<Px>, iteration: nat)
    requires iteration % 2 == 1
    ensures Index(p, points, iteration) == Value(seq(9, i requires 0 <= i < 9 => Bit(Neighbors(p)[i] !in points)))
  {
    var bits := PixelBits(p, points);
    Pow2Is512();
    ValueComplement(bits);
    assert Flip(bits) == seq(9, i requires 0 <= i < 9 => Bit(Neighbors(p)[i] !in points));
  }

  // ---------------------------------------------------------------------
  // Enhancement

  /** The pixels one step scans: the bounding box outset by 4, upper
      bounds excluded. */
  predicate Scanned(p: Px, b: Box) {
    b.lo.x <= p.x < b.hi.x && b.lo.y <= p.y < b.hi.y
  }

  /** The character a scanned pixel must map to in order to be kept. */
  function Check(iteration: nat): char {
    if iteration % 2 == 1 then '#' else '.'
  }

  /** One pass of the `while (iterations < 50)` loop. */
  ghost function Enhance(rules: string, current: set<Px>, iteration: nat): set<Px>
    requires |rules| == 512 && current != {}
  {
    var b := Outset(BoundsOf(current), 4);
    set x: int, y: int | b.lo.x <= x < b.hi.x && b.lo.y <= y < b.hi.y
      && rules[Index(Px(x, y), current, iteration)] == Check(iteration) :: Px(x, y)
  }

  /** A pixel the pass keeps: scanned, and mapped to the checked
      character. */
  ghost predicate Kept(rules: string, current: set<Px>, iteration: nat, p: Px)
    requires |rules| == 512 && current != {}
  {
    Scanned(p, Outset(BoundsOf(current), 4)) && rules[Index(p, current, iteration)] == Check(iteration)
  }

  lemma EnhanceMember(rules: string, current: set<Px>, iteration: nat, p: Px)
    requires |rules| == 512 && current != {}
    ensures p in Enhance(rules, current, iteration) <==> Kept(rules, current, iteration, p)
  {
    if Scanned(p, Outset(BoundsOf(current), 4)) && rules[Index(p, current, iteration)] == Check(iteration) {
      assert p == Px(p.x, p.y);
    }
  }

  /** The passes from step `from` up to step `to`; `None` where a pass
      would start from an empty set, whose bounds the code reads from
      `begin()` of an empty container. */
  ghost function Run(rules: string, current: set<Px>, from: nat, to: nat): Option<set<Px>>
    requires |rules| == 512
    decreases if from <= to then to - from else 0
  {
    if from >= to then Some(current)
    else if current == {} then None
    else Run(rules, Enhance(rules, current, from), from + 1, to)
  }

  /** The number of passes `part1` makes. */
  function Passes(): nat { 50 }

  /** The set after the 50 passes. */
  ghost function Final(rules: string, points: set<Px>): Option<set<Px>>
    requires |rules| == 512
  {
    Run(rules, points, 0, Passes())
  }

  /** `part1`: the size of the set after 50 passes. */
  ghost function Part1(rules: string, points: set<Px>): Option<nat>
    requires |rules| == 512
  {
    match Final(rules, points)
    case None => None
    case Some(s) => Some(|s|)
  }

  // ---------------------------------------------------------------------
  // The infinite image

  /** Whether pixel `p` of the infinite image is lit after `k` steps: at
      first exactly the given points are lit, then each pixel follows the
      rule its neighbourhood selects. */
  ghost predicate Lit(rules: string, points: set<Px>, k: nat, p: Px)
    requires |rules| == 512
    decreases k, 0
  {
    if k == 0 then p in points else rules[LitIndex(rules, points, k - 1, p)] == '#'
  }

  ghost function LitBits(rules: string, points: set<Px>, k: nat, p: Px): (bits: seq<nat>)
    requires |rules| == 512
    ensures |bits| == 9 && IsBits(bits)
    decreases k, 1
  {
    seq(9, i requires 0 <= i < 9 => Bit(Lit(rules, points, k, Neighbors(p)[i])))
  }

  ghost function LitIndex(rules: string, points: set<Px>, k: nat, p: Px): (r: nat)
    requires |rules| == 512
    ensures r < 512
    decreases k, 2
  {
    Pow2Is512();
    ValueBound(LitBits(rules, points, k, p));
    Value(LitBits(rules, points, k, p))
  }

  /** The rule strings the alternating trick is meant for: lit for an
      all-dark neighbourhood and dark for an all-lit one, and nothing but
      '#' and '.'. */
  predicate Flashing(rules: string) {
    |rules| == 512 && rules[0] == '#' && rules[511] == '.'
    && forall i :: 0 <= i < 512 ==> rules[i] == '#' || rules[i] == '.'
  }

  /** After step `k` the set holds the lit pixels when `k` is even and the
      dark ones when `k` is odd. */
  ghost predicate Tracks(rules: string, points: set<Px>, k: nat, current: set<Px>)
    requires |rules| == 512
  {
    forall p :: p in current <==> Lit(rules, points, k, p) != (k % 2 == 1)
  }

  /** Inside the scanned box the code's index is the infinite image's. */
  lemma IndexIsLitIndex(rules: string, points: set<Px>, k: nat, current: set<Px>, p: Px)
    requires |rules| == 512 && Tracks(rules, points, k, current)
    ensures Index(p, current, k) == LitIndex(rules, points, k, p)
  {
    var bits := PixelBits(p, current);
    var lit := LitBits(rules, points, k, p);
    if k % 2 == 1 {
      OddIndexIsComplement(p, current, k);
      assert seq(9, i requires 0 <= i < 9 => Bit(Neighbors(p)[i] !in current)) == lit;
    } else {
      assert bits == lit;
    }
  }

  /** Outside the scanned box no neighbour is kept, so the pixel takes the
      background's next colour. */
  lemma OutsideIsBackground(rules: string, points: set<Px>, k: nat, current: set<Px>, p: Px)
    requires Flashing(rules) && current != {} && Tracks(rules, points, k, current)
    requires !Scanned(p, Outset(BoundsOf(current), 4))
    ensures Lit(rules, points, k + 1, p) == (k % 2 == 0)
  {
    var b := BoundsOf(current);
    assert !Within(p, Outset(b, 1));
    OutsetHoldsNeighbors(b, 1, p);
    var lit := LitBits(rules, points, k, p);
    forall i | 0 <= i < 9 ensures Neighbors(p)[i] !in current {
      assert !Within(Neighbors(p)[i], b);
    }
    if k % 2 == 0 {
      forall i | 0 <= i < 9 ensures lit[i] == 0 {
        assert Neighbors(p)[i] !in current;
      }
      ValueZero(lit);
    } else {
      forall i | 0 <= i < 9 ensures lit[i] == 1 {
        assert Neighbors(p)[i] !in current;
      }
      ValueOnes(lit);
      Pow2Is512();
    }
  }

  lemma ScannedTracks(rules: string, points: set<Px>, k: nat, current: set<Px>, p: Px)
    requires Flashing(rules) && current != {} && Tracks(rules, points, k, current)
    requires Scanned(p, Outset(BoundsOf(current), 4))
    ensures Kept(rules, current, k, p) <==> (rules[LitIndex(rules, points, k, p)] == '#') != ((k + 1) % 2 == 1)
  {
    IndexIsLitIndex(rules, points, k, current, p);
  }

  /** Every pixel is kept exactly when its colour in the infinite image
      differs from the next background colour. */
  lemma KeptTracks(rules: string, points: set<Px>, k: nat, current: set<Px>, p: Px)
    requires Flashing(rules) && current != {} && Tracks(rules, points, k, current)
    ensures Kept(rules, current, k, p) <==> Lit(rules, points, k + 1, p) != ((k + 1) % 2 == 1)
  {
    if Scanned(p, Outset(BoundsOf(current), 4)) {
      ScannedTracks(rules, points, k, current, p);
      assert Lit(rules, points, k + 1, p) == (rules[LitIndex(rules, points, k, p)] == '#');
    } else {
      OutsideIsBackground(rules, points, k, current, p);
    }
  }

  /** One pass keeps the alternation: from the lit pixels it computes the
      dark ones, and from the dark ones the lit ones. */
  lemma EnhanceTracks(rules: string, points: set<Px>, k: nat, current: set<Px>)
    requires Flashing(rules) && current != {} && Tracks(rules, points, k, current)
    ensures Tracks(rules, points, k + 1, Enhance(rules, current, k))
  {
    forall p ensures p in Enhance(rules, current, k) <==> Lit(rules, points, k + 1, p) != ((k + 1) % 2 == 1) {
      EnhanceMember(rules, current, k, p);
      KeptTracks(rules, points, k, current, p);
    }
  }

  /** At the start the set holds the lit pixels. */
  lemma TracksStart(rules: string, points: set<Px>)
    requires |rules| == 512
    ensures Tracks(rules, points, 0, points)
  {
    forall p ensures Lit(rules, points, 0, p) == (p in points) {
    }
  }

  lemma {:induction false} RunTracks(rules: string, points: set<Px>, current: set<Px>, from: nat, to: nat)
    requires Flashing(rules) && from <= to && Tracks(rules, points, from, current)
    ensures Run(rules, current, from, to).Some? ==> Tracks(rules, points, to, Run(rules, current, from, to).value)
    decreases (to as int) - from
  {
    if from < to && current != {} {
      var next := Enhance(rules, current, from);
      assert Run(rules, current, from, to) == Run(rules, next, from + 1, to);
      EnhanceTracks(rules, points, from, current);
      RunTracks(rules, points, next, from + 1, to);
    }
  }

  /** After an even number of passes the set is exactly the lit pixels
      of the infinite image. */
  lemma RunCountsLit(rules: string, points: set<Px>, to: nat)
    requires Flashing(rules) && to % 2 == 0
    ensures Run(rules, points, 0, to).Some? ==>
      forall p :: p in Run(rules, points, 0, to).value <==> Lit(rules, points, to, p)
  {
    TracksStart(rules, points);
    RunTracks(rules, points, points, 0, to);
  }

  /** For the rule strings it is meant for, the set whose size `part1`
      reports holds exactly the lit pixels of the infinite image after 50
      steps. */
  lemma Part1CountsLit(rules: string, points: set<Px>)
    requires Flashing(rules)
    ensures Final(rules, points).Some? ==>
      forall p :: p in Final(rules, points).value <==> Lit(rules, points, Passes(), p)
  {
    RunCountsLit(rules, points, Passes());
  }
}
