/** Transparent origami (day 13). The dots are a set of points; a fold
    along `y = k` (stored as a point with `y = k`) mirrors every dot below
    the line onto the part above it, and a fold along `x = k` (stored with
    `y = 0`) mirrors every dot right of the line onto the left part. */
module Origami {
  datatype Dot = Dot(x: int, y: int)

  /** A fold line: `fold.y != 0` means along `y = fold.y`, otherwise along
      `x = fold.x`. */
  predicate AlongY(fold: Dot) {
    fold.y != 0
  }

  /** The image of one dot under the fold, as in the loop body of
      `fold_points`. */
  function FoldDot(p: Dot, fold: Dot): (q: Dot)
    ensures Kept(q, fold)
    ensures AlongY(fold) ==> q.x == p.x
    ensures !AlongY(fold) ==> q.y == p.y
  {
    if AlongY(fold) then
      if p.y > fold.y then Dot(p.x, fold.y - (p.y - fold.y)) else p
    else
      if p.x > fold.x then Dot(fold.x - (p.x - fold.x), p.y) else p
  }

  /** The mirror image of a dot in the fold line. */
  function Mirror(p: Dot, fold: Dot): Dot {
    if AlongY(fold) then Dot(p.x, 2 * fold.y - p.y) else Dot(2 * fold.x - p.x, p.y)
  }

  /** The dot lies on the kept side of the line (or on it). */
  predicate Kept(p: Dot, fold: Dot) {
    if AlongY(fold) then p.y <= fold.y else p.x <= fold.x
  }

  /** `fold_points`: the set of images of every dot. */
  function FoldPoints(points: set<Dot>, fold: Dot): (r: set<Dot>)
    ensures forall q :: q in r ==> Kept(q, fold)
  {
    set p | p in points :: FoldDot(p, fold)
  }

  /** Folded paper read off the sheet: a dot shows on the kept side exactly
      when it was there or its mirror image was; nothing shows beyond the
      line. */
  lemma FoldPointsShows(points: set<Dot>, fold: Dot, q: Dot)
    ensures q in FoldPoints(points, fold) <==> Kept(q, fold) && (q in points || Mirror(q, fold) in points)
  {
    if Kept(q, fold) && Mirror(q, fold) in points {
      var p := Mirror(q, fold);
      assert FoldDot(p, fold) == q;
    }
    if q in FoldPoints(points, fold) {
      var p :| p in points && FoldDot(p, fold) == q;
      assert p == q || p == Mirror(q, fold);
    }
  }

  /** Dots on the kept side do not move. */
  lemma FoldDotKept(p: Dot, fold: Dot)
    requires Kept(p, fold)
    ensures FoldDot(p, fold) == p
  {
  }

  /** The image of a set under any map has no more elements than the set. */
  lemma {:induction false} ImageNoLarger(points: set<Dot>, fold: Dot)
    ensures |FoldPoints(points, fold)| <= |points|
    decreases |points|
  {
    if points != {} {
      var p :| p in points;
      var rest := points - {p};
      ImageNoLarger(rest, fold);
      assert FoldPoints(points, fold) == FoldPoints(rest, fold) + {FoldDot(p, fold)};
    }
  }

  /** Folding twice along the same line changes nothing more. */
  lemma FoldIdempotent(points: set<Dot>, fold: Dot)
    ensures FoldPoints(FoldPoints(points, fold), fold) == FoldPoints(points, fold)
  {
    var once := FoldPoints(points, fold);
    forall q ensures q in FoldPoints(once, fold) <==> q in once {
      if q in FoldPoints(once, fold) {
        var p :| p in once && FoldDot(p, fold) == q;
        FoldDotKept(p, fold);
      }
      if q in once {
        FoldDotKept(q, fold);
      }
    }
  }

  /** `part1`: the number of dots after the first fold. */
  function Part1(points: set<Dot>, folds: seq<Dot>): (r: nat)
    requires |folds| > 0
    ensures r <= |points|
  {
    ImageNoLarger(points, folds[0]);
    |FoldPoints(points, folds[0])|
  }

  /** The loop of `part2`: every fold in order. */
  function FoldAll(points: set<Dot>, folds: seq<Dot>): (r: set<Dot>)
    decreases |folds|
  {
    if folds == [] then points else FoldAll(FoldPoints(points, folds[0]), folds[1..])
  }

  /** Folding never adds dots. */
  lemma {:induction false} FoldAllNoLarger(points: set<Dot>, folds: seq<Dot>)
    ensures |FoldAll(points, folds)| <= |points|
    decreases |folds|
  {
    if folds != [] {
      ImageNoLarger(points, folds[0]);
      FoldAllNoLarger(FoldPoints(points, folds[0]), folds[1..]);
    }
  }

  /** After all the folds every dot lies on the kept side of the last
      line. */
  lemma {:induction false} FoldAllKeptByLast(points: set<Dot>, folds: seq<Dot>)
    requires |folds| > 0
    ensures forall q :: q in FoldAll(points, folds) ==> Kept(q, folds[|folds| - 1])
    decreases |folds|
  {
    if |folds| > 1 {
      FoldAllKeptByLast(FoldPoints(points, folds[0]), folds[1..]);
    }
  }
}
