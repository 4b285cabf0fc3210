/** The treachery of whales (day 7). Crabs at horizontal positions must
    line up at one position. In `part1` a move of d costs d, and the code
    aligns on the median of the sorted positions; in `part2` a move of d
    costs d(d+1)/2, and the code tries the floor of the mean and the next
    position up. Both choices are optimal. */
module Crabs {
  import opened Arith

  // ---------------------------------------------------------------------
  // Sorting

  /** Ascending: each position is at least its predecessor. */
  predicate Sorted(s: seq<int>) {
    forall i :: 0 < i < |s| ==> s[i - 1] <= s[i]
  }

  lemma {:induction false} SortedLe(s: seq<int>, i: nat, j: nat)
    requires Sorted(s) && i <= j < |s|
    ensures s[i] <= s[j]
    decreases j - i
  {
    if i < j {
      SortedLe(s, i + 1, j);
    }
  }

  /** `x` inserted into a sorted sequence. */
  function Insert(x: nat, s: seq<nat>): (r: seq<nat>)
    requires Sorted(s)
    ensures |r| == |s| + 1 && (r[0] == x || (|s| > 0 && r[0] == s[0]))
    ensures Sorted(r)
    ensures multiset(r) == multiset(s) + multiset{x}
  {
    if s == [] || x <= s[0] then [x] + s
    else
      var rest := Insert(x, s[1..]);
      assert s == [s[0]] + s[1..];
      assert |s| > 1 ==> s[0] <= s[1];
      [s[0]] + rest
  }

  /** `std::sort`: the positions in ascending order. */
  function Sort(xs: seq<nat>): (r: seq<nat>)
    ensures |r| == |xs| && Sorted(r) && multiset(r) == multiset(xs)
  {
    if xs == [] then []
    else
      assert xs == [xs[0]] + xs[1..];
      Insert(xs[0], Sort(xs[1..]))
  }

  // ---------------------------------------------------------------------
  // Part 1: constant cost per step

  /** The fuel for every crab to move to `p` at one unit per step. */
  function Cost(cs: seq<nat>, p: int): nat {
    if cs == [] then 0 else Abs(cs[0] - p) + Cost(cs[1..], p)
  }

  lemma {:induction false} CostAppend(a: seq<nat>, b: seq<nat>, p: int)
    ensures Cost(a + b, p) == Cost(a, p) + Cost(b, p)
  {
    if a == [] {
      assert a + b == b;
    } else {
      assert (a + b)[1..] == a[1..] + b;
      CostAppend(a[1..], b, p);
    }
  }

  /** Taking one crab out of the sequence takes its own cost out. */
  lemma CostRemove(b: seq<nat>, k: nat, p: int)
    requires k < |b|
    ensures Cost(b, p) == Abs(b[k] - p) + Cost(b[..k] + b[k + 1..], p)
    ensures multiset(b[..k] + b[k + 1..]) == multiset(b) - multiset{b[k]}
  {
    assert b == b[..k] + ([b[k]] + b[k + 1..]);
    assert multiset(b) == multiset(b[..k]) + multiset{b[k]} + multiset(b[k + 1..]);
    CostAppend(b[..k], [b[k]] + b[k + 1..], p);
    CostAppend(b[..k], b[k + 1..], p);
  }

  /** The cost does not depend on the order of the crabs. */
  lemma {:induction false} CostPermutation(a: seq<nat>, b: seq<nat>, p: int)
    requires multiset(a) == multiset(b)
    ensures Cost(a, p) == Cost(b, p)
    decreases |a|
  {
    if a != [] {
      assert a[0] in multiset(b);
      var k :| 0 <= k < |b| && b[k] == a[0];
      var b' := b[..k] + b[k + 1..];
      CostRemove(b, k, p);
      assert a == [a[0]] + a[1..];
      assert multiset(a[1..]) == multiset(b');
      CostPermutation(a[1..], b', p);
    }
  }

  /** The cost of the two outermost crabs plus the rest. */
  lemma CostEnds(s: seq<nat>, p: int)
    requires |s| >= 2
    ensures Cost(s, p) == Abs(s[0] - p) + Abs(s[|s| - 1] - p) + Cost(s[1..|s| - 1], p)
  {
    var mid := s[1..|s| - 1];
    assert s == [s[0]] + (mid + [s[|s| - 1]]);
    assert s[1..] == mid + [s[|s| - 1]];
    CostAppend(mid, [s[|s| - 1]], p);
  }

  /** Between two crabs the cost of the pair is their distance, and
      nowhere is it less. */
  lemma PairCheapest(a: int, b: int, m: int, p: int)
    requires a <= m <= b
    ensures Abs(a - m) + Abs(b - m) <= Abs(a - p) + Abs(b - p)
  {
  }

  /** Dropping both ends keeps the order and the medians. */
  lemma InnerMedian(s: seq<nat>)
    requires Sorted(s) && |s| >= 3
    ensures var mid := s[1..|s| - 1];
      Sorted(mid) && mid[(|mid| - 1) / 2] == s[(|s| - 1) / 2] && mid[|mid| / 2] == s[|s| / 2]
  {
    var n := |s|;
    assert (n - 3) / 2 + 1 == (n - 1) / 2 && (n - 2) / 2 + 1 == n / 2;
  }

  /** Any point between the lower and the upper median of a sorted
      sequence costs no more than any other point. */
  lemma {:induction false} MedianIsCheapest(s: seq<nat>, m: int, p: int)
    requires Sorted(s) && |s| > 0
    requires s[(|s| - 1) / 2] <= m <= s[|s| / 2]
    ensures Cost(s, m) <= Cost(s, p)
    decreases |s|
  {
    if |s| >= 2 {
      var mid := s[1..|s| - 1];
      CostEnds(s, m);
      CostEnds(s, p);
      SortedLe(s, 0, (|s| - 1) / 2);
      SortedLe(s, |s| / 2, |s| - 1);
      PairCheapest(s[0], s[|s| - 1], m, p);
      if |mid| > 0 {
        InnerMedian(s);
        MedianIsCheapest(mid, m, p);
      }
    }
  }

  /** `part1`: the cost of aligning on `sorted[n / 2]`. */
  function Part1(crabs: seq<nat>): nat
    requires |crabs| > 0
  {
    var sorted := Sort(crabs);
    Cost(sorted, sorted[|sorted| / 2])
  }

  /** The median position is the cheapest one, as the code's comment
      says. */
  lemma Part1IsOptimal(crabs: seq<nat>, p: int)
    requires |crabs| > 0
    ensures Part1(crabs) <= Cost(crabs, p)
    ensures exists q :: Part1(crabs) == Cost(crabs, q)
  {
    var sorted := Sort(crabs);
    var m := sorted[|sorted| / 2];
    MedianIsCheapest(sorted, m, p);
    CostPermutation(sorted, crabs, p);
    CostPermutation(sorted, crabs, m);
  }

  // ---------------------------------------------------------------------
  // Part 2: growing cost per step

  /** The Gaussian sum 1 + 2 + ... + d. */
  function Tri(d: nat): nat {
    if d == 0 then 0 else d + Tri(d - 1)
  }

  /** It is the code's closed form d(d+1)/2. */
  lemma {:induction false} TriIsGauss(d: nat)
    ensures Tri(d) == d * (d + 1) / 2
  {
    if d > 0 {
      TriIsGauss(d - 1);
      assert d * (d + 1) == (d - 1) * d + 2 * d;
    }
  }

  /** `fuel_expense`: moving d costs d(d+1)/2 for every crab. */
  function FuelExpense(pos: int, crabs: seq<nat>): nat {
    if crabs == [] then 0 else Tri(Abs(crabs[0] - pos)) + FuelExpense(pos, crabs[1..])
  }

  /** No fuel is spent exactly when every crab is already at `pos`. */
  lemma {:induction false} FuelExpenseZero(pos: int, crabs: seq<nat>)
    ensures FuelExpense(pos, crabs) == 0 <==> forall i :: 0 <= i < |crabs| ==> crabs[i] == pos
  {
    if crabs != [] {
      FuelExpenseZero(pos, crabs[1..]);
      assert forall i :: 1 <= i < |crabs| ==> crabs[i] == crabs[1..][i - 1];
    }
  }

  /** The number of crabs at or left of `p`. */
  function AtMost(crabs: seq<nat>, p: int): nat {
    if crabs == [] then 0 else (if crabs[0] <= p then 1 else 0) + AtMost(crabs[1..], p)
  }

  lemma {:induction false} AtMostBound(crabs: seq<nat>, p: int)
    ensures AtMost(crabs, p) <= |crabs|
  {
    if crabs != [] {
      AtMostBound(crabs[1..], p);
    }
  }

  /** `n` copies of `p` added up. */
  function Times(n: nat, p: int): int {
    if n == 0 then 0 else p + Times(n - 1, p)
  }

  lemma {:induction false} TimesIsMul(n: nat, p: int)
    ensures Times(n, p) == n * p
  {
    if n > 0 {
      TimesIsMul(n - 1, p);
    }
  }

  lemma {:induction false} TimesMono(n: nat, a: int, b: int)
    requires a <= b
    ensures Times(n, a) <= Times(n, b)
  {
    if n > 0 {
      TimesMono(n - 1, a, b);
    }
  }

  lemma {:induction false} TimesNext(n: nat, a: int)
    ensures Times(n, a + 1) == Times(n, a) + n
  {
    if n > 0 {
      TimesNext(n - 1, a);
    }
  }

  /** Moving the meeting point one step right changes the fuel by
      n·p − total + (crabs at or left of p). */
  lemma {:induction false} FuelStep(crabs: seq<nat>, p: int)
    ensures FuelExpense(p + 1, crabs) - FuelExpense(p, crabs) == Times(|crabs|, p) - Sum(crabs) + AtMost(crabs, p)
  {
    if crabs != [] {
      FuelStep(crabs[1..], p);
      var c := crabs[0];
      if c <= p {
        assert Tri(p + 1 - c) == p + 1 - c + Tri(p - c);
      } else {
        assert Tri(c - p) == c - p + Tri(c - p - 1);
      }
    }
  }

  /** The floored mean `q`: n·q <= total < n·(q + 1). */
  lemma FloorMean(crabs: seq<nat>, q: int)
    requires |crabs| > 0 && q == Sum(crabs) / |crabs|
    ensures Times(|crabs|, q) <= Sum(crabs) < Times(|crabs|, q) + |crabs|
  {
    TimesIsMul(|crabs|, q);
  }

  /** Left of the floored mean the fuel never goes up as the point moves
      right. */
  lemma {:induction false} FuelFallsToMean(crabs: seq<nat>, p: int, q: int)
    requires |crabs| > 0 && q == Sum(crabs) / |crabs| && p <= q
    ensures FuelExpense(q, crabs) <= FuelExpense(p, crabs)
    decreases q - p
  {
    if p < q {
      FuelStep(crabs, p);
      AtMostBound(crabs, p);
      TimesMono(|crabs|, p, q - 1);
      TimesNext(|crabs|, q - 1);
      FloorMean(crabs, q);
      FuelFallsToMean(crabs, p + 1, q);
    }
  }

  /** Right of the floored mean plus one the fuel never goes down as the
      point moves right. */
  lemma {:induction false} FuelRisesFromMean(crabs: seq<nat>, p: int, q: int)
    requires |crabs| > 0 && q == Sum(crabs) / |crabs| && q + 1 <= p
    ensures FuelExpense(q + 1, crabs) <= FuelExpense(p, crabs)
    decreases p - q
  {
    if q + 1 < p {
      FuelStep(crabs, p - 1);
      TimesMono(|crabs|, q + 1, p - 1);
      TimesNext(|crabs|, q);
      FloorMean(crabs, q);
      FuelRisesFromMean(crabs, p - 1, q);
    }
  }

  /** `part2`: the cheaper of the floored mean and the next position. */
  function Part2(crabs: seq<nat>): nat
    requires |crabs| > 0
  {
    SumNonNegative(crabs);
    var average := Sum(crabs) / |crabs|;
    Min(FuelExpense(average, crabs), FuelExpense(average + 1, crabs))
  }

  /** Trying only the floored mean and the next position finds the
      cheapest meeting point. */
  lemma Part2IsOptimal(crabs: seq<nat>, p: int)
    requires |crabs| > 0
    ensures Part2(crabs) <= FuelExpense(p, crabs)
  {
    var q := Sum(crabs) / |crabs|;
    if p <= q {
      FuelFallsToMean(crabs, p, q);
    } else {
      FuelRisesFromMean(crabs, p, q);
    }
  }
}
