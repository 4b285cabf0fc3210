/** Day 18's snailfish numbers: binary trees of regular numbers, reduced by
    exploding the leftmost pair nested inside four pairs and splitting the
    leftmost regular number above 9. The source mutates a pointer tree in
    place; here every step returns a new tree. */
module Snailfish {
  import opened Wrappers
  import opened Arith

  /** `value_t` (a regular number) and `pair_t`. */
  datatype Node = Leaf(value: int) | Pair(left: Node, right: Node)

  /** `in_order`: the regular numbers from left to right. */
  function InOrder(n: Node): (xs: seq<int>)
    ensures |xs| >= 1
  {
    match n
    case Leaf(v) => [v]
    case Pair(l, r) => InOrder(l) + InOrder(r)
  }

  /** `max_depth`: the number of pairs on the longest path to a leaf. */
  function MaxDepth(n: Node): nat {
    match n
    case Leaf(_) => 0
    case Pair(l, r) => Max(MaxDepth(l), MaxDepth(r)) + 1
  }

  /** A tree of depth `d` has at most 2^d regular numbers, and a pair has at
      least two. */
  lemma {:induction false} LeavesBound(n: Node)
    ensures |InOrder(n)| <= Pow2(MaxDepth(n))
    ensures n.Pair? ==> |InOrder(n)| >= 2
  {
    if n.Pair? {
      LeavesBound(n.left);
      LeavesBound(n.right);
      Pow2Mono(MaxDepth(n.left), MaxDepth(n) - 1);
      Pow2Mono(MaxDepth(n.right), MaxDepth(n) - 1);
    }
  }

  lemma Pow2Mono(a: nat, b: nat)
    requires a <= b
    ensures Pow2(a) <= Pow2(b)
  {
    if a < b {
      Pow2Mono(a, b - 1);
    }
  }

  // ---------------------------------------------------------------------
  // Locating regular numbers: `find`, `prev` and `next` over the in-order
  // list. The source compares node addresses; the model identifies a
  // regular number by its position in the list.

  /** `find`: the first index holding `x`, or the list's length. */
  function Find<T(==)>(order: seq<T>, x: T): (i: nat)
    ensures i <= |order|
    ensures i < |order| ==> order[i] == x
    ensures forall j :: 0 <= j < i ==> order[j] != x
  {
    if order == [] then 0
    else if order[0] == x then 0
    else 1 + Find(order[1..], x)
  }

  /** In a list without repeats, `find` recovers an element's index. */
  lemma {:induction false} FindDistinct<T>(order: seq<T>, i: nat)
    requires i < |order|
    requires forall j, k :: 0 <= j < k < |order| ==> order[j] != order[k]
    ensures Find(order, order[i]) == i
  {
  }

  /** `prev`: the index before `i`, if `i` is a valid index past the first. */
  function Prev(i: nat, size: nat): (r: Option<nat>)
    ensures r.Some? <==> 0 < i < size
    ensures r.Some? ==> r.value + 1 == i
  {
    if 0 < i < size then Some(i - 1) else None
  }

  /** `next`: the index after `i`, if there is one. The source compares
      with `order.size() - 1`, which is safe since every tree has at least
      one regular number. */
  function Next(i: nat, size: nat): (r: Option<nat>)
    requires size > 0
    ensures r.Some? <==> i + 1 < size
    ensures r.Some? ==> r.value == i + 1
  {
    if i < size - 1 then Some(i + 1) else None
  }

  /** Adds `v` to the entry at `at`, if any. */
  function AddAt(xs: seq<int>, at: Option<nat>, v: int): (ys: seq<int>)
    ensures |ys| == |xs|
  {
    if at.Some? && at.value < |xs| then xs[at.value := xs[at.value] + v] else xs
  }

  /** The explosion of the pair whose regular numbers are `xs[i]` and
      `xs[i + 1]`, stated on the in-order list as the source performs it:
      the left number is added to the entry `prev` finds, the right number
      to the entry `next` finds, and the two are replaced by a single 0. */
  function ExplodeList(xs: seq<int>, i: nat): (ys: seq<int>)
    requires i + 1 < |xs|
    ensures |ys| == |xs| - 1
  {
    var added := AddAt(AddAt(xs, Prev(i, |xs|), xs[i]), Next(i + 1, |xs|), xs[i + 1]);
    added[..i] + [0] + added[i + 2..]
  }

  /** `v` added to the first or to the last entry; nothing for an empty
      list. */
  function AddFirst(xs: seq<int>, v: int): (ys: seq<int>)
    ensures |ys| == |xs|
  {
    if xs == [] then [] else [xs[0] + v] + xs[1..]
  }

  function AddLast(xs: seq<int>, v: int): (ys: seq<int>)
    ensures |ys| == |xs|
  {
    if xs == [] then [] else xs[..|xs| - 1] + [xs[|xs| - 1] + v]
  }

  /** The explosion performed on a list given as the part before the pair,
      the pair's two numbers, and the part after it. */
  lemma ExplodeListOfParts(p: seq<int>, x: int, y: int, s: seq<int>)
    ensures ExplodeList(p + [x, y] + s, |p|) == AddLast(p, x) + [0] + AddFirst(s, y)
  {
    var xs := p + [x, y] + s;
    var s1 := AddAt(xs, Prev(|p|, |xs|), x);
    var s2 := AddAt(s1, Next(|p| + 1, |xs|), y);
    PrevAddsToLast(p, x, y, s);
    NextAddsToFirst(AddLast(p, x), x, y, s);
    assert s1 == AddLast(p, x) + [x, y] + s;
    assert s2 == AddLast(p, x) + [x, y] + AddFirst(s, y);
    SpliceOut(AddLast(p, x), x, y, AddFirst(s, y));
  }

  lemma PrevAddsToLast(p: seq<int>, x: int, y: int, s: seq<int>)
    ensures var xs := p + [x, y] + s;
      AddAt(xs, Prev(|p|, |xs|), x) == AddLast(p, x) + [x, y] + s
  {
    if p != [] {
      var xs := p + [x, y] + s;
      assert xs[|p| - 1 := xs[|p| - 1] + x] == AddLast(p, x) + [x, y] + s;
    }
  }

  lemma NextAddsToFirst(q: seq<int>, x: int, y: int, s: seq<int>)
    ensures var xs := q + [x, y] + s;
      AddAt(xs, Next(|q| + 1, |xs|), y) == q + [x, y] + AddFirst(s, y)
  {
    if s != [] {
      var xs := q + [x, y] + s;
      assert xs[|q| + 2 := xs[|q| + 2] + y] == q + [x, y] + AddFirst(s, y);
    }
  }

  lemma SpliceOut(q: seq<int>, x: int, y: int, s: seq<int>)
    ensures var xs := q + [x, y] + s; xs[..|q|] + [0] + xs[|q| + 2..] == q + [0] + s
  {
    var xs := q + [x, y] + s;
    assert xs[..|q|] == q;
    assert xs[|q| + 2..] == s;
  }

  lemma AddFirstAppend(u: seq<int>, w: seq<int>, v: int)
    ensures |u| > 0 ==> AddFirst(u + w, v) == AddFirst(u, v) + w
    ensures AddFirst(w, 0) == w
  {
    if |u| > 0 {
      assert (u + w)[1..] == u[1..] + w;
    }
  }

  lemma AddLastAppend(u: seq<int>, w: seq<int>, v: int)
    ensures |w| > 0 ==> AddLast(u + w, v) == u + AddLast(w, v)
    ensures AddLast(u, 0) == u
  {
    if |w| > 0 {
      assert (u + w)[..|u + w| - 1] == u + w[..|w| - 1];
    }
  }

  // ---------------------------------------------------------------------
  // explode

  /** A pair that exploded below: the new subtree, and the amounts still
      to be added to the nearest regular number on its left and right. */
  datatype Exploded = Exploded(tree: Node, carryLeft: int, carryRight: int)

  /** The number a child contributes when its pair explodes: a regular
      number's value; a pair child is not a `value_t`, so `prev`/`next`
      find nothing for it and nothing is added. */
  function Contribution(n: Node): int {
    if n.Leaf? then n.value else 0
  }

  function AddLeftmost(n: Node, v: int): (r: Node)
    ensures InOrder(r) == AddFirst(InOrder(n), v)
    ensures MaxDepth(r) == MaxDepth(n)
  {
    match n
    case Leaf(x) => Leaf(x + v)
    case Pair(l, r) =>
      AddFirstAppend(InOrder(l), InOrder(r), v);
      Pair(AddLeftmost(l, v), r)
  }

  function AddRightmost(n: Node, v: int): (r: Node)
    ensures InOrder(r) == AddLast(InOrder(n), v)
    ensures MaxDepth(r) == MaxDepth(n)
  {
    match n
    case Leaf(x) => Leaf(x + v)
    case Pair(l, r) =>
      AddLastAppend(InOrder(l), InOrder(r), v);
      Pair(l, AddRightmost(r, v))
  }

  /** `explode(node, depth, order)`: the leftmost pair at depth 4 or more
      becomes 0 and hands its numbers to its neighbours; `None` when there
      is no such pair. */
  function ExplodeAt(n: Node, depth: nat): (r: Option<Exploded>)
    decreases n
  {
    match n
    case Leaf(_) => None
    case Pair(l, r) =>
      if depth < 4 then
        match ExplodeAt(l, depth + 1)
        case Some(e) => Some(Exploded(Pair(e.tree, AddLeftmost(r, e.carryRight)), e.carryLeft, 0))
        case None =>
          match ExplodeAt(r, depth + 1)
          case Some(e) => Some(Exploded(Pair(AddRightmost(l, e.carryLeft), e.tree), 0, e.carryRight))
          case None => None
      else Some(Exploded(Leaf(0), Contribution(l), Contribution(r)))
  }

  /** From depth 4 or less, an explosion happens exactly when some pair
      sits at depth 4 or more. */
  lemma {:induction false} ExplodeAtNoneIff(n: Node, depth: nat)
    requires depth <= 4
    ensures ExplodeAt(n, depth).None? <==> depth + MaxDepth(n) <= 4
    decreases n
  {
    if n.Pair? && depth < 4 {
      ExplodeAtNoneIff(n.left, depth + 1);
      ExplodeAtNoneIff(n.right, depth + 1);
    }
  }

  /** The in-order index of the left number of the leftmost pair at depth 4
      or more. */
  function DeepIndex(n: Node, depth: nat): (i: nat)
    requires depth + MaxDepth(n) > 4
    decreases n
  {
    if depth >= 4 then 0
    else if depth + 1 + MaxDepth(n.left) > 4 then DeepIndex(n.left, depth + 1)
    else |InOrder(n.left)| + DeepIndex(n.right, depth + 1)
  }

  /** The explosion below `depth` turns the in-order list `p + [x, y] + s`,
      where `x, y` is the leftmost deep pair, into `p` with `x` added to
      its last entry, then 0, then `s` with `y` added to its first entry; a
      carry is left over exactly when the pair has no neighbour on that
      side. */
  predicate ExplodesAs(n: Node, depth: nat, p: seq<int>, x: int, y: int, s: seq<int>)
    requires depth + MaxDepth(n) > 4
  {
    && InOrder(n) == p + [x, y] + s && |p| == DeepIndex(n, depth)
    && ExplodeAt(n, depth).Some?
    && var e := ExplodeAt(n, depth).value;
    && InOrder(e.tree) == AddLast(p, x) + [0] + AddFirst(s, y)
    && e.carryLeft == (if p == [] then x else 0)
    && e.carryRight == (if s == [] then y else 0)
  }

  /** On a tree no deeper than 5 levels below the root -- the shape
      `reduce` works on -- every pair at depth 4 holds two regular numbers,
      and the explosion is described by `ExplodesAs`. */
  lemma {:induction false} ExplodeAtLeaves(n: Node, depth: nat) returns (p: seq<int>, x: int, y: int, s: seq<int>)
    requires depth <= 4 && depth + MaxDepth(n) == 5
    ensures ExplodesAs(n, depth, p, x, y, s)
    decreases n
  {
    var l, r := n.left, n.right;
    if depth == 4 {
      p, x, y, s := ExplodeDeepPair(n, depth);
    } else if depth + 1 + MaxDepth(l) > 4 {
      var sl;
      p, x, y, sl := ExplodeAtLeaves(l, depth + 1);
      s := ExplodeLeftCase(n, depth, p, x, y, sl);
    } else {
      ExplodeAtNoneIff(l, depth + 1);
      var pr;
      pr, x, y, s := ExplodeAtLeaves(r, depth + 1);
      p := ExplodeRightCase(n, depth, pr, x, y, s);
    }
  }

  lemma ExplodeDeepPair(n: Node, depth: nat) returns (p: seq<int>, x: int, y: int, s: seq<int>)
    requires depth == 4 && depth + MaxDepth(n) == 5
    ensures ExplodesAs(n, depth, p, x, y, s)
  {
    assert MaxDepth(n.left) == 0 && MaxDepth(n.right) == 0;
    p, x, y, s := [], n.left.value, n.right.value, [];
  }

  lemma ExplodeLeftCase(n: Node, depth: nat, p: seq<int>, x: int, y: int, sl: seq<int>) returns (s: seq<int>)
    requires n.Pair? && depth < 4 && depth + 1 + MaxDepth(n.left) > 4
    requires ExplodesAs(n.left, depth + 1, p, x, y, sl)
    ensures ExplodesAs(n, depth, p, x, y, s)
  {
    var b := InOrder(n.right);
    s := sl + b;
    var e := ExplodeAt(n.left, depth + 1).value;
    ExplodeLeftParts(p, x, y, sl, b, e.carryRight);
    assert ExplodeAt(n, depth) == Some(Exploded(Pair(e.tree, AddLeftmost(n.right, e.carryRight)), e.carryLeft, 0));
  }

  lemma ExplodeRightCase(n: Node, depth: nat, pr: seq<int>, x: int, y: int, s: seq<int>) returns (p: seq<int>)
    requires n.Pair? && depth < 4 && depth + 1 + MaxDepth(n.left) <= 4
    requires depth + 1 + MaxDepth(n.right) > 4
    requires ExplodeAt(n.left, depth + 1).None?
    requires ExplodesAs(n.right, depth + 1, pr, x, y, s)
    ensures ExplodesAs(n, depth, p, x, y, s)
  {
    var a := InOrder(n.left);
    p := a + pr;
    var e := ExplodeAt(n.right, depth + 1).value;
    ExplodeRightParts(a, pr, x, y, s, e.carryLeft);
    assert ExplodeAt(n, depth) == Some(Exploded(Pair(AddRightmost(n.left, e.carryLeft), e.tree), 0, e.carryRight));
  }

  /** The list algebra of an explosion in a left subtree, followed by the
      delivery of its right carry to the right subtree. */
  lemma ExplodeLeftParts(p: seq<int>, x: int, y: int, sl: seq<int>, b: seq<int>, carry: int)
    requires carry == (if sl == [] then y else 0)
    ensures (p + [x, y] + sl) + b == p + [x, y] + (sl + b)
    ensures (AddLast(p, x) + [0] + AddFirst(sl, y)) + AddFirst(b, carry)
      == AddLast(p, x) + [0] + AddFirst(sl + b, y)
  {
    AddFirstAppend(sl, b, y);
    if sl == [] {
      assert sl + b == b;
    }
  }

  /** The list algebra of an explosion in a right subtree, followed by the
      delivery of its left carry to the left subtree. */
  lemma ExplodeRightParts(a: seq<int>, pr: seq<int>, x: int, y: int, s: seq<int>, carry: int)
    requires carry == (if pr == [] then x else 0)
    ensures a + (pr + [x, y] + s) == (a + pr) + [x, y] + s
    ensures AddLast(a, carry) + (AddLast(pr, x) + [0] + AddFirst(s, y))
      == AddLast(a + pr, x) + [0] + AddFirst(s, y)
  {
    AddLastAppend(a, pr, x);
    if pr == [] {
      assert a + pr == a;
    }
  }

  /** The tree-level `explode(root, 0, order)`. */
  function Explode(n: Node): (r: Option<Node>)
    ensures r.None? <==> MaxDepth(n) <= 4
  {
    ExplodeAtNoneIff(n, 0);
    match ExplodeAt(n, 0)
    case Some(e) => Some(e.tree)
    case None => None
  }

  /** On a tree of depth 5, `explode` performs `ExplodeList` on the
      in-order list at the leftmost deep pair; the carries that have no
      neighbour to go to are dropped. */
  lemma ExplodeLeaves(n: Node)
    requires MaxDepth(n) == 5
    ensures var xs, i := InOrder(n), DeepIndex(n, 0);
      i + 1 < |xs| && Explode(n).Some? && InOrder(Explode(n).value) == ExplodeList(xs, i)
  {
    var p, x, y, s := ExplodeAtLeaves(n, 0);
    ExplodeListOfParts(p, x, y, s);
  }

  // ---------------------------------------------------------------------
  // split

  /** The index of the first number above 9, or the list's length. */
  function FirstBig(xs: seq<int>): (i: nat)
    ensures i <= |xs|
    ensures i < |xs| ==> xs[i] > 9
    ensures forall j :: 0 <= j < i ==> xs[j] <= 9
  {
    if xs == [] then 0 else if xs[0] > 9 then 0 else 1 + FirstBig(xs[1..])
  }

  lemma {:induction false} FirstBigAppend(a: seq<int>, b: seq<int>)
    ensures FirstBig(a + b) == if FirstBig(a) < |a| then FirstBig(a) else |a| + FirstBig(b)
    decreases |a|
  {
    if a == [] {
      assert a + b == b;
    } else {
      assert (a + b)[1..] == a[1..] + b;
      FirstBigAppend(a[1..], b);
    }
  }

  /** `split`: the leftmost number above 9 becomes the pair of its halves
      rounded down and up; `None` (the source's `false`) when there is no
      such number. */
  function Split(n: Node): (r: Option<Node>)
    ensures r.None? <==> FirstBig(InOrder(n)) == |InOrder(n)|
    ensures r.Some? ==> MaxDepth(r.value) <= MaxDepth(n) + 1
  {
    match n
    case Leaf(v) =>
      if v > 9 then Some(Pair(Leaf(v / 2), Leaf((v + 1) / 2))) else None
    case Pair(l, r) =>
      FirstBigAppend(InOrder(l), InOrder(r));
      match Split(l)
      case Some(l') => Some(Pair(l', r))
      case None =>
        match Split(r)
        case Some(r') => Some(Pair(l, r'))
        case None => None
  }

  /** The halves `split` writes: together they make up the number, and
      differ by at most one. */
  lemma SplitHalves(v: int)
    requires v > 9
    ensures v / 2 + (v + 1) / 2 == v
    ensures 0 <= (v + 1) / 2 - v / 2 <= 1
  {
  }

  /** On the in-order list `p + [v] + s`, where `v` is the first number
      above 9, `split` puts the two halves of `v` in its place and keeps
      everything else. */
  predicate SplitsAs(n: Node, p: seq<int>, v: int, s: seq<int>) {
    && InOrder(n) == p + [v] + s && |p| == FirstBig(InOrder(n)) && v > 9
    && Split(n).Some?
    && InOrder(Split(n).value) == p + [v / 2, (v + 1) / 2] + s
  }

  lemma {:induction false} SplitLeaves(n: Node) returns (p: seq<int>, v: int, s: seq<int>)
    requires Split(n).Some?
    ensures SplitsAs(n, p, v, s)
  {
    match n
    case Leaf(x) =>
      p, v, s := [], x, [];
    case Pair(l, r) =>
      FirstBigAppend(InOrder(l), InOrder(r));
      if Split(l).Some? {
        var sl;
        p, v, sl := SplitLeaves(l);
        s := SplitLeftCase(n, p, v, sl);
      } else {
        var pr;
        pr, v, s := SplitLeaves(r);
        p := SplitRightCase(n, pr, v, s);
      }
  }

  lemma SplitLeftCase(n: Node, p: seq<int>, v: int, sl: seq<int>) returns (s: seq<int>)
    requires n.Pair? && SplitsAs(n.left, p, v, sl)
    ensures SplitsAs(n, p, v, s)
  {
    var a, b := InOrder(n.left), InOrder(n.right);
    s := sl + b;
    FirstBigAppend(a, b);
    var t := Split(n.left).value;
    assert Split(n) == Some(Pair(t, n.right));
    ConcatAssoc(p, [v], sl, b);
    ConcatAssoc(p, [v / 2, (v + 1) / 2], sl, b);
  }

  lemma SplitRightCase(n: Node, pr: seq<int>, v: int, s: seq<int>) returns (p: seq<int>)
    requires n.Pair? && Split(n.left).None? && SplitsAs(n.right, pr, v, s)
    ensures SplitsAs(n, p, v, s)
  {
    var a, b := InOrder(n.left), InOrder(n.right);
    p := a + pr;
    FirstBigAppend(a, b);
    var t := Split(n.right).value;
    assert Split(n) == Some(Pair(n.left, t));
    ConcatAssoc'(a, pr, [v], s);
    ConcatAssoc'(a, pr, [v / 2, (v + 1) / 2], s);
  }

  lemma ConcatAssoc<T>(p: seq<T>, m: seq<T>, u: seq<T>, w: seq<T>)
    ensures (p + m + u) + w == p + m + (u + w)
  {
  }

  lemma ConcatAssoc'<T>(a: seq<T>, p: seq<T>, m: seq<T>, u: seq<T>)
    ensures a + (p + m + u) == (a + p) + m + u
  {
  }

  // ---------------------------------------------------------------------
  // reduce and addition

  /** No pair nested inside four pairs and no number above 9: the state in
      which `reduce` stops. */
  predicate Reduced(n: Node) {
    MaxDepth(n) <= 4 && forall i :: 0 <= i < |InOrder(n)| ==> InOrder(n)[i] <= 9
  }

  /** `reduce`: explode while possible, otherwise split, until neither
      applies. Its termination is not evident from the source; `fuel`
      bounds the number of steps, and `None` means it ran out. */
  function Reduce(n: Node, fuel: nat): (r: Option<Node>)
    ensures r.Some? ==> Reduced(r.value)
    decreases fuel
  {
    if fuel == 0 then None
    else
      match Explode(n)
      case Some(t) => Reduce(t, fuel - 1)
      case None =>
        match Split(n)
        case Some(t) => Reduce(t, fuel - 1)
        case None => Some(n)
  }

  /** A reduced number is its own reduction, and reducing twice changes
      nothing. */
  lemma ReduceFixpoint(n: Node, fuel: nat)
    requires fuel > 0
    ensures Reduced(n) <==> Reduce(n, fuel) == Some(n)
  {
    if Reduced(n) {
      assert Explode(n).None?;
      assert Split(n).None?;
    }
  }

  lemma ReduceIdempotent(n: Node, fuel: nat, fuel': nat)
    requires fuel' > 0 && Reduce(n, fuel).Some?
    ensures Reduce(Reduce(n, fuel).value, fuel') == Reduce(n, fuel)
  {
    ReduceFixpoint(Reduce(n, fuel).value, fuel');
  }

  /** Each step of `reduce` on a tree of depth at most 5 keeps it at depth
      at most 5, so every explosion it performs is the list operation of
      `ExplodeLeaves`. */
  lemma ReduceStepDepth(n: Node)
    requires MaxDepth(n) <= 5
    ensures Explode(n).Some? ==> MaxDepth(Explode(n).value) <= 5
    ensures Explode(n).None? && Split(n).Some? ==> MaxDepth(Split(n).value) <= 5
  {
    if Explode(n).Some? {
      ExplodeAtDepth(n, 0);
    }
  }

  lemma {:induction false} ExplodeAtDepth(n: Node, depth: nat)
    requires ExplodeAt(n, depth).Some?
    ensures MaxDepth(ExplodeAt(n, depth).value.tree) <= MaxDepth(n)
    decreases n
  {
    if depth < 4 {
      if ExplodeAt(n.left, depth + 1).Some? {
        ExplodeAtDepth(n.left, depth + 1);
      } else {
        ExplodeAtDepth(n.right, depth + 1);
      }
    }
  }

  /** `add_nodes`: pair the two numbers and reduce. */
  function AddNodes(l: Node, r: Node, fuel: nat): (s: Option<Node>)
    ensures s.Some? ==> Reduced(s.value)
  {
    Reduce(Pair(l, r), fuel)
  }

  /** Adding two reduced numbers starts `reduce` from a tree of depth at
      most 5 whose leaves are all at most 9. */
  lemma AddNodesStart(l: Node, r: Node)
    requires Reduced(l) && Reduced(r)
    ensures MaxDepth(Pair(l, r)) <= 5
    ensures InOrder(Pair(l, r)) == InOrder(l) + InOrder(r)
  {
  }

  // ---------------------------------------------------------------------
  // magnitude

  /** `eval`: a regular number's value; a pair's is three times its left
      magnitude plus twice its right. The source returns `size_t`; the
      values are never negative here, so no wrap-around is modelled. */
  function Eval(n: Node): int {
    match n
    case Leaf(v) => v
    case Pair(l, r) => 3 * Eval(l) + 2 * Eval(r)
  }

  /** The weight of each regular number in the magnitude: 3 for every left
      turn and 2 for every right turn on its path. */
  function Weights(n: Node): (ws: seq<nat>)
    ensures |ws| == |InOrder(n)|
  {
    match n
    case Leaf(_) => [1]
    case Pair(l, r) => Scale(3, Weights(l)) + Scale(2, Weights(r))
  }

  function Scale(k: nat, ws: seq<nat>): (r: seq<nat>)
    ensures |r| == |ws|
    ensures forall i :: 0 <= i < |ws| ==> r[i] == k * ws[i]
  {
    if ws == [] then [] else [k * ws[0]] + Scale(k, ws[1..])
  }

  function Dot(xs: seq<int>, ws: seq<nat>): int
    requires |xs| == |ws|
  {
    if xs == [] then 0 else xs[0] * ws[0] + Dot(xs[1..], ws[1..])
  }

  lemma {:induction false} DotAppend(a: seq<int>, b: seq<int>, u: seq<nat>, v: seq<nat>)
    requires |a| == |u| && |b| == |v|
    ensures Dot(a + b, u + v) == Dot(a, u) + Dot(b, v)
    decreases |a|
  {
    if a != [] {
      assert (a + b)[1..] == a[1..] + b;
      assert (u + v)[1..] == u[1..] + v;
      DotAppend(a[1..], b, u[1..], v);
    } else {
      assert a + b == b && u + v == v;
    }
  }

  lemma {:induction false} DotScale(k: nat, xs: seq<int>, ws: seq<nat>)
    requires |xs| == |ws|
    ensures Dot(xs, Scale(k, ws)) == k * Dot(xs, ws)
    decreases |xs|
  {
    if xs != [] {
      DotScale(k, xs[1..], ws[1..]);
      assert Scale(k, ws)[1..] == Scale(k, ws[1..]);
      assert xs[0] * (k * ws[0]) == k * (xs[0] * ws[0]);
      assert k * Dot(xs, ws) == k * (xs[0] * ws[0]) + k * Dot(xs[1..], ws[1..]);
    }
  }

  /** The magnitude is the weighted sum of the regular numbers. */
  lemma {:induction false} EvalIsWeightedSum(n: Node)
    ensures Eval(n) == Dot(InOrder(n), Weights(n))
  {
    if n.Pair? {
      var l, r := n.left, n.right;
      EvalIsWeightedSum(l);
      EvalIsWeightedSum(r);
      DotAppend(InOrder(l), InOrder(r), Scale(3, Weights(l)), Scale(2, Weights(r)));
      DotScale(3, InOrder(l), Weights(l));
      DotScale(2, InOrder(r), Weights(r));
    }
  }

  /** The magnitude grows with every regular number: raising one of them
      never lowers it. */
  lemma {:induction false} EvalMonotone(n: Node, i: nat, v: int)
    requires i < |InOrder(n)| && v >= InOrder(n)[i]
    ensures Eval(SetLeaf(n, i, v)) >= Eval(n)
    ensures InOrder(SetLeaf(n, i, v)) == InOrder(n)[i := v]
  {
    if n.Pair? {
      var k := |InOrder(n.left)|;
      if i < k {
        EvalMonotone(n.left, i, v);
      } else {
        EvalMonotone(n.right, i - k, v);
      }
    }
  }

  /** The tree with its `i`-th regular number replaced by `v`. */
  function SetLeaf(n: Node, i: nat, v: int): Node {
    match n
    case Leaf(_) => if i == 0 then Leaf(v) else n
    case Pair(l, r) =>
      var k := |InOrder(l)|;
      if i < k then Pair(SetLeaf(l, i, v), r) else Pair(l, SetLeaf(r, i - k, v))
  }

  // ---------------------------------------------------------------------
  // parse_node

  /** `str[pos]`, with the terminating '\0' at the end of the text. */
  function CharAt(s: string, pos: nat): char
    requires pos <= |s|
  {
    if pos < |s| then s[pos] else '\0'
  }

  predicate IsDigit(c: char) {
    '0' <= c <= '9'
  }

  /** `parse_node(str, pos)`: one digit is a regular number, '[' starts a
      pair whose two halves are separated by ',' and closed by ']'. The
      result carries the position just past the number's text; `None`
      stands for the source's null node and for a failed `assert`. */
  function Parse(s: string, pos: nat): (r: Option<(Node, nat)>)
    requires pos <= |s|
    ensures r.Some? ==> pos < r.value.1 <= |s|
    ensures r.Some? ==> forall i :: 0 <= i < |InOrder(r.value.0)| ==> 0 <= InOrder(r.value.0)[i] <= 9
    decreases |s| - pos
  {
    var c := CharAt(s, pos);
    if IsDigit(c) then Some((Leaf(c as int - '0' as int), pos + 1))
    else if c == '[' then
      match Parse(s, pos + 1)
      case None => None
      case Some((l, p1)) =>
        if CharAt(s, p1) != ',' then None
        else
          match Parse(s, p1 + 1)
          case None => None
          case Some((r, p2)) =>
            if CharAt(s, p2) != ']' then None
            else Some((Pair(l, r), p2 + 1))
    else None
  }

  /** Regular numbers that fit one digit, the only ones the text can hold. */
  predicate Digits(n: Node) {
    match n
    case Leaf(v) => 0 <= v <= 9
    case Pair(l, r) => Digits(l) && Digits(r)
  }

  /** The text of a number, as the puzzle input and `show` write it. */
  function Show(n: Node): string
    requires Digits(n)
  {
    match n
    case Leaf(v) => ['0' + v as char]
    case Pair(l, r) => "[" + Show(l) + "," + Show(r) + "]"
  }

  function Width(n: Node): nat {
    match n
    case Leaf(_) => 1
    case Pair(l, r) => Width(l) + Width(r) + 3
  }

  /** The text of `n` sits at `pos` in `s`, described character by
      character at the positions the parser visits. */
  predicate ShownAt(s: string, pos: nat, n: Node)
    decreases n
  {
    match n
    case Leaf(v) => pos < |s| && 0 <= v <= 9 && s[pos] == '0' + v as char
    case Pair(l, r) =>
      var p1 := pos + 1 + Width(l);
      var p2 := p1 + 1 + Width(r);
      && p2 < |s| && s[pos] == '[' && s[p1] == ',' && s[p2] == ']'
      && ShownAt(s, pos + 1, l) && ShownAt(s, p1 + 1, r)
  }

  lemma {:induction false} ParseShownAt(s: string, pos: nat, n: Node, end: nat)
    requires ShownAt(s, pos, n) && end == pos + Width(n)
    ensures Parse(s, pos) == Some((n, end))
    decreases n
  {
    if n.Pair? {
      var p1 := pos + 1 + Width(n.left);
      var p2 := p1 + 1 + Width(n.right);
      ParseShownAt(s, pos + 1, n.left, p1);
      ParseShownAt(s, p1 + 1, n.right, p2);
    }
  }

  lemma {:induction false} ShowWidth(n: Node)
    requires Digits(n)
    ensures |Show(n)| == Width(n)
  {
    if n.Pair? {
      ShowWidth(n.left);
      ShowWidth(n.right);
    }
  }

  /** The text `t` appears in `s` starting at `pos`. */
  predicate Matches(s: string, pos: nat, t: string) {
    pos + |t| <= |s| && forall k :: 0 <= k < |t| ==> s[pos + k] == t[k]
  }

  /** Where the text of a pair appears, so do its brackets, its comma and
      the texts of its halves. */
  lemma PairTextMatches(s: string, pos: nat, sl: string, sr: string, p1: nat, p2: nat)
    requires Matches(s, pos, "[" + sl + "," + sr + "]")
    requires p1 == pos + 1 + |sl| && p2 == p1 + 1 + |sr|
    ensures p2 < |s| && s[pos] == '[' && s[p1] == ',' && s[p2] == ']'
    ensures Matches(s, pos + 1, sl) && Matches(s, p1 + 1, sr)
  {
    var t := "[" + sl + "," + sr + "]";
    assert t[0] == '[' && t[1 + |sl|] == ',' && t[2 + |sl| + |sr|] == ']';
    assert s[pos + 0] == t[0];
    assert s[pos + (1 + |sl|)] == t[1 + |sl|];
    assert s[pos + (2 + |sl| + |sr|)] == t[2 + |sl| + |sr|];
    forall k | 0 <= k < |sl| ensures s[pos + 1 + k] == sl[k] {
      assert t[1 + k] == sl[k];
      assert s[pos + (1 + k)] == t[1 + k];
    }
    forall k | 0 <= k < |sr| ensures s[p1 + 1 + k] == sr[k] {
      assert t[2 + |sl| + k] == sr[k];
      assert s[pos + (2 + |sl| + k)] == t[2 + |sl| + k];
    }
  }

  lemma {:induction false} MatchesShownAt(s: string, pos: nat, n: Node)
    requires Digits(n) && Matches(s, pos, Show(n))
    ensures ShownAt(s, pos, n)
    decreases n
  {
    match n
    case Leaf(v) =>
      assert s[pos + 0] == Show(n)[0];
    case Pair(l, r) =>
      ShowWidth(l);
      ShowWidth(r);
      var p1 := pos + 1 + Width(l);
      var p2 := p1 + 1 + Width(r);
      PairTextMatches(s, pos, Show(l), Show(r), p1, p2);
      MatchesShownAt(s, pos + 1, l);
      MatchesShownAt(s, p1 + 1, r);
  }

  /** `parse_node` reads a number back from its text, whatever follows it,
      and stops right after it. */
  lemma ParseOfShow(n: Node, rest: string)
    requires Digits(n)
    ensures Parse(Show(n) + rest, 0) == Some((n, |Show(n)|))
  {
    var s := Show(n) + rest;
    forall k | 0 <= k < |Show(n)| ensures s[0 + k] == Show(n)[k] {
    }
    MatchesShownAt(s, 0, n);
    ShowWidth(n);
    ParseShownAt(s, 0, n, Width(n));
  }
}
