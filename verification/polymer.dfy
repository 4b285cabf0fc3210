/** Day 14's polymer growth, computed the fast way: instead of the polymer
    itself, `fast_fold` keeps how often each adjacent pair occurs and how
    often each element occurs. Pair counts live in a map keyed by a 16-bit
    hash of the two (8-bit) characters; here a `multiset` plays the map
    with default 0, so `pairs[h]` is the count of hash `h`. */
module Polymer {
  import opened Bags

  predicate Byte(c: char) {
    c as int < 256
  }

  predicate Bytes(s: string) {
    forall i :: 0 <= i < |s| ==> Byte(s[i])
  }

  /** `rules_t`: pair hash to the element inserted between the pair. */
  type Rules = map<nat, char>

  predicate ByteRules(rules: Rules) {
    forall h :: h in rules ==> Byte(rules[h])
  }

  /** `pair_hash`: the low byte of each character, first one high. */
  function PairHash(a: char, b: char): (h: nat)
    ensures h < Span()
  {
    (a as int % 256) * 256 + b as int % 256
  }

  /** `pair_unhash`: the two bytes of the hash, high one first. */
  function PairUnhash(h: nat): (char, char) {
    (((h / 256) % 256) as char, (h % 256) as char)
  }

  /** For 8-bit characters the hash loses nothing; every hash below `Span()`
      is the hash of its unhash. */
  lemma UnhashOfHash(a: char, b: char)
    requires Byte(a) && Byte(b)
    ensures PairUnhash(PairHash(a, b)) == (a, b)
  {
  }

  lemma HashOfUnhash(h: nat)
    requires h < Span()
    ensures PairHash(PairUnhash(h).0, PairUnhash(h).1) == h
  {
  }

  // ---------------------------------------------------------------------
  // One generation

  /** The two pairs a ruled pair turns into: XY -> Z gives XZ and ZY; a
      pair without a rule gives nothing. */
  function Spawn(rules: Rules): nat -> multiset<nat> {
    h =>
      if h in rules then
        var (c1, c2) := PairUnhash(h);
        multiset{PairHash(c1, rules[h]), PairHash(rules[h], c2)}
      else multiset{}
  }

  /** The element a ruled pair inserts. */
  function Inserted(rules: Rules): nat -> multiset<char> {
    h => if h in rules then multiset{rules[h]} else multiset{}
  }

  /** One pass of the `while (time--)` loop: the next pair counts and the
      element counts with the inserted elements added. */
  function Generation(pairs: multiset<nat>, counts: multiset<char>, rules: Rules): (r: (multiset<nat>, multiset<char>))
  {
    (Over(pairs, Spawn(rules), 0), counts + Over(pairs, Inserted(rules), 0))
  }

  /** A pair XY -> Z occurring `n` times adds `n` to XZ, `n` to ZY and `n`
      to the count of Z, on top of what the other pairs contribute; a pair
      without a rule contributes nothing and so is dropped. */
  lemma GenerationOfPair(pairs: multiset<nat>, counts: multiset<char>, rules: Rules, a: char, b: char)
    requires Byte(a) && Byte(b)
    ensures var h, n := PairHash(a, b), pairs[PairHash(a, b)];
      var g, g' := Generation(pairs, counts, rules), Generation(pairs[h := 0], counts, rules);
      g.0 == if h in rules then g'.0 + Scale(n, multiset{PairHash(a, rules[h]), PairHash(rules[h], b)}) else g'.0
    ensures var h, n := PairHash(a, b), pairs[PairHash(a, b)];
      var g, g' := Generation(pairs, counts, rules), Generation(pairs[h := 0], counts, rules);
      g.1 == if h in rules then g'.1 + Scale(n, multiset{rules[h]}) else g'.1
  {
    SpawnedOfPair(pairs, counts, rules, a, b);
    InsertedOfPair(pairs, counts, rules, a, b);
  }

  lemma SpawnedOfPair(pairs: multiset<nat>, counts: multiset<char>, rules: Rules, a: char, b: char)
    requires Byte(a) && Byte(b)
    ensures var h, n := PairHash(a, b), pairs[PairHash(a, b)];
      var g, g' := Generation(pairs, counts, rules), Generation(pairs[h := 0], counts, rules);
      g.0 == if h in rules then g'.0 + Scale(n, multiset{PairHash(a, rules[h]), PairHash(rules[h], b)}) else g'.0
  {
    var h, n := PairHash(a, b), pairs[PairHash(a, b)];
    OverSplit(pairs, h, Spawn(rules));
    PairFates(a, b, rules);
    if h !in rules {
      ScaleEmpty(n, Spawn(rules)(h));
    }
  }

  lemma InsertedOfPair(pairs: multiset<nat>, counts: multiset<char>, rules: Rules, a: char, b: char)
    requires Byte(a) && Byte(b)
    ensures var h, n := PairHash(a, b), pairs[PairHash(a, b)];
      var g, g' := Generation(pairs, counts, rules), Generation(pairs[h := 0], counts, rules);
      g.1 == if h in rules then g'.1 + Scale(n, multiset{rules[h]}) else g'.1
  {
    var h, n := PairHash(a, b), pairs[PairHash(a, b)];
    var r := Over(pairs[h := 0], Inserted(rules), 0);
    OverInsertedOfPair(pairs, rules, a, b);
    if h in rules {
      AddAssoc(counts, r, Scale(n, multiset{rules[h]}));
    }
  }

  lemma OverInsertedOfPair(pairs: multiset<nat>, rules: Rules, a: char, b: char)
    requires Byte(a) && Byte(b)
    ensures var h, n := PairHash(a, b), pairs[PairHash(a, b)];
      var rest := Over(pairs[h := 0], Inserted(rules), 0);
      Over(pairs, Inserted(rules), 0) == if h in rules then rest + Scale(n, multiset{rules[h]}) else rest
  {
    var h, n := PairHash(a, b), pairs[PairHash(a, b)];
    OverSplit(pairs, h, Inserted(rules));
    PairFates(a, b, rules);
    if h !in rules {
      ScaleEmpty(n, Inserted(rules)(h));
    }
  }

  lemma AddAssoc<T>(a: multiset<T>, b: multiset<T>, c: multiset<T>)
    ensures a + (b + c) == (a + b) + c
  {
  }

  // ---------------------------------------------------------------------
  // fast_fold

  /** The hashes of the adjacent pairs of `s`: the first loop of
      `fast_fold`. */
  function PairsOf(s: string): (ps: multiset<nat>)
    ensures |ps| == if |s| == 0 then 0 else |s| - 1
  {
    if |s| < 2 then multiset{} else multiset{PairHash(s[0], s[1])} + PairsOf(s[1..])
  }

  /** The `while (time--)` loop. */
  function Grow(pairs: multiset<nat>, counts: multiset<char>, time: nat, rules: Rules): multiset<char>
    decreases time
  {
    if time == 0 then counts
    else
      var g := Generation(pairs, counts, rules);
      Grow(g.0, g.1, time - 1, rules)
  }

  /** `fast_fold`: the element counts after `time` generations. The source
      reads out of bounds on an empty pattern (`size() - 1` wraps), so a
      pattern is required. */
  function FastFold(pattern: string, time: nat, rules: Rules): (counts: multiset<char>)
    requires |pattern| >= 1
  {
    Grow(PairsOf(pattern), multiset(pattern), time, rules)
  }

  /** With no generations the counts are the pattern's letter frequencies,
      and the initial pair counts add up to one less than its length. */
  lemma FastFoldZero(pattern: string, rules: Rules)
    requires |pattern| >= 1
    ensures forall c :: FastFold(pattern, 0, rules)[c] == multiset(pattern)[c]
    ensures |PairsOf(pattern)| == |pattern| - 1 && |FastFold(pattern, 0, rules)| == |pattern|
  {
  }

  // ---------------------------------------------------------------------
  // The polymer itself

  /** One step of pair insertion on the polymer: between each adjacent
      pair with a rule, its element is inserted (all at once). */
  function Insert(s: string, rules: Rules): (t: string)
    ensures |s| >= 1 ==> |t| >= 1 && t[0] == s[0]
    decreases |s|
  {
    if |s| < 2 then s
    else
      var h := PairHash(s[0], s[1]);
      [s[0]] + (if h in rules then [rules[h]] else []) + Insert(s[1..], rules)
  }

  function InsertN(s: string, time: nat, rules: Rules): string
    decreases time
  {
    if time == 0 then s else InsertN(Insert(s, rules), time - 1, rules)
  }

  /** The pairs that have no rule and stay where they are. */
  function Kept(rules: Rules): nat -> multiset<nat> {
    h => if h in rules then multiset{} else multiset{h}
  }

  lemma {:induction false} InsertBytes(s: string, rules: Rules)
    requires Bytes(s) && ByteRules(rules)
    ensures Bytes(Insert(s, rules))
    decreases |s|
  {
    if |s| >= 2 {
      InsertBytes(s[1..], rules);
    }
  }

  lemma PairsOfCons(c: char, u: string)
    requires |u| >= 1
    ensures PairsOf([c] + u) == multiset{PairHash(c, u[0])} + PairsOf(u)
  {
    assert ([c] + u)[1..] == u;
  }

  /** One insertion step, seen through pair and element counts: the pairs
      of the new polymer are the spawned pairs plus the unruled pairs,
      and its elements are the old ones plus the inserted ones. */
  lemma {:induction false} InsertCounts(s: string, rules: Rules)
    requires Bytes(s)
    ensures PairsOf(Insert(s, rules)) == Over(PairsOf(s), Spawn(rules), 0) + Over(PairsOf(s), Kept(rules), 0)
    ensures multiset(Insert(s, rules)) == multiset(s) + Over(PairsOf(s), Inserted(rules), 0)
    decreases |s|
  {
    if |s| < 2 {
      var e := PairsOf(s);
      assert e == multiset{};
      OverVanishes(e, Spawn(rules), 0);
      OverVanishes(e, Kept(rules), 0);
      OverVanishes(e, Inserted(rules), 0);
    } else {
      var a, t := s[0], s[1..];
      assert s == [a] + t;
      InsertCounts(t, rules);
      InsertPairsStep(a, t, rules);
      InsertElementsStep(a, t, rules);
    }
  }

  /** `Insert` and `PairsOf` of a polymer with a first element. */
  lemma InsertCons(a: char, t: string, rules: Rules)
    requires |t| >= 1
    ensures var h := PairHash(a, t[0]);
      Insert([a] + t, rules) == [a] + (if h in rules then [rules[h]] else []) + Insert(t, rules)
    ensures PairsOf([a] + t) == multiset{PairHash(a, t[0])} + PairsOf(t)
  {
    assert ([a] + t)[1..] == t;
  }

  /** What `Spawn`, `Kept` and `Inserted` give for the pair of two bytes. */
  lemma PairFates(a: char, b: char, rules: Rules)
    requires Byte(a) && Byte(b)
    ensures var h := PairHash(a, b);
      && Spawn(rules)(h) == (if h in rules then multiset{PairHash(a, rules[h]), PairHash(rules[h], b)} else multiset{})
      && Kept(rules)(h) == (if h in rules then multiset{} else multiset{h})
      && Inserted(rules)(h) == (if h in rules then multiset{rules[h]} else multiset{})
      && Spawn(rules)(h) + Kept(rules)(h) == NewPairs(a, b, rules)
  {
    UnhashOfHash(a, b);
  }

  /** The pairs that the pair `a b` leaves in the next polymer: the two
      around its inserted element, or itself when it has no rule. */
  function NewPairs(a: char, b: char, rules: Rules): multiset<nat> {
    var h := PairHash(a, b);
    if h in rules then multiset{PairHash(a, rules[h]), PairHash(rules[h], b)} else multiset{h}
  }

  lemma InsertPairsStep(a: char, t: string, rules: Rules)
    requires |t| >= 1 && Byte(a) && Byte(t[0])
    requires PairsOf(Insert(t, rules)) == Over(PairsOf(t), Spawn(rules), 0) + Over(PairsOf(t), Kept(rules), 0)
    ensures var s := [a] + t;
      PairsOf(Insert(s, rules)) == Over(PairsOf(s), Spawn(rules), 0) + Over(PairsOf(s), Kept(rules), 0)
  {
    var h := PairHash(a, t[0]);
    InsertCons(a, t, rules);
    OverCons(h, PairsOf(t), Spawn(rules));
    OverCons(h, PairsOf(t), Kept(rules));
    PairFates(a, t[0], rules);
    InsertPairsHead(a, t, rules);
    var sp, kp := Over(PairsOf(t), Spawn(rules), 0), Over(PairsOf(t), Kept(rules), 0);
    Regroup(Spawn(rules)(h), Kept(rules)(h), sp, kp);
  }

  /** The pairs of the grown polymer: those the first pair leaves, then
      those of the grown rest. */
  lemma InsertPairsHead(a: char, t: string, rules: Rules)
    requires |t| >= 1
    ensures PairsOf(Insert([a] + t, rules)) == NewPairs(a, t[0], rules) + PairsOf(Insert(t, rules))
  {
    var g := Insert(t, rules);
    assert g[0] == t[0];
    if PairHash(a, t[0]) in rules {
      var z := InsertRuledHead(a, t, rules);
      PairsOfCons(z, g);
      PairsOfCons(a, [z] + g);
    } else {
      InsertUnruledHead(a, t, rules);
      PairsOfCons(a, g);
    }
  }

  lemma InsertRuledHead(a: char, t: string, rules: Rules) returns (z: char)
    requires |t| >= 1 && PairHash(a, t[0]) in rules
    ensures z == rules[PairHash(a, t[0])]
    ensures Insert([a] + t, rules) == [a] + ([z] + Insert(t, rules))
  {
    z := rules[PairHash(a, t[0])];
    assert ([a] + t)[1..] == t;
    assert [a] + [z] + Insert(t, rules) == [a] + ([z] + Insert(t, rules));
  }

  lemma InsertUnruledHead(a: char, t: string, rules: Rules)
    requires |t| >= 1 && PairHash(a, t[0]) !in rules
    ensures Insert([a] + t, rules) == [a] + Insert(t, rules)
  {
    assert ([a] + t)[1..] == t;
    assert [a] + [] + Insert(t, rules) == [a] + Insert(t, rules);
  }

  lemma InsertElementsStep(a: char, t: string, rules: Rules)
    requires |t| >= 1
    requires multiset(Insert(t, rules)) == multiset(t) + Over(PairsOf(t), Inserted(rules), 0)
    ensures var s := [a] + t;
      multiset(Insert(s, rules)) == multiset(s) + Over(PairsOf(s), Inserted(rules), 0)
  {
    var h := PairHash(a, t[0]);
    var x: string := if h in rules then [rules[h]] else [];
    var g := Insert(t, rules);
    var o := Over(PairsOf(t), Inserted(rules), 0);
    InsertCons(a, t, rules);
    OverCons(h, PairsOf(t), Inserted(rules));
    assert multiset(x) == Inserted(rules)(h);
    assert multiset([a] + x + g) == multiset([a]) + multiset(x) + multiset(g);
    assert multiset([a] + t) == multiset([a]) + multiset(t);
    Regroup(multiset([a]), multiset(x), multiset(t), o);
  }

  lemma Regroup<T>(p: multiset<T>, q: multiset<T>, r: multiset<T>, u: multiset<T>)
    ensures p + q + (r + u) == (p + r) + (q + u)
  {
  }

  /** Every pair that `Kept` leaves has no rule. */
  lemma {:induction false} KeptUnruled(pairs: multiset<nat>, rules: Rules, lo: nat)
    ensures forall h :: h in Over(pairs, Kept(rules), lo) ==> h !in rules
    decreases Span() - lo
  {
    if lo < Span() {
      KeptUnruled(pairs, rules, lo + 1);
      ScaledMembers(pairs[lo], Kept(rules)(lo));
    }
  }

  /** Pairs without a rule spawn nothing and insert nothing. */
  lemma IdleVanishes(idle: multiset<nat>, rules: Rules)
    requires forall h :: h in idle ==> h !in rules
    ensures Over(idle, Spawn(rules), 0) == multiset{}
    ensures Over(idle, Inserted(rules), 0) == multiset{}
  {
    assert forall h :: h in idle ==> Spawn(rules)(h) == multiset{};
    assert forall h :: h in idle ==> Inserted(rules)(h) == multiset{};
    OverVanishes(idle, Spawn(rules), 0);
    OverVanishes(idle, Inserted(rules), 0);
  }

  /** One generation of the counts against one insertion step of the
      polymer, when the counted pairs miss only unruled ones: first the
      pairs, then the elements. */
  lemma GrowStepPairs(s: string, pairs: multiset<nat>, idle: multiset<nat>, rules: Rules)
    requires Bytes(s)
    requires PairsOf(s) == pairs + idle && forall h :: h in idle ==> h !in rules
    ensures PairsOf(Insert(s, rules)) == Over(pairs, Spawn(rules), 0) + Over(PairsOf(s), Kept(rules), 0)
  {
    InsertCounts(s, rules);
    OverAdd(pairs, idle, Spawn(rules), 0);
    IdleVanishes(idle, rules);
    DropEmpty(PairsOf(Insert(s, rules)), Over(pairs + idle, Spawn(rules), 0), Over(pairs, Spawn(rules), 0),
      Over(idle, Spawn(rules), 0), Over(PairsOf(s), Kept(rules), 0));
  }

  lemma GrowStepElements(s: string, pairs: multiset<nat>, idle: multiset<nat>, rules: Rules)
    requires Bytes(s)
    requires PairsOf(s) == pairs + idle && forall h :: h in idle ==> h !in rules
    ensures multiset(Insert(s, rules)) == multiset(s) + Over(pairs, Inserted(rules), 0)
  {
    InsertCounts(s, rules);
    OverAdd(pairs, idle, Inserted(rules), 0);
    IdleVanishes(idle, rules);
    DropEmpty'(multiset(Insert(s, rules)), Over(pairs + idle, Inserted(rules), 0), Over(pairs, Inserted(rules), 0),
      Over(idle, Inserted(rules), 0), multiset(s));
  }

  /** `q = x + k` with `x = y + e` and `e` empty gives `q = y + k`. */
  lemma DropEmpty<T>(q: multiset<T>, x: multiset<T>, y: multiset<T>, e: multiset<T>, k: multiset<T>)
    requires q == x + k && x == y + e && e == multiset{}
    ensures q == y + k
  {
  }

  lemma DropEmpty'<T>(q: multiset<T>, x: multiset<T>, y: multiset<T>, e: multiset<T>, k: multiset<T>)
    requires q == k + x && x == y + e && e == multiset{}
    ensures q == k + y
  {
  }

  /** The loop of `fast_fold` follows the polymer: its pair counts are the
      polymer's pairs less some that have no rule (and so never matter
      again), and its element counts are the polymer's. */
  lemma {:induction false} GrowFollowsPolymer(s: string, pairs: multiset<nat>, idle: multiset<nat>, time: nat, rules: Rules)
    requires Bytes(s) && ByteRules(rules)
    requires PairsOf(s) == pairs + idle && forall h :: h in idle ==> h !in rules
    ensures Grow(pairs, multiset(s), time, rules) == multiset(InsertN(s, time, rules))
    decreases time
  {
    if time > 0 {
      var s', t: nat := Insert(s, rules), time - 1;
      var sp, idle' := Over(pairs, Spawn(rules), 0), Over(PairsOf(s), Kept(rules), 0);
      GrowStepPairs(s, pairs, idle, rules);
      GrowStepElements(s, pairs, idle, rules);
      InsertBytes(s, rules);
      KeptUnruled(PairsOf(s), rules, 0);
      GrowFollowsPolymer(s', sp, idle', t, rules);
      GrowUnfold(pairs, multiset(s), t, rules);
      InsertNUnfold(s, t, rules);
    }
  }

  lemma InsertNUnfold(s: string, t: nat, rules: Rules)
    ensures InsertN(s, t + 1, rules) == InsertN(Insert(s, rules), t, rules)
  {
  }

  lemma GrowUnfold(pairs: multiset<nat>, counts: multiset<char>, t: nat, rules: Rules)
    ensures Grow(pairs, counts, t + 1, rules)
      == Grow(Over(pairs, Spawn(rules), 0), counts + Over(pairs, Inserted(rules), 0), t, rules)
  {
  }

  /** `fast_fold` counts the elements of the polymer grown by `time` steps
      of pair insertion. */
  lemma FastFoldIsPolymer(pattern: string, time: nat, rules: Rules)
    requires |pattern| >= 1 && Bytes(pattern) && ByteRules(rules)
    ensures FastFold(pattern, time, rules) == multiset(InsertN(pattern, time, rules))
  {
    GrowFollowsPolymer(pattern, PairsOf(pattern), multiset{}, time, rules);
  }

  // ---------------------------------------------------------------------
  // The answer: most common minus least common element

  /** The largest count among the characters with codes `lo` to 255. */
  function MaxCount(counts: multiset<char>, lo: nat): (m: nat)
    requires lo <= 256
    ensures forall c: char :: lo <= c as int < 256 ==> counts[c] <= m
    ensures m == 0 || exists c: char :: lo <= c as int < 256 && counts[c] == m
    decreases 256 - lo
  {
    if lo == 256 then 0
    else
      var rest := MaxCount(counts, lo + 1);
      var c := lo as char;
      if counts[c] > rest then counts[c] else rest
  }

  /** The smallest non-zero count among the characters with codes `lo` to
      255, or 0 when there is none. */
  function MinCount(counts: multiset<char>, lo: nat): (m: nat)
    requires lo <= 256
    ensures forall c: char :: lo <= c as int < 256 && c in counts ==> m <= counts[c]
    ensures m == 0 <==> forall c: char :: lo <= c as int < 256 ==> c !in counts
    ensures m > 0 ==> exists c: char :: lo <= c as int < 256 && counts[c] == m
    decreases 256 - lo
  {
    if lo == 256 then 0
    else
      var rest := MinCount(counts, lo + 1);
      var c := lo as char;
      if c in counts && (rest == 0 || counts[c] < rest) then counts[c] else rest
  }

  /** `minmax` over the counts and `max - min`: the largest difference
      between the counts of two elements present, so never negative. */
  function Spread(counts: multiset<char>): (d: nat)
    requires forall c :: c in counts ==> Byte(c)
    requires counts != multiset{}
    ensures forall a, b :: a in counts && b in counts ==> counts[a] as int - counts[b] <= d
    ensures exists a, b :: a in counts && b in counts && counts[a] as int - counts[b] == d
  {
    ExtremesPresent(counts);
    MaxCount(counts, 0) - MinCount(counts, 0)
  }

  /** Both extremes are the counts of elements present. */
  lemma ExtremesPresent(counts: multiset<char>)
    requires forall c :: c in counts ==> Byte(c)
    requires counts != multiset{}
    ensures exists a :: a in counts && counts[a] == MaxCount(counts, 0)
    ensures exists b :: b in counts && counts[b] == MinCount(counts, 0)
    ensures MinCount(counts, 0) <= MaxCount(counts, 0)
  {
    var c :| c in counts;
    assert Byte(c);
    assert counts[c] <= MaxCount(counts, 0);
    assert MinCount(counts, 0) != 0;
  }

  /** The answer is zero exactly when every element present occurs equally
      often. */
  lemma SpreadZeroIff(counts: multiset<char>)
    requires forall c :: c in counts ==> Byte(c)
    requires counts != multiset{}
    ensures Spread(counts) == 0 <==> forall a, b :: a in counts && b in counts ==> counts[a] == counts[b]
  {
    var d := Spread(counts);
    if d == 0 {
      forall a, b | a in counts && b in counts
        ensures counts[a] == counts[b]
      {
        assert counts[a] as int - counts[b] <= d && counts[b] as int - counts[a] <= d;
      }
    }
  }
}
