/** Counting with multisets: a multiset of keys stands for a map from key
    to count with default 0 (the `unordered_map<K, size_t>` idiom), and a
    loop that adds, for every entry, the entry's count times some
    multiset is a weighted sum over the keys below `Span()`. */
module Bags {

  /** Number of distinct keys: the 16-bit pair hashes. */
  function Span(): nat { 65536 }

  /** `n` copies of `m`. */
  function Scale<T>(n: nat, m: multiset<T>): multiset<T> {
    if n == 0 then multiset{} else m + Scale(n - 1, m)
  }

  lemma {:induction false} ScaleAdd<T>(a: nat, b: nat, m: multiset<T>)
    ensures Scale(a + b, m) == Scale(a, m) + Scale(b, m)
  {
    if a > 0 {
      ScaleAdd(a - 1, b, m);
      assert Scale(a + b, m) == m + Scale(a - 1 + b, m);
    }
  }

  /** `pairs[h]` copies of `f(h)` for every hash `h` from `lo` on: what a
      loop over the pair map produces when each entry contributes `f` of
      its key once per occurrence. The order of the entries does not
      matter to a sum; it is taken by increasing hash here. */
  function Over<T>(pairs: multiset<nat>, f: nat -> multiset<T>, lo: nat): multiset<T>
    decreases Span() - lo
  {
    if lo >= Span() then multiset{} else Scale(pairs[lo], f(lo)) + Over(pairs, f, lo + 1)
  }

  lemma OverStep<T>(a: multiset<nat>, f: nat -> multiset<T>, lo: nat)
    requires lo < Span()
    ensures Over(a, f, lo) == Scale(a[lo], f(lo)) + Over(a, f, lo + 1)
  {
  }

  /** The sum is additive in the counts. */
  lemma {:induction false} OverAdd<T>(a: multiset<nat>, b: multiset<nat>, f: nat -> multiset<T>, lo: nat)
    ensures Over(a + b, f, lo) == Over(a, f, lo) + Over(b, f, lo)
    decreases Span() - lo
  {
    if lo < Span() {
      var sa, sb := Scale(a[lo], f(lo)), Scale(b[lo], f(lo));
      var oa, ob := Over(a, f, lo + 1), Over(b, f, lo + 1);
      OverAdd(a, b, f, lo + 1);
      ScaleAdd(a[lo], b[lo], f(lo));
      OverStep(a + b, f, lo);
      OverStep(a, f, lo);
      OverStep(b, f, lo);
      assert (a + b)[lo] == a[lo] + b[lo];
      Interleave(sa, sb, oa, ob);
    }
  }

  lemma Interleave<T>(sa: multiset<T>, sb: multiset<T>, oa: multiset<T>, ob: multiset<T>)
    ensures (sa + sb) + (oa + ob) == (sa + oa) + (sb + ob)
  {
  }

  lemma {:induction false} OverSingle<T>(k: nat, f: nat -> multiset<T>, lo: nat)
    requires k < Span()
    ensures Over(multiset{k}, f, lo) == if lo <= k then f(k) else multiset{}
    decreases Span() - lo
  {
    if lo < Span() {
      OverSingle(k, f, lo + 1);
      if lo == k {
        assert multiset{k}[lo] == 1;
        assert Scale(1, f(k)) == f(k) + multiset{};
      } else {
        assert multiset{k}[lo] == 0;
      }
    }
  }

  lemma {:induction false} OverVanishes<T>(pairs: multiset<nat>, f: nat -> multiset<T>, lo: nat)
    requires forall h :: h in pairs ==> f(h) == multiset{}
    ensures Over(pairs, f, lo) == multiset{}
    decreases Span() - lo
  {
    if lo < Span() {
      if lo in pairs {
        ScaleEmpty(pairs[lo], f(lo));
      }
      OverVanishes(pairs, f, lo + 1);
    }
  }

  lemma {:induction false} ScaleEmpty<T>(n: nat, m: multiset<T>)
    requires m == multiset{}
    ensures Scale(n, m) == multiset{}
  {
    if n > 0 {
      ScaleEmpty(n - 1, m);
    }
  }


  /** `n` copies of a single key hold `n` of that key and nothing else. */
  lemma {:induction false} ScaleSingle<T>(n: nat, k: T)
    ensures Scale(n, multiset{k})[k] == n
    ensures forall x :: x != k ==> Scale(n, multiset{k})[x] == 0
  {
    if n > 0 {
      ScaleSingle(n - 1, k);
    }
  }

  lemma {:induction false} ScaledMembers<T>(n: nat, m: multiset<T>)
    ensures forall x :: x in Scale(n, m) ==> x in m
  {
    if n > 0 {
      ScaledMembers(n - 1, m);
    }
  }

  /** Summing over `n` copies of one key gives `n` copies of its term. */
  lemma {:induction false} OverScaledSingle<T>(n: nat, k: nat, f: nat -> multiset<T>)
    requires k < Span()
    ensures Over(Scale(n, multiset{k}), f, 0) == Scale(n, f(k))
    decreases n, 1
  {
    if n == 0 {
      OverScaledZero(k, f);
    } else {
      OverScaledSucc(n, k, f);
    }
  }

  lemma {:induction false} OverScaledSucc<T>(n: nat, k: nat, f: nat -> multiset<T>)
    requires k < Span() && n > 0
    ensures Over(Scale(n, multiset{k}), f, 0) == Scale(n, f(k))
    decreases n, 0
  {
    OverScaledSingle(n - 1, k, f);
    OverScaledStep(n, k, f);
  }

  lemma OverScaledZero<T>(k: nat, f: nat -> multiset<T>)
    ensures Over(Scale(0, multiset{k}), f, 0) == Scale(0, f(k))
  {
    var e: multiset<nat> := multiset{};
    assert Scale(0, multiset{k}) == e;
    OverVanishes(e, f, 0);
  }

  lemma {:induction false} OverScaledStep<T>(n: nat, k: nat, f: nat -> multiset<T>)
    requires k < Span() && n > 0
    requires Over(Scale(n - 1, multiset{k}), f, 0) == Scale(n - 1, f(k))
    ensures Over(Scale(n, multiset{k}), f, 0) == Scale(n, f(k))
  {
    var rest := Scale(n - 1, multiset{k});
    assert Scale(n, multiset{k}) == multiset{k} + rest;
    OverAdd(multiset{k}, rest, f, 0);
    OverSingle(k, f, 0);
  }

  /** Taking all copies of one key out of the counts takes its term out of
      the sum. */
  lemma OverSplit<T>(pairs: multiset<nat>, k: nat, f: nat -> multiset<T>)
    requires k < Span()
    ensures Over(pairs, f, 0) == Over(pairs[k := 0], f, 0) + Scale(pairs[k], f(k))
  {
    var rest, n := pairs[k := 0], pairs[k];
    ScaleSingle(n, k);
    forall x ensures pairs[x] == (rest + Scale(n, multiset{k}))[x] {
    }
    assert pairs == rest + Scale(n, multiset{k});
    OverAdd(rest, Scale(n, multiset{k}), f, 0);
    OverScaledSingle(n, k, f);
  }

  /** One more key adds its term to the sum. */
  lemma OverCons<T>(k: nat, rest: multiset<nat>, f: nat -> multiset<T>)
    requires k < Span()
    ensures Over(multiset{k} + rest, f, 0) == f(k) + Over(rest, f, 0)
  {
    OverAdd(multiset{k}, rest, f, 0);
    OverSingle(k, f, 0);
  }
}
