/** Bit sequences read as big-endian binary numbers: the `(value << 1) |
    bit` loops of the solvers. */
module Binary {
  import opened Arith

  function Bit(b: bool): nat {
    if b then 1 else 0
  }

  predicate IsBits(bits: seq<nat>) {
    forall i :: 0 <= i < |bits| ==> bits[i] <= 1
  }

  /** The unbounded value, first bit most significant. */
  function Value(bits: seq<nat>): nat {
    if bits == [] then 0 else 2 * Value(bits[..|bits| - 1]) + bits[|bits| - 1]
  }

  /** Every bit complemented. */
  function Flip(bits: seq<nat>): (r: seq<nat>)
    requires IsBits(bits)
    ensures |r| == |bits| && IsBits(r)
    ensures forall i :: 0 <= i < |bits| ==> r[i] + bits[i] == 1
  {
    seq(|bits|, i requires 0 <= i < |bits| => 1 - bits[i])
  }

  /** A number and its complement fill all the bits, so each is below
      2^n. */
  lemma {:induction false} ValueComplement(bits: seq<nat>)
    requires IsBits(bits)
    ensures Value(bits) + Value(Flip(bits)) == Pow2(|bits|) - 1
  {
    if bits != [] {
      var n := |bits|;
      var prefix := bits[..n - 1];
      assert IsBits(prefix);
      assert Flip(bits)[..n - 1] == Flip(prefix);
      ValueComplement(prefix);
    }
  }

  lemma ValueBound(bits: seq<nat>)
    requires IsBits(bits)
    ensures Value(bits) < Pow2(|bits|)
  {
    ValueComplement(bits);
  }

  /** All zero bits read as 0. */
  lemma {:induction false} ValueZero(bits: seq<nat>)
    requires forall i :: 0 <= i < |bits| ==> bits[i] == 0
    ensures Value(bits) == 0
  {
    if bits != [] {
      ValueZero(bits[..|bits| - 1]);
    }
  }

  /** All one bits read as 2^n - 1. */
  lemma {:induction false} ValueOnes(bits: seq<nat>)
    requires forall i :: 0 <= i < |bits| ==> bits[i] == 1
    ensures Value(bits) == Pow2(|bits|) - 1
  {
    if bits != [] {
      ValueOnes(bits[..|bits| - 1]);
    }
  }

  lemma MulAtLeast(a: int, d: int)
    requires a >= 1 && d >= 1
    ensures a * d >= d
  {
  }

  lemma DivUnique(n: int, d: int, q: int, r: int)
    requires d > 0 && n == q * d + r && 0 <= r < d
    ensures n / d == q
  {
    var q', r' := n / d, n % d;
    assert n == q' * d + r';
    assert (q - q') * d == r' - r;
    if q > q' {
      MulAtLeast(q - q', d);
    } else if q < q' {
      assert (q' - q) * d == r - r';
      MulAtLeast(q' - q, d);
    }
  }

  /** Dropping the low bit and dividing by 2k is dividing by k. */
  lemma DivHalf(a: nat, c: nat, k: nat)
    requires c <= 1 && k >= 1
    ensures (2 * a + c) / (2 * k) == a / k
  {
    var q, r := a / k, a % k;
    assert a == q * k + r;
    assert 2 * a + c == q * (2 * k) + (2 * r + c);
    DivUnique(2 * a + c, 2 * k, q, 2 * r + c);
  }

  /** Bit `i`, counted from the most significant end, can be read back off
      the value. */
  lemma {:induction false} ValueBit(bits: seq<nat>, i: nat)
    requires IsBits(bits) && i < |bits|
    ensures Value(bits) / Pow2(|bits| - 1 - i) % 2 == bits[i]
  {
    var n := |bits|;
    var prefix := bits[..n - 1];
    assert IsBits(prefix);
    if i < n - 1 {
      ValueBit(prefix, i);
      DivHalf(Value(prefix), bits[n - 1], Pow2(n - 2 - i));
      assert Pow2(n - 1 - i) == 2 * Pow2(n - 2 - i);
    }
  }
}
