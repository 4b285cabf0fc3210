/** Binary diagnostic (day 3). Every report line is a string of '0' and
    '1'. `part1` counts the '1's at every index, keeps a 1 where more than
    half of the lines (rounded down) have one, and reads the kept bits, and
    their complements, as two binary numbers in a 64-bit `size_t`. */
module Diagnostic {
  import opened Arith
  import opened Binary

  lemma Pow2Is65536()
    ensures Pow2(16) == 0x1_0000
  {
    Pow2Add(8, 8);
  }

  lemma Pow2Is32Bits()
    ensures Pow2(32) == 0x1_0000_0000
  {
    Pow2Is65536();
    Pow2Add(16, 16);
  }

  lemma WordSizeIsPow2()
    ensures Pow2(64) == Word
  {
    Pow2Is32Bits();
    Pow2Add(32, 32);
  }

  lemma {:induction false} Pow2Mono(a: nat, b: nat)
    requires a <= b
    ensures Pow2(a) <= Pow2(b)
    decreases b
  {
    if a < b {
      Pow2Mono(a, b - 1);
    }
  }

  // ---------------------------------------------------------------------
  // Counting

  /** Whether line `s` has a '1' at index `i`. */
  predicate OneAt(s: string, i: nat) {
    i < |s| && s[i] == '1'
  }

  /** The number of lines with '1' at index `i`, counted in line order. */
  function Ones(data: seq<string>, i: nat): nat {
    if data == [] then 0
    else Ones(data[..|data| - 1], i) + (if OneAt(data[|data| - 1], i) then 1 else 0)
  }

  /** The lines that have a '1' at index `i`. */
  function OneLines(data: seq<string>, i: nat): set<nat> {
    set j | 0 <= j < |data| && OneAt(data[j], i)
  }

  /** The running count is the number of lines with a '1' there. */
  lemma {:induction false} OnesCountsLines(data: seq<string>, i: nat)
    ensures Ones(data, i) == |OneLines(data, i)|
  {
    if data != [] {
      var n := |data|;
      var prefix := data[..n - 1];
      OnesCountsLines(prefix, i);
      assert OneLines(prefix, i) == set j | 0 <= j < n - 1 && OneAt(data[j], i);
      if OneAt(data[n - 1], i) {
        assert OneLines(data, i) == OneLines(prefix, i) + {n - 1};
      } else {
        assert OneLines(data, i) == OneLines(prefix, i);
      }
    }
  }

  /** `count_ones`: add one to `counts[i]` wherever `s` has a '1'. The code
      writes past the end of `counts` when `s` is longer, so the caller
      must not pass such a line. */
  method CountOnes(counts: seq<nat>, s: string) returns (r: seq<nat>)
    requires |s| <= |counts|
    ensures |r| == |counts|
    ensures forall i :: 0 <= i < |r| ==> r[i] == counts[i] + (if OneAt(s, i) then 1 else 0)
  {
    r := counts;
    var i := 0;
    while i < |s|
      invariant 0 <= i <= |s| && |r| == |counts|
      invariant forall j :: 0 <= j < |r| ==> r[j] == counts[j] + (if j < i && OneAt(s, j) then 1 else 0)
    {
      r := r[i := r[i] + (if s[i] == '1' then 1 else 0)];
      i := i + 1;
    }
  }

  /** The `accumulate` over the lines, from `w` zero counts. */
  method BitCounts(data: seq<string>, w: nat) returns (counts: seq<nat>)
    requires forall k :: 0 <= k < |data| ==> |data[k]| <= w
    ensures |counts| == w
    ensures forall i :: 0 <= i < w ==> counts[i] == Ones(data, i)
  {
    counts := seq(w, i => 0);
    var k := 0;
    while k < |data|
      invariant 0 <= k <= |data| && |counts| == w
      invariant forall i :: 0 <= i < w ==> counts[i] == Ones(data[..k], i)
    {
      counts := CountOnes(counts, data[k]);
      assert data[..k + 1][..k] == data[..k];
      k := k + 1;
    }
    assert data[..|data|] == data;
  }

  /** The `transform`: 1 where more than `|data| / 2` lines have a '1'. */
  function CommonBits(data: seq<string>, w: nat): (bits: seq<nat>)
    ensures |bits| == w
    ensures forall i :: 0 <= i < w ==> bits[i] <= 1
  {
    seq(w, i requires 0 <= i < w => Bit(Ones(data, i) > |data| / 2))
  }

  // ---------------------------------------------------------------------
  // Reading the bits as a number

  /** One step of the fold: shift left, dropping whatever leaves the
      64-bit word, and or in the low bit of `bit` (complemented for
      `lcb`). */
  function Push(result: nat, bit: nat, invert: bool): nat {
    (2 * result + (if invert then 1 - bit % 2 else bit % 2)) % Word
  }

  /** The `accumulate` of `Push` over the bits, first bit first. */
  function ReadBits(bits: seq<nat>, invert: bool): nat {
    if bits == [] then 0 else Push(ReadBits(bits[..|bits| - 1], invert), bits[|bits| - 1], invert)
  }

  /** A push that stays inside the word drops nothing. */
  lemma PushNoWrap(result: nat, bit: nat, invert: bool)
    requires bit <= 1 && 2 * result + 1 < Word
    ensures Push(result, bit, invert) == 2 * result + (if invert then 1 - bit else bit)
  {
  }

  /** Up to 64 bits nothing is dropped: `mcb` is the binary value of the
      bits, `lcb` that of their complements, and together they fill every
      bit of the width. */
  lemma {:induction false} WordComplement(bits: seq<nat>)
    requires IsBits(bits) && |bits| <= 64
    ensures ReadBits(bits, false) == Value(bits)
    ensures ReadBits(bits, false) + ReadBits(bits, true) == Pow2(|bits|) - 1
  {
    if bits != [] {
      var n := |bits|;
      var prefix, c := bits[..n - 1], bits[n - 1];
      assert IsBits(prefix) && c <= 1;
      WordComplement(prefix);
      Pow2Mono(n, 64);
      WordSizeIsPow2();
      var a, b := ReadBits(prefix, false), ReadBits(prefix, true);
      assert a + b == Pow2(n - 1) - 1;
      assert Pow2(n) == 2 * Pow2(n - 1);
      PushNoWrap(a, c, false);
      PushNoWrap(b, c, true);
      assert ReadBits(bits, false) == 2 * a + c;
      assert ReadBits(bits, true) == 2 * b + (1 - c);
    }
  }

  /** `mcb`: the most common bits read as a number. */
  function Gamma(data: seq<string>): nat
    requires |data| > 0
  {
    ReadBits(CommonBits(data, |data[0]|), false)
  }

  /** `lcb`: the complemented bits read as a number. */
  function Epsilon(data: seq<string>): nat
    requires |data| > 0
  {
    ReadBits(CommonBits(data, |data[0]|), true)
  }

  /** `part1`: `mcb * lcb` in `size_t`. Every line must be non-empty data
      no longer than the first (the first line sets the width). */
  method Part1(data: seq<string>) returns (r: nat)
    requires |data| > 0 && forall k :: 0 <= k < |data| ==> |data[k]| <= |data[0]|
    ensures r == Gamma(data) * Epsilon(data) % Word
  {
    var counts := BitCounts(data, |data[0]|);
    var threshold := |data| / 2;
    var bits := seq(|counts|, i requires 0 <= i < |counts| => Bit(counts[i] > threshold));
    assert bits == CommonBits(data, |data[0]|);
    var mcb := ReadBits(bits, false);
    var lcb := ReadBits(bits, true);
    r := mcb * lcb % Word;
  }

  /** Bit `i` of `mcb` (counting from the first character) is set exactly
      when more than half of the lines, rounded down, have a '1' there;
      `lcb` is its complement, so `mcb + lcb` is all ones. */
  lemma GammaEpsilon(data: seq<string>, i: nat)
    requires |data| > 0 && |data[0]| <= 64 && i < |data[0]|
    ensures Gamma(data) == Value(CommonBits(data, |data[0]|))
    ensures CommonBits(data, |data[0]|)[i] == 1 <==> |OneLines(data, i)| > |data| / 2
    ensures Gamma(data) + Epsilon(data) == Pow2(|data[0]|) - 1
  {
    WordComplement(CommonBits(data, |data[0]|));
    OnesCountsLines(data, i);
  }
}
