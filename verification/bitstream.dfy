/** Day 16's bit reader (`bitstream.h`, repeated inline in the solution):
    hexadecimal text to bytes, and a big-endian bit cursor over them. */
module Bitstream {
  import opened Wrappers
  import opened Arith

  type Byte = b: int | 0 <= b < 256
  type Bit = b: int | 0 <= b < 2

  /** `decode_hex(char)`: the digit value of '0'-'9' and 'A'-'F'; every
      other character, lower-case hex digits included, decodes to 0. */
  function HexDigit(c: char): (v: nat)
    ensures v < 16
  {
    if '0' <= c <= '9' then c as int - '0' as int
    else if 'A' <= c <= 'F' then c as int - 'A' as int + 10
    else 0
  }

  const HexChars: string := "0123456789ABCDEF"

  /** Each upper-case hex digit decodes to its position in "0..9A..F". */
  lemma HexDigitInvertsHexChars(v: nat)
    requires v < 16
    ensures HexDigit(HexChars[v]) == v
  {
  }

  /** Lower-case hex letters are out of range and decode to 0. */
  lemma HexDigitLowerCaseIsZero(c: char)
    requires 'a' <= c <= 'f'
    ensures HexDigit(c) == 0
  {
  }

  /** `decode_hex(string)`: two digits per byte, high nibble first; an odd
      trailing digit becomes a high nibble over a zero low nibble. */
  function DecodeHex(s: string): (bytes: seq<Byte>)
    ensures |bytes| == (|s| + 1) / 2
    ensures forall i :: 0 <= i < |bytes| ==>
      bytes[i] == 16 * HexDigit(s[2 * i]) + (if 2 * i + 1 < |s| then HexDigit(s[2 * i + 1]) else 0)
  {
    if s == [] then []
    else if |s| == 1 then [16 * HexDigit(s[0])]
    else [16 * HexDigit(s[0]) + HexDigit(s[1])] + DecodeHex(s[2..])
  }

  /** Upper-case hex rendering, two digits per byte. */
  function EncodeHex(bytes: seq<Byte>): (s: string)
    ensures |s| == 2 * |bytes|
  {
    if bytes == [] then []
    else [HexChars[bytes[0] / 16], HexChars[bytes[0] % 16]] + EncodeHex(bytes[1..])
  }

  lemma {:induction false} EncodeHexAt(bytes: seq<Byte>, i: nat)
    requires i < |bytes|
    ensures EncodeHex(bytes)[2 * i] == HexChars[bytes[i] / 16]
    ensures EncodeHex(bytes)[2 * i + 1] == HexChars[bytes[i] % 16]
    decreases i
  {
    if i > 0 {
      EncodeHexAt(bytes[1..], i - 1);
    }
  }

  lemma DecodeHexOfEncodeHex(bytes: seq<Byte>)
    ensures DecodeHex(EncodeHex(bytes)) == bytes
  {
    forall i | 0 <= i < |bytes|
      ensures DecodeHex(EncodeHex(bytes))[i] == bytes[i]
    {
      DecodeHexOfEncodeHexAt(bytes, i);
    }
  }

  lemma {:induction false} DecodeHexOfEncodeHexAt(bytes: seq<Byte>, i: nat)
    requires i < |bytes|
    ensures |DecodeHex(EncodeHex(bytes))| == |bytes| && DecodeHex(EncodeHex(bytes))[i] == bytes[i]
  {
    var s, b := EncodeHex(bytes), bytes[i];
    EncodeHexAt(bytes, i);
    HexDigitInvertsHexChars(b / 16);
    HexDigitInvertsHexChars(b % 16);
    assert HexDigit(s[2 * i]) == b / 16 && HexDigit(s[2 * i + 1]) == b % 16;
    assert 16 * (b / 16) + b % 16 == b;
  }

  /** The value of a bit string read most significant bit first. */
  function Value(bits: seq<Bit>): nat {
    if bits == [] then 0 else 2 * Value(bits[..|bits| - 1]) + bits[|bits| - 1]
  }

  /** The low `w` bits of `v`, most significant first. */
  function BitsOf(v: nat, w: nat): (bits: seq<Bit>)
    ensures |bits| == w
  {
    if w == 0 then [] else BitsOf(v / 2, w - 1) + [v % 2]
  }

  lemma {:induction false} ValueOfBitsOf(v: nat, w: nat)
    requires v < Pow2(w)
    ensures Value(BitsOf(v, w)) == v
    decreases w
  {
    if w > 0 {
      var b := BitsOf(v, w);
      assert b[..|b| - 1] == BitsOf(v / 2, w - 1);
      ValueOfBitsOf(v / 2, w - 1);
    }
  }

  lemma {:induction false} ValueAppend(x: seq<Bit>, y: seq<Bit>)
    ensures Value(x + y) == Value(x) * Pow2(|y|) + Value(y)
    decreases |y|
  {
    if y == [] {
      assert x + y == x;
    } else {
      var y', l := y[..|y| - 1], y[|y| - 1];
      var xy := x + y;
      assert xy[..|xy| - 1] == x + y';
      assert xy[|xy| - 1] == l;
      ValueAppend(x, y');
      var a, b, c := Value(x), Pow2(|y'|), Value(y');
      assert Value(xy) == 2 * Value(x + y') + l;
      assert Value(y) == 2 * c + l;
      assert Pow2(|y|) == 2 * b;
      MulTwice(a, b);
    }
  }

  lemma MulTwice(a: nat, b: nat)
    ensures a * (2 * b) == 2 * (a * b)
  {
  }

  lemma {:induction false} ValueBound(x: seq<Bit>)
    ensures Value(x) < Pow2(|x|)
    decreases |x|
  {
    if x != [] {
      ValueBound(x[..|x| - 1]);
    }
  }

  /** The buffer as a bit string, each byte most significant bit first. */
  function BitString(bytes: seq<Byte>): (bits: seq<Bit>)
    ensures |bits| == 8 * |bytes|
  {
    if bytes == [] then [] else BitString(bytes[..|bytes| - 1]) + BitsOf(bytes[|bytes| - 1], 8)
  }

  lemma {:induction false} BitStringAppend(x: seq<Byte>, y: seq<Byte>)
    ensures BitString(x + y) == BitString(x) + BitString(y)
    decreases |y|
  {
    if y == [] {
      assert x + y == x;
    } else {
      var y' := y[..|y| - 1];
      assert (x + y)[..|x + y| - 1] == x + y';
      BitStringAppend(x, y');
    }
  }

  lemma BitStringSlice(bytes: seq<Byte>, lo: nat, hi: nat)
    requires lo <= hi <= |bytes|
    ensures BitString(bytes)[8 * lo..8 * hi] == BitString(bytes[lo..hi])
  {
    var a, b, c := bytes[..lo], bytes[lo..hi], bytes[hi..];
    SplitThree(bytes, lo, hi);
    BitStringAppend(a + b, c);
    BitStringAppend(a, b);
    var x, y, z := BitString(a), BitString(b), BitString(c);
    assert BitString(bytes) == (x + y) + z;
    assert ((x + y) + z)[|x|..|x| + |y|] == y;
  }

  lemma SplitThree<T>(s: seq<T>, lo: nat, hi: nat)
    requires lo <= hi <= |s|
    ensures s == (s[..lo] + s[lo..hi]) + s[hi..]
  {
  }

  /** The bytes read as one big-endian number, as the read loop shifts
      them into `full`. */
  function BytesValue(bytes: seq<Byte>): nat {
    if bytes == [] then 0 else 256 * BytesValue(bytes[..|bytes| - 1]) + bytes[|bytes| - 1]
  }

  lemma {:induction false} BytesValueIsValue(bytes: seq<Byte>)
    ensures BytesValue(bytes) == Value(BitString(bytes))
    decreases |bytes|
  {
    if bytes != [] {
      BytesValueIsValue(bytes[..|bytes| - 1]);
      BytesValueStep(bytes);
    }
  }

  lemma {:induction false} BytesValueStep(bytes: seq<Byte>)
    requires bytes != []
    requires BytesValue(bytes[..|bytes| - 1]) == Value(BitString(bytes[..|bytes| - 1]))
    ensures BytesValue(bytes) == Value(BitString(bytes))
  {
    var init, last := bytes[..|bytes| - 1], bytes[|bytes| - 1];
    var head, tail := BitString(init), BitsOf(last, 8);
    calc {
      Value(BitString(bytes));
      { assert BitString(bytes) == head + tail; }
      Value(head + tail);
      { ValueAppend(head, tail); }
      Value(head) * Pow2(8) + Value(tail);
      { Pow2Byte(); ValueOfBitsOf(last, 8); }
      Value(head) * 256 + last;
      BytesValue(init) * 256 + last;
    }
  }

  lemma Pow2Byte()
    ensures Pow2(8) == 256
  {
  }

  /** The read loop's `full`: bytes lo up to (not including) hi shifted in
      one after another. */
  function Gather(buffer: seq<Byte>, lo: nat, hi: nat): nat
    requires lo <= hi <= |buffer|
    decreases hi - lo
  {
    if hi == lo then 0 else 256 * Gather(buffer, lo, hi - 1) + buffer[hi - 1]
  }

  lemma {:induction false} GatherIsBytesValue(buffer: seq<Byte>, lo: nat, hi: nat)
    requires lo <= hi <= |buffer|
    ensures Gather(buffer, lo, hi) == BytesValue(buffer[lo..hi])
    decreases hi - lo
  {
    if hi > lo {
      assert buffer[lo..hi][..hi - lo - 1] == buffer[lo..hi - 1];
      GatherIsBytesValue(buffer, lo, hi - 1);
    }
  }

  /** `>>` on an unbounded value. */
  function Shr(v: nat, k: nat): nat {
    if k == 0 then v else Shr(v / 2, k - 1)
  }

  lemma {:induction false} ShrIsDiv(v: nat, k: nat)
    ensures Shr(v, k) == v / Pow2(k)
  {
    if k > 0 {
      ShrIsDiv(v / 2, k - 1);
      HalveDiv(v, Pow2(k - 1));
    }
  }

  /** Halving and then dividing by `m` divides by `2 * m`. */
  lemma HalveDiv(v: nat, m: nat)
    requires m > 0
    ensures (v / 2) / m == v / (2 * m)
  {
    var q, r := v / 2, v % 2;
    var q', r' := q / m, q % m;
    MulTwice(q', m);
    assert v == q' * (2 * m) + (2 * r' + r);
    DivMulAdd(q', 2 * r' + r, 2 * m);
  }

  /** The reader: its buffer and its cursor (`tell`). */
  datatype BitStream = BitStream(buffer: seq<Byte>, pos: nat)

  /** The constructor decodes the text and starts at bit 0. */
  function Open(hex: string): (bs: BitStream)
    ensures bs.pos == 0
    ensures |bs.buffer| == (|hex| + 1) / 2
    ensures bs.buffer == DecodeHex(hex)
  {
    BitStream(DecodeHex(hex), 0)
  }

  lemma MulMono(k: int, d: int)
    requires d > 0
    ensures k >= 1 ==> k * d >= d
    ensures k <= -1 ==> k * d <= -d
  {
    if k >= 1 {
      assert k * d == (k - 1) * d + d;
    }
    if k <= -1 {
      assert k * d == (k + 1) * d - d;
    }
  }

  lemma DivMulAdd(x: nat, y: nat, d: nat)
    requires d > 0 && y < d
    ensures (x * d + y) / d == x
    ensures (x * d + y) % d == y
  {
    var n := x * d + y;
    var q, r := n / d, n % d;
    assert n == q * d + r;
    assert (q - x) * d == q * d - x * d;
    MulMono(q - x, d);
  }

  /** Shifting out the low `|q|` bits and masking to `|m|` bits isolates
      the middle field. */
  lemma ShiftMask(p: seq<Bit>, m: seq<Bit>, q: seq<Bit>)
    ensures (Value(p + m + q) / Pow2(|q|)) % Pow2(|m|) == Value(m)
  {
    ValueAppend(p + m, q);
    ValueAppend(p, m);
    ValueBound(q);
    ValueBound(m);
    DivMulAdd(Value(p + m), Value(q), Pow2(|q|));
    DivMulAdd(Value(p), Value(m), Pow2(|m|));
  }

  /** The arithmetic of `read`: the bytes [lo, hi) shifted into one number,
      shifted right past the bits after the field and masked to `bits`
      bits, are the field's bits. */
  lemma ExtractIsField(bytes: seq<Byte>, lo: nat, hi: nat, pos: nat, bits: nat)
    requires lo == pos / 8 && pos + bits <= 8 * hi && hi <= |bytes|
    ensures var full := BytesValue(bytes[lo..hi]);
      (full / Pow2(8 * hi - (pos + bits))) % Pow2(bits)
        == Value(BitString(bytes)[pos..pos + bits])
  {
    var w := BitString(bytes[lo..hi]);
    BitStringSlice(bytes, lo, hi);
    BytesValueIsValue(bytes[lo..hi]);
    var a := pos - 8 * lo;
    ShiftMaskAt(w, a, a + bits);
    SliceOfSlice(BitString(bytes), 8 * lo, 8 * hi, a, a + bits);
  }

  /** `ShiftMask` for a field given by its bounds within `w`. */
  lemma ShiftMaskAt(w: seq<Bit>, a: nat, b: nat)
    requires a <= b <= |w|
    ensures (Value(w) / Pow2(|w| - b)) % Pow2(b - a) == Value(w[a..b])
  {
    SplitThree(w, a, b);
    ShiftMask(w[..a], w[a..b], w[b..]);
  }

  lemma SliceOfSlice<T>(s: seq<T>, lo: nat, hi: nat, a: nat, b: nat)
    requires lo <= hi <= |s| && a <= b <= hi - lo
    ensures s[lo..hi][a..b] == s[lo + a..lo + b]
  {
    var t := s[lo..hi];
    forall i | 0 <= i < b - a
      ensures t[a..b][i] == s[lo + a..lo + b][i]
    {
      assert t[a..b][i] == t[a + i];
    }
  }

  /** The same, for the loop and shift the reader performs. */
  lemma GatherShrIsField(bytes: seq<Byte>, lo: nat, hi: nat, pos: nat, bits: nat)
    requires lo == pos / 8 && pos + bits <= 8 * hi && hi <= |bytes|
    ensures Shr(Gather(bytes, lo, hi), 8 * hi - (pos + bits)) % Pow2(bits)
      == Value(BitString(bytes)[pos..pos + bits])
  {
    GatherIsBytesValue(bytes, lo, hi);
    ShrIsDiv(Gather(bytes, lo, hi), 8 * hi - (pos + bits));
    ExtractIsField(bytes, lo, hi, pos, bits);
  }

  /** `read(bits)` as written: it shifts in every byte from the cursor's
      byte through byte (pos+bits)/8 -- one past the field when the field
      ends on a byte boundary -- and so indexes past the buffer when the
      field ends flush with it. `None` marks that out-of-bounds read. The
      mask `~(~0u << bits)` is defined only for `bits` < 32, and the at most
      five shifted bytes then fit in `size_t`. */
  function ReadAsWritten(bs: BitStream, bits: nat): (r: Option<(nat, BitStream)>)
    requires bits < 32
    ensures r.None? <==> (bs.pos + bits) / 8 >= |bs.buffer|
    ensures r.Some? ==> r.value.1 == bs.(pos := bs.pos + bits)
    ensures r.Some? ==> r.value.0 == Value(BitString(bs.buffer)[bs.pos..bs.pos + bits])
  {
    var endByte := (bs.pos + bits) / 8;
    var endBit := (bs.pos + bits) % 8;
    if endByte >= |bs.buffer| then None
    else
      var full := Gather(bs.buffer, bs.pos / 8, endByte + 1);
      var result := Shr(full, 8 - endBit) % Pow2(bits);
      GatherShrIsField(bs.buffer, bs.pos / 8, endByte + 1, bs.pos, bits);
      Some((result, bs.(pos := bs.pos + bits)))
  }

  /** `read(bits)` with the byte range ending at the field's last byte:
      defined exactly when the field lies inside the buffer. */
  function Read(bs: BitStream, bits: nat): (r: Option<(nat, BitStream)>)
    requires bits < 32
    ensures r.None? <==> bs.pos + bits > 8 * |bs.buffer|
    ensures r.Some? ==> r.value.1 == bs.(pos := bs.pos + bits)
    ensures r.Some? ==> r.value.0 < Pow2(bits)
  {
    var hi := (bs.pos + bits + 7) / 8;
    if hi > |bs.buffer| then None
    else
      var full := Gather(bs.buffer, bs.pos / 8, hi);
      var result := Shr(full, 8 * hi - (bs.pos + bits)) % Pow2(bits);
      Some((result, bs.(pos := bs.pos + bits)))
  }

  /** What `read` returns is the field of `bits` bits at the cursor. */
  lemma ReadIsField(bs: BitStream, bits: nat)
    requires bits < 32
    ensures Read(bs, bits).Some? ==>
      Read(bs, bits).value.0 == Value(BitString(bs.buffer)[bs.pos..bs.pos + bits])
  {
    var hi := (bs.pos + bits + 7) / 8;
    if hi <= |bs.buffer| {
      GatherShrIsField(bs.buffer, bs.pos / 8, hi, bs.pos, bits);
    }
  }

  /** Wherever the as-written read is defined it agrees with `Read`. */
  lemma ReadAsWrittenAgrees(bs: BitStream, bits: nat)
    requires bits < 32
    ensures ReadAsWritten(bs, bits).Some? ==> ReadAsWritten(bs, bits) == Read(bs, bits)
  {
    ReadIsField(bs, bits);
  }

  /** A one-byte buffer read whole: the as-written read needs a second
      byte, the corrected read returns the byte. */
  lemma ReadAsWrittenOverruns()
    ensures ReadAsWritten(BitStream([255], 0), 8).None?
    ensures Read(BitStream([255], 0), 8) == Some((255, BitStream([255], 8)))
  {
    var b := BitString([255]);
    assert b == BitsOf(255, 8);
    ValueOfBitsOf(255, 8);
    assert b[0..8] == b;
  }

  /** `w` sits in the buffer at bit `pos`, bit by bit. */
  predicate At(bytes: seq<Byte>, pos: nat, w: seq<Bit>)
    decreases |w|
  {
    if w == [] then pos <= 8 * |bytes|
    else pos < 8 * |bytes| && BitString(bytes)[pos] == w[0] && At(bytes, pos + 1, w[1..])
  }

  /** `At` is the slice of the buffer's bits. */
  lemma {:induction false} AtIsSlice(bytes: seq<Byte>, pos: nat, w: seq<Bit>)
    ensures At(bytes, pos, w) <==>
      pos + |w| <= 8 * |bytes| && BitString(bytes)[pos..pos + |w|] == w
    decreases |w|
  {
    if w != [] {
      AtIsSlice(bytes, pos + 1, w[1..]);
      var b := BitString(bytes);
      if pos + |w| <= 8 * |bytes| {
        assert b[pos..pos + |w|] == [b[pos]] + b[pos + 1..pos + |w|];
        assert w == [w[0]] + w[1..];
      }
    }
  }

  lemma {:induction false} AtSplit(bytes: seq<Byte>, pos: nat, u: seq<Bit>, v: seq<Bit>, next: nat)
    requires At(bytes, pos, u + v) && next == pos + |u|
    ensures At(bytes, pos, u) && At(bytes, next, v)
    decreases |u|
  {
    if u == [] {
      assert u + v == v;
      AtIsSlice(bytes, pos, v);
    } else {
      assert (u + v)[1..] == u[1..] + v;
      AtSplit(bytes, pos + 1, u[1..], v, next);
    }
  }

  lemma AtBound(bytes: seq<Byte>, pos: nat, w: seq<Bit>)
    requires At(bytes, pos, w)
    ensures pos + |w| <= 8 * |bytes|
  {
    AtIsSlice(bytes, pos, w);
  }

  /** Reading a field that is known to hold `w` returns `w`'s value. */
  lemma ReadAt(bytes: seq<Byte>, pos: nat, w: seq<Bit>)
    requires At(bytes, pos, w) && |w| < 32
    ensures Read(BitStream(bytes, pos), |w|) == Some((Value(w), BitStream(bytes, pos + |w|)))
  {
    AtIsSlice(bytes, pos, w);
    ReadIsField(BitStream(bytes, pos), |w|);
  }
}
