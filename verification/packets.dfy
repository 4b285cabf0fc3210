/** Day 16's packet decoder: a 3-bit version and a 3-bit type id, then
    either a literal (type 4) in 5-bit groups or a list of sub-packets
    delimited by an 11-bit count or a 15-bit bit length. */
module Packets {
  import opened Wrappers
  import opened Bitstream
  import opened Arith

  /** `packet_t`: literals carry `value`, operators carry `sub`. */
  datatype Packet = Packet(version: nat, id: nat, value: nat, sub: seq<Packet>)


  const LiteralId: nat := 4

  predicate Valid(bs: BitStream) {
    bs.pos <= 8 * |bs.buffer|
  }

  function Remaining(bs: BitStream): nat
    requires Valid(bs)
  {
    8 * |bs.buffer| - bs.pos
  }

  /** What the header reads guarantee of a decoded packet: 3-bit fields,
      and a literal without sub-packets or an operator without a value. */
  predicate Header(p: Packet) {
    && p.version < 8 && p.id < 8
    && (p.id == LiteralId ==> p.sub == [])
    && (p.id != LiteralId ==> p.value == 0)
  }

  /** The decoder moved forward over the same buffer. */
  predicate Advanced(bs: BitStream, next: BitStream) {
    Valid(next) && next.buffer == bs.buffer && next.pos >= bs.pos
  }

  /** `decode`; `None` where a read would leave the buffer. */
  function Decode(bs: BitStream): (r: Option<(Packet, BitStream)>)
    requires Valid(bs)
    ensures r.Some? ==> Advanced(bs, r.value.1) && r.value.1.pos >= bs.pos + 6
    ensures r.Some? ==> Header(r.value.0)
    decreases Remaining(bs), 0, 0
  {
    match Read(bs, 3)
    case None => None
    case Some((version, bs1)) =>
      match Read(bs1, 3)
      case None => None
      case Some((id, bs2)) =>
        if id == LiteralId then
          match DecodeLiteral(bs2, 0)
          case None => None
          case Some((v, bs3)) => Some((Packet(version, id, v, []), bs3))
        else
          match DecodeSubpackets(bs2)
          case None => None
          case Some((ps, bs3)) => Some((Packet(version, id, 0, ps), bs3))
  }

  /** `decode_literal`: while the group's lead bit is 1, shift the next
      nibble into the `size_t` accumulator; the group led by 0 is the last. */
  function DecodeLiteral(bs: BitStream, acc: nat): (r: Option<(nat, BitStream)>)
    requires Valid(bs) && acc < Word
    ensures r.Some? ==> Advanced(bs, r.value.1) && r.value.1.pos >= bs.pos + 5
    ensures r.Some? ==> r.value.0 < Word
    decreases Remaining(bs)
  {
    match Read(bs, 1)
    case None => None
    case Some((more, bs1)) =>
      match Read(bs1, 4)
      case None => None
      case Some((nibble, bs2)) =>
        var acc' := (acc * 16 + nibble) % Word;
        if more == 1 then DecodeLiteral(bs2, acc') else Some((acc', bs2))
  }

  /** `decode_subpackets`: a 1-bit length type, then an 11-bit packet count
      or a 15-bit length in bits. */
  function DecodeSubpackets(bs: BitStream): (r: Option<(seq<Packet>, BitStream)>)
    requires Valid(bs)
    ensures r.Some? ==> Advanced(bs, r.value.1)
    ensures r.Some? ==> forall i :: 0 <= i < |r.value.0| ==> Header(r.value.0[i])
    decreases Remaining(bs), 1, 0
  {
    match Read(bs, 1)
    case None => None
    case Some((lengthType, bs1)) =>
      if lengthType == 1 then
        match Read(bs1, 11)
        case None => None
        case Some((count, bs2)) => DecodeCount(bs2, count)
      else
        match Read(bs1, 15)
        case None => None
        case Some((length, bs2)) => DecodeUntil(bs2, bs2.pos + length)
  }

  /** Exactly `count` consecutive packets. */
  function DecodeCount(bs: BitStream, count: nat): (r: Option<(seq<Packet>, BitStream)>)
    requires Valid(bs)
    ensures r.Some? ==> Advanced(bs, r.value.1) && |r.value.0| == count
    ensures r.Some? ==> forall i :: 0 <= i < |r.value.0| ==> Header(r.value.0[i])
    decreases Remaining(bs), 2, count
  {
    if count == 0 then Some(([], bs))
    else
      match Decode(bs)
      case None => None
      case Some((p, bs1)) =>
        match DecodeCount(bs1, count - 1)
        case None => None
        case Some((ps, bs2)) => Some(([p] + ps, bs2))
  }

  /** Packets while the cursor is before `end`; the last one may run past. */
  function DecodeUntil(bs: BitStream, end: nat): (r: Option<(seq<Packet>, BitStream)>)
    requires Valid(bs)
    ensures r.Some? ==> Advanced(bs, r.value.1) && r.value.1.pos >= end
    ensures r.Some? ==> forall i :: 0 <= i < |r.value.0| ==> Header(r.value.0[i])
    ensures r.Some? && bs.pos < end ==> |r.value.0| > 0
    decreases Remaining(bs), 2, 0
  {
    if bs.pos >= end then Some(([], bs))
    else
      match Decode(bs)
      case None => None
      case Some((p, bs1)) =>
        match DecodeUntil(bs1, end)
        case None => None
        case Some((ps, bs2)) => Some(([p] + ps, bs2))
  }

  /** The `version_sum` lambda. */
  function VersionSum(p: Packet): nat
    decreases p
  {
    p.version + VersionSums(p.sub)
  }

  function VersionSums(ps: seq<Packet>): nat
    decreases ps
  {
    if ps == [] then 0 else VersionSum(ps[0]) + VersionSums(ps[1..])
  }

  /** Every packet of the tree in pre-order. */
  function Flatten(p: Packet): (all: seq<Packet>)
    ensures |all| > 0 && all[0] == p
    decreases p
  {
    [p] + FlattenAll(p.sub)
  }

  function FlattenAll(ps: seq<Packet>): seq<Packet>
    decreases ps
  {
    if ps == [] then [] else Flatten(ps[0]) + FlattenAll(ps[1..])
  }

  function SumVersions(ps: seq<Packet>): nat {
    if ps == [] then 0 else ps[0].version + SumVersions(ps[1..])
  }

  lemma {:induction false} SumVersionsAppend(a: seq<Packet>, b: seq<Packet>)
    ensures SumVersions(a + b) == SumVersions(a) + SumVersions(b)
    decreases |a|
  {
    if a == [] {
      assert a + b == b;
    } else {
      assert (a + b)[1..] == a[1..] + b;
      SumVersionsAppend(a[1..], b);
    }
  }

  /** The recursive sum is the sum of the versions of every packet in the
      tree. */
  lemma {:induction false} VersionSumIsSumOverTree(p: Packet)
    ensures VersionSum(p) == SumVersions(Flatten(p))
    decreases p
  {
    VersionSumsIsSumOverTrees(p.sub);
    SumVersionsAppend([p], FlattenAll(p.sub));
  }

  lemma {:induction false} VersionSumsIsSumOverTrees(ps: seq<Packet>)
    ensures VersionSums(ps) == SumVersions(FlattenAll(ps))
    decreases ps
  {
    if ps != [] {
      VersionSumIsSumOverTree(ps[0]);
      VersionSumsIsSumOverTrees(ps[1..]);
      SumVersionsAppend(Flatten(ps[0]), FlattenAll(ps[1..]));
    }
  }

  // ---------------------------------------------------------------------
  // Encoding, to state that the decoder reads back what was transmitted.

  /** How a transmitter lays out an operator's sub-packets: where
      `byLength(p)` holds, `p` uses length type 0 (a 15-bit length in bits),
      otherwise length type 1 (an 11-bit packet count). The choice may
      differ from one operator of a tree to the next. */
  type Layout = Packet -> bool

  /** A packet the encoding can carry under `byLength`: its fields fit the
      widths they are written in. */
  predicate WellFormed(p: Packet, byLength: Layout)
    decreases p
  {
    && p.version < 8 && p.id < 8
    && (p.id == LiteralId ==> p.sub == [] && p.value < Word)
    && (p.id != LiteralId ==>
          && p.value == 0 && AllWellFormed(p.sub, byLength)
          && if byLength(p) then SizeAll(p.sub, byLength) < 32768 else |p.sub| < 2048)
  }

  predicate AllWellFormed(ps: seq<Packet>, byLength: Layout)
    decreases ps
  {
    ps != [] ==> WellFormed(ps[0], byLength) && AllWellFormed(ps[1..], byLength)
  }

  /** The hexadecimal digits of `v`, most significant first, at least one. */
  function Nibbles(v: nat): (ns: seq<nat>)
    ensures |ns| > 0 && forall i :: 0 <= i < |ns| ==> ns[i] < 16
  {
    if v < 16 then [v] else Nibbles(v / 16) + [v % 16]
  }

  /** Literal groups: a lead bit 1 on every group but the last, then the
      nibble. */
  function LiteralBits(ns: seq<nat>): (bits: seq<Bit>)
    requires |ns| > 0 && forall i :: 0 <= i < |ns| ==> ns[i] < 16
    ensures |bits| == 5 * |ns|
  {
    var last := |ns| == 1;
    BitsOf(if last then 0 else 1, 1)
    + (BitsOf(ns[0], 4) + if last then [] else LiteralBits(ns[1..]))
  }

  function Encode(p: Packet, byLength: Layout): seq<Bit>
    decreases p
  {
    BitsOf(p.version, 3)
    + (BitsOf(p.id, 3)
       + if p.id == LiteralId then LiteralBits(Nibbles(p.value))
         else if byLength(p) then
           BitsOf(0, 1) + (BitsOf(SizeAll(p.sub, byLength), 15) + EncodeAll(p.sub, byLength))
         else BitsOf(1, 1) + (BitsOf(|p.sub|, 11) + EncodeAll(p.sub, byLength)))
  }

  function EncodeAll(ps: seq<Packet>, byLength: Layout): seq<Bit>
    decreases ps
  {
    if ps == [] then [] else Encode(ps[0], byLength) + EncodeAll(ps[1..], byLength)
  }

  /** The accumulator after shifting in `ns`. */
  function Shifted(acc: nat, ns: seq<nat>): nat
    decreases |ns|
  {
    if ns == [] then acc else Shifted((acc * 16 + ns[0]) % Word, ns[1..])
  }

  lemma {:induction false} ShiftedSnoc(acc: nat, ns: seq<nat>, d: nat)
    ensures Shifted(acc, ns + [d]) == (Shifted(acc, ns) * 16 + d) % Word
    decreases |ns|
  {
    if ns == [] {
      assert ns + [d] == [d];
    } else {
      assert (ns + [d])[1..] == ns[1..] + [d];
      ShiftedSnoc((acc * 16 + ns[0]) % Word, ns[1..], d);
    }
  }

  /** Shifting in a number's nibbles rebuilds it. */
  lemma {:induction false} ShiftedNibbles(v: nat)
    requires v < Word
    ensures Shifted(0, Nibbles(v)) == v
    decreases v
  {
    if v >= 16 {
      ShiftedNibbles(v / 16);
      ShiftedSnoc(0, Nibbles(v / 16), v % 16);
    }
  }

  /** A field written with `BitsOf` reads back; `next` names the position
      after it. */
  lemma ReadField(bytes: seq<Byte>, pos: nat, v: nat, w: nat, rest: seq<Bit>, next: nat)
    requires At(bytes, pos, BitsOf(v, w) + rest) && v < Pow2(w) && w < 32 && next == pos + w
    ensures Read(BitStream(bytes, pos), w) == Some((v, BitStream(bytes, next)))
    ensures At(bytes, next, rest)
  {
    AtSplit(bytes, pos, BitsOf(v, w), rest, next);
    ReadAt(bytes, pos, BitsOf(v, w));
    ValueOfBitsOf(v, w);
  }

  /** The bits before an operator's sub-packets: the header, the length
      type and the 15-bit length or the 11-bit count. */
  function OperatorHeader(p: Packet, byLength: Layout): nat {
    if byLength(p) then 22 else 18
  }

  /** The length of a packet's encoding, computed from the packet. */
  function Size(p: Packet, byLength: Layout): (n: nat)
    ensures n >= 6
    decreases p
  {
    if p.id == LiteralId then 6 + 5 * |Nibbles(p.value)|
    else OperatorHeader(p, byLength) + SizeAll(p.sub, byLength)
  }

  function SizeAll(ps: seq<Packet>, byLength: Layout): nat
    decreases ps
  {
    if ps == [] then 0 else Size(ps[0], byLength) + SizeAll(ps[1..], byLength)
  }

  lemma {:induction false} EncodeSize(p: Packet, byLength: Layout)
    ensures |Encode(p, byLength)| == Size(p, byLength)
    decreases p
  {
    if p.id != LiteralId {
      EncodeAllSize(p.sub, byLength);
    }
  }

  lemma {:induction false} EncodeAllSize(ps: seq<Packet>, byLength: Layout)
    ensures |EncodeAll(ps, byLength)| == SizeAll(ps, byLength)
    decreases ps
  {
    if ps != [] {
      EncodeSize(ps[0], byLength);
      EncodeAllSize(ps[1..], byLength);
    }
  }

  // The round trip goes through a description of an encoded packet as the
  // reads the decoder will make: first from the bits to the reads, then
  // from the reads to the decoder's result.

  /** Reading `w` bits at `pos` yields `v` and moves the cursor to `next`. */
  predicate Reads(bytes: seq<Byte>, pos: nat, w: nat, v: nat, next: nat)
    requires w < 32
  {
    next == pos + w && Read(BitStream(bytes, pos), w) == Some((v, BitStream(bytes, next)))
  }

  /** The literal groups for `ns` can be read from `pos` on. */
  predicate LiteralReadable(bytes: seq<Byte>, pos: nat, ns: seq<nat>)
    requires |ns| > 0
    decreases |ns|
  {
    && Reads(bytes, pos, 1, if |ns| == 1 then 0 else 1, pos + 1)
    && Reads(bytes, pos + 1, 4, ns[0], pos + 5)
    && (|ns| > 1 ==> LiteralReadable(bytes, pos + 5, ns[1..]))
  }

  /** The reads of `p`'s header and body succeed with `p`'s fields. */
  predicate Readable(bytes: seq<Byte>, pos: nat, p: Packet, byLength: Layout)
    decreases p
  {
    && Reads(bytes, pos, 3, p.version, pos + 3)
    && Reads(bytes, pos + 3, 3, p.id, pos + 6)
    && if p.id == LiteralId then LiteralReadable(bytes, pos + 6, Nibbles(p.value))
       else if byLength(p) then
         && Reads(bytes, pos + 6, 1, 0, pos + 7)
         && Reads(bytes, pos + 7, 15, SizeAll(p.sub, byLength), pos + 22)
         && AllReadable(bytes, pos + 22, p.sub, byLength)
       else
         && Reads(bytes, pos + 6, 1, 1, pos + 7)
         && Reads(bytes, pos + 7, 11, |p.sub|, pos + 18)
         && AllReadable(bytes, pos + 18, p.sub, byLength)
  }

  predicate AllReadable(bytes: seq<Byte>, pos: nat, ps: seq<Packet>, byLength: Layout)
    decreases ps
  {
    ps != [] ==>
      Readable(bytes, pos, ps[0], byLength)
      && AllReadable(bytes, pos + Size(ps[0], byLength), ps[1..], byLength)
  }

  // From the bits to the reads.

  lemma {:induction false} LiteralBitsReadable(bytes: seq<Byte>, pos: nat, ns: seq<nat>)
    requires |ns| > 0 && forall i :: 0 <= i < |ns| ==> ns[i] < 16
    requires At(bytes, pos, LiteralBits(ns))
    ensures LiteralReadable(bytes, pos, ns)
    decreases |ns|
  {
    var lead: Bit := if |ns| == 1 then 0 else 1;
    var rest := if |ns| == 1 then [] else LiteralBits(ns[1..]);
    var nib := BitsOf(ns[0], 4);
    assert LiteralBits(ns) == BitsOf(lead, 1) + (nib + rest);
    ReadField(bytes, pos, lead, 1, nib + rest, pos + 1);
    assert ns[0] < Pow2(4);
    ReadField(bytes, pos + 1, ns[0], 4, rest, pos + 5);
    if |ns| > 1 {
      LiteralBitsReadable(bytes, pos + 5, ns[1..]);
    }
  }

  lemma {:induction false} EncodeReadable(bytes: seq<Byte>, pos: nat, p: Packet, byLength: Layout)
    requires WellFormed(p, byLength) && At(bytes, pos, Encode(p, byLength))
    ensures Readable(bytes, pos, p, byLength)
    decreases p, 1
  {
    if p.id == LiteralId {
      var body := LiteralBits(Nibbles(p.value));
      ReadField(bytes, pos, p.version, 3, BitsOf(p.id, 3) + body, pos + 3);
      ReadField(bytes, pos + 3, p.id, 3, body, pos + 6);
      LiteralBitsReadable(bytes, pos + 6, Nibbles(p.value));
    } else if byLength(p) {
      LengthOperatorReadable(bytes, pos, p, byLength);
    } else {
      CountOperatorReadable(bytes, pos, p, byLength);
    }
  }

  lemma {:induction false} CountOperatorReadable(bytes: seq<Byte>, pos: nat, p: Packet, byLength: Layout)
    requires WellFormed(p, byLength) && p.id != LiteralId && !byLength(p)
    requires At(bytes, pos, Encode(p, byLength))
    ensures Readable(bytes, pos, p, byLength)
    decreases p, 0
  {
    var subs := EncodeAll(p.sub, byLength);
    var body := BitsOf(1, 1) + (BitsOf(|p.sub|, 11) + subs);
    ReadField(bytes, pos, p.version, 3, BitsOf(p.id, 3) + body, pos + 3);
    ReadField(bytes, pos + 3, p.id, 3, body, pos + 6);
    ReadField(bytes, pos + 6, 1, 1, BitsOf(|p.sub|, 11) + subs, pos + 7);
    ReadField(bytes, pos + 7, |p.sub|, 11, subs, pos + 18);
    EncodeAllReadable(bytes, pos + 18, p.sub, byLength);
  }

  lemma {:induction false} LengthOperatorReadable(bytes: seq<Byte>, pos: nat, p: Packet, byLength: Layout)
    requires WellFormed(p, byLength) && p.id != LiteralId && byLength(p)
    requires At(bytes, pos, Encode(p, byLength))
    ensures Readable(bytes, pos, p, byLength)
    decreases p, 0
  {
    var subs := EncodeAll(p.sub, byLength);
    var length := SizeAll(p.sub, byLength);
    var body := BitsOf(0, 1) + (BitsOf(length, 15) + subs);
    ReadField(bytes, pos, p.version, 3, BitsOf(p.id, 3) + body, pos + 3);
    ReadField(bytes, pos + 3, p.id, 3, body, pos + 6);
    ReadField(bytes, pos + 6, 0, 1, BitsOf(length, 15) + subs, pos + 7);
    ReadField(bytes, pos + 7, length, 15, subs, pos + 22);
    EncodeAllReadable(bytes, pos + 22, p.sub, byLength);
  }

  lemma {:induction false} EncodeAllReadable(bytes: seq<Byte>, pos: nat, ps: seq<Packet>, byLength: Layout)
    requires AllWellFormed(ps, byLength) && At(bytes, pos, EncodeAll(ps, byLength))
    ensures AllReadable(bytes, pos, ps, byLength)
    decreases ps
  {
    if ps != [] {
      var mid := pos + Size(ps[0], byLength);
      AtEncodeAll(bytes, pos, ps, byLength, mid);
      EncodeReadable(bytes, pos, ps[0], byLength);
      EncodeAllReadable(bytes, mid, ps[1..], byLength);
      AllReadableCons(bytes, pos, ps, byLength, mid);
    }
  }

  /** The first packet's bits, then the rest's at `mid`. */
  lemma AtEncodeAll(bytes: seq<Byte>, pos: nat, ps: seq<Packet>, byLength: Layout, mid: nat)
    requires ps != [] && mid == pos + Size(ps[0], byLength)
    requires At(bytes, pos, EncodeAll(ps, byLength))
    ensures At(bytes, pos, Encode(ps[0], byLength)) && At(bytes, mid, EncodeAll(ps[1..], byLength))
  {
    EncodeSize(ps[0], byLength);
    AtSplit(bytes, pos, Encode(ps[0], byLength), EncodeAll(ps[1..], byLength), mid);
  }

  lemma AllReadableCons(bytes: seq<Byte>, pos: nat, ps: seq<Packet>, byLength: Layout, mid: nat)
    requires ps != [] && mid == pos + Size(ps[0], byLength)
    requires Readable(bytes, pos, ps[0], byLength) && AllReadable(bytes, mid, ps[1..], byLength)
    ensures AllReadable(bytes, pos, ps, byLength)
  {
  }

  // From the reads to the decoder's result.

  lemma DecodeLiteralStep(bytes: seq<Byte>, pos: nat, acc: nat, more: nat, nibble: nat, acc': nat)
    requires pos <= 8 * |bytes| && acc < Word && acc' == (acc * 16 + nibble) % Word
    requires Read(BitStream(bytes, pos), 1) == Some((more, BitStream(bytes, pos + 1)))
    requires Read(BitStream(bytes, pos + 1), 4) == Some((nibble, BitStream(bytes, pos + 5)))
    ensures more == 1 ==>
      DecodeLiteral(BitStream(bytes, pos), acc) == DecodeLiteral(BitStream(bytes, pos + 5), acc')
    ensures more != 1 ==>
      DecodeLiteral(BitStream(bytes, pos), acc) == Some((acc', BitStream(bytes, pos + 5)))
  {
  }

  lemma {:induction false} LiteralReadableDecodes(bytes: seq<Byte>, pos: nat, acc: nat, ns: seq<nat>, end: nat)
    requires acc < Word && |ns| > 0 && pos <= 8 * |bytes|
    requires LiteralReadable(bytes, pos, ns) && end == pos + 5 * |ns|
    ensures DecodeLiteral(BitStream(bytes, pos), acc) == Some((Shifted(acc, ns), BitStream(bytes, end)))
    decreases |ns|
  {
    var acc' := (acc * 16 + ns[0]) % Word;
    assert Shifted(acc, ns) == Shifted(acc', ns[1..]);
    if |ns| > 1 {
      DecodeLiteralStep(bytes, pos, acc, 1, ns[0], acc');
      LiteralReadableDecodes(bytes, pos + 5, acc', ns[1..], end);
    } else {
      DecodeLiteralStep(bytes, pos, acc, 0, ns[0], acc');
    }
  }

  lemma DecodeLiteralPacket(bytes: seq<Byte>, pos: nat, p: Packet, end: nat)
    requires pos <= 8 * |bytes| && p.id == LiteralId && p.sub == []
    requires Reads(bytes, pos, 3, p.version, pos + 3) && Reads(bytes, pos + 3, 3, p.id, pos + 6)
    requires DecodeLiteral(BitStream(bytes, pos + 6), 0) == Some((p.value, BitStream(bytes, end)))
    ensures Decode(BitStream(bytes, pos)) == Some((p, BitStream(bytes, end)))
  {
  }

  /** An operator with length type 1 and `|p.sub|` as its count. */
  lemma DecodeCountPacket(bytes: seq<Byte>, pos: nat, p: Packet, end: nat)
    requires pos <= 8 * |bytes| && p.id != LiteralId && p.value == 0
    requires Reads(bytes, pos, 3, p.version, pos + 3) && Reads(bytes, pos + 3, 3, p.id, pos + 6)
    requires Reads(bytes, pos + 6, 1, 1, pos + 7) && Reads(bytes, pos + 7, 11, |p.sub|, pos + 18)
    requires DecodeCount(BitStream(bytes, pos + 18), |p.sub|) == Some((p.sub, BitStream(bytes, end)))
    ensures Decode(BitStream(bytes, pos)) == Some((p, BitStream(bytes, end)))
  {
  }

  /** An operator with length type 0 and `length` bits of sub-packets. */
  lemma DecodeLengthPacket(bytes: seq<Byte>, pos: nat, p: Packet, length: nat, end: nat)
    requires pos <= 8 * |bytes| && p.id != LiteralId && p.value == 0
    requires Reads(bytes, pos, 3, p.version, pos + 3) && Reads(bytes, pos + 3, 3, p.id, pos + 6)
    requires Reads(bytes, pos + 6, 1, 0, pos + 7) && Reads(bytes, pos + 7, 15, length, pos + 22)
    requires DecodeUntil(BitStream(bytes, pos + 22), pos + 22 + length) == Some((p.sub, BitStream(bytes, end)))
    ensures Decode(BitStream(bytes, pos)) == Some((p, BitStream(bytes, end)))
  {
  }

  lemma DecodeCountStep(bytes: seq<Byte>, pos: nat, ps: seq<Packet>, mid: nat, end: nat)
    requires pos <= 8 * |bytes| && ps != []
    requires Decode(BitStream(bytes, pos)) == Some((ps[0], BitStream(bytes, mid)))
    requires DecodeCount(BitStream(bytes, mid), |ps[1..]|) == Some((ps[1..], BitStream(bytes, end)))
    ensures DecodeCount(BitStream(bytes, pos), |ps|) == Some((ps, BitStream(bytes, end)))
  {
    assert |ps[1..]| == |ps| - 1;
    assert [ps[0]] + ps[1..] == ps;
  }

  lemma DecodeUntilStep(bytes: seq<Byte>, pos: nat, ps: seq<Packet>, mid: nat, stop: nat, end: nat)
    requires pos <= 8 * |bytes| && ps != [] && pos < stop
    requires Decode(BitStream(bytes, pos)) == Some((ps[0], BitStream(bytes, mid)))
    requires DecodeUntil(BitStream(bytes, mid), stop) == Some((ps[1..], BitStream(bytes, end)))
    ensures DecodeUntil(BitStream(bytes, pos), stop) == Some((ps, BitStream(bytes, end)))
  {
    assert [ps[0]] + ps[1..] == ps;
  }

  lemma {:induction false} ReadableDecodes(bytes: seq<Byte>, pos: nat, p: Packet, byLength: Layout, end: nat)
    requires WellFormed(p, byLength) && pos <= 8 * |bytes|
    requires Readable(bytes, pos, p, byLength) && end == pos + Size(p, byLength)
    ensures Decode(BitStream(bytes, pos)) == Some((p, BitStream(bytes, end)))
    decreases p
  {
    if p.id == LiteralId {
      LiteralReadableDecodes(bytes, pos + 6, 0, Nibbles(p.value), end);
      ShiftedNibbles(p.value);
      DecodeLiteralPacket(bytes, pos, p, end);
    } else if byLength(p) {
      AllReadableDecodesUntil(bytes, pos + 22, p.sub, byLength, end);
      DecodeLengthPacket(bytes, pos, p, SizeAll(p.sub, byLength), end);
    } else {
      AllReadableDecodes(bytes, pos + 18, p.sub, byLength, end);
      DecodeCountPacket(bytes, pos, p, end);
    }
  }

  /** Length type 1: the count of packets reads them all back. */
  lemma {:induction false} AllReadableDecodes(bytes: seq<Byte>, pos: nat, ps: seq<Packet>, byLength: Layout, end: nat)
    requires AllWellFormed(ps, byLength) && pos <= 8 * |bytes|
    requires AllReadable(bytes, pos, ps, byLength) && end == pos + SizeAll(ps, byLength)
    ensures DecodeCount(BitStream(bytes, pos), |ps|) == Some((ps, BitStream(bytes, end)))
    decreases ps
  {
    if ps != [] {
      var mid := pos + Size(ps[0], byLength);
      ReadableDecodes(bytes, pos, ps[0], byLength, mid);
      AllReadableDecodes(bytes, mid, ps[1..], byLength, end);
      DecodeCountStep(bytes, pos, ps, mid, end);
    }
  }

  /** Length type 0: reading packets until the cursor reaches the end of
      their encodings reads them all back, and no packet more. */
  lemma {:induction false} AllReadableDecodesUntil(bytes: seq<Byte>, pos: nat, ps: seq<Packet>, byLength: Layout, end: nat)
    requires AllWellFormed(ps, byLength) && pos <= 8 * |bytes|
    requires AllReadable(bytes, pos, ps, byLength) && end == pos + SizeAll(ps, byLength)
    ensures DecodeUntil(BitStream(bytes, pos), end) == Some((ps, BitStream(bytes, end)))
    decreases ps
  {
    if ps != [] {
      var mid := pos + Size(ps[0], byLength);
      ReadableDecodes(bytes, pos, ps[0], byLength, mid);
      AllReadableDecodesUntil(bytes, mid, ps[1..], byLength, end);
      DecodeUntilStep(bytes, pos, ps, mid, end, end);
    }
  }

  // The two halves meet at a one-element list, so that neither the
  // encoding nor the decoder is unfolded where they are joined.

  lemma {:induction false} EncodedIsReadable(bytes: seq<Byte>, pos: nat, p: Packet, byLength: Layout)
    requires WellFormed(p, byLength) && At(bytes, pos, Encode(p, byLength))
    ensures AllWellFormed([p], byLength) && pos <= 8 * |bytes| && AllReadable(bytes, pos, [p], byLength)
  {
    assert [p][0] == p && [p][1..] == [];
    assert EncodeAll([p], byLength) == Encode(p, byLength) + [] == Encode(p, byLength);
    EncodeAllReadable(bytes, pos, [p], byLength);
    AtBound(bytes, pos, Encode(p, byLength));
  }

  lemma {:induction false} ReadableDecodesOne(bytes: seq<Byte>, pos: nat, p: Packet, byLength: Layout)
    requires AllWellFormed([p], byLength) && pos <= 8 * |bytes| && AllReadable(bytes, pos, [p], byLength)
    ensures Decode(BitStream(bytes, pos)) == Some((p, BitStream(bytes, pos + Size(p, byLength))))
  {
    assert [p][0] == p && [p][1..] == [];
    assert SizeAll([p], byLength) == Size(p, byLength) + 0;
    AllReadableDecodes(bytes, pos, [p], byLength, pos + Size(p, byLength));
    DecodeOne(bytes, pos, p, pos + Size(p, byLength));
  }

  /** A count of one packets is that packet. */
  lemma {:induction false} DecodeOne(bytes: seq<Byte>, pos: nat, p: Packet, end: nat)
    requires pos <= 8 * |bytes|
    requires DecodeCount(BitStream(bytes, pos), 1) == Some(([p], BitStream(bytes, end)))
    ensures Decode(BitStream(bytes, pos)) == Some((p, BitStream(bytes, end)))
  {
    var r := Decode(BitStream(bytes, pos));
    assert r.Some?;
    var next := r.value.1;
    assert DecodeCount(next, 0) == Some(([], next));
    assert [r.value.0] + [] == [r.value.0];
    assert [r.value.0][0] == r.value.0 && [p][0] == p;
  }

  /** The decoder reads back an encoded packet wherever it sits in the
      buffer, whichever length type each of its operators was written
      with, and stops right after it, `Size(p, byLength)` bits on. */
  lemma DecodeOfEncode(bytes: seq<Byte>, pos: nat, p: Packet, byLength: Layout)
    requires WellFormed(p, byLength) && At(bytes, pos, Encode(p, byLength))
    ensures |Encode(p, byLength)| == Size(p, byLength)
    ensures Decode(BitStream(bytes, pos)) == Some((p, BitStream(bytes, pos + Size(p, byLength))))
  {
    EncodeSize(p, byLength);
    EncodedIsReadable(bytes, pos, p, byLength);
    ReadableDecodesOne(bytes, pos, p, byLength);
  }

  /** The whole transmission: a packet followed by any padding. */
  lemma DecodeTransmission(p: Packet, byLength: Layout, padding: seq<Bit>, bytes: seq<Byte>)
    requires WellFormed(p, byLength) && BitString(bytes) == Encode(p, byLength) + padding
    ensures Decode(BitStream(bytes, 0)) == Some((p, BitStream(bytes, |Encode(p, byLength)|)))
  {
    assert BitString(bytes)[0..|Encode(p, byLength)|] == Encode(p, byLength);
    AtIsSlice(bytes, 0, Encode(p, byLength));
    DecodeOfEncode(bytes, 0, p, byLength);
  }

  // ---------------------------------------------------------------------
  // Part 1

  /** One line of `part1`: open the text, decode one packet, sum its
      versions; `None` where the decoder would read past the buffer. */
  function LineVersionSum(line: string): (r: Option<nat>)
  {
    match Decode(Open(line))
    case None => None
    case Some((p, _)) => Some(VersionSum(p))
  }

  /** `part1`: the version sums of every line added up. */
  function Part1(lines: seq<string>): (r: Option<nat>)
    ensures r.Some? <==> forall i :: 0 <= i < |lines| ==> LineVersionSum(lines[i]).Some?
  {
    if lines == [] then Some(0)
    else
      match LineVersionSum(lines[0])
      case None => None
      case Some(v) =>
        match Part1(lines[1..])
        case None => None
        case Some(rest) => Some(v + rest)
  }

  /** A line carrying an encoded packet, in upper-case hexadecimal with any
      padding, scores the sum of the versions over the packet's tree. */
  lemma LineVersionSumOfEncoding(p: Packet, byLength: Layout, padding: seq<Bit>, bytes: seq<Byte>)
    requires WellFormed(p, byLength) && BitString(bytes) == Encode(p, byLength) + padding
    ensures LineVersionSum(EncodeHex(bytes)) == Some(SumVersions(Flatten(p)))
  {
    DecodeHexOfEncodeHex(bytes);
    assert Open(EncodeHex(bytes)) == BitStream(bytes, 0);
    DecodeTransmission(p, byLength, padding, bytes);
    VersionSumIsSumOverTree(p);
  }
}
