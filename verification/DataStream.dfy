/** The data bit stream of a symbol: headers and payloads of the segments, terminator and padding, and a parser that
    reads it back. */
module DataStream {
  import opened Bytes
  import opened VersionInfo
  import opened Segments

  datatype Option<+T> = None | Some(value: T)

  /** A segment as a value: mode, character count and payload bits. */
  datatype Chunk = Chunk(mode: Mode, count: nat, bits: seq<bool>)

  function ModeNibble(mode: Mode): nat {
    match mode
    case Numeric => 1
    case Alphanumeric => 2
    case Byte => 4
    case Kanji => 8
    case Eci => 7
  }

  function ModeOfNibble(n: nat): Option<Mode> {
    if n == 1 then Some(Numeric) else if n == 2 then Some(Alphanumeric) else if n == 4 then Some(Byte)
    else if n == 8 then Some(Kanji) else None
  }

  function Header(mode: Mode, count: nat, v: Version): seq<bool> {
    NatBits(ModeNibble(mode), 4) + NatBits(count, NumCharCountBits(mode, v))
  }

  ghost function ChunkBits(c: Chunk, v: Version): seq<bool> {
    Header(c.mode, c.count, v) + c.bits
  }

  ghost function StreamBits(chunks: seq<Chunk>, v: Version): seq<bool> {
    if chunks == [] then []
    else StreamBits(chunks[..|chunks| - 1], v) + ChunkBits(chunks[|chunks| - 1], v)
  }

  lemma {:induction false} StreamCons(chunks: seq<Chunk>, v: Version)
    requires chunks != []
    ensures StreamBits(chunks, v) == ChunkBits(chunks[0], v) + StreamBits(chunks[1..], v)
  {
    hide ChunkBits, StreamBits;
    var n := |chunks| - 1;
    StreamLast(chunks, v);
    if n == 0 {
      assert chunks[..0] == [] && chunks[1..] == [];
    } else {
      StreamCons(chunks[..n], v);
      StreamLast(chunks[1..], v);
      assert chunks[..n][1..] == chunks[1..][..n - 1];
    }
  }

  lemma StreamLast(chunks: seq<Chunk>, v: Version)
    requires chunks != []
    ensures StreamBits([], v) == []
    ensures StreamBits(chunks, v) == StreamBits(chunks[..|chunks| - 1], v) + ChunkBits(chunks[|chunks| - 1], v)
  {
    hide ChunkBits;
  }

  // ---------- parsing ----------

  /** A segment whose count fits its field and whose payload is as long as its count says. */
  ghost predicate Consistent(c: Chunk, v: Version) {
    && c.mode != Eci && c.count < Pow2(NumCharCountBits(c.mode, v))
    && CalcSegmentBitLength(c.mode, c.count) == |c.bits|
  }

  /** Reads segments up to a terminator or the end of the data. */
  ghost function Parse(bits: seq<bool>, v: Version): Option<seq<Chunk>>
    decreases |bits|
  {
    if |bits| < 4 || BitsToNat(bits[..4]) == 0 then Some([])
    else
      match ModeOfNibble(BitsToNat(bits[..4]))
      case None => None
      case Some(mode) =>
        var cc := NumCharCountBits(mode, v);
        if |bits| < 4 + cc then None
        else
          var count := BitsToNat(bits[4..4 + cc]);
          var len := CalcSegmentBitLength(mode, count);
          if len == -1 || |bits| < 4 + cc + len then None
          else
            match Parse(bits[4 + cc + len..], v)
            case None => None
            case Some(rest) => Some([Chunk(mode, count, bits[4 + cc..4 + cc + len])] + rest)
  }

  /** What may follow the segments: too little for a mode field, or a zero one. */
  ghost predicate IsTail(tail: seq<bool>) {
    |tail| < 4 || BitsToNat(tail[..4]) == 0
  }

  lemma ParseStep(c: Chunk, rest: seq<bool>, v: Version)
    requires Consistent(c, v)
    ensures Parse(ChunkBits(c, v) + rest, v) ==
            match Parse(rest, v)
            case None => None
            case Some(cs) => Some([c] + cs)
  {
    hide NatBits, BitsToNat, NumCharCountBits, CalcSegmentBitLength, Pow2, ModeOfNibble, ModeNibble;
    var bits := ChunkBits(c, v) + rest;
    var cc, len := NumCharCountBits(c.mode, v), |c.bits|;
    NibbleRoundTrip(c.mode);
    NatBitsRoundTrip(c.count, cc);
    var nibble, field := NatBits(ModeNibble(c.mode), 4), NatBits(c.count, cc);
    assert bits == nibble + field + c.bits + rest;
    assert bits[..4] == nibble;
    assert bits[4..4 + cc] == field;
    assert bits[4 + cc..4 + cc + len] == c.bits;
    assert bits[4 + cc + len..] == rest;
  }

  lemma NibbleRoundTrip(mode: Mode)
    requires mode != Eci
    ensures BitsToNat(NatBits(ModeNibble(mode), 4)) == ModeNibble(mode) != 0
    ensures ModeOfNibble(ModeNibble(mode)) == Some(mode)
  {
    assert Pow2(4) == 16;
    NatBitsRoundTrip(ModeNibble(mode), 4);
  }

  /** Parsing a stream of consistent segments with a proper tail gives exactly those segments. */
  lemma {:induction false} ParseStream(chunks: seq<Chunk>, tail: seq<bool>, v: Version)
    requires forall i | 0 <= i < |chunks| :: Consistent(chunks[i], v)
    requires IsTail(tail)
    ensures Parse(StreamBits(chunks, v) + tail, v) == Some(chunks)
  {
    hide ChunkBits, Consistent;
    if chunks == [] {
      assert StreamBits(chunks, v) + tail == tail;
    } else {
      StreamCons(chunks, v);
      ParseStream(chunks[1..], tail, v);
      hide Parse, StreamBits;
      var first, rest := ChunkBits(chunks[0], v), StreamBits(chunks[1..], v);
      assert StreamBits(chunks, v) + tail == first + (rest + tail);
      ParseStep(chunks[0], rest + tail, v);
      assert [chunks[0]] + chunks[1..] == chunks;
    }
  }

  // ---------- terminator and padding ----------

  function PadByte(i: nat): nat {
    if i % 2 == 0 then 0xEC else 0x11
  }

  function PadBits(n: nat): (bits: seq<bool>)
    ensures |bits| == 8 * n
  {
    if n == 0 then [] else PadBits(n - 1) + NatBits(PadByte(n - 1), 8)
  }

  function TerminatorLength(used: nat, capacity: nat): nat
    requires used <= capacity
  {
    if capacity - used > 4 then 4 else capacity - used
  }

  function AlignLength(used: nat): nat {
    (8 - used % 8) % 8
  }

  /** The number of pad bytes. */
  function PadCount(used: nat, capacity: nat): nat
    requires used <= capacity && capacity % 8 == 0
  {
    PadRoom(used, capacity);
    var t := TerminatorLength(used, capacity);
    (capacity - used - t - AlignLength(used + t)) / 8
  }

  /** Terminator and alignment never exceed the capacity and end at a byte boundary. */
  lemma PadRoom(used: nat, capacity: nat)
    requires used <= capacity && capacity % 8 == 0
    ensures var t := TerminatorLength(used, capacity);
            var a := AlignLength(used + t);
            t + a <= capacity - used && (used + t + a) % 8 == 0 && (capacity - used - t - a) % 8 == 0
  {
  }

  lemma TailLengths(used: nat, capacity: nat)
    requires used <= capacity && capacity % 8 == 0
    ensures var t := TerminatorLength(used, capacity);
            var a := AlignLength(used + t);
            t + a + 8 * PadCount(used, capacity) == capacity - used && (used + t + a) % 8 == 0
  {
    PadRoom(used, capacity);
    hide TerminatorLength, AlignLength;
  }

  /** The tail: up to four zeros, zeros to a byte boundary, then alternating pad bytes. */
  function Tail(used: nat, capacity: nat): (tail: seq<bool>)
    requires used <= capacity && capacity % 8 == 0
    ensures |tail| == capacity - used
  {
    hide *;
    TailLengths(used, capacity);
    var t := TerminatorLength(used, capacity);
    Zeros(t) + Zeros(AlignLength(used + t)) + PadBits(PadCount(used, capacity))
  }

  lemma TailIsTail(used: nat, capacity: nat)
    requires used <= capacity && capacity % 8 == 0
    ensures IsTail(Tail(used, capacity))
  {
    hide PadBits;
    var tail := Tail(used, capacity);
    if |tail| >= 4 {
      assert tail[..4] == Zeros(4);
      assert BitsToNat(Zeros(4)) == 0 by {
        ZeroBits(4);
      }
    }
  }

  lemma {:induction false} ZeroBits(n: nat)
    ensures BitsToNat(Zeros(n)) == 0
  {
    if n > 0 {
      ZeroBits(n - 1);
      assert Zeros(n)[..n - 1] == Zeros(n - 1);
    }
  }

  lemma {:induction false} ZeroField(n: nat)
    ensures NatBits(0, n) == Zeros(n)
  {
    if n > 0 {
      ZeroField(n - 1);
      assert Zeros(n) == Zeros(n - 1) + [false];
    }
  }

  /** All data bits of a symbol. */
  ghost function DataBits(chunks: seq<Chunk>, v: Version, capacity: nat): (bits: seq<bool>)
    requires |StreamBits(chunks, v)| <= capacity && capacity % 8 == 0
    ensures |bits| == capacity
  {
    StreamBits(chunks, v) + Tail(|StreamBits(chunks, v)|, capacity)
  }

  /** The data bits of a symbol parse back to its segments. */
  lemma DataBitsRoundTrip(chunks: seq<Chunk>, v: Version, capacity: nat)
    requires forall i | 0 <= i < |chunks| :: Consistent(chunks[i], v)
    requires |StreamBits(chunks, v)| <= capacity && capacity % 8 == 0
    ensures Parse(DataBits(chunks, v, capacity), v) == Some(chunks)
  {
    hide Parse, StreamBits, Tail, Consistent, IsTail;
    TailIsTail(|StreamBits(chunks, v)|, capacity);
    ParseStream(chunks, Tail(|StreamBits(chunks, v)|, capacity), v);
  }

  /** The four bits in front of a segment. */
  lemma Indicators()
    ensures NatBits(ModeNibble(Numeric), 4) == [false, false, false, true]
    ensures NatBits(ModeNibble(Alphanumeric), 4) == [false, false, true, false]
    ensures NatBits(ModeNibble(Byte), 4) == [false, true, false, false]
    ensures NatBits(ModeNibble(Kanji), 4) == [true, false, false, false]
    ensures NatBits(ModeNibble(Eci), 4) == [false, true, true, true]
  {
    FourBits(1);
    FourBits(2);
    FourBits(4);
    FourBits(8);
    FourBits(7);
  }

  lemma FourBits(n: nat)
    ensures NatBits(n, 4) == [n / 8 % 2 == 1, n / 4 % 2 == 1, n / 2 % 2 == 1, n % 2 == 1]
  {
    assert NatBits(n / 4, 2) == NatBits(n / 8, 1) + [n / 4 % 2 == 1];
    assert NatBits(n / 8, 1) == [] + [n / 8 % 2 == 1];
  }

  /** The sixteen bits that the padding repeats. */
  const PADDING: seq<bool> := [
    true, true, true, false, true, true, false, false,
    false, false, false, true, false, false, false, true]

  lemma FirstPadByte()
    ensures NatBits(0xEC, 8) == [true, true, true, false, true, true, false, false]
  {
  }

  lemma SecondPadByte()
    ensures NatBits(0x11, 8) == [false, false, false, true, false, false, false, true]
  {
  }

  lemma PadByteBits(i: nat)
    ensures |PADDING| == 16
    ensures NatBits(PadByte(i), 8) == if i % 2 == 0 then PADDING[..8] else PADDING[8..]
  {
    hide NatBits;
    FirstPadByte();
    SecondPadByte();
  }

  lemma HalfOfSixteen(n: nat, i: nat)
    requires i < 8
    ensures (8 * n + i) % 16 == if n % 2 == 0 then i else 8 + i
  {
  }

  /** Pad bytes repeat one pattern of sixteen bits. */
  lemma {:induction false} PadPattern(n: nat, k: nat)
    requires k < 8 * n
    ensures |PADDING| == 16 && PadBits(n)[k] == PADDING[k % 16]
    decreases n
  {
    hide PADDING, PadBits, PadByte, NatBits;
    PadBitsUnfold(n - 1);
    PadByteBits(n - 1);
    if k < 8 * (n - 1) {
      PadPattern(n - 1, k);
    } else {
      var i := k - 8 * (n - 1);
      assert PadBits(n)[k] == NatBits(PadByte(n - 1), 8)[i];
      HalfOfSixteen(n - 1, i);
    }
  }

  /** What fills a symbol up: the least number of zeros that is at least four, or all that are left, and ends at a
      byte boundary; then pad bytes only. */
  lemma TailExactly(used: nat, capacity: nat, zeros: nat)
    requires used <= capacity && capacity % 8 == 0 && (used + zeros) % 8 == 0
    requires var least := if capacity - used < 4 then capacity - used else 4; least <= zeros < least + 8
    ensures zeros <= capacity - used && (capacity - used - zeros) % 8 == 0
    ensures Tail(used, capacity) == Zeros(zeros) + PadBits((capacity - used - zeros) / 8)
  {
    hide PadBits, TerminatorLength, AlignLength, PadCount;
    TailLengths(used, capacity);
    TailZeros(used, capacity, zeros);
    var t := TerminatorLength(used, capacity);
    assert Zeros(t) + Zeros(AlignLength(used + t)) == Zeros(zeros);
    assert 8 * PadCount(used, capacity) == capacity - used - zeros;
  }

  lemma TailZeros(used: nat, capacity: nat, zeros: nat)
    requires used <= capacity && capacity % 8 == 0 && (used + zeros) % 8 == 0
    requires var least := if capacity - used < 4 then capacity - used else 4; least <= zeros < least + 8
    ensures TerminatorLength(used, capacity) + AlignLength(used + TerminatorLength(used, capacity)) == zeros
  {
    PadRoom(used, capacity);
  }

  // ---------- segment lists ----------

  ghost function DataArrays(segs: seq<Segment>): set<object> {
    set i | 0 <= i < |segs| && segs[i].data != null :: segs[i].data
  }

  lemma LastArray(segs: seq<Segment>)
    requires segs != []
    ensures DataArrays(segs[..|segs| - 1]) <= DataArrays(segs)
    ensures segs[|segs| - 1].data != null ==> segs[|segs| - 1].data in DataArrays(segs)
  {
  }

  ghost predicate ValidSegments(segs: seq<Segment>) {
    forall i | 0 <= i < |segs| :: ValidSegment(segs[i])
  }

  ghost function ChunkOf(seg: Segment): Chunk
    requires ValidSegment(seg)
    reads if seg.data == null then {} else {seg.data}
  {
    Chunk(seg.mode, seg.numChars, SegmentBits(seg))
  }

  ghost function ChunksOf(segs: seq<Segment>): (chunks: seq<Chunk>)
    requires ValidSegments(segs)
    reads DataArrays(segs)
    ensures |chunks| == |segs|
  {
    hide ValidSegment, SegmentBits, ChunkOf, DataArrays;
    if segs == [] then []
    else
      var n := |segs| - 1;
      LastArray(segs);
      ChunksOf(segs[..n]) + [ChunkOf(segs[n])]
  }

  lemma {:induction false} ChunkAt(segs: seq<Segment>, i: nat)
    requires ValidSegments(segs) && i < |segs|
    ensures ChunksOf(segs)[i] == ChunkOf(segs[i])
  {
    hide ValidSegment, SegmentBits, ChunkOf, DataArrays;
    var n := |segs| - 1;
    if i < n {
      ChunkAt(segs[..n], i);
    }
  }

  lemma ChunksAre(segs: seq<Segment>)
    requires ValidSegments(segs)
    ensures forall i | 0 <= i < |segs| :: ChunksOf(segs)[i] == ChunkOf(segs[i])
  {
    hide ChunksOf, ChunkOf;
    forall i | 0 <= i < |segs|
      ensures ChunksOf(segs)[i] == ChunkOf(segs[i])
    {
      ChunkAt(segs, i);
    }
  }

  // ---------- lengths ----------

  ghost predicate CountsFit(segs: seq<Segment>, v: Version) {
    forall i | 0 <= i < |segs| :: segs[i].numChars < Pow2(NumCharCountBits(segs[i].mode, v))
  }

  function LengthSum(segs: seq<Segment>, v: Version): nat {
    if segs == [] then 0
    else
      var n := |segs| - 1;
      LengthSum(segs[..n], v) + 4 + NumCharCountBits(segs[n].mode, v) + segs[n].bitLength
  }

  lemma {:induction false} LengthSumMonotone(segs: seq<Segment>, v: Version, n: nat)
    requires n <= |segs|
    ensures LengthSum(segs[..n], v) <= LengthSum(segs, v)
  {
    if n < |segs| {
      LengthSumMonotone(segs[..|segs| - 1], v, n);
      assert segs[..|segs| - 1][..n] == segs[..n];
    } else {
      assert segs[..n] == segs;
    }
  }

  /** The number of bits of a list of segments, or -1 if a count overflows its field or the sum is too large. */
  method GetTotalBits(segs: seq<Segment>, v: Version) returns (result: int)
    ensures result == -1 || result >= 0
    ensures result != -1 <==> CountsFit(segs, v) && LengthSum(segs, v) <= INT16_MAX
    ensures result != -1 ==> result == LengthSum(segs, v)
  {
    hide NumCharCountBits, Pow2;
    result := 0;
    for i := 0 to |segs|
      invariant CountsFit(segs[..i], v) && result == LengthSum(segs[..i], v) <= INT16_MAX
    {
      assert segs[..i + 1] == segs[..i] + [segs[i]];
      assert segs[..i + 1][..i] == segs[..i];
      var ccbits := NumCharCountBits(segs[i].mode, v);
      if segs[i].numChars >= Pow2(ccbits) {
        return -1;
      }
      result := result + 4 + ccbits + segs[i].bitLength;
      if result > INT16_MAX {
        LengthSumMonotone(segs, v, i + 1);
        return -1;
      }
    }
    assert segs[..|segs|] == segs;
  }

  /** The stream of a list of segments is as long as GetTotalBits says. */
  lemma {:induction false} StreamLength(segs: seq<Segment>, chunks: seq<Chunk>, v: Version)
    requires |chunks| == |segs|
    requires forall i | 0 <= i < |segs| :: chunks[i].mode == segs[i].mode && |chunks[i].bits| == segs[i].bitLength
    ensures |StreamBits(chunks, v)| == LengthSum(segs, v)
  {
    hide NumCharCountBits, NatBits;
    if segs != [] {
      StreamLength(segs[..|segs| - 1], chunks[..|chunks| - 1], v);
    }
  }

  // ---------- writing the stream ----------

  /** Mode, count and payload of one segment. */
  method WriteSegment(seg: Segment, v: Version, qrcode: array<bv8>, bitLen: nat, ghost stream: seq<bool>,
                      ghost capacity: nat)
    returns (newLen: nat)
    requires ValidSegment(seg) && seg.data != qrcode && seg.numChars < Pow2(NumCharCountBits(seg.mode, v))
    requires Holds(qrcode[..], stream, capacity) && bitLen == |stream|
    requires bitLen + |ChunkBits(ChunkOf(seg), v)| <= capacity
    modifies qrcode
    ensures Holds(qrcode[..], stream + ChunkBits(ChunkOf(seg), v), capacity)
    ensures newLen == bitLen + |ChunkBits(ChunkOf(seg), v)|
  {
    hide Holds, NatBits, BitsOf, NumCharCountBits, Pow2, ModeNibble, SegmentBits, Bit;
    NibbleFits(seg.mode);
    ghost var bits := SegmentBits(seg);
    ghost var header := Header(seg.mode, seg.numChars, v);
    newLen := AppendToStream(ModeNibble(seg.mode), 4, qrcode, bitLen, stream, capacity);
    newLen := AppendToStream(seg.numChars, NumCharCountBits(seg.mode, v), qrcode, newLen,
                             stream + NatBits(ModeNibble(seg.mode), 4), capacity);
    assert stream + NatBits(ModeNibble(seg.mode), 4) + NatBits(seg.numChars, NumCharCountBits(seg.mode, v)) ==
           stream + header;
    assert stream + header == stream + header + bits[..0];
    for j := 0 to seg.bitLength
      invariant newLen == bitLen + |header| + j && SegmentBits(seg) == bits
      invariant Holds(qrcode[..], stream + header + bits[..j], capacity)
    {
      PayloadBit(seg, j);
      BitIsShift(seg.data[j / 8], 7 - j % 8);
      var b := if (seg.data[j / 8] >> (7 - j % 8)) & 1 != 0 then 1 else 0;
      OneBit(b);
      newLen := AppendToStream(b, 1, qrcode, newLen, stream + header + bits[..j], capacity);
      assert stream + header + bits[..j] + [bits[j]] == stream + header + bits[..j + 1];
    }
    assert stream + header + bits[..seg.bitLength] == stream + ChunkBits(ChunkOf(seg), v);
  }

  lemma NibbleFits(mode: Mode)
    ensures ModeNibble(mode) < Pow2(4)
  {
    assert Pow2(4) == 16;
  }

  lemma PayloadBit(seg: Segment, j: nat)
    requires ValidSegment(seg) && j < seg.bitLength
    ensures seg.data != null && j / 8 < seg.data.Length
    ensures SegmentBits(seg)[j] == Bit(seg.data[j / 8], 7 - j % 8)
  {
    hide Bit;
  }

  lemma OneBit(b: nat)
    requires b < 2
    ensures b < Pow2(1) && NatBits(b, 1) == [b == 1]
  {
    assert NatBits(b / 2, 0) == [];
    assert Pow2(1) == 2;
  }

  /** The concatenation loop over all segments. */
  method WriteSegments(segs: seq<Segment>, v: Version, qrcode: array<bv8>, ghost capacity: nat) returns (bitLen: nat)
    requires ValidSegments(segs) && qrcode !in DataArrays(segs) && CountsFit(segs, v)
    requires Holds(qrcode[..], [], capacity) && LengthSum(segs, v) <= capacity
    modifies qrcode
    ensures Holds(qrcode[..], StreamBits(ChunksOf(segs), v), capacity)
    ensures bitLen == |StreamBits(ChunksOf(segs), v)| == LengthSum(segs, v)
  {
    hide Holds, NumCharCountBits, Pow2, ChunkBits, SegmentBits;
    ghost var chunks := ChunksOf(segs);
    bitLen := 0;
    for i := 0 to |segs|
      invariant ChunksOf(segs) == chunks
      invariant Holds(qrcode[..], StreamBits(chunks[..i], v), capacity) && bitLen == |StreamBits(chunks[..i], v)|
    {
      assert chunks[..i + 1][..i] == chunks[..i];
      assert segs[i].data != qrcode;
      PrefixLength(segs, chunks, v, i + 1);
      ChunkAt(segs, i);
      bitLen := WriteSegment(segs[i], v, qrcode, bitLen, StreamBits(chunks[..i], v), capacity);
    }
    assert chunks[..|segs|] == chunks;
    PrefixLength(segs, chunks, v, |segs|);
    assert segs[..|segs|] == segs;
  }

  lemma PrefixLength(segs: seq<Segment>, chunks: seq<Chunk>, v: Version, n: nat)
    requires ValidSegments(segs) && chunks == ChunksOf(segs) && n <= |segs|
    ensures |StreamBits(chunks[..n], v)| == LengthSum(segs[..n], v) <= LengthSum(segs, v)
  {
    hide ChunksOf, LengthSum, StreamBits;
    ChunksAre(segs);
    StreamLength(segs[..n], chunks[..n], v);
    LengthSumMonotone(segs, v, n);
  }

  /** Terminator, byte alignment and pad bytes, up to the capacity. */
  method PadStream(qrcode: array<bv8>, bitLen: nat, dataCapacityBits: nat, ghost stream: seq<bool>, ghost capacity: nat)
    returns (newLen: nat)
    requires dataCapacityBits % 8 == 0 && dataCapacityBits <= capacity
    requires bitLen == |stream| <= dataCapacityBits && Holds(qrcode[..], stream, capacity)
    modifies qrcode
    ensures newLen == dataCapacityBits
    ensures Holds(qrcode[..], stream + Tail(bitLen, dataCapacityBits), capacity)
  {
    hide Holds, NatBits, BitsOf, Pow2, PadBits, AlignLength, PadCount;
    var terminatorBits := dataCapacityBits - bitLen;
    if terminatorBits > 4 {
      terminatorBits := 4;
    }
    ghost var t := TerminatorLength(bitLen, dataCapacityBits);
    ghost var a := AlignLength(bitLen + t);
    TailLengths(bitLen, dataCapacityBits);
    ZeroField(t);
    ZeroField(a);
    newLen := AppendToStream(0, terminatorBits, qrcode, bitLen, stream, capacity);
    AlignIs(newLen);
    newLen := AppendToStream(0, (8 - newLen % 8) % 8, qrcode, newLen, stream + Zeros(t), capacity);
    assert newLen % 8 == 0;
    newLen := WritePadBytes(qrcode, newLen, dataCapacityBits, stream + Zeros(t) + Zeros(a), capacity);
    ghost var pads := PadBits(PadCount(bitLen, dataCapacityBits));
    assert stream + Zeros(t) + Zeros(a) + pads == stream + (Zeros(t) + Zeros(a) + pads);
  }

  lemma AlignIs(used: nat)
    ensures AlignLength(used) == (8 - used % 8) % 8
  {
  }

  /** The padding loop. */
  method WritePadBytes(qrcode: array<bv8>, bitLen: nat, dataCapacityBits: nat, ghost front: seq<bool>,
                       ghost capacity: nat)
    returns (newLen: nat)
    requires dataCapacityBits % 8 == 0 && dataCapacityBits <= capacity
    requires bitLen == |front| <= dataCapacityBits && bitLen % 8 == 0 && Holds(qrcode[..], front, capacity)
    modifies qrcode
    ensures newLen == dataCapacityBits
    ensures Holds(qrcode[..], front + PadBits((dataCapacityBits - bitLen) / 8), capacity)
  {
    hide Holds, NatBits, BitsOf, Pow2, PadBits, ByteValue;
    newLen := bitLen;
    ghost var n := 0;
    var padByte: bv8 := 0xEC;
    PadBitsUnfold(0);
    assert front == front + PadBits(0);
    while newLen < dataCapacityBits
      invariant newLen == bitLen + 8 * n <= dataCapacityBits
      invariant padByte == if n % 2 == 0 then 0xEC else 0x11
      invariant Holds(qrcode[..], front + PadBits(n), capacity)
      decreases dataCapacityBits - newLen
    {
      PadByteFits(n);
      PadByteValues();
      newLen := AppendToStream(ByteValue(padByte), 8, qrcode, newLen, front + PadBits(n), capacity);
      PadBitsUnfold(n);
      assert front + PadBits(n) + NatBits(PadByte(n), 8) == front + PadBits(n + 1);
      padByte := padByte ^ (0xEC ^ 0x11);
      n := n + 1;
    }
  }

  lemma PadBitsUnfold(n: nat)
    ensures PadBits(n + 1) == PadBits(n) + NatBits(PadByte(n), 8)
    ensures PadBits(0) == []
  {
    hide NatBits;
  }

  lemma PadByteValues()
    ensures ByteValue(0xEC) == 0xEC && ByteValue(0x11) == 0x11
  {
    ByteValueFrom(0xEC);
    ByteValueFrom(0x11);
    assert NatBits(0xEC, 8) == [true, true, true, false, true, true, false, false];
    assert NatBits(0x11, 8) == [false, false, false, true, false, false, false, true];
    hide NatBits, ByteValue;
    assert ByteFrom(0xEC) == 0xEC;
    assert ByteFrom(0x11) == 0x11;
  }

  lemma PadByteFits(n: nat)
    ensures PadByte(n) < Pow2(8)
  {
    assert Pow2(8) == 256;
  }
}
