/** The public encoding functions, and the theorem that a reader recovers what they were given. */
module Encoder {
  import opened Bytes
  import opened VersionInfo
  import opened Grid
  import opened Penalty
  import opened Symbols
  import opened Segments
  import opened DataStream
  import opened Selection
  import opened UpwardFit
  import opened Interleave
  import opened Reader

  /** The n data codewords of a list of segments. */
  ghost function DataOf(chunks: seq<Chunk>, v: Version, n: nat): (data: seq<bv8>)
    requires |StreamBits(chunks, v)| <= 8 * n
    ensures |data| == n
  {
    hide *;
    Pack(DataBits(chunks, v, 8 * n))
  }

  /** All codewords of a list of segments, interleaved and with error correction. */
  ghost function CodewordsOf(chunks: seq<Chunk>, v: Version, e: Ecc): seq<bv8>
    requires |StreamBits(chunks, v)| <= 8 * LayoutOf(v, e).DataLen()
  {
    hide LayoutOf;
    Codewords(LayoutOf(v, e), DataOf(chunks, v, LayoutOf(v, e).DataLen()))
  }

  /** The buffer shows the symbol of the given segments. */
  ghost predicate ShowsSegments(q: seq<bv8>, chunks: seq<Chunk>, v: Version, e: Ecc, m: MaskId) {
    && |StreamBits(chunks, v)| <= 8 * LayoutOf(v, e).DataLen()
    && ShowsSymbol(v, q, e, m, CodewordsOf(chunks, v, e))
  }

  // ---------- the reader recovers the segments ----------

  /** A reader finds the version and these segments in the buffer. */
  ghost predicate ReadsAs(q: seq<bv8>, v: Version, chunks: seq<Chunk>) {
    IsGrid(q, v) && ReadVersion(q) == Some(v) && ReadSegments(Pixels(q, v), v) == Some(chunks)
  }

  lemma DataOfBits(chunks: seq<Chunk>, v: Version, n: nat)
    requires |StreamBits(chunks, v)| <= 8 * n
    ensures BitsOf(DataOf(chunks, v, n)) == DataBits(chunks, v, 8 * n)
  {
    hide DataBits, StreamBits;
    BitsOfPack(DataBits(chunks, v, 8 * n));
  }

  /** Whatever the mask and level, the reader gets back exactly the segments that were encoded. */
  lemma SegmentsRoundTrip(q: seq<bv8>, chunks: seq<Chunk>, v: Version, e: Ecc, m: MaskId)
    requires ShowsSegments(q, chunks, v, e, m)
    requires forall i | 0 <= i < |chunks| :: Consistent(chunks[i], v)
    ensures ReadsAs(q, v, chunks)
  {
    hide DataOf, DataBits, LayoutOf, StreamBits, Codewords, ReadData, Parse, BitsOf, Consistent, Symbol, Pixels,
         ReadVersion;
    var n := LayoutOf(v, e).DataLen();
    VersionRoundTrip(q, v);
    DataRoundTrip(v, e, m, DataOf(chunks, v, n));
    DataOfBits(chunks, v, n);
    DataBitsRoundTrip(chunks, v, 8 * n);
  }

  // ---------- encoding segments ----------

  /** Segments whose count agrees with their bit length, as documented, in a mode that the reader knows. */
  ghost predicate Readable(segs: seq<Segment>) {
    forall i | 0 <= i < |segs| ::
      segs[i].mode != Eci && segs[i].bitLength == CalcSegmentBitLength(segs[i].mode, segs[i].numChars)
  }

  lemma ReadableConsistent(segs: seq<Segment>, chunks: seq<Chunk>, v: Version)
    requires Readable(segs) && CountsFit(segs, v) && |chunks| == |segs|
    requires forall i | 0 <= i < |segs| ::
               chunks[i].mode == segs[i].mode && chunks[i].count == segs[i].numChars &&
               |chunks[i].bits| == segs[i].bitLength
    ensures forall i | 0 <= i < |chunks| :: Consistent(chunks[i], v)
  {
    hide Pow2, NumCharCountBits, CalcSegmentBitLength;
  }

  /** Whatever the mask and level, the symbol of readable segments is read back as those segments. */
  lemma ReadableRoundTrip(q: seq<bv8>, segs: seq<Segment>, chunks: seq<Chunk>, v: Version, e: Ecc, m: MaskId)
    requires ShowsSegments(q, chunks, v, e, m) && Fits(segs, v, e) && |chunks| == |segs|
    requires forall i | 0 <= i < |segs| ::
               chunks[i].mode == segs[i].mode && chunks[i].count == segs[i].numChars &&
               |chunks[i].bits| == segs[i].bitLength
    ensures Readable(segs) ==> ReadsAs(q, v, chunks)
  {
    hide ShowsSegments, CountsFit, LengthSum, NumDataCodewords, Readable, ReadsAs, Consistent;
    if Readable(segs) {
      ReadableConsistent(segs, chunks, v);
      SegmentsRoundTrip(q, chunks, v, e, m);
    }
  }

  /** The three arrays do not overlap where the documentation forbids it, and are large enough. */
  ghost predicate BuffersOk(segs: seq<Segment>, maxVersion: Version, tempBuffer: array<bv8>, qrcode: array<bv8>) {
    && tempBuffer != qrcode && qrcode !in DataArrays(segs)
    && BufferLen(maxVersion) <= tempBuffer.Length && BufferLen(maxVersion) <= qrcode.Length
  }

  /** Clears the buffer and writes the bit string: headers and payloads, terminator and padding. */
  method WriteData(segs: seq<Segment>, version: Version, ecl: Ecc, dataUsedBits: nat, qrcode: array<bv8>,
                   ghost chunks: seq<Chunk>)
    requires ValidSegments(segs) && qrcode !in DataArrays(segs) && BufferLen(version) <= qrcode.Length
    requires Fits(segs, version, ecl) && dataUsedBits == LengthSum(segs, version) && chunks == ChunksOf(segs)
    modifies qrcode
    ensures 0 <= NumDataCodewords(version, ecl) <= qrcode.Length
    ensures |StreamBits(chunks, version)| <= 8 * NumDataCodewords(version, ecl)
    ensures qrcode[..NumDataCodewords(version, ecl)] == DataOf(chunks, version, NumDataCodewords(version, ecl))
  {
    hide Holds, StreamBits, ChunksOf, LengthSum, CountsFit, NumDataCodewords, RawCodewords, BufferLen, DataBits, Tail,
         BitsOf, Pack, DataOf;
    RawBounds(version);
    DataWithinRaw(version, ecl);
    DataPositive(version, ecl);
    ghost var capacity := 8 * BufferLen(version);
    forall k | 0 <= k < BufferLen(version) {
      qrcode[k] := 0;
    }
    HoldsNothing(qrcode[..], BufferLen(version));
    assert ChunksOf(segs) == chunks;
    var bitLen := WriteSegments(segs, version, qrcode, capacity);
    assert bitLen == dataUsedBits;
    var dataCapacityBits := NumDataCodewords(version, ecl) * 8;
    assert bitLen <= dataCapacityBits;
    bitLen := PadStream(qrcode, bitLen, dataCapacityBits, StreamBits(chunks, version), capacity);
    PaddedIsData(qrcode[..], chunks, version, NumDataCodewords(version, ecl), capacity);
  }

  /** Bit string, error correction and drawing for a chosen version and level; everything but the mask. */
  method DrawSegments(segs: seq<Segment>, version: Version, ecl: Ecc, dataUsedBits: nat, tempBuffer: array<bv8>,
                      qrcode: array<bv8>, ghost chunks: seq<Chunk>)
    requires ValidSegments(segs) && BuffersOk(segs, version, tempBuffer, qrcode) && chunks == ChunksOf(segs)
    requires Fits(segs, version, ecl) && dataUsedBits == LengthSum(segs, version)
    modifies tempBuffer, qrcode
    ensures |StreamBits(chunks, version)| <= 8 * LayoutOf(version, ecl).DataLen()
    ensures ShowsBase(version, qrcode[..], CodewordsOf(chunks, version, ecl))
    ensures IsFunctionMap(version, tempBuffer[..])
  {
    hide StreamBits, ChunksOf, LengthSum, CountsFit, NumDataCodewords, RawCodewords, BufferLen, LayoutOf, ShowsBase,
         IsFunctionMap, Codewords, DataOf;
    RawBounds(version);
    WriteData(segs, version, ecl, dataUsedBits, qrcode, chunks);
    AddEccAndInterleave(qrcode, version, ecl, tempBuffer);
    DrawBase(tempBuffer, qrcode, version, CodewordsOf(chunks, version, ecl));
  }

  lemma BufferPositive(v: Version)
    ensures BufferLen(v) > 0
  {
  }

  /** The first data codewords of the padded buffer. */
  lemma PaddedIsData(q: seq<bv8>, chunks: seq<Chunk>, v: Version, n: nat, capacity: nat)
    requires |StreamBits(chunks, v)| <= 8 * n <= capacity
    requires Holds(q, StreamBits(chunks, v) + Tail(|StreamBits(chunks, v)|, 8 * n), capacity)
    ensures n <= |q| && q[..n] == DataOf(chunks, v, n)
  {
    hide StreamBits, Tail, BitsOf, Pack;
    BitsLength(q);
    assert BitsOf(q)[..8 * n] == DataBits(chunks, v, 8 * n);
    BitsOfPrefix(q, n);
    PackBits(q[..n], []);
    assert BitsOf(q[..n]) + [] == BitsOf(q[..n]);
  }

  method EncodeSegmentsAdvanced(segs: seq<Segment>, ecl: Ecc, minVersion: Version, maxVersion: Version, mask: int,
                                boostEcl: bool, tempBuffer: array<bv8>, qrcode: array<bv8>)
    returns (ok: bool, ghost version: Version, ghost level: Ecc, ghost used: MaskId)
    requires minVersion <= maxVersion && -1 <= mask <= 7
    requires ValidSegments(segs) && BuffersOk(segs, maxVersion, tempBuffer, qrcode)
    modifies tempBuffer, qrcode
    ensures ok <==> exists v: Version :: minVersion <= v <= maxVersion && Fits(segs, v, ecl)
    ensures !ok ==> qrcode.Length > 0 && qrcode[0] == 0
    ensures ok ==> IsLeastVersion(segs, ecl, minVersion, maxVersion, version)
    ensures ok ==> IsFinalLevel(segs, version, ecl, boostEcl, level)
    ensures ok ==> ShowsSegments(qrcode[..], old(ChunksOf(segs)), version, level, used)
    ensures ok && Readable(segs) ==> ReadsAs(qrcode[..], version, old(ChunksOf(segs)))
    ensures ok && mask != -1 ==> used == mask
    ensures ok && mask == -1 ==>
              IsBestMask(version, level, CodewordsOf(old(ChunksOf(segs)), version, level), used)
  {
    hide Holds, StreamBits, ChunksOf, LengthSum, CountsFit, NumDataCodewords, RawCodewords, BufferLen, LayoutOf,
         ShowsBase, IsFunctionMap, CodewordsOf, ShowsSymbol, PenaltyOf;
    ghost var chunks := ChunksOf(segs);
    ChunkShapes(segs);
    BufferPositive(maxVersion);
    level, used := 0, 0;
    var found, chosen, dataUsedBits := FindVersion(segs, ecl, minVersion, maxVersion);
    version := chosen;
    if !found {
      qrcode[0] := 0;
      ok := false;
      return;
    }
    BufferHoldsSmaller(chosen, maxVersion, ecl);
    var finalEcl := BoostLevel(segs, chosen, ecl, boostEcl, dataUsedBits);
    level := finalEcl;
    DrawSegments(segs, chosen, finalEcl, dataUsedBits, tempBuffer, qrcode, chunks);
    ghost var codewords := CodewordsOf(chunks, chosen, finalEcl);
    var finalMask: MaskId := 0;
    if mask == -1 {
      finalMask := ChooseMask(tempBuffer, qrcode, chosen, finalEcl, codewords);
    } else {
      finalMask := mask;
    }
    used := finalMask;
    DrawMasked(tempBuffer, qrcode, chosen, finalEcl, finalMask, codewords);
    ReadableRoundTrip(qrcode[..], segs, chunks, chosen, finalEcl, finalMask);
    ok := true;
  }

  lemma ChunkShapes(segs: seq<Segment>)
    requires ValidSegments(segs)
    ensures forall i | 0 <= i < |segs| ::
              var c := ChunksOf(segs)[i];
              c.mode == segs[i].mode && c.count == segs[i].numChars && |c.bits| == segs[i].bitLength
  {
    hide ChunksOf;
    forall i | 0 <= i < |segs|
      ensures var c := ChunksOf(segs)[i];
              c.mode == segs[i].mode && c.count == segs[i].numChars && |c.bits| == segs[i].bitLength
    {
      ChunkAt(segs, i);
    }
  }

  /** The defaults: all versions, automatic mask, boosting. */
  method EncodeSegments(segs: seq<Segment>, ecl: Ecc, tempBuffer: array<bv8>, qrcode: array<bv8>)
    returns (ok: bool, ghost version: Version, ghost level: Ecc, ghost used: MaskId)
    requires ValidSegments(segs) && BuffersOk(segs, VERSION_MAX, tempBuffer, qrcode)
    modifies tempBuffer, qrcode
    ensures ok <==> exists v: Version :: Fits(segs, v, ecl)
    ensures !ok ==> qrcode.Length > 0 && qrcode[0] == 0
    ensures ok ==> IsLeastVersion(segs, ecl, 1, 40, version) && IsFinalLevel(segs, version, ecl, true, level)
    ensures ok ==> ShowsSegments(qrcode[..], old(ChunksOf(segs)), version, level, used)
    ensures ok && Readable(segs) ==> ReadsAs(qrcode[..], version, old(ChunksOf(segs)))
    ensures ok ==> IsBestMask(version, level, CodewordsOf(old(ChunksOf(segs)), version, level), used)
  {
    hide ShowsSegments, Fits, CodewordsOf, IsBestMask, LayoutOf;
    ok, version, level, used :=
      EncodeSegmentsAdvanced(segs, ecl, VERSION_MIN, VERSION_MAX, -1, true, tempBuffer, qrcode);
  }

  // ---------- one text or byte string ----------

  /** n characters of a mode, as a single segment, can be stored in this version at this level. */
  ghost predicate LengthFits(mode: Mode, n: nat, v: Version, e: Ecc) {
    var bits := CalcSegmentBitLength(mode, n);
    bits != -1 && n < Pow2(NumCharCountBits(mode, v)) &&
    4 + NumCharCountBits(mode, v) + bits <= 8 * NumDataCodewords(v, e)
  }

  ghost predicate IsLeastFit(mode: Mode, n: nat, e: Ecc, minVersion: int, maxVersion: int, v: Version) {
    minVersion <= v <= maxVersion && LengthFits(mode, n, v, e) &&
    forall w: Version | minVersion <= w < v :: !LengthFits(mode, n, w, e)
  }

  lemma SingleFits(seg: Segment, v: Version, e: Ecc)
    requires seg.bitLength == CalcSegmentBitLength(seg.mode, seg.numChars)
    ensures Fits([seg], v, e) <==> LengthFits(seg.mode, seg.numChars, v, e)
  {
    hide NumDataCodewords, NumCharCountBits, Pow2;
    DataPositive(v, e);
    assert [seg][..0] == [];
    assert LengthSum([seg], v) == 4 + NumCharCountBits(seg.mode, v) + seg.bitLength;
    assert CountsFit([seg], v) <==> seg.numChars < Pow2(NumCharCountBits(seg.mode, v)) by {
      assert [seg][0] == seg;
    }
  }

  /** A length that fits a version fits every larger one: a single segment is never lost to wider count fields. */
  lemma LengthFitsUpward(mode: Mode, n: nat, v: Version, w: Version, e: Ecc)
    requires v <= w && LengthFits(mode, n, v, e)
    ensures LengthFits(mode, n, w, e)
  {
    hide NumDataCodewords, NumCharCountBits, Pow2, Fits;
    var seg := Segment(mode, n, null, CalcSegmentBitLength(mode, n));
    SingleFits(seg, v, e);
    SingleFits(seg, w, e);
    SingleCarries(seg, v, w, e);
  }

  /** What does not fit the buffer of the largest allowed version does not fit any allowed version. */
  lemma TooLongForBuffer(mode: Mode, n: nat, v: Version, maxVersion: Version, e: Ecc)
    requires v <= maxVersion && LengthFits(mode, n, v, e)
    ensures (CalcSegmentBitLength(mode, n) + 7) / 8 <= BufferLen(maxVersion)
  {
    hide NumDataCodewords, NumCharCountBits, Pow2, BufferLen;
    BufferHoldsSmaller(v, maxVersion, e);
  }

  lemma SingleChunk(seg: Segment)
    requires ValidSegment(seg)
    ensures ValidSegments([seg]) && ChunksOf([seg]) == [ChunkOf(seg)]
  {
    hide ChunkOf;
    assert [seg][..0] == [];
  }

  /** The documented limits of a single segment. */
  function MaxLength(mode: Mode): nat {
    match mode
    case Numeric => 7089
    case Alphanumeric => 4296
    case Byte => 2953
    case _ => 0
  }

  /** In each of the three text modes exactly the lengths up to the documented limit fit some symbol. */
  lemma HardLimits(mode: Mode, n: nat)
    requires mode == Numeric || mode == Alphanumeric || mode == Byte
    ensures (exists v: Version, e: Ecc :: LengthFits(mode, n, v, e)) <==> n <= MaxLength(mode)
  {
    hide LengthFits;
    if v: Version, e: Ecc :| LengthFits(mode, n, v, e) {
      WithinLimit(mode, n, v, e);
    }
    if n <= MaxLength(mode) {
      LargestSymbol(mode, n);
      var v: Version, e: Ecc := 40, LOW;
      assert LengthFits(mode, n, v, e);
    }
  }

  lemma WithinLimit(mode: Mode, n: nat, v: Version, e: Ecc)
    requires mode == Numeric || mode == Alphanumeric || mode == Byte
    requires LengthFits(mode, n, v, e)
    ensures n <= MaxLength(mode)
  {
    hide NumDataCodewords, Pow2;
    DataPositive(v, e);
    var i := (v + 7) / 17;
    assert i == 0 || i == 1 || i == 2;
    SmallPowers();
  }

  lemma SmallPowers()
    ensures Pow2(8) == 256 && Pow2(9) == 512 && Pow2(10) == 1024 && Pow2(11) == 2048 && Pow2(12) == 4096
    ensures Pow2(13) == 8192 && Pow2(14) == 16384 && Pow2(16) == 65536
  {
    assert Pow2(8) == 256;
    assert Pow2(12) == 16 * Pow2(8);
    assert Pow2(16) == 16 * Pow2(12);
  }

  lemma LargestSymbol(mode: Mode, n: nat)
    requires n <= MaxLength(mode) && (mode == Numeric || mode == Alphanumeric || mode == Byte)
    ensures LengthFits(mode, n, 40, LOW)
  {
    hide Pow2;
    assert RawCodewords(40) == 3706 && EccCodewordsPerBlock(LOW, 40) == 30 && NumErrorCorrectionBlocks(LOW, 40) == 25;
    SmallPowers();
  }

  /** The modes that can spell a text. */
  ghost predicate CanSpell(mode: Mode, text: string) {
    (mode == Numeric || mode == Alphanumeric || mode == Byte) && ValidText(mode, text)
  }

  /** The text can be stored: the empty one always, any other as a single segment of some mode that can spell it. */
  ghost predicate TextFits(text: string, v: Version, e: Ecc) {
    text == "" || exists mode: Mode :: CanSpell(mode, text) && LengthFits(mode, |text|, v, e)
  }

  /** No mode that can spell the text needs fewer bits. */
  ghost predicate IsShortestMode(mode: Mode, text: string) {
    CanSpell(mode, text) &&
    forall other: Mode | CanSpell(other, text) && CalcSegmentBitLength(other, |text|) != -1 ::
      CalcSegmentBitLength(mode, |text|) != -1 &&
      CalcSegmentBitLength(mode, |text|) <= CalcSegmentBitLength(other, |text|)
  }

  /** The segments of a text: none if it is empty, otherwise one of the shortest mode. */
  ghost predicate IsTextChunks(chunks: seq<Chunk>, text: string) {
    if text == "" then chunks == []
    else exists mode: Mode :: IsShortestMode(mode, text) && chunks == [Chunk(mode, |text|, PayloadBits(mode, text))]
  }

  /** The mode that the tests of the code arrive at. */
  ghost function TextMode(text: string): Mode {
    if ValidText(Numeric, text) then Numeric else if ValidText(Alphanumeric, text) then Alphanumeric else Byte
  }

  ghost predicate ChosenFits(text: string, v: Version, e: Ecc) {
    text == "" || LengthFits(TextMode(text), |text|, v, e)
  }

  // The order of the tests is the order of compactness, headers included.

  lemma NumericIsCompact(mode: Mode, n: nat, v: Version, e: Ecc)
    requires (mode == Alphanumeric || mode == Byte) && n > 0 && LengthFits(mode, n, v, e)
    ensures LengthFits(Numeric, n, v, e)
  {
    hide NumDataCodewords, Pow2;
    SmallPowers();
    MiddleRoom(v, e);
    var i := (v + 7) / 17;
    assert i == 0 || i == 1 || i == 2;
  }

  lemma AlphanumericIsCompact(n: nat, v: Version, e: Ecc)
    requires n > 0 && LengthFits(Byte, n, v, e)
    ensures LengthFits(Alphanumeric, n, v, e)
  {
    hide NumDataCodewords, Pow2;
    SmallPowers();
    MiddleRoom(v, e);
    var i := (v + 7) / 17;
    assert i == 0 || i == 1 || i == 2;
  }

  /** In versions 10..26 the byte count field is wider than the others, but the data are not that long. */
  lemma MiddleRoom(v: Version, e: Ecc)
    ensures NumDataCodewords(v, e) <= 2956 && (v <= 26 ==> NumDataCodewords(v, e) <= 1370)
  {
    hide NumDataCodewords;
    DataPositive(v, e);
    if v <= 26 {
      CapacityDecreases(v, LOW, e);
      CapacityRises(v, 26, LOW);
      CapacityIs(26, LOW);
    }
  }

  /** The tests choose a mode in which the text fits whenever it fits in any. */
  lemma TextFitsChosen(text: string, v: Version, e: Ecc)
    requires ValidText(Byte, text)
    ensures TextFits(text, v, e) <==> ChosenFits(text, v, e)
  {
    hide LengthFits, InAlphabet;
    if text != "" && TextFits(text, v, e) {
      var mode: Mode :| CanSpell(mode, text) && LengthFits(mode, |text|, v, e);
      if TextMode(text) == Numeric && mode != Numeric {
        NumericIsCompact(mode, |text|, v, e);
      } else if TextMode(text) == Alphanumeric && mode == Byte {
        AlphanumericIsCompact(|text|, v, e);
      }
    }
    assert CanSpell(TextMode(text), text);
  }

  lemma ChosenIsShortest(text: string)
    requires ValidText(Byte, text)
    ensures IsShortestMode(TextMode(text), text)
  {
    hide InAlphabet;
  }

  /** For texts, fitting is monotone in the version, so the largest version allowed decides whether encoding
      succeeds. */
  lemma LargestDecidesText(text: string, e: Ecc, minVersion: Version, maxVersion: Version)
    requires minVersion <= maxVersion
    ensures (exists v: Version :: minVersion <= v <= maxVersion && TextFits(text, v, e)) <==>
            TextFits(text, maxVersion, e)
  {
    hide LengthFits, CanSpell;
    if v: Version :| minVersion <= v <= maxVersion && TextFits(text, v, e) {
      if text != "" {
        var mode: Mode :| CanSpell(mode, text) && LengthFits(mode, |text|, v, e);
        LengthFitsUpward(mode, |text|, v, maxVersion, e);
      }
    }
    assert TextFits(text, maxVersion, e) ==> exists v: Version :: minVersion <= v <= maxVersion && TextFits(text, v, e);
  }

  ghost predicate IsLeastTextVersion(text: string, e: Ecc, minVersion: int, maxVersion: int, v: Version) {
    minVersion <= v <= maxVersion && TextFits(text, v, e) &&
    forall w: Version | minVersion <= w < v :: !TextFits(text, w, e)
  }

  ghost predicate IsFinalTextLevel(text: string, v: Version, requested: Ecc, boost: bool, e: Ecc) {
    && requested <= e && TextFits(text, v, e)
    && (if boost then forall f: Ecc | e < f :: !TextFits(text, v, f) else e == requested)
  }

  /** The segments made for a text. */
  ghost predicate IsTextSegments(segs: seq<Segment>, chunks: seq<Chunk>, text: string) {
    if text == "" then segs == [] && chunks == []
    else
      && |segs| == 1 && segs[0].mode == TextMode(text) && segs[0].numChars == |text|
      && segs[0].bitLength == CalcSegmentBitLength(TextMode(text), |text|)
      && ValidText(TextMode(text), text) && chunks == [Chunk(TextMode(text), |text|, PayloadBits(TextMode(text), text))]
  }

  lemma TextSegmentsFit(segs: seq<Segment>, chunks: seq<Chunk>, text: string, v: Version, e: Ecc)
    requires IsTextSegments(segs, chunks, text)
    ensures Fits(segs, v, e) <==> ChosenFits(text, v, e)
  {
    hide LengthFits, NumDataCodewords, NumCharCountBits, PayloadBits, InAlphabet, CalcSegmentBitLength;
    DataPositive(v, e);
    if text != "" {
      assert segs == [segs[0]];
      SingleFits(segs[0], v, e);
    }
  }

  /** A payload of the announced length with a count that fits its field. */
  lemma TextConsistent(mode: Mode, text: string, v: Version, f: Ecc)
    requires mode == Numeric || mode == Alphanumeric || mode == Byte
    requires ValidText(mode, text) && LengthFits(mode, |text|, v, f)
    ensures Consistent(Chunk(mode, |text|, PayloadBits(mode, text)), v)
  {
    hide NumDataCodewords, NumCharCountBits, PayloadBits, InAlphabet, CalcSegmentBitLength, Pow2;
    PayloadLength(mode, text);
  }

  lemma SingleText(mode: Mode, text: string)
    requires ValidText(mode, text)
    ensures TextOf([Chunk(mode, |text|, PayloadBits(mode, text))]) == text
  {
    hide PayloadBits, InAlphabet, ReadPayload;
    PayloadRoundTrip(mode, text, []);
    assert PayloadBits(mode, text) + [] == PayloadBits(mode, text);
    assert TextOf([]) == "";
  }

  lemma TextChunks(segs: seq<Segment>, chunks: seq<Chunk>, text: string, v: Version, f: Ecc)
    requires IsTextSegments(segs, chunks, text) && ChosenFits(text, v, f)
    ensures forall i | 0 <= i < |chunks| :: Consistent(chunks[i], v)
    ensures TextOf(chunks) == text
  {
    hide LengthFits, Consistent, PayloadBits, InAlphabet, CalcSegmentBitLength, TextOf;
    if text == "" {
      EmptyTextOf();
    } else {
      TextConsistent(TextMode(text), text, v, f);
      SingleText(TextMode(text), text);
    }
  }

  lemma EmptyTextOf()
    ensures TextOf([]) == ""
  {
  }

  /** A buffer that shows the segments of a text is read back as that text. */
  lemma TextRoundTrip(q: seq<bv8>, segs: seq<Segment>, chunks: seq<Chunk>, text: string, v: Version, e: Ecc,
                      m: MaskId, f: Ecc)
    requires IsTextSegments(segs, chunks, text) && ChosenFits(text, v, f) && ShowsSegments(q, chunks, v, e, m)
    ensures ReadText(q) == Some(text) && ReadsAs(q, v, chunks)
  {
    hide IsTextSegments, ChosenFits, ShowsSegments, ReadVersion, ReadSegments, Pixels, Consistent, TextOf, BufferLen;
    TextChunks(segs, chunks, text, v, f);
    SegmentsRoundTrip(q, chunks, v, e, m);
  }

  /** Bytes needed for a segment of n characters, or none if it is too long. */
  function CalcSegmentBufferSize(mode: Mode, n: nat): Option<nat> {
    var temp := CalcSegmentBitLength(mode, n);
    if temp == -1 then None else Some((temp + 7) / 8)
  }

  method MakeTextBytes(text: string, tempBuffer: array<bv8>) returns (seg: Segment)
    requires ValidText(Byte, text) && |text| <= tempBuffer.Length && CalcSegmentBitLength(Byte, |text|) != -1
    modifies tempBuffer
    ensures seg == Segment(Byte, |text|, tempBuffer, CalcSegmentBitLength(Byte, |text|))
    ensures ValidSegment(seg) && SegmentBits(seg) == PayloadBits(Byte, text)
  {
    hide BitsOf, ByteFrom;
    for i := 0 to |text|
      invariant tempBuffer[..i] == TextBytes(text)[..i]
    {
      assert InAlphabet(Byte, text[i]);
      tempBuffer[i] := ByteFrom(text[i] as int);
    }
    BitsLength(tempBuffer[..]);
    BitsOfPrefix(tempBuffer[..], |text|);
    assert tempBuffer[..][..|text|] == TextBytes(text);
    assert TextBytes(text)[..|text|] == TextBytes(text);
    seg := Segment(Byte, |text|, tempBuffer, CalcSegmentBitLength(Byte, |text|));
  }

  /** Chooses the mode and packs the text; fails when the text is too long for the buffer of the largest version. */
  method MakeTextSegment(text: string, tempBuffer: array<bv8>, maxVersion: Version) returns (made: bool, seg: Segment)
    requires ValidText(Byte, text) && text != "" && BufferLen(maxVersion) <= tempBuffer.Length
    modifies tempBuffer
    ensures made ==> seg.data == tempBuffer && ValidSegment(seg) && IsTextSegments([seg], [ChunkOf(seg)], text)
    ensures made ==> IsShortestMode(seg.mode, text)
    ensures !made ==> forall v: Version, e: Ecc | v <= maxVersion :: !TextFits(text, v, e)
  {
    hide BitsOf, PayloadBits, InAlphabet, BufferLen, LengthFits, SegmentBits, IsShortestMode;
    ChosenIsShortest(text);
    var bufLen := BufferLen(maxVersion);
    seg := Segment(Byte, 0, null, 0);
    hide TextFits;
    forall v: Version, e: Ecc
      ensures TextFits(text, v, e) <==> ChosenFits(text, v, e)
    {
      TextFitsChosen(text, v, e);
    }
    forall v: Version, e: Ecc | v <= maxVersion && ChosenFits(text, v, e)
      ensures (CalcSegmentBitLength(TextMode(text), |text|) + 7) / 8 <= bufLen &&
              CalcSegmentBitLength(TextMode(text), |text|) != -1
    {
      TooLongForBuffer(TextMode(text), |text|, v, maxVersion, e);
      FitsHasLength(TextMode(text), |text|, v, e);
    }
    BufferSmall(maxVersion);
    var numeric := IsNumericText(text);
    var alphanumeric := IsAlphanumericText(text);
    if numeric {
      var size := CalcSegmentBufferSize(Numeric, |text|);
      if size == None || size.value > bufLen {
        return false, seg;
      }
      seg := MakeNumeric(text, tempBuffer);
    } else if alphanumeric {
      var size := CalcSegmentBufferSize(Alphanumeric, |text|);
      if size == None || size.value > bufLen {
        return false, seg;
      }
      seg := MakeAlphanumeric(text, tempBuffer);
    } else {
      if |text| > bufLen {
        return false, seg;
      }
      seg := MakeTextBytes(text, tempBuffer);
    }
    made := true;
  }

  lemma FitsHasLength(mode: Mode, n: nat, v: Version, e: Ecc)
    requires LengthFits(mode, n, v, e)
    ensures CalcSegmentBitLength(mode, n) != -1
  {
  }

  /** A byte text that fits the buffer never exceeds the bit length limit. */
  lemma BufferSmall(v: Version)
    ensures 0 < BufferLen(v) <= 3918
  {
    RawBounds(v);
    SquareMonotone(Size(v), 177);
  }

  /** For every text: encoding succeeds exactly when some version of the range can hold the text at the requested level,
      and then a reader of the symbol recovers exactly that text. */
  method EncodeText(text: string, tempBuffer: array<bv8>, qrcode: array<bv8>, ecl: Ecc, minVersion: Version,
                    maxVersion: Version, mask: int, boostEcl: bool)
    returns (ok: bool, ghost version: Version, ghost level: Ecc, ghost used: MaskId)
    requires ValidText(Byte, text) && minVersion <= maxVersion && -1 <= mask <= 7
    requires tempBuffer != qrcode && BufferLen(maxVersion) <= tempBuffer.Length &&
             BufferLen(maxVersion) <= qrcode.Length
    modifies tempBuffer, qrcode
    ensures ok <==> exists v: Version :: minVersion <= v <= maxVersion && TextFits(text, v, ecl)
    ensures !ok ==> qrcode.Length > 0 && qrcode[0] == 0
    ensures ok ==> ReadText(qrcode[..]) == Some(text)
    ensures ok ==> IsLeastTextVersion(text, ecl, minVersion, maxVersion, version)
    ensures ok ==> IsFinalTextLevel(text, version, ecl, boostEcl, level)
    ensures ok ==> exists chunks ::
              IsTextChunks(chunks, text) && ShowsSegments(qrcode[..], chunks, version, level, used) &&
              ReadsAs(qrcode[..], version, chunks) &&
              (if mask == -1 then IsBestMask(version, level, CodewordsOf(chunks, version, level), used)
               else used == mask)
  {
    hide BitsOf, PayloadBits, InAlphabet, BufferLen, TextFits, ChosenFits, Fits, ShowsSegments, ReadsAs,
         IsBestMask, CodewordsOf, ReadText, IsTextSegments, IsTextChunks, LayoutOf, ChunkOf, StreamBits;
    BufferSmall(maxVersion);
    version, level, used := 1, 0, 0;
    var segs: seq<Segment> := [];
    ghost var chunks: seq<Chunk> := [];
    if text != "" {
      var made, seg := MakeTextSegment(text, tempBuffer, maxVersion);
      if !made {
        qrcode[0] := 0;
        ok := false;
        return;
      }
      segs := [seg];
      SingleChunk(seg);
      chunks := [ChunkOf(seg)];
      assert DataArrays(segs) == {tempBuffer};
    } else {
      assert IsTextSegments(segs, chunks, text) by { EmptyTextSegments(); }
      assert DataArrays(segs) == {};
    }
    assert ChunksOf(segs) == chunks;
    forall v: Version, e: Ecc
      ensures Fits(segs, v, e) <==> TextFits(text, v, e)
    {
      TextSegmentsFit(segs, chunks, text, v, e);
      TextFitsChosen(text, v, e);
    }
    ok, version, level, used :=
      EncodeSegmentsAdvanced(segs, ecl, minVersion, maxVersion, mask, boostEcl, tempBuffer, qrcode);
    if ok {
      TextFitsChosen(text, version, ecl);
      TextRoundTrip(qrcode[..], segs, chunks, text, version, level, used, ecl);
      SegmentsAreChunks(segs, chunks, text);
    }
  }

  lemma EmptyTextSegments()
    ensures IsTextSegments([], [], "")
  {
  }

  lemma SegmentsAreChunks(segs: seq<Segment>, chunks: seq<Chunk>, text: string)
    requires IsTextSegments(segs, chunks, text) && ValidText(Byte, text)
    ensures IsTextChunks(chunks, text)
  {
    hide IsShortestMode, InAlphabet, PayloadBits;
    ChosenIsShortest(text);
    CanSpellShortest(TextMode(text), text);
  }

  lemma CanSpellShortest(mode: Mode, text: string)
    requires IsShortestMode(mode, text)
    ensures ValidText(mode, text)
  {
    hide InAlphabet, CalcSegmentBitLength;
  }

  // ---------- binary data ----------

  method MakeBytes(data: array?<bv8>, len: nat, buf: array<bv8>) returns (seg: Segment)
    requires CalcSegmentBitLength(Byte, len) != -1 && data != buf
    requires len <= (if data == null then 0 else data.Length) && len <= buf.Length
    modifies buf
    ensures seg == Segment(Byte, len, buf, 8 * len) && ValidSegment(seg)
    ensures SegmentBits(seg) == BitsOf(if data == null then [] else old(data[..len]))
  {
    hide BitsOf;
    ghost var bytes := if data == null then [] else data[..len];
    if len > 0 {
      forall i | 0 <= i < len {
        buf[i] := data[i];
      }
    }
    BytesPayload(buf[..], bytes);
    seg := Segment(Byte, len, buf, CalcSegmentBitLength(Byte, len));
  }

  lemma BytesPayload(buffer: seq<bv8>, bytes: seq<bv8>)
    requires |bytes| <= |buffer| && buffer[..|bytes|] == bytes
    ensures |BitsOf(buffer)| == 8 * |buffer| && BitsOf(buffer)[..8 * |bytes|] == BitsOf(bytes)
  {
    hide BitsOf;
    BitsLength(buffer);
    BitsOfPrefix(buffer, |bytes|);
  }

  /** The level kept or, when boosting, the highest one at which n characters still fit the version. */
  ghost predicate IsFinalFitLevel(mode: Mode, n: nat, v: Version, requested: Ecc, boost: bool, e: Ecc) {
    && requested <= e && LengthFits(mode, n, v, e)
    && (if boost then forall f: Ecc | e < f :: !LengthFits(mode, n, v, f) else e == requested)
  }

  /** Binary data as the one segment that stands for it. */
  ghost function ByteChunks(bytes: seq<bv8>): seq<Chunk> {
    [Chunk(Byte, |bytes|, BitsOf(bytes))]
  }

  lemma BinaryRoundTrip(q: seq<bv8>, bytes: seq<bv8>, v: Version, e: Ecc, m: MaskId)
    requires LengthFits(Byte, |bytes|, v, e) && ShowsSegments(q, ByteChunks(bytes), v, e, m)
    ensures ReadsAs(q, v, ByteChunks(bytes))
  {
    hide NumDataCodewords, NumCharCountBits, Pow2, ShowsSegments, Pixels, ReadVersion, ReadSegments, BitsOf, IsGrid;
    BitsLength(bytes);
    SegmentsRoundTrip(q, ByteChunks(bytes), v, e, m);
  }

  /** Encodes the first dataLen bytes of an array that also serves as the temporary buffer. */
  method EncodeBinary(dataAndTemp: array<bv8>, dataLen: nat, qrcode: array<bv8>, ecl: Ecc, minVersion: Version,
                      maxVersion: Version, mask: int, boostEcl: bool)
    returns (ok: bool, ghost version: Version, ghost level: Ecc, ghost used: MaskId)
    requires minVersion <= maxVersion && -1 <= mask <= 7 && dataLen <= dataAndTemp.Length && dataAndTemp != qrcode
    requires BufferLen(maxVersion) <= dataAndTemp.Length && BufferLen(maxVersion) <= qrcode.Length
    modifies dataAndTemp, qrcode
    ensures ok <==> exists v: Version :: minVersion <= v <= maxVersion && LengthFits(Byte, dataLen, v, ecl)
    ensures !ok ==> qrcode.Length > 0 && qrcode[0] == 0
    ensures ok ==> ReadsAs(qrcode[..], version, ByteChunks(old(dataAndTemp[..dataLen])))
    ensures ok ==> IsLeastFit(Byte, dataLen, ecl, minVersion, maxVersion, version)
    ensures ok ==> IsFinalFitLevel(Byte, dataLen, version, ecl, boostEcl, level)
    ensures ok ==> ShowsSegments(qrcode[..], ByteChunks(old(dataAndTemp[..dataLen])), version, level, used)
    ensures ok && mask != -1 ==> used == mask
    ensures ok && mask == -1 ==>
              IsBestMask(version, level, CodewordsOf(ByteChunks(old(dataAndTemp[..dataLen])), version, level), used)
  {
    hide BitsOf, BufferLen, LengthFits, Fits, ShowsSegments, IsBestMask, CodewordsOf, ReadsAs, ChunkOf, LayoutOf,
         StreamBits;
    BufferPositive(maxVersion);
    version, level, used := 1, 0, 0;
    ghost var bytes := dataAndTemp[..dataLen];
    var bitLength := CalcSegmentBitLength(Byte, dataLen);
    if bitLength == -1 {
      forall v: Version ensures !LengthFits(Byte, dataLen, v, ecl) { NoLengthNoFit(Byte, dataLen, v, ecl); }
      qrcode[0] := 0;
      ok := false;
      return;
    }
    var seg := Segment(Byte, dataLen, dataAndTemp, bitLength);
    BytesPayload(dataAndTemp[..], bytes);
    SingleChunk(seg);
    assert ChunkOf(seg) == Chunk(Byte, dataLen, BitsOf(bytes)) by { ByteChunk(seg, bytes); }
    assert DataArrays([seg]) == {dataAndTemp};
    forall v: Version, e: Ecc
      ensures Fits([seg], v, e) <==> LengthFits(Byte, dataLen, v, e)
    {
      SingleFits(seg, v, e);
    }
    ok, version, level, used :=
      EncodeSegmentsAdvanced([seg], ecl, minVersion, maxVersion, mask, boostEcl, dataAndTemp, qrcode);
    if ok {
      BinaryRoundTripAt(qrcode[..], bytes, version, ecl, level, used);
    }
  }

  lemma NoLengthNoFit(mode: Mode, n: nat, v: Version, e: Ecc)
    requires CalcSegmentBitLength(mode, n) == -1
    ensures !LengthFits(mode, n, v, e)
  {
  }

  lemma ByteChunk(seg: Segment, bytes: seq<bv8>)
    requires ValidSegment(seg) && seg.data != null && seg.mode == Byte && seg.numChars == |bytes|
    requires seg.bitLength == 8 * |bytes| && |bytes| <= seg.data.Length && seg.data[..|bytes|] == bytes
    ensures ChunkOf(seg) == Chunk(Byte, |bytes|, BitsOf(bytes))
  {
    hide BitsOf;
    BytesPayload(seg.data[..], bytes);
    assert seg.data[..][..|bytes|] == bytes;
  }

  lemma BinaryRoundTripAt(q: seq<bv8>, bytes: seq<bv8>, v: Version, requested: Ecc, e: Ecc, m: MaskId)
    requires IsFinalFitLevel(Byte, |bytes|, v, requested, true, e) ||
             IsFinalFitLevel(Byte, |bytes|, v, requested, false, e)
    requires ShowsSegments(q, ByteChunks(bytes), v, e, m)
    ensures ReadsAs(q, v, ByteChunks(bytes))
  {
    hide LengthFits, ShowsSegments, ReadsAs, BitsOf;
    BinaryRoundTrip(q, bytes, v, e, m);
  }

  // ---------- the smallest version for binary data ----------

  /** r is the least version that holds n bytes, or -1 if none does. */
  ghost predicate IsMinFit(n: nat, e: Ecc, r: int) {
    if r == -1 then forall v: Version :: !LengthFits(Byte, n, v, e)
    else 1 <= r <= 40 && IsLeastFit(Byte, n, e, 1, 40, r)
  }

  /** The least version that holds dataLen bytes, or -1; None where the assertion on the segment's bit length fails,
      because the code does not look at a failed length computation. */
  method GetMinFitVersion(ecl: Ecc, dataLen: nat) returns (r: Option<int>)
    ensures r == None <==> CalcSegmentBitLength(Byte, dataLen) == -1
    ensures r == None <==> dataLen > 4095
    ensures r != None ==> IsMinFit(dataLen, ecl, r.value)
  {
    hide Fits, LengthFits, NumDataCodewords, NumCharCountBits, Pow2, CountsFit, LengthSum;
    var bitLength := CalcSegmentBitLength(Byte, dataLen);
    if bitLength == -1 {
      return None;
    }
    var seg := Segment(Byte, dataLen, null, bitLength);
    for version := VERSION_MIN to VERSION_MAX + 1
      invariant forall w: Version | w < version :: !LengthFits(Byte, dataLen, w, ecl)
    {
      var dataCapacityBits := NumDataCodewords(version, ecl) * 8;
      var dataUsedBits := GetTotalBits([seg], version);
      SingleFits(seg, version, ecl);
      FitsIsTotal([seg], version, ecl, dataUsedBits);
      if dataUsedBits != -1 && dataUsedBits <= dataCapacityBits {
        return Some(version);
      }
    }
    r := Some(-1);
  }

  lemma FitsIsTotal(segs: seq<Segment>, v: Version, e: Ecc, total: int)
    requires total != -1 <==> CountsFit(segs, v) && LengthSum(segs, v) <= INT16_MAX
    requires total != -1 ==> total == LengthSum(segs, v)
    ensures Fits(segs, v, e) <==> total != -1 && total <= NumDataCodewords(v, e) * 8
  {
    hide CountsFit, LengthSum, NumDataCodewords;
  }

  /** The answer and EncodeBinary over all versions agree: encoding succeeds exactly when a version was found, in that
      version and so with the announced side length. */
  lemma MinFitAgrees(n: nat, e: Ecc, r: int, ok: bool, version: Version)
    requires IsMinFit(n, e, r)
    requires ok <==> exists v: Version :: 1 <= v <= 40 && LengthFits(Byte, n, v, e)
    requires ok ==> IsLeastFit(Byte, n, e, 1, 40, version)
    ensures ok <==> r != -1
    ensures ok ==> version == r && Size(version) == Version2Size(r)
  {
    hide LengthFits;
    if r != -1 {
      var v: Version := r;
      assert 1 <= v <= 40 && LengthFits(Byte, n, v, e);
      assert !(version < v) && !(v < version);
    }
  }

  /** Both functions on the same input. */
  method EncodeAtMinFit(dataAndTemp: array<bv8>, dataLen: nat, qrcode: array<bv8>, ecl: Ecc, mask: int, boostEcl: bool)
    returns (r: Option<int>, ok: bool)
    requires -1 <= mask <= 7 && dataLen <= dataAndTemp.Length && dataAndTemp != qrcode
    requires BufferLen(VERSION_MAX) <= dataAndTemp.Length && BufferLen(VERSION_MAX) <= qrcode.Length
    modifies dataAndTemp, qrcode
    ensures r == None <==> dataLen > 4095
    ensures r == None ==> !ok
    ensures r != None ==> (ok <==> r.value != -1)
    ensures r != None && ok ==> qrcode.Length > 0 && ByteValue(qrcode[0]) == Version2Size(r.value)
  {
    hide LengthFits, BufferLen, ByteValue, ReadVersion, ReadSegments, Pixels, ShowsSegments, IsBestMask, BitsOf;
    r := GetMinFitVersion(ecl, dataLen);
    ghost var version, level, used;
    ok, version, level, used :=
      EncodeBinary(dataAndTemp, dataLen, qrcode, ecl, VERSION_MIN, VERSION_MAX, mask, boostEcl);
    BufferPositive(VERSION_MAX);
    if r == None {
      forall v: Version ensures !LengthFits(Byte, dataLen, v, ecl) { NoLengthNoFit(Byte, dataLen, v, ecl); }
    } else {
      MinFitAgrees(dataLen, ecl, r.value, ok, version);
    }
  }

  /** What the loop accepts when the assertion is disabled: the failed length -1 enters the sum. */
  ghost predicate UncheckedAccepts(n: nat, v: Version, e: Ecc) {
    n < Pow2(NumCharCountBits(Byte, v)) &&
    4 + NumCharCountBits(Byte, v) + CalcSegmentBitLength(Byte, n) <= 8 * NumDataCodewords(v, e)
  }

  /** Why the assertion matters: without it, for all lengths above 4095 that an int can hold, version 10 is the first
      to be accepted up to 65535 bytes and none is above; and none of these lengths fits any version. */
  lemma UncheckedLengthAccepted(n: nat, e: Ecc)
    requires 4096 <= n < 0x8000_0000
    ensures n < 65536 <==> UncheckedAccepts(n, 10, e)
    ensures forall v: Version | v < 10 || n >= 65536 :: !UncheckedAccepts(n, v, e)
    ensures forall v: Version :: !LengthFits(Byte, n, v, e)
  {
    hide NumDataCodewords, Pow2;
    DataPositive(10, e);
    SmallPowers();
  }
}
