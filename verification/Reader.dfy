/** A simple reader of undamaged symbols: format bits, unmasking, zigzag scan, de-interleaving, parsing. */
module Reader {
  import opened Bytes
  import opened VersionInfo
  import opened Grid
  import opened FunctionModules
  import opened FunctionPatterns
  import opened Placement
  import opened Masking
  import opened Penalty
  import opened Symbols
  import opened Segments
  import opened DataStream
  import opened Interleave

  // ---------- format information ----------

  /** Bit i of the format word (10 <= i <= 14), from the copy at the top left. */
  ghost predicate FormatModule(p: Picture, v: Version, i: nat)
    requires IsSquare(p, Size(v)) && 10 <= i <= 14
  {
    p[8][14 - i]
  }

  function BitValue(b: bool, weight: nat): nat {
    if b then weight else 0
  }

  /** The five data bits are stored XORed with 10101. */
  ghost function ReadLevel(p: Picture, v: Version): Ecc
    requires IsSquare(p, Size(v))
  {
    [1, 0, 3, 2][BitValue(!FormatModule(p, v, 14), 2) + BitValue(FormatModule(p, v, 13), 1)]
  }

  ghost function ReadMask(p: Picture, v: Version): MaskId
    requires IsSquare(p, Size(v))
  {
    BitValue(!FormatModule(p, v, 12), 4) + BitValue(FormatModule(p, v, 11), 2) + BitValue(!FormatModule(p, v, 10), 1)
  }

  lemma WordBits(word: bv32, data: bv32)
    requires (word ^ 0x5412) >> 10 == data
    ensures GetBit(word, 14) == (data & 16 == 0) && GetBit(word, 13) == (data & 8 != 0)
    ensures GetBit(word, 12) == (data & 4 == 0) && GetBit(word, 11) == (data & 2 != 0)
    ensures GetBit(word, 10) == (data & 1 == 0)
  {
  }

  lemma DataWordBits(e: Ecc, m: MaskId)
    ensures [1, 0, 3, 2][BitValue(FormatData(e, m) & 16 != 0, 2) + BitValue(FormatData(e, m) & 8 != 0, 1)] == e
    ensures BitValue(FormatData(e, m) & 4 != 0, 4) + BitValue(FormatData(e, m) & 2 != 0, 2) +
            BitValue(FormatData(e, m) & 1 != 0, 1) == m
  {
    assert e == 0 || e == 1 || e == 2 || e == 3;
    assert m == 0 || m == 1 || m == 2 || m == 3 || m == 4 || m == 5 || m == 6 || m == 7;
  }

  /** The level and mask read from a symbol are those it was drawn with. */
  lemma FormatRoundTrip(v: Version, e: Ecc, m: MaskId, codewords: seq<bv8>)
    ensures ReadLevel(Symbol(v, e, m, codewords), v) == e && ReadMask(Symbol(v, e, m, codewords), v) == m
  {
    hide FormatWord, FormatData, GetBit, IsFunction, IsWhite, DataModule, Symbol;
    FormatWordData(e, m);
    var word, data := FormatWord(e, m), FormatData(e, m);
    WordBits(word, data);
    DataWordBits(e, m);
    var p := Symbol(v, e, m, codewords);
    forall i: nat | 10 <= i <= 14
      ensures FormatModule(p, v, i) == GetBit(FormatWord(e, m), i)
    {
      assert InGrid(v, 14 - i, 8);
      assert FormatIndex(v, 14 - i, 8) == i;
    }
    assert FormatModule(p, v, 14) == (data & 16 == 0) && FormatModule(p, v, 13) == (data & 8 != 0);
    assert FormatModule(p, v, 12) == (data & 4 == 0) && FormatModule(p, v, 11) == (data & 2 != 0);
    assert FormatModule(p, v, 10) == (data & 1 == 0);
    hide FormatModule;
  }

  // ---------- codewords ----------

  /** The unmasked modules at the free cells, in scan order. */
  ghost function ScanBits(p: Picture, v: Version, m: MaskId): (bits: seq<bool>)
    requires IsSquare(p, Size(v))
    ensures |bits| == |FreeCells(v)|
  {
    FreeCellsAre(v);
    var cells := FreeCells(v);
    seq(|cells|, k requires 0 <= k < |cells| =>
      (FreeInGrid(v, k); p[cells[k].1][cells[k].0] != MaskBit(m, cells[k].0, cells[k].1)))
  }

  lemma FreeInGrid(v: Version, k: nat)
    requires k < |FreeCells(v)|
    ensures InGrid(v, FreeCells(v)[k].0, FreeCells(v)[k].1)
    ensures !IsFunction(v, FreeCells(v)[k].0, FreeCells(v)[k].1)
  {
    hide FreeOf, Scan, IsFunction;
    FreeCellsAre(v);
    assert FreeCells(v)[k] in FreeCells(v);
  }

  /** Rescanning a symbol in placement order returns the codeword bits, then the 0..7 white remainder modules. */
  lemma ScanRoundTrip(v: Version, e: Ecc, m: MaskId, codewords: seq<bv8>)
    requires |codewords| == RawCodewords(v)
    ensures |ScanBits(Symbol(v, e, m, codewords), v, m)| == NumRawDataModules(v)
    ensures ScanBits(Symbol(v, e, m, codewords), v, m) ==
            BitsOf(codewords) + Zeros(NumRawDataModules(v) - 8 * |codewords|)
  {
    hide IsFunction, IsWhite, BitsOf, MaskBit, Symbol, FreeCells, NumRawDataModules, FormatWord, DataModule;
    FreeCellsAre(v);
    var p, cells, bits := Symbol(v, e, m, codewords), FreeCells(v), BitsOf(codewords);
    forall k | 0 <= k < |cells|
      ensures ScanBits(p, v, m)[k] == (k < |bits| && bits[k])
    {
      var x, y := cells[k].0, cells[k].1;
      FreeInGrid(v, k);
      if IsFormat(v, x, y) {
        FormatIsFunction(v, x, y);
      }
      DataModuleAt(v, codewords, k);
    }
  }

  lemma DataModuleAt(v: Version, codewords: seq<bv8>, k: nat)
    requires k < |FreeCells(v)|
    ensures DataModule(v, codewords, FreeCells(v)[k].0, FreeCells(v)[k].1) ==
            (k < 8 * |codewords| && BitsOf(codewords)[k])
  {
    hide FreeCells, BitsOf;
    FreeCellsAre(v);
    var cells := FreeCells(v);
    if j :| 0 <= j < |cells| && cells[j] == (cells[k].0, cells[k].1) && j < 8 * |codewords| && BitsOf(codewords)[j] {
      assert j == k;
    }
  }

  /** Everything from the picture to the data codewords. */
  ghost function ReadData(p: Picture, v: Version): seq<bv8>
    requires IsSquare(p, Size(v))
  {
    hide FreeCells, RawCodewords, NumRawDataModules;
    FreeCellsAre(v);
    var lay := LayoutOf(v, ReadLevel(p, v));
    var codewords := Pack(ScanBits(p, v, ReadMask(p, v)));
    RawIsRaw(v);
    Deinterleave(lay, codewords, lay.blocks)
  }

  lemma RawIsRaw(v: Version)
    ensures NumRawDataModules(v) / 8 == RawCodewords(v)
    ensures 0 <= NumRawDataModules(v) - 8 * RawCodewords(v) < 8
  {
    hide NumRawDataModules;
    RawBounds(v);
  }

  /** The data codewords come back from the symbol, whatever the mask and level. */
  lemma DataRoundTrip(v: Version, e: Ecc, m: MaskId, data: seq<bv8>)
    requires |data| == LayoutOf(v, e).DataLen()
    ensures ReadData(Symbol(v, e, m, Codewords(LayoutOf(v, e), data)), v) == data
  {
    hide FreeCells, RawCodewords, NumRawDataModules, Codewords, Deinterleave, LayoutOf, Symbol, ScanBits, ReadLevel,
         ReadMask, Pack, BitsOf;
    var lay := LayoutOf(v, e);
    var codewords := Codewords(lay, data);
    FormatRoundTrip(v, e, m, codewords);
    ScanRoundTrip(v, e, m, codewords);
    RawIsRaw(v);
    PackBits(codewords, Zeros(NumRawDataModules(v) - 8 * |codewords|));
    DeinterleaveInterleaved(lay, data);
  }

  // ---------- segments and text ----------

  ghost function ReadSegments(p: Picture, v: Version): Option<seq<Chunk>>
    requires IsSquare(p, Size(v))
  {
    Parse(BitsOf(ReadData(p, v)), v)
  }

  /** The version is known from the size of the picture. */
  ghost function ReadVersion(q: seq<bv8>): Option<Version> {
    if q == [] || ByteValue(q[0]) < 21 || ByteValue(q[0]) > 177 || ByteValue(q[0]) % 4 != 1 then None
    else
      var v: Version := (ByteValue(q[0]) - 17) / 4;
      if |q| < BufferLen(v) then None else Some(v)
  }

  /** The characters of all segments, one after the other. */
  ghost function TextOf(chunks: seq<Chunk>): string {
    if chunks == [] then "" else ReadPayload(chunks[0].mode, chunks[0].bits, chunks[0].count) + TextOf(chunks[1..])
  }

  ghost function ReadText(q: seq<bv8>): Option<string> {
    match ReadVersion(q)
    case None => None
    case Some(v) =>
      match ReadSegments(Pixels(q, v), v)
      case None => None
      case Some(chunks) => Some(TextOf(chunks))
  }

  lemma VersionRoundTrip(q: seq<bv8>, v: Version)
    requires IsGrid(q, v)
    ensures ReadVersion(q) == Some(v)
  {
    hide BufferLen, ByteValue;
    assert |q| > 0 by { BufferNotEmpty(v); }
    assert (Size(v) - 17) / 4 == v;
  }

  lemma BufferNotEmpty(v: Version)
    ensures BufferLen(v) > 0
  {
    RawBounds(v);
  }
}
