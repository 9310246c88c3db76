/** The finished symbol as a picture, and the stages that draw it: codewords, patterns, mask and format bits. */
module Symbols {
  import opened Bytes
  import opened VersionInfo
  import opened Grid
  import opened FunctionModules
  import opened FunctionPatterns
  import opened Placement
  import opened Masking
  import opened Penalty

  // ---------- what a symbol looks like ----------

  /** The unmasked codeword bit at a free module: white for the 0..7 modules past the last codeword. */
  ghost predicate DataModule(v: Version, codewords: seq<bv8>, x: int, y: int) {
    exists k :: 0 <= k < |FreeCells(v)| && FreeCells(v)[k] == (x, y) && k < 8 * |codewords| && BitsOf(codewords)[k]
  }

  /** A module of the symbol before masking and format bits. */
  ghost predicate BaseModule(v: Version, codewords: seq<bv8>, x: int, y: int) {
    if IsFunction(v, x, y) then !IsWhite(v, x, y) else DataModule(v, codewords, x, y)
  }

  /** A module of the finished symbol: format bits, function patterns, or the codeword bit under the mask. */
  ghost predicate SymbolModule(v: Version, e: Ecc, m: MaskId, codewords: seq<bv8>, x: nat, y: nat) {
    if IsFormat(v, x, y) then FormatColor(v, FormatWord(e, m), x, y)
    else if IsFunction(v, x, y) then !IsWhite(v, x, y)
    else DataModule(v, codewords, x, y) != MaskBit(m, x, y)
  }

  ghost function Symbol(v: Version, e: Ecc, m: MaskId, codewords: seq<bv8>): (p: Picture)
    ensures IsSquare(p, Size(v))
    ensures forall x, y | InGrid(v, x, y) :: p[y][x] == SymbolModule(v, e, m, codewords, x, y)
  {
    hide SymbolModule;
    seq(Size(v), y requires 0 <= y < Size(v) =>
      seq(Size(v), x requires 0 <= x < Size(v) => SymbolModule(v, e, m, codewords, x, y)))
  }

  /** The buffer shows the unmasked symbol; its format modules may show anything. */
  ghost predicate ShowsBase(v: Version, q: seq<bv8>, codewords: seq<bv8>) {
    IsGrid(q, v) &&
    forall x, y | InGrid(v, x, y) && !IsFormat(v, x, y) :: At(q, v, x, y) == BaseModule(v, codewords, x, y)
  }

  ghost predicate ShowsSymbol(v: Version, q: seq<bv8>, e: Ecc, m: MaskId, codewords: seq<bv8>) {
    IsGrid(q, v) && Pixels(q, v) == Symbol(v, e, m, codewords)
  }

  /** The buffer marks exactly the function modules. */
  ghost predicate IsFunctionMap(v: Version, fm: seq<bv8>) {
    IsGrid(fm, v) && forall x, y | InGrid(v, x, y) :: At(fm, v, x, y) == IsFunction(v, x, y)
  }

  // ---------- from codewords to the unmasked symbol ----------

  lemma PlacedIsBase(v: Version, q: seq<bv8>, codewords: seq<bv8>, x: int, y: int)
    requires Placed(v, q, Scan(v), BitsOf(codewords)) && InGrid(v, x, y)
    ensures At(q, v, x, y) == if IsFunction(v, x, y) then true else DataModule(v, codewords, x, y)
  {
    hide At, IsFunction, BitsOf, Scan, FreeOf, NumRawDataModules, BufferLen;
    FreeCellsAre(v);
    var free := FreeCells(v);
    if !IsFunction(v, x, y) {
      assert (x, y) in free;
      var k :| 0 <= k < |free| && free[k] == (x, y);
      assert At(q, v, free[k].0, free[k].1) == (k < |BitsOf(codewords)| && BitsOf(codewords)[k]);
      forall j | 0 <= j < |free| && free[j] == (x, y)
        ensures j == k
      {
      }
    }
  }

  lemma BaseDrawn(v: Version, q: seq<bv8>, q': seq<bv8>, codewords: seq<bv8>)
    requires Placed(v, q, Scan(v), BitsOf(codewords)) && IsGrid(q', v)
    requires forall x, y | InGrid(v, x, y) :: At(q', v, x, y) == (At(q, v, x, y) && !IsWhite(v, x, y))
    ensures ShowsBase(v, q', codewords)
  {
    hide At, IsFunction, IsWhite, BitsOf, Scan, Placed, BufferLen, DataModule;
    forall x, y | InGrid(v, x, y) && !IsFormat(v, x, y)
      ensures At(q', v, x, y) == BaseModule(v, codewords, x, y)
    {
      PlacedIsBase(v, q, codewords, x, y);
      if IsWhite(v, x, y) {
        WhiteIsFunction(v, x, y);
      }
    }
  }

  /** Function modules, codewords, patterns; then a fresh map of the function modules in the other buffer. */
  method DrawBase(tempBuffer: array<bv8>, qrcode: array<bv8>, v: Version, ghost codewords: seq<bv8>)
    requires tempBuffer != qrcode && BufferLen(v) <= tempBuffer.Length && BufferLen(v) <= qrcode.Length
    requires |codewords| == RawCodewords(v) <= tempBuffer.Length && tempBuffer[..RawCodewords(v)] == codewords
    modifies tempBuffer, qrcode
    ensures ShowsBase(v, qrcode[..], codewords)
    ensures IsFunctionMap(v, tempBuffer[..])
  {
    hide At, IsFunction, IsWhite, Scan, Placed, BufferLen, NumRawDataModules, ShowsBase;
    InitializeFunctionModules(v, qrcode);
    DrawCodewords(tempBuffer, NumRawDataModules(v) / 8, qrcode, v);
    ghost var placed := qrcode[..];
    PlacedFunctionModules(v, placed, codewords);
    DrawWhiteFunctionModules(qrcode, v);
    BaseDrawn(v, placed, qrcode[..], codewords);
    ghost var base := qrcode[..];
    InitializeFunctionModules(v, tempBuffer);
    assert qrcode[..] == base;
  }

  lemma PlacedFunctionModules(v: Version, q: seq<bv8>, codewords: seq<bv8>)
    requires Placed(v, q, Scan(v), BitsOf(codewords))
    ensures IsGrid(q, v) && forall x, y | InGrid(v, x, y) && IsFunction(v, x, y) :: At(q, v, x, y)
  {
    hide At, IsFunction, Scan, BufferLen;
    forall x, y | InGrid(v, x, y) && IsFunction(v, x, y)
      ensures At(q, v, x, y)
    {
      PlacedIsBase(v, q, codewords, x, y);
    }
  }

  // ---------- masking ----------

  /** Mask over the unmasked symbol, then format bits: the finished symbol. */
  lemma MaskedIsSymbol(v: Version, fm: seq<bv8>, q: seq<bv8>, q': seq<bv8>, q'': seq<bv8>, e: Ecc, m: MaskId,
                       codewords: seq<bv8>)
    requires IsFunctionMap(v, fm) && ShowsBase(v, q, codewords) && Masked(v, fm, q, q', m) && IsGrid(q'', v)
    requires forall x, y | InGrid(v, x, y) ::
               At(q'', v, x, y) == if IsFormat(v, x, y) then FormatColor(v, FormatWord(e, m), x, y) else At(q', v, x, y)
    ensures ShowsSymbol(v, q'', e, m, codewords)
  {
    hide At, IsFunction, IsWhite, BufferLen, DataModule, MaskBit, FormatWord, IsFormat, FormatColor, Pixels, Symbol;
    forall x, y | InGrid(v, x, y)
      ensures Pixels(q'', v)[y][x] == Symbol(v, e, m, codewords)[y][x]
    {
      assert Pixels(q'', v)[y][x] == At(q'', v, x, y);
    }
    PicturesEqual(Pixels(q'', v), Symbol(v, e, m, codewords), v);
  }

  lemma PicturesEqual(p: Picture, p': Picture, v: Version)
    requires IsSquare(p, Size(v)) && IsSquare(p', Size(v))
    requires forall x, y | InGrid(v, x, y) :: p[y][x] == p'[y][x]
    ensures p == p'
  {
    forall y | 0 <= y < Size(v)
      ensures p[y] == p'[y]
    {
      assert forall x | 0 <= x < Size(v) :: InGrid(v, x, y);
    }
  }

  /** The same mask once more gives back the unmasked symbol. */
  lemma UnmaskedIsBase(v: Version, fm: seq<bv8>, q: seq<bv8>, q': seq<bv8>, e: Ecc, m: MaskId, codewords: seq<bv8>)
    requires IsFunctionMap(v, fm) && ShowsSymbol(v, q, e, m, codewords) && Masked(v, fm, q, q', m)
    ensures ShowsBase(v, q', codewords)
  {
    hide At, IsFunction, IsWhite, BufferLen, DataModule, MaskBit, FormatWord, IsFormat, FormatColor, Pixels, Symbol;
    forall x, y | InGrid(v, x, y) && !IsFormat(v, x, y)
      ensures At(q', v, x, y) == BaseModule(v, codewords, x, y)
    {
      assert At(q, v, x, y) == Pixels(q, v)[y][x] == Symbol(v, e, m, codewords)[y][x];
    }
  }

  /** Applies one mask and draws its format bits. */
  method DrawMasked(functionModules: array<bv8>, qrcode: array<bv8>, v: Version, ecl: Ecc, mask: MaskId,
                    ghost codewords: seq<bv8>)
    requires functionModules != qrcode && IsFunctionMap(v, functionModules[..]) && ShowsBase(v, qrcode[..], codewords)
    modifies qrcode
    ensures ShowsSymbol(v, qrcode[..], ecl, mask, codewords)
  {
    hide At, IsFunction, BufferLen, BaseModule, ShowsSymbol, FormatWord;
    ghost var q, fm := qrcode[..], functionModules[..];
    ApplyMask(functionModules, qrcode, mask, v);
    ghost var q' := qrcode[..];
    DrawFormatBits(v, ecl, mask, qrcode);
    assert functionModules[..] == fm;
    MaskedIsSymbol(v, fm, q, q', qrcode[..], ecl, mask, codewords);
  }

  ghost function PenaltyOf(v: Version, e: Ecc, m: MaskId, codewords: seq<bv8>): int {
    Score(Symbol(v, e, m, codewords))
  }

  /** The lowest-numbered of the masks with the least penalty, each measured with its own format bits. */
  ghost predicate IsBestMask(v: Version, e: Ecc, codewords: seq<bv8>, m: MaskId) {
    && (forall k: MaskId :: PenaltyOf(v, e, m, codewords) <= PenaltyOf(v, e, k, codewords))
    && (forall k: MaskId | k < m :: PenaltyOf(v, e, m, codewords) < PenaltyOf(v, e, k, codewords))
  }

  const LONG_MAX := 0x7FFF_FFFF

  /** The automatic choice: tries each mask and takes it off again. */
  method ChooseMask(functionModules: array<bv8>, qrcode: array<bv8>, v: Version, ecl: Ecc, ghost codewords: seq<bv8>)
    returns (mask: MaskId)
    requires functionModules != qrcode && IsFunctionMap(v, functionModules[..]) && ShowsBase(v, qrcode[..], codewords)
    modifies qrcode
    ensures ShowsBase(v, qrcode[..], codewords) && IsBestMask(v, ecl, codewords, mask)
  {
    hide At, IsFunction, BufferLen, BaseModule, Symbol, Score, ShowsBase, IsFunctionMap, Masked, Pixels;
    var minPenalty := LONG_MAX;
    mask := 0;
    ghost var fm := functionModules[..];
    for i := 0 to 8
      invariant functionModules[..] == fm && ShowsBase(v, qrcode[..], codewords)
      invariant i == 0 ==> minPenalty == LONG_MAX
      invariant i > 0 ==> mask < i && minPenalty == PenaltyOf(v, ecl, mask, codewords)
      invariant forall k: MaskId | k < i :: minPenalty <= PenaltyOf(v, ecl, k, codewords)
      invariant i > 0 ==> forall k: MaskId | k < mask :: minPenalty < PenaltyOf(v, ecl, k, codewords)
    {
      var msk: MaskId := i;
      DrawMasked(functionModules, qrcode, v, ecl, msk, codewords);
      MapGrid(v, fm, qrcode[..], ecl, msk, codewords);
      var penalty := GetPenaltyScore(qrcode, v);
      assert penalty == PenaltyOf(v, ecl, msk, codewords);
      ScoreBound(Symbol(v, ecl, msk, codewords));
      if penalty < minPenalty {
        mask := msk;
        minPenalty := penalty;
      }
      ghost var q := qrcode[..];
      ApplyMask(functionModules, qrcode, msk, v);
      UnmaskedIsBase(v, fm, q, qrcode[..], ecl, msk, codewords);
    }
  }

  lemma MapGrid(v: Version, fm: seq<bv8>, q: seq<bv8>, e: Ecc, m: MaskId, codewords: seq<bv8>)
    requires IsFunctionMap(v, fm) && ShowsSymbol(v, q, e, m, codewords)
    ensures IsGrid(fm, v) && IsGrid(q, v) && Pixels(q, v) == Symbol(v, e, m, codewords)
  {
  }
}
