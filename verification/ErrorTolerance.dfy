/** What the check bytes of a whole symbol are for: zero syndromes in every block, and data that stay recoverable when
    bytes are damaged. */
module ErrorTolerance {
  import opened VersionInfo
  import opened GaloisField
  import opened ReedSolomon
  import opened MinimumDistance
  import opened Interleave

  /** Data and check bytes of block b, collected from a sequence of codewords. */
  ghost function ReceivedBlock(lay: Layout, received: seq<bv8>, b: nat): (r: seq<bv8>)
    requires lay.Valid() && b < lay.blocks && |received| == lay.RawLen()
    ensures |r| == lay.BlockLen(b) + lay.ecc
  {
    CollectBlock(lay, received, b) + CollectEcc(lay, received, b)
  }

  lemma SentBlock(lay: Layout, data: seq<bv8>, b: nat)
    requires lay.Valid() && b < lay.blocks && |data| == lay.DataLen()
    ensures ReceivedBlock(lay, Codewords(lay, data), b) == Codeword(Block(lay, data, b), lay.ecc)
  {
    hide Codewords, Block, BlockEcc, Codeword;
    CollectedBlock(lay, data, b);
  }

  /** All syndromes of all blocks of every version, level and content are zero. */
  lemma SymbolSyndromes(v: Version, e: Ecc, data: seq<bv8>, b: nat, k: nat)
    requires |data| == LayoutOf(v, e).DataLen() && b < LayoutOf(v, e).blocks && k < LayoutOf(v, e).ecc
    ensures Eval(ReceivedBlock(LayoutOf(v, e), Codewords(LayoutOf(v, e), data), b), Exp(k)) == 0
  {
    hide LayoutOf, Codewords, Block, Codeword, Eval, Exp, ReceivedBlock;
    var lay := LayoutOf(v, e);
    SentBlock(lay, data, b);
    CodewordRoots(Block(lay, data, b), lay.ecc, k);
  }

  /** In every block, at most half as many bytes as there are check bytes differ from those of `data`. */
  ghost predicate WithinReach(lay: Layout, data: seq<bv8>, received: seq<bv8>)
    requires lay.Valid() && |data| == lay.DataLen() && |received| == lay.RawLen()
  {
    forall b: nat | b < lay.blocks ::
      Distance(ReceivedBlock(lay, Codewords(lay, data), b), ReceivedBlock(lay, received, b)) <= lay.ecc / 2
  }

  lemma {:induction false} NoDistance(a: seq<bv8>)
    ensures Distance(a, a) == 0
  {
    if a != [] {
      NoDistance(a[1..]);
    }
  }

  /** An undamaged symbol is within reach of its data. */
  lemma UndamagedWithinReach(lay: Layout, data: seq<bv8>)
    requires lay.Valid() && |data| == lay.DataLen()
    ensures WithinReach(lay, data, Codewords(lay, data))
  {
    hide Codewords, Distance, ReceivedBlock;
    forall b: nat | b < lay.blocks
      ensures var r := ReceivedBlock(lay, Codewords(lay, data), b);
              Distance(r, r) <= lay.ecc / 2
    {
      NoDistance(ReceivedBlock(lay, Codewords(lay, data), b));
    }
  }

  /** Blocks are short enough for the code over GF(2^8). */
  lemma BlockLength(v: Version, e: Ecc, b: nat)
    requires b < LayoutOf(v, e).blocks
    ensures LayoutOf(v, e).BlockLen(b) + LayoutOf(v, e).ecc <= 255
  {
    hide NumErrorCorrectionBlocks, EccCodewordsPerBlock, RawCodewords, NumDataCodewords, ShortBlockLen, NumShortBlocks;
    EntryBounds(v, e);
  }

  lemma SameBlock(v: Version, e: Ecc, data: seq<bv8>, data': seq<bv8>, received: seq<bv8>, b: nat)
    requires |data| == |data'| == LayoutOf(v, e).DataLen() && |received| == LayoutOf(v, e).RawLen()
    requires WithinReach(LayoutOf(v, e), data, received) && WithinReach(LayoutOf(v, e), data', received)
    requires b < LayoutOf(v, e).blocks
    ensures Block(LayoutOf(v, e), data, b) == Block(LayoutOf(v, e), data', b)
  {
    hide LayoutOf, Codewords, Block, Codeword, Distance, ReceivedBlock;
    var lay := LayoutOf(v, e);
    SentBlock(lay, data, b);
    SentBlock(lay, data', b);
    BlockLength(v, e, b);
    UniqueDecoding(Block(lay, data, b), Block(lay, data', b), lay.ecc, ReceivedBlock(lay, received, b));
  }

  lemma {:induction false} SameBlocksSameData(lay: Layout, data: seq<bv8>, data': seq<bv8>, n: nat)
    requires lay.Valid() && |data| == |data'| == lay.DataLen() && n <= lay.blocks
    requires forall b: nat | b < n :: Block(lay, data, b) == Block(lay, data', b)
    ensures lay.Offset(n) <= |data| && data[..lay.Offset(n)] == data'[..lay.Offset(n)]
  {
    hide Block;
    OffsetStep(lay, 0);
    if n > 0 {
      SameBlocksSameData(lay, data, data', n - 1);
      BlockFollows(lay, data, n - 1);
      BlockFollows(lay, data', n - 1);
    }
  }

  /** Whatever codewords a damaged symbol shows, at most one content is within reach of them in all blocks. */
  lemma DamagedSymbol(v: Version, e: Ecc, data: seq<bv8>, data': seq<bv8>, received: seq<bv8>)
    requires |data| == |data'| == LayoutOf(v, e).DataLen() && |received| == LayoutOf(v, e).RawLen()
    requires WithinReach(LayoutOf(v, e), data, received) && WithinReach(LayoutOf(v, e), data', received)
    ensures data == data'
  {
    hide LayoutOf, Block, WithinReach;
    var lay := LayoutOf(v, e);
    forall b: nat | b < lay.blocks
      ensures Block(lay, data, b) == Block(lay, data', b)
    {
      SameBlock(v, e, data, data', received, b);
    }
    SameBlocksSameData(lay, data, data', lay.blocks);
    OffsetStep(lay, 0);
  }
}
