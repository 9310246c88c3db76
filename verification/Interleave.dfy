/** Splitting the data into blocks, appending their error correction and interleaving the bytes. */
module Interleave {
  import opened VersionInfo
  import opened ReedSolomon
  import opened Bytes

  /** The block structure of one version and level: `blocks` blocks, the first `short` of them with `len` data bytes and
      the others with one more, each with `ecc` check bytes. */
  datatype Layout = Layout(blocks: nat, short: nat, len: nat, ecc: nat) {
    ghost predicate Valid() {
      1 <= short <= blocks && 1 <= len && 1 <= ecc <= DEGREE_MAX
    }

    function DataLen(): nat
      requires short <= blocks
    {
      blocks * len + (blocks - short)
    }

    function RawLen(): nat
      requires short <= blocks
    {
      DataLen() + blocks * ecc
    }

    function BlockLen(b: nat): nat {
      if b < short then len else len + 1
    }

    /** Where block b starts in the data. */
    function Offset(b: nat): nat {
      b * len + if b < short then 0 else b - short
    }
  }

  lemma LayoutNumbers(v: Version, e: Ecc)
    ensures 1 <= NumErrorCorrectionBlocks(e, v)
    ensures 1 <= NumShortBlocks(v, e) && 1 <= ShortBlockLen(v, e) && 1 <= EccCodewordsPerBlock(e, v)
    ensures var lay := Layout(NumErrorCorrectionBlocks(e, v), NumShortBlocks(v, e), ShortBlockLen(v, e),
                              EccCodewordsPerBlock(e, v));
            lay.Valid() && lay.DataLen() == NumDataCodewords(v, e) && lay.RawLen() == RawCodewords(v)
  {
    hide EccCodewordsPerBlock, NumErrorCorrectionBlocks, RawCodewords, NumDataCodewords, ShortBlockLen, NumShortBlocks;
    EntryBounds(v, e);
    BlocksAddUp(v, e);
    TimesCommutes(ShortBlockLen(v, e), NumErrorCorrectionBlocks(e, v));
    TimesCommutes(EccCodewordsPerBlock(e, v), NumErrorCorrectionBlocks(e, v));
  }

  lemma TimesCommutes(a: int, b: int)
    ensures a * b == b * a
  {
  }

  function LayoutOf(v: Version, e: Ecc): (lay: Layout)
    ensures lay.Valid() && lay.DataLen() == NumDataCodewords(v, e) && lay.RawLen() == RawCodewords(v)
  {
    hide EccCodewordsPerBlock, NumErrorCorrectionBlocks, RawCodewords, NumDataCodewords, ShortBlockLen, NumShortBlocks;
    LayoutNumbers(v, e);
    Layout(NumErrorCorrectionBlocks(e, v), NumShortBlocks(v, e), ShortBlockLen(v, e), EccCodewordsPerBlock(e, v))
  }

  lemma {:induction false} OffsetStep(lay: Layout, b: nat)
    requires lay.Valid() && b < lay.blocks
    ensures lay.Offset(b + 1) == lay.Offset(b) + lay.BlockLen(b)
    ensures lay.Offset(0) == 0 && lay.Offset(lay.blocks) == lay.DataLen()
    ensures lay.Offset(b + 1) <= lay.DataLen()
  {
    assert (b + 1) * lay.len == b * lay.len + lay.len;
    MulMonotone(b + 1, lay.blocks, lay.len);
  }

  // ---------- positions ----------

  /** What a codeword of the interleaved sequence is. */
  datatype Slot = DataSlot(block: nat, index: nat) | EccSlot(block: nat, index: nat)

  ghost predicate ValidSlot(lay: Layout, s: Slot) {
    s.block < lay.blocks && s.index < if s.DataSlot? then lay.BlockLen(s.block) else lay.ecc
  }

  /** Where a slot goes: column by column through the blocks, short blocks skipped in the last data column. */
  function PosOf(lay: Layout, s: Slot): int
    requires lay.short <= lay.blocks
  {
    if s.EccSlot? then lay.DataLen() + s.block + s.index * lay.blocks
    else s.block + s.index * lay.blocks - if s.index == lay.len then lay.short else 0
  }

  function SlotOf(lay: Layout, k: nat): Slot
    requires 1 <= lay.short <= lay.blocks
  {
    if k < lay.len * lay.blocks then DataSlot(k % lay.blocks, k / lay.blocks)
    else if k < lay.DataLen() then DataSlot(lay.short + k - lay.len * lay.blocks, lay.len)
    else EccSlot((k - lay.DataLen()) % lay.blocks, (k - lay.DataLen()) / lay.blocks)
  }

  /** Every position of the result is the place of exactly one slot... */
  lemma SlotOfPos(lay: Layout, s: Slot)
    requires lay.Valid() && ValidSlot(lay, s)
    ensures 0 <= PosOf(lay, s) < lay.RawLen()
    ensures SlotOf(lay, PosOf(lay, s)) == s
  {
    hide SlotOf, PosOf;
    if s.EccSlot? {
      EccSlotOfPos(lay, s);
    } else if s.index < lay.len {
      FullColumn(lay, s);
      DataFits(lay);
    } else {
      LastColumn(lay, s);
    }
  }

  lemma DataFits(lay: Layout)
    requires lay.Valid()
    ensures lay.len * lay.blocks <= lay.RawLen()
  {
    TimesCommutes(lay.len, lay.blocks);
  }

  lemma LastColumn(lay: Layout, s: Slot)
    requires lay.Valid() && ValidSlot(lay, s) && s.DataSlot? && s.index >= lay.len
    ensures 0 <= PosOf(lay, s) < lay.RawLen()
    ensures SlotOf(lay, PosOf(lay, s)) == s
  {
    TimesCommutes(lay.len, lay.blocks);
    assert s.index == lay.len && s.block >= lay.short;
    assert PosOf(lay, s) == s.block + lay.len * lay.blocks - lay.short;
  }

  lemma FullColumn(lay: Layout, s: Slot)
    requires lay.Valid() && ValidSlot(lay, s) && s.DataSlot? && s.index < lay.len
    ensures 0 <= PosOf(lay, s) < lay.len * lay.blocks
    ensures SlotOf(lay, PosOf(lay, s)) == s
  {
    RowMajor(s.block, s.index, lay.blocks, lay.len);
  }

  lemma EccSlotOfPos(lay: Layout, s: Slot)
    requires lay.Valid() && ValidSlot(lay, s) && s.EccSlot?
    ensures 0 <= PosOf(lay, s) < lay.RawLen()
    ensures SlotOf(lay, PosOf(lay, s)) == s
  {
    RowMajor(s.block, s.index, lay.blocks, lay.ecc);
    TimesCommutes(lay.len, lay.blocks);
  }

  lemma RowMajor(block: nat, index: nat, b: nat, n: nat)
    requires block < b && index < n
    ensures 0 <= block + index * b < n * b == b * n
    ensures (block + index * b) / b == index && (block + index * b) % b == block
  {
    MulMonotone(index + 1, n, b);
    DivUnique(block + index * b, b, index, block);
  }

  /** ...and every position below the raw length is taken. */
  lemma PosOfSlot(lay: Layout, k: nat)
    requires lay.Valid() && k < lay.RawLen()
    ensures ValidSlot(lay, SlotOf(lay, k))
    ensures PosOf(lay, SlotOf(lay, k)) == k
  {
    var b := lay.blocks;
    assert lay.len * b == b * lay.len && lay.ecc * b == b * lay.ecc;
    if k < lay.len * b {
      QuotientBelow(k, b, lay.len);
    } else if k >= lay.DataLen() {
      QuotientBelow(k - lay.DataLen(), b, lay.ecc);
    }
  }

  lemma QuotientBelow(a: nat, b: nat, n: nat)
    requires b > 0 && a < n * b
    ensures a / b < n && a == a % b + a / b * b
  {
    assert a == a / b * b + a % b;
    if a / b >= n {
      MulMonotone(n, a / b, b);
    }
  }

  /** The order of the places: all data before all check bytes, lower index first, and at equal index lower block
      first. With the places being exactly those below the raw length, this determines every one of them. */
  lemma InterleavedOrder(lay: Layout, s: Slot, t: Slot)
    requires lay.Valid() && ValidSlot(lay, s) && ValidSlot(lay, t)
    ensures PosOf(lay, s) < PosOf(lay, t) <==>
            (s.DataSlot? && t.EccSlot?) ||
            (s.DataSlot? == t.DataSlot? && (s.index < t.index || (s.index == t.index && s.block < t.block)))
  {
    if s.DataSlot? != t.DataSlot? {
      KindsApart(lay, s);
      KindsApart(lay, t);
    } else if s.index < t.index {
      IndexFirst(lay, s, t);
    } else if t.index < s.index {
      IndexFirst(lay, t, s);
    }
  }

  lemma KindsApart(lay: Layout, s: Slot)
    requires lay.Valid() && ValidSlot(lay, s)
    ensures PosOf(lay, s) < lay.DataLen() <==> s.DataSlot?
  {
    TimesCommutes(lay.len, lay.blocks);
    if s.DataSlot? && s.index < lay.len {
      MulMonotone(s.index + 1, lay.len, lay.blocks);
    }
  }

  lemma IndexFirst(lay: Layout, s: Slot, t: Slot)
    requires lay.Valid() && ValidSlot(lay, s) && ValidSlot(lay, t) && s.DataSlot? == t.DataSlot? && s.index < t.index
    ensures PosOf(lay, s) < PosOf(lay, t)
  {
    if s.DataSlot? && t.index == lay.len {
      RowsApart(s.block, s.index, t.block - lay.short, t.index, lay.blocks);
    } else {
      RowsApart(s.block, s.index, t.block, t.index, lay.blocks);
    }
  }

  lemma RowsApart(b: nat, i: nat, c: nat, j: nat, n: nat)
    requires b < n && i < j
    ensures b + i * n < c + j * n
  {
    MulMonotone(i + 1, j, n);
  }

  // ---------- the interleaved codewords ----------

  ghost function Block(lay: Layout, data: seq<bv8>, b: nat): (d: seq<bv8>)
    requires lay.Valid() && b < lay.blocks && |data| == lay.DataLen()
    ensures |d| == lay.BlockLen(b)
  {
    OffsetStep(lay, b);
    data[lay.Offset(b)..lay.Offset(b) + lay.BlockLen(b)]
  }

  /** The check bytes of a block. */
  ghost function BlockEcc(lay: Layout, data: seq<bv8>, b: nat): (d: seq<bv8>)
    requires lay.Valid() && b < lay.blocks && |data| == lay.DataLen()
    ensures |d| == lay.ecc
  {
    Remainder(Block(lay, data, b), ReedSolomon.Product(lay.ecc)[1..])
  }

  ghost function SlotByte(lay: Layout, data: seq<bv8>, s: Slot): bv8
    requires lay.Valid() && ValidSlot(lay, s) && |data| == lay.DataLen()
  {
    if s.DataSlot? then Block(lay, data, s.block)[s.index] else BlockEcc(lay, data, s.block)[s.index]
  }

  ghost function Codewords(lay: Layout, data: seq<bv8>): (r: seq<bv8>)
    requires lay.Valid() && |data| == lay.DataLen()
    ensures |r| == lay.RawLen()
  {
    seq(lay.RawLen(), k requires 0 <= k < lay.RawLen() => (PosOfSlot(lay, k); SlotByte(lay, data, SlotOf(lay, k))))
  }

  lemma CodewordsAt(lay: Layout, data: seq<bv8>, s: Slot)
    requires lay.Valid() && |data| == lay.DataLen() && ValidSlot(lay, s)
    ensures 0 <= PosOf(lay, s) < lay.RawLen()
    ensures Codewords(lay, data)[PosOf(lay, s)] == SlotByte(lay, data, s)
  {
    SlotOfPos(lay, s);
    hide SlotOf, PosOf, Block, BlockEcc;
  }

  // ---------- taking them apart again ----------

  /** The bytes of block b collected from a sequence of codewords. */
  ghost function CollectBlock(lay: Layout, codewords: seq<bv8>, b: nat): (d: seq<bv8>)
    requires lay.Valid() && b < lay.blocks && |codewords| == lay.RawLen()
    ensures |d| == lay.BlockLen(b)
  {
    seq(lay.BlockLen(b), j requires 0 <= j < lay.BlockLen(b) =>
      (SlotOfPos(lay, DataSlot(b, j)); codewords[PosOf(lay, DataSlot(b, j))]))
  }

  ghost function CollectEcc(lay: Layout, codewords: seq<bv8>, b: nat): (d: seq<bv8>)
    requires lay.Valid() && b < lay.blocks && |codewords| == lay.RawLen()
    ensures |d| == lay.ecc
  {
    seq(lay.ecc, j requires 0 <= j < lay.ecc =>
      (SlotOfPos(lay, EccSlot(b, j)); codewords[PosOf(lay, EccSlot(b, j))]))
  }

  /** The data bytes of the first n blocks, one block after the other. */
  ghost function Deinterleave(lay: Layout, codewords: seq<bv8>, n: nat): seq<bv8>
    requires lay.Valid() && n <= lay.blocks && |codewords| == lay.RawLen()
  {
    if n == 0 then [] else Deinterleave(lay, codewords, n - 1) + CollectBlock(lay, codewords, n - 1)
  }

  /** Collecting a block from interleaved codewords gives its data and its check bytes: together a codeword of the
      Reed-Solomon code. */
  lemma CollectedBlock(lay: Layout, data: seq<bv8>, b: nat)
    requires lay.Valid() && |data| == lay.DataLen() && b < lay.blocks
    ensures CollectBlock(lay, Codewords(lay, data), b) == Block(lay, data, b)
    ensures CollectEcc(lay, Codewords(lay, data), b) == BlockEcc(lay, data, b)
    ensures Block(lay, data, b) + BlockEcc(lay, data, b) == Codeword(Block(lay, data, b), lay.ecc)
  {
    hide Codewords, PosOf, SlotOf, Block;
    forall j | 0 <= j < lay.BlockLen(b)
      ensures CollectBlock(lay, Codewords(lay, data), b)[j] == Block(lay, data, b)[j]
    {
      CodewordsAt(lay, data, DataSlot(b, j));
    }
    forall j | 0 <= j < lay.ecc
      ensures CollectEcc(lay, Codewords(lay, data), b)[j] == BlockEcc(lay, data, b)[j]
    {
      CodewordsAt(lay, data, EccSlot(b, j));
    }
  }

  lemma {:induction false} DeinterleavePrefix(lay: Layout, data: seq<bv8>, n: nat)
    requires lay.Valid() && |data| == lay.DataLen() && n <= lay.blocks
    ensures lay.Offset(n) <= |data|
    ensures Deinterleave(lay, Codewords(lay, data), n) == data[..lay.Offset(n)]
  {
    hide Codewords, CollectBlock, CollectEcc, Deinterleave, Block, BlockEcc, Codeword;
    var r := Codewords(lay, data);
    UnfoldDeinterleave(lay, r, n);
    if n == 0 {
      OffsetStep(lay, 0);
    } else {
      DeinterleavePrefix(lay, data, n - 1);
      CollectedBlock(lay, data, n - 1);
      BlockFollows(lay, data, n - 1);
    }
  }

  lemma UnfoldDeinterleave(lay: Layout, codewords: seq<bv8>, n: nat)
    requires lay.Valid() && n <= lay.blocks && |codewords| == lay.RawLen()
    ensures n == 0 ==> Deinterleave(lay, codewords, n) == []
    ensures 0 < n ==>
              Deinterleave(lay, codewords, n) ==
              Deinterleave(lay, codewords, n - 1) + CollectBlock(lay, codewords, n - 1)
  {
    hide CollectBlock;
  }

  lemma BlockFollows(lay: Layout, data: seq<bv8>, b: nat)
    requires lay.Valid() && b < lay.blocks && |data| == lay.DataLen()
    ensures lay.Offset(b + 1) <= |data| && lay.Offset(b) <= lay.Offset(b + 1)
    ensures data[..lay.Offset(b)] + Block(lay, data, b) == data[..lay.Offset(b + 1)]
  {
    OffsetStep(lay, b);
  }

  /** De-interleaving returns the data, for short and long blocks alike. */
  lemma DeinterleaveInterleaved(lay: Layout, data: seq<bv8>)
    requires lay.Valid() && |data| == lay.DataLen()
    ensures Deinterleave(lay, Codewords(lay, data), lay.blocks) == data
  {
    hide Codewords, Deinterleave;
    DeinterleavePrefix(lay, data, lay.blocks);
    OffsetStep(lay, 0);
  }

  // ---------- the code ----------

  /** Positions already written: all of blocks below b, and of block b the first dj data and ej check bytes. */
  ghost predicate Filled(lay: Layout, data: seq<bv8>, result: seq<bv8>, b: nat, dj: nat, ej: nat)
    requires lay.Valid() && |data| == lay.DataLen()
  {
    lay.RawLen() <= |result| &&
    forall s | ValidSlot(lay, s) && (s.block < b || (s.block == b && s.index < if s.DataSlot? then dj else ej)) ::
      0 <= PosOf(lay, s) < |result| && result[PosOf(lay, s)] == SlotByte(lay, data, s)
  }

  lemma FilledStep(lay: Layout, data: seq<bv8>, result: seq<bv8>, result': seq<bv8>, b: nat, dj: nat, ej: nat,
                   s: Slot, k: nat)
    requires lay.Valid() && |data| == lay.DataLen() && Filled(lay, data, result, b, dj, ej)
    requires ValidSlot(lay, s) && s.block == b && s.index == if s.DataSlot? then dj else ej
    requires k == PosOf(lay, s) && k < |result| && result' == result[k := SlotByte(lay, data, s)]
    ensures if s.DataSlot? then Filled(lay, data, result', b, dj + 1, ej) else Filled(lay, data, result', b, dj, ej + 1)
  {
    hide PosOf, SlotByte, SlotOf;
    var dj', ej' := if s.DataSlot? then dj + 1 else dj, if s.DataSlot? then ej else ej + 1;
    forall t | ValidSlot(lay, t) && (t.block < b || (t.block == b && t.index < if t.DataSlot? then dj' else ej'))
      ensures 0 <= PosOf(lay, t) < |result'| && result'[PosOf(lay, t)] == SlotByte(lay, data, t)
    {
      SlotOfPos(lay, s);
      SlotOfPos(lay, t);
    }
  }

  lemma FilledAll(lay: Layout, data: seq<bv8>, result: seq<bv8>)
    requires lay.Valid() && |data| == lay.DataLen() && Filled(lay, data, result, lay.blocks, 0, 0)
    ensures lay.RawLen() <= |result| && result[..lay.RawLen()] == Codewords(lay, data)
  {
    hide PosOf, SlotByte, SlotOf;
    forall k | 0 <= k < lay.RawLen()
      ensures result[k] == Codewords(lay, data)[k]
    {
      PosOfSlot(lay, k);
      CodewordsAt(lay, data, SlotOf(lay, k));
    }
  }

  lemma FilledNextBlock(lay: Layout, data: seq<bv8>, result: seq<bv8>, b: nat)
    requires lay.Valid() && |data| == lay.DataLen() && b < lay.blocks
    requires Filled(lay, data, result, b, lay.BlockLen(b), lay.ecc)
    ensures Filled(lay, data, result, b + 1, 0, 0)
  {
    hide PosOf, SlotByte;
  }

  /** The "copy data" loop for block i. */
  method CopyData(data: array<bv8>, dat: nat, result: array<bv8>, lay: Layout, i: nat, ghost message: seq<bv8>)
    requires lay.Valid() && |message| == lay.DataLen() && i < lay.blocks && data != result
    requires lay.DataLen() <= data.Length && data[..lay.DataLen()] == message && dat == lay.Offset(i)
    requires Filled(lay, message, result[..], i, 0, 0)
    modifies result
    ensures Filled(lay, message, result[..], i, lay.BlockLen(i), 0)
  {
    hide Filled, SlotByte;
    OffsetStep(lay, i);
    var k := i;
    for j := 0 to lay.BlockLen(i)
      invariant k == i + j * lay.blocks - if j > lay.len then lay.short else 0
      invariant data[..lay.DataLen()] == message
      invariant Filled(lay, message, result[..], i, j, 0)
    {
      if j == lay.len {
        k := k - lay.short;
      }
      ghost var s, before := DataSlot(i, j), result[..];
      SlotOfPos(lay, s);
      FilledLength(lay, message, result[..], i, j, 0);
      DataSlotByte(lay, message, i, j);
      assert data[dat + j] == message[dat + j];
      result[k] := data[dat + j];
      FilledStep(lay, message, before, result[..], i, j, 0, s, k);
      assert (j + 1) * lay.blocks == j * lay.blocks + lay.blocks;
      k := k + lay.blocks;
    }
  }

  lemma FilledLength(lay: Layout, data: seq<bv8>, result: seq<bv8>, b: nat, dj: nat, ej: nat)
    requires lay.Valid() && |data| == lay.DataLen() && Filled(lay, data, result, b, dj, ej)
    ensures lay.RawLen() <= |result|
  {
  }

  lemma DataSlotByte(lay: Layout, data: seq<bv8>, b: nat, j: nat)
    requires lay.Valid() && |data| == lay.DataLen() && b < lay.blocks && j < lay.BlockLen(b)
    ensures lay.Offset(b) + j < |data|
    ensures SlotByte(lay, data, DataSlot(b, j)) == data[lay.Offset(b) + j]
  {
    OffsetStep(lay, b);
  }

  /** The "copy ECC" loop for block i. */
  method CopyEcc(data: array<bv8>, ecc: nat, result: array<bv8>, lay: Layout, i: nat, ghost message: seq<bv8>)
    requires lay.Valid() && |message| == lay.DataLen() && i < lay.blocks && data != result
    requires ecc == lay.DataLen() && ecc + lay.ecc <= data.Length
    requires data[ecc..ecc + lay.ecc] == BlockEcc(lay, message, i)
    requires Filled(lay, message, result[..], i, lay.BlockLen(i), 0)
    modifies result
    ensures Filled(lay, message, result[..], i, lay.BlockLen(i), lay.ecc)
  {
    hide Filled, BlockEcc;
    var k := lay.DataLen() + i;
    ghost var check := BlockEcc(lay, message, i);
    for j := 0 to lay.ecc
      invariant k == lay.DataLen() + i + j * lay.blocks
      invariant data[ecc..ecc + lay.ecc] == check
      invariant Filled(lay, message, result[..], i, lay.BlockLen(i), j)
    {
      ghost var s, before := EccSlot(i, j), result[..];
      SlotOfPos(lay, s);
      FilledLength(lay, message, result[..], i, lay.BlockLen(i), j);
      assert data[ecc + j] == check[j];
      result[k] := data[ecc + j];
      FilledStep(lay, message, before, result[..], i, lay.BlockLen(i), j, s, k);
      assert (j + 1) * lay.blocks == j * lay.blocks + lay.blocks;
      k := k + lay.blocks;
    }
  }

  /** How the code computes the layout. */
  lemma LayoutFields(v: Version, e: Ecc)
    ensures var lay, blocks, raw := LayoutOf(v, e), NumErrorCorrectionBlocks(e, v), RawCodewords(v);
            blocks > 0 && lay.blocks == blocks && lay.short == blocks - raw % blocks &&
            lay.ecc == EccCodewordsPerBlock(e, v) && lay.len == raw / blocks - lay.ecc
  {
    hide NumErrorCorrectionBlocks, EccCodewordsPerBlock, RawCodewords, NumDataCodewords;
    EntryBounds(v, e);
  }

  /** Appends error correction to each block and interleaves. The tail of `data` is scratch space; the message in front
      of it is left as it was. */
  method AddEccAndInterleave(data: array<bv8>, version: Version, ecl: Ecc, result: array<bv8>)
    requires data != result && LayoutOf(version, ecl).RawLen() <= data.Length
    requires LayoutOf(version, ecl).RawLen() <= result.Length
    modifies data, result
    ensures data[..LayoutOf(version, ecl).DataLen()] == old(data[..LayoutOf(version, ecl).DataLen()])
    ensures result[..LayoutOf(version, ecl).RawLen()] ==
            Codewords(LayoutOf(version, ecl), old(data[..LayoutOf(version, ecl).DataLen()]))
  {
    hide Filled, Block, BlockEcc, Codewords, NumErrorCorrectionBlocks, EccCodewordsPerBlock, RawCodewords,
         NumDataCodewords, ReedSolomon.Product, LayoutOf, NumShortBlocks, ShortBlockLen;
    ghost var lay := LayoutOf(version, ecl);
    LayoutFields(version, ecl);
    var numBlocks := NumErrorCorrectionBlocks(ecl, version);
    var blockEccLen := EccCodewordsPerBlock(ecl, version);
    var rawCodewords := RawCodewords(version);
    var dataLen := NumDataCodewords(version, ecl);
    var numShortBlocks := numBlocks - rawCodewords % numBlocks;
    var shortBlockDataLen := rawCodewords / numBlocks - blockEccLen;
    var layout := Layout(numBlocks, numShortBlocks, shortBlockDataLen, blockEccLen);
    assert layout == lay;
    ghost var message := data[..dataLen];
    MulMonotone(1, lay.blocks, lay.ecc);
    var generator := new bv8[30];
    CalcReedSolomonGenerator(blockEccLen, generator);
    assert generator[..blockEccLen] == ReedSolomon.Product(blockEccLen)[1..];
    NothingFilled(lay, message, result[..]);
    var dat := 0;
    OffsetStep(lay, 0);
    for i := 0 to numBlocks
      invariant dat == lay.Offset(i) && dataLen == lay.DataLen() == |message|
      invariant data[..dataLen] == message
      invariant generator[..blockEccLen] == ReedSolomon.Product(blockEccLen)[1..]
      invariant Filled(lay, message, result[..], i, 0, 0)
    {
      dat := AddBlock(data, dat, generator, dataLen, layout, i, message, result);
    }
    FilledAll(lay, message, result[..]);
  }

  /** One round of the block loop; returns where the next block starts. */
  method AddBlock(data: array<bv8>, dat: nat, generator: array<bv8>, dataLen: nat, layout: Layout, i: nat,
                  ghost message: seq<bv8>, result: array<bv8>) returns (next: nat)
    requires layout.Valid() && i < layout.blocks && dataLen == layout.DataLen() == |message| && dat == layout.Offset(i)
    requires data != result && generator != data && generator != result
    requires dataLen + layout.ecc <= data.Length && data[..dataLen] == message
    requires layout.ecc <= generator.Length && generator[..layout.ecc] == ReedSolomon.Product(layout.ecc)[1..]
    requires Filled(layout, message, result[..], i, 0, 0)
    modifies data, result
    ensures data[..dataLen] == message && next == layout.Offset(i + 1)
    ensures Filled(layout, message, result[..], i + 1, 0, 0)
  {
    hide Filled, Block, BlockEcc, ReedSolomon.Product;
    OffsetStep(layout, i);
    var datLen := layout.len + if i < layout.short then 0 else 1;
    CalcBlockEcc(data, dat, datLen, generator, layout.ecc, dataLen, layout, i, message);
    CopyData(data, dat, result, layout, i, message);
    CopyEcc(data, dataLen, result, layout, i, message);
    FilledNextBlock(layout, message, result[..], i);
    next := dat + datLen;
  }

  lemma NothingFilled(lay: Layout, data: seq<bv8>, result: seq<bv8>)
    requires lay.Valid() && |data| == lay.DataLen() && lay.RawLen() <= |result|
    ensures Filled(lay, data, result, 0, 0, 0)
  {
    hide PosOf, SlotByte;
  }

  lemma BlockIsSlice(lay: Layout, message: seq<bv8>, b: nat, buffer: seq<bv8>)
    requires lay.Valid() && b < lay.blocks && |message| == lay.DataLen() <= |buffer| && buffer[..|message|] == message
    ensures lay.Offset(b) + lay.BlockLen(b) <= |message|
    ensures buffer[lay.Offset(b)..lay.Offset(b) + lay.BlockLen(b)] == Block(lay, message, b)
  {
    OffsetStep(lay, b);
    var n := lay.Offset(b) + lay.BlockLen(b);
    assert buffer[..|message|][lay.Offset(b)..n] == buffer[lay.Offset(b)..n];
  }

  /** The call that divides one block, its result going right behind the data. */
  method CalcBlockEcc(data: array<bv8>, dat: nat, datLen: nat, generator: array<bv8>, degree: nat, dataLen: nat,
                      ghost lay: Layout, ghost i: nat, ghost message: seq<bv8>)
    requires lay.Valid() && i < lay.blocks && dataLen == lay.DataLen() == |message| && degree == lay.ecc
    requires dat == lay.Offset(i) && datLen == lay.BlockLen(i) && dataLen + degree <= data.Length
    requires data[..dataLen] == message && generator != data && degree <= generator.Length
    requires generator[..degree] == ReedSolomon.Product(degree)[1..]
    modifies data
    ensures data[..dataLen] == message
    ensures data[dataLen..dataLen + degree] == BlockEcc(lay, message, i)
  {
    hide Remainder, ReedSolomon.Product, Block;
    BlockIsSlice(lay, message, i, data[..]);
    assert data[dat..dat + datLen] == data[..][dat..dat + datLen];
    CalcReedSolomonRemainder(data, dat, datLen, generator, degree, data, dataLen);
    assert data[..dataLen] == message;
  }
}
