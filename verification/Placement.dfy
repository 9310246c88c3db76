/** The zigzag scan: it visits every module outside column 6 once, and places the codeword bits on the free ones. */
module Placement {
  import opened Bytes
  import opened VersionInfo
  import opened Grid
  import opened FunctionModules
  import opened ModuleCount

  // ---------- the scan order ----------

  predicate IsUpward(right: int) {
    ((right + 1) / 2) % 2 == 0
  }

  function RowOf(v: Version, right: int, vert: int): int {
    if IsUpward(right) then Size(v) - 1 - vert else vert
  }

  /** Number of column pairs. */
  function PairCount(v: Version): nat {
    2 * v + 8
  }

  /** Right column of the k-th pair; the pairs left of the timing column are shifted by one. */
  function Right(v: Version, k: nat): int {
    var r := Size(v) - 1 - 2 * k;
    if r > 6 then r else r - 1
  }

  /** The first n rows of a column pair, in scan order. */
  function PairCells(v: Version, right: int, n: nat): seq<Cell> {
    if n == 0 then []
    else PairCells(v, right, n - 1) + [(right, RowOf(v, right, n - 1)), (right - 1, RowOf(v, right, n - 1))]
  }

  /** Everything scanned before the k-th pair. */
  function ScanBefore(v: Version, k: nat): seq<Cell> {
    if k == 0 then [] else ScanBefore(v, k - 1) + PairCells(v, Right(v, k - 1), Size(v))
  }

  function Scan(v: Version): seq<Cell> {
    ScanBefore(v, PairCount(v))
  }

  ghost predicate NoDuplicates(s: seq<Cell>) {
    forall i, j | 0 <= i < j < |s| :: s[i] != s[j]
  }

  lemma {:induction false} PairCellsAre(v: Version, right: int, n: nat)
    requires n <= Size(v)
    ensures forall c :: c in PairCells(v, right, n) <==>
                        (c.0 == right || c.0 == right - 1) &&
                        if IsUpward(right) then Size(v) - n <= c.1 < Size(v) else 0 <= c.1 < n
    ensures NoDuplicates(PairCells(v, right, n))
  {
    hide IsUpward;
    if n > 0 {
      PairCellsAre(v, right, n - 1);
    }
  }

  lemma {:induction false} ScanBeforeIs(v: Version, k: nat)
    requires k <= PairCount(v)
    ensures forall c :: c in ScanBefore(v, k) <==> InGrid(v, c.0, c.1) && c.0 != 6 && c.0 > Right(v, k)
    ensures NoDuplicates(ScanBefore(v, k))
  {
    hide PairCells, ScanBefore, IsUpward;
    if k == 0 {
      EmptyScan(v);
    } else {
      var right := Right(v, k - 1);
      ScanBeforeIs(v, k - 1);
      PairCellsAre(v, right, Size(v));
      ScanBeforeUnfold(v, k);
      AppendDistinct(ScanBefore(v, k - 1), PairCells(v, right, Size(v)));
      forall c: Cell
        ensures c in ScanBefore(v, k) <==> InGrid(v, c.0, c.1) && c.0 != 6 && c.0 > Right(v, k)
      {
        assert c in ScanBefore(v, k) <==> c in ScanBefore(v, k - 1) || c in PairCells(v, right, Size(v));
      }
    }
  }

  lemma AppendDistinct(s: seq<Cell>, t: seq<Cell>)
    requires NoDuplicates(s) && NoDuplicates(t) && forall c | c in t :: c !in s
    ensures NoDuplicates(s + t)
  {
    forall i, j | 0 <= i < j < |s + t|
      ensures (s + t)[i] != (s + t)[j]
    {
      if i < |s| <= j {
        assert t[j - |s|] in t && s[i] in s;
      }
    }
  }

  lemma ScanBeforeUnfold(v: Version, k: nat)
    requires k > 0
    ensures ScanBefore(v, k) == ScanBefore(v, k - 1) + PairCells(v, Right(v, k - 1), Size(v))
  {
    hide PairCells;
  }

  /** The scan visits every module outside column 6 exactly once. */
  lemma ScanVisitsOnce(v: Version)
    ensures forall c :: c in Scan(v) <==> InGrid(v, c.0, c.1) && c.0 != 6
    ensures NoDuplicates(Scan(v))
  {
    hide ScanBefore;
    ScanBeforeIs(v, PairCount(v));
  }

  lemma {:induction false} PairCellAt(v: Version, right: int, n: nat, row: nat, j: nat)
    requires row < n && j < 2
    ensures |PairCells(v, right, n)| == 2 * n
    ensures PairCells(v, right, n)[2 * row + j] == (right - j, RowOf(v, right, row))
    decreases n
  {
    hide RowOf;
    PairUnfold(v, right, n - 1);
    if row < n - 1 {
      PairCellAt(v, right, n - 1, row, j);
    } else if n == 1 {
      EmptyPair(v, right);
    } else {
      PairCellAt(v, right, n - 1, 0, 0);
    }
  }

  lemma {:induction false} ScanBeforeAt(v: Version, n: nat, k: nat, row: nat, j: nat)
    requires k < n && row < Size(v) && j < 2
    ensures |ScanBefore(v, n)| == n * (2 * Size(v)) && 0 <= k * (2 * Size(v)) + 2 * row + j < n * (2 * Size(v))
    ensures ScanBefore(v, n)[k * (2 * Size(v)) + 2 * row + j] == (Right(v, k) - j, RowOf(v, Right(v, k), row))
    decreases n
  {
    hide PairCells, ScanBefore, RowOf, Right;
    var w := 2 * Size(v);
    ScanBeforeUnfold(v, n);
    PairCellAt(v, Right(v, n - 1), Size(v), row, j);
    assert n * w == (n - 1) * w + w;
    if n == 1 {
      EmptyScan(v);
      assert k * w == 0;
    } else {
      ScanBeforeAt(v, n - 1, if k < n - 1 then k else 0, row, j);
      if k == n - 1 {
        assert k * w == (n - 1) * w;
      }
    }
  }

  /** The place of a cell in terms of its pair and row. */
  lemma CellOf(v: Version, k: nat, row: nat)
    requires k < 2 * v + 8
    ensures Right(v, k) == 4 * v + 16 - 2 * k - if k < 2 * v + 5 then 0 else 1
    ensures RowOf(v, Right(v, k), row) == if k % 2 == 0 then 4 * v + 16 - row else row
  {
    assert (Right(v, k) + 1) / 2 == 2 * v + 8 - k;
  }

  /** The zigzag: column pairs from the right, the first upwards and then in turns, right module before left; the pairs
      left of column 6 are one further to the left. */
  lemma ScanOrder(v: Version, k: nat, row: nat, j: nat)
    requires k < 2 * v + 8 && row < Size(v) && j < 2
    ensures var i := k * (2 * Size(v)) + 2 * row + j;
            0 <= i < |Scan(v)| &&
            Scan(v)[i] == (4 * v + 16 - 2 * k - (if k < 2 * v + 5 then 0 else 1) - j,
                           if k % 2 == 0 then 4 * v + 16 - row else row)
  {
    hide ScanBefore, Size, Right, RowOf;
    ScanBeforeAt(v, 2 * v + 8, k, row, j);
    CellOf(v, k, row);
  }

  // ---------- the free modules in scan order ----------

  ghost function FreeOf(v: Version, cells: seq<Cell>): seq<Cell>
  {
    if cells == [] then []
    else
      var n := |cells| - 1;
      FreeOf(v, cells[..n]) + if IsFunction(v, cells[n].0, cells[n].1) then [] else [cells[n]]
  }

  lemma {:induction false} FreeOfIs(v: Version, cells: seq<Cell>)
    ensures forall c :: c in FreeOf(v, cells) <==> c in cells && !IsFunction(v, c.0, c.1)
    ensures NoDuplicates(cells) ==> NoDuplicates(FreeOf(v, cells))
  {
    hide IsFunction, FreeOf;
    if cells == [] {
      EmptyScan(v);
    } else {
      var n := |cells| - 1;
      assert cells == cells[..n] + [cells[n]];
      FreeOfIs(v, cells[..n]);
      FreeOfAppend(v, cells[..n], cells[n]);
    }
  }

  lemma FreeOfAppend(v: Version, cells: seq<Cell>, c: Cell)
    ensures FreeOf(v, cells + [c]) == FreeOf(v, cells) + if IsFunction(v, c.0, c.1) then [] else [c]
  {
    hide IsFunction;
    assert (cells + [c])[..|cells|] == cells;
  }

  /** The free modules of a version, in the order in which they take codeword bits. */
  ghost function FreeCells(v: Version): seq<Cell> {
    FreeOf(v, Scan(v))
  }

  lemma {:induction false} DistinctCount(s: seq<Cell>)
    requires NoDuplicates(s)
    ensures |set c | c in s| == |s|
  {
    if s == [] {
      assert (set c | c in s) == {};
    } else {
      var n := |s| - 1;
      DistinctCount(s[..n]);
      assert (set c | c in s) == (set c | c in s[..n]) + {s[n]};
    }
  }

  /** The free modules in scan order: each exactly once, and as many as the closed form says. */
  lemma FreeCellsAre(v: Version)
    ensures forall c :: c in FreeCells(v) <==> InGrid(v, c.0, c.1) && !IsFunction(v, c.0, c.1)
    ensures NoDuplicates(FreeCells(v))
    ensures |FreeCells(v)| == NumRawDataModules(v)
  {
    hide Scan, FreeOf, IsFinder, IsAlignment, IsVersionBlock;
    ScanVisitsOnce(v);
    FreeOfIs(v, Scan(v));
    DistinctCount(FreeCells(v));
    assert (set c | c in FreeCells(v)) == FreeSet(v);
    FreeCount(v);
  }

  // ---------- placing the codewords ----------

  /** After the cells `done`: the free ones among them show the bits in order (white once these run out), every other
      module is as initializeFunctionModules left it. */
  ghost predicate Placed(v: Version, q: seq<bv8>, done: seq<Cell>, bits: seq<bool>) {
    var free := FreeOf(v, done);
    && IsGrid(q, v)
    && (forall k | 0 <= k < |free| :: InGrid(v, free[k].0, free[k].1))
    && (forall k | 0 <= k < |free| :: At(q, v, free[k].0, free[k].1) == (k < |bits| && bits[k]))
    && (forall x, y | InGrid(v, x, y) && (x, y) !in free :: At(q, v, x, y) == IsFunction(v, x, y))
  }

  function Min(a: nat, b: nat): nat {
    if a < b then a else b
  }

  /** The innermost statement of the scan. */
  method PlaceBit(data: array<bv8>, dataLen: nat, qrcode: array<bv8>, ghost v: Version, x: int, y: int, i: nat,
                  ghost done: seq<Cell>) returns (next: nat)
    requires dataLen <= data.Length && data != qrcode && InGrid(v, x, y) && (x, y) !in done
    requires Placed(v, qrcode[..], done, BitsOf(data[..dataLen])) && i == Min(|FreeOf(v, done)|, 8 * dataLen)
    modifies qrcode
    ensures Placed(v, qrcode[..], done + [(x, y)], BitsOf(data[..dataLen]))
    ensures next == Min(|FreeOf(v, done + [(x, y)])|, 8 * dataLen)
  {
    hide At, BufferLen, Bit, IsFunction, FreeOf;
    ghost var bits, q := BitsOf(data[..dataLen]), qrcode[..];
    FreeOfIs(v, done);
    FreeOfAppend(v, done, (x, y));
    next := i;
    var filled := GetModule(qrcode, v, x, y);
    if !filled && i < dataLen * 8 {
      assert bits[i] == Bit(data[i / 8], 7 - i % 8);
      BitIsShift(data[i / 8], 7 - i % 8);
      var black := (data[i / 8] >> (7 - i % 8)) & 1 != 0;
      SetModule(qrcode, v, x, y, black);
      next := i + 1;
      assert BitsOf(data[..dataLen]) == bits;
      PlacedStep(v, q, qrcode[..], done, bits, x, y);
    } else {
      PlacedSkip(v, q, done, bits, x, y);
    }
  }

  lemma PlacedStep(v: Version, q: seq<bv8>, q': seq<bv8>, done: seq<Cell>, bits: seq<bool>, x: int, y: int)
    requires Placed(v, q, done, bits) && InGrid(v, x, y) && (x, y) !in done && !IsFunction(v, x, y)
    requires |FreeOf(v, done)| < |bits| && OneModuleSet(q, q', v, x, y, bits[|FreeOf(v, done)|])
    ensures Placed(v, q', done + [(x, y)], bits)
  {
    hide At, BufferLen, IsFunction, FreeOf;
    FreeOfIs(v, done);
    FreeOfAppend(v, done, (x, y));
    var free, free' := FreeOf(v, done), FreeOf(v, done + [(x, y)]);
    forall k | 0 <= k < |free'|
      ensures InGrid(v, free'[k].0, free'[k].1) && At(q', v, free'[k].0, free'[k].1) == (k < |bits| && bits[k])
    {
      if k < |free| {
        assert free'[k] == free[k] && free[k] in free;
      }
    }
  }

  lemma PlacedSkip(v: Version, q: seq<bv8>, done: seq<Cell>, bits: seq<bool>, x: int, y: int)
    requires Placed(v, q, done, bits) && InGrid(v, x, y) && (x, y) !in done
    requires IsFunction(v, x, y) || |FreeOf(v, done)| >= |bits|
    ensures Placed(v, q, done + [(x, y)], bits)
  {
    hide At, BufferLen, IsFunction, FreeOf;
    FreeOfIs(v, done);
    FreeOfAppend(v, done, (x, y));
    assert FreeOf(v, done) + [] == FreeOf(v, done);
  }

  method DrawCodewords(data: array<bv8>, dataLen: nat, qrcode: array<bv8>, ghost v: Version)
    requires dataLen <= data.Length && data != qrcode && 8 * dataLen <= NumRawDataModules(v)
    requires IsGrid(qrcode[..], v)
    requires forall x, y | InGrid(v, x, y) :: At(qrcode[..], v, x, y) == IsFunction(v, x, y)
    modifies qrcode
    ensures Placed(v, qrcode[..], Scan(v), BitsOf(data[..dataLen]))
  {
    hide At, BufferLen, Bit, IsFunction, FreeOf, BitsOf, Placed, PairCells, ScanBefore, NumRawDataModules;
    ghost var bits := BitsOf(data[..dataLen]);
    var qrsize := GetSize(qrcode, v);
    var i := 0;
    var right := qrsize - 1;
    ghost var k := 0;
    assert ScanBefore(v, 0) == [] && FreeOf(v, []) == [] by { EmptyScan(v); }
    assert Placed(v, qrcode[..], [], bits) by { PlacedStart(v, qrcode[..], bits); }
    while right >= 1
      invariant qrsize == Size(v) && 0 <= k <= PairCount(v)
      invariant right == if qrsize - 1 - 2 * k >= 6 then qrsize - 1 - 2 * k else qrsize - 2 - 2 * k
      invariant bits == BitsOf(data[..dataLen])
      invariant Placed(v, qrcode[..], ScanBefore(v, k), bits)
      invariant i == Min(|FreeOf(v, ScanBefore(v, k))|, 8 * dataLen)
      decreases right
    {
      if right == 6 {
        right := 5;
      }
      assert right == Right(v, k);
      i := DrawPair(data, dataLen, qrcode, v, qrsize, right, i, k);
      right := right - 2;
      k := k + 1;
    }
    assert k == PairCount(v);
    FreeCellsAre(v);
    assert i == dataLen * 8;
  }

  lemma EmptyScan(v: Version)
    ensures ScanBefore(v, 0) == [] && FreeOf(v, []) == []
  {
  }

  lemma PlacedStart(v: Version, q: seq<bv8>, bits: seq<bool>)
    requires IsGrid(q, v) && forall x, y | InGrid(v, x, y) :: At(q, v, x, y) == IsFunction(v, x, y)
    ensures Placed(v, q, [], bits)
  {
    hide At, IsFunction, BufferLen;
  }

  /** The two inner loops of the scan: one column pair. */
  method DrawPair(data: array<bv8>, dataLen: nat, qrcode: array<bv8>, ghost v: Version, qrsize: int, right: int, i: nat,
                  ghost k: nat) returns (next: nat)
    requires dataLen <= data.Length && data != qrcode && qrsize == Size(v)
    requires k < PairCount(v) && right == Right(v, k)
    requires Placed(v, qrcode[..], ScanBefore(v, k), BitsOf(data[..dataLen]))
    requires i == Min(|FreeOf(v, ScanBefore(v, k))|, 8 * dataLen)
    modifies qrcode
    ensures Placed(v, qrcode[..], ScanBefore(v, k + 1), BitsOf(data[..dataLen]))
    ensures next == Min(|FreeOf(v, ScanBefore(v, k + 1))|, 8 * dataLen)
  {
    hide At, BufferLen, IsFunction, FreeOf, BitsOf, Placed, PairCells, ScanBefore, IsUpward;
    ghost var bits, before := BitsOf(data[..dataLen]), ScanBefore(v, k);
    assert before + PairCells(v, right, 0) == before by { EmptyPair(v, right); }
    next := i;
    for vert := 0 to qrsize
      invariant bits == BitsOf(data[..dataLen])
      invariant Placed(v, qrcode[..], before + PairCells(v, right, vert), bits)
      invariant next == Min(|FreeOf(v, before + PairCells(v, right, vert))|, 8 * dataLen)
    {
      var upward := ((right + 1) / 2) % 2 == 0;
      var y := if upward then qrsize - 1 - vert else vert;
      assert y == RowOf(v, right, vert) by { RowChoice(v, right, vert); }
      ghost var done := before + PairCells(v, right, vert);
      FreshCells(v, k, vert);
      next := PlaceBit(data, dataLen, qrcode, v, right, y, next, done);
      assert bits == BitsOf(data[..dataLen]);
      next := PlaceBit(data, dataLen, qrcode, v, right - 1, y, next, done + [(right, y)]);
      PairUnfold(v, right, vert);
      assert done + [(right, y)] + [(right - 1, y)] == before + PairCells(v, right, vert + 1);
    }
    ScanBeforeUnfold(v, k + 1);
  }

  lemma EmptyPair(v: Version, right: int)
    ensures PairCells(v, right, 0) == []
  {
  }

  lemma RowChoice(v: Version, right: int, vert: int)
    ensures RowOf(v, right, vert) == if ((right + 1) / 2) % 2 == 0 then Size(v) - 1 - vert else vert
  {
  }

  lemma PairUnfold(v: Version, right: int, n: nat)
    ensures PairCells(v, right, n + 1) ==
            PairCells(v, right, n) + [(right, RowOf(v, right, n)), (right - 1, RowOf(v, right, n))]
  {
  }

  /** The two cells of the next row have not been visited. */
  lemma FreshCells(v: Version, k: nat, vert: nat)
    requires k < PairCount(v) && vert < Size(v)
    ensures var right, y := Right(v, k), RowOf(v, Right(v, k), vert);
            var done := ScanBefore(v, k) + PairCells(v, right, vert);
            InGrid(v, right, y) && InGrid(v, right - 1, y) && (right, y) !in done &&
              (right - 1, y) !in done + [(right, y)]
  {
    hide PairCells, ScanBefore, IsUpward;
    ScanBeforeIs(v, k);
    PairCellsAre(v, Right(v, k), vert);
  }
}
