/** Function modules: which modules they are, what colour they get, and the code that draws them. */
module FunctionModules {
  import opened Bytes
  import opened VersionInfo
  import opened Grid

  newtype UInt8 = x: int | 0 <= x < 256

  // ---------- alignment pattern centres ----------

  function AlignStep(v: Version): nat
    requires v >= 2
  {
    if v == 32 then 26 else (4 * v + 2 * NumAlign(v) + 1) / (2 * NumAlign(v) - 2) * 2
  }

  /** The i-th centre coordinate; the last one is 4v+10 and the others go down in even steps, but the first is 6. */
  function AlignPos(v: Version, i: nat): int
    requires v >= 2 && i < NumAlign(v)
  {
    if i == 0 then 6 else 4 * v + 10 - AlignStep(v) * (NumAlign(v) - 1 - i)
  }

  lemma AlignFacts(v: Version)
    requires v >= 2
    ensures 2 <= NumAlign(v) <= 7
    ensures AlignStep(v) >= 12
    ensures AlignPos(v, 1) >= 18
  {
    var n := NumAlign(v);
    if n == 2 {
      assert AlignStep(v) == (4 * v + 5) / 2 * 2;
    } else if n == 3 {
      assert AlignStep(v) == (4 * v + 7) / 4 * 2;
      assert AlignPos(v, 1) == 4 * v + 10 - AlignStep(v);
    } else if n == 4 {
      assert AlignStep(v) == (4 * v + 9) / 6 * 2;
      assert AlignPos(v, 1) == 4 * v + 10 - AlignStep(v) * 2;
    } else if n == 5 {
      assert AlignStep(v) == (4 * v + 11) / 8 * 2;
      assert AlignPos(v, 1) == 4 * v + 10 - AlignStep(v) * 3;
    } else if n == 6 {
      assert AlignPos(v, 1) == 4 * v + 10 - AlignStep(v) * 4;
    } else {
      assert AlignStep(v) == (4 * v + 15) / 12 * 2;
      assert AlignPos(v, 1) == 4 * v + 10 - AlignStep(v) * 5;
    }
  }

  /** Centres ascend by at least twelve. */
  lemma {:induction false} AlignGap(v: Version, i: nat, j: nat)
    requires v >= 2 && i < j < NumAlign(v)
    ensures AlignPos(v, i) + 12 <= AlignPos(v, j)
    decreases j
  {
    AlignFacts(v);
    hide AlignStep;
    if i + 1 < j {
      AlignGap(v, i, j - 1);
      AlignSuccessor(v, j - 1);
    } else if i > 0 {
      AlignSuccessor(v, i);
    }
  }

  lemma AlignSuccessor(v: Version, i: nat)
    requires v >= 2 && 1 <= i && i + 1 < NumAlign(v)
    ensures AlignPos(v, i + 1) == AlignPos(v, i) + AlignStep(v)
  {
    hide AlignStep;
    var s, k := AlignStep(v), NumAlign(v) - 1 - i;
    assert s * k == s * (k - 1) + s;
  }

  lemma AlignRange(v: Version, i: nat)
    requires v >= 2 && i < NumAlign(v)
    ensures 6 <= AlignPos(v, i) <= 4 * v + 10
    ensures i > 0 ==> 18 <= AlignPos(v, i)
    ensures 0 < i < NumAlign(v) - 1 ==> AlignPos(v, i) <= 4 * v - 2
    ensures AlignPos(v, i) % 2 == 0
  {
    AlignFacts(v);
    AlignEven(v, i);
    hide AlignStep;
    var n := NumAlign(v);
    if i > 1 {
      AlignGap(v, 1, i);
    }
    if 0 < i < n - 1 {
      AlignGap(v, i, n - 1);
    }
  }

  lemma StepEven(v: Version)
    requires v >= 2
    ensures AlignStep(v) % 2 == 0
  {
  }

  lemma AlignEven(v: Version, i: nat)
    requires v >= 2 && i < NumAlign(v)
    ensures AlignPos(v, i) % 2 == 0
  {
    StepEven(v);
    hide AlignStep;
    var h, k := AlignStep(v) / 2, NumAlign(v) - 1 - i;
    assert AlignStep(v) * k == 2 * (h * k);
  }

  method GetAlignmentPatternPositions(v: Version, result: array<UInt8>) returns (numAlign: nat)
    requires result.Length == 7
    modifies result
    ensures numAlign == NumAlign(v) <= 7
    ensures forall i | 0 <= i < numAlign :: v >= 2 && result[i] as int == AlignPos(v, i)
  {
    if v == 1 {
      return 0;
    }
    AlignFacts(v);
    numAlign := v / 7 + 2;
    var step := if v == 32 then 26 else (v * 4 + numAlign * 2 + 1) / (numAlign * 2 - 2) * 2;
    assert step == AlignStep(v);
    hide AlignStep;
    var i, pos := numAlign - 1, v * 4 + 10;
    while i >= 1
      invariant 0 <= i < numAlign
      invariant i >= 1 ==> pos == AlignPos(v, i)
      invariant forall k | i < k < numAlign :: result[k] as int == AlignPos(v, k)
    {
      AlignRange(v, i);
      result[i] := pos as UInt8;
      if i > 1 {
        AlignSuccessor(v, i - 1);
      }
      i, pos := i - 1, pos - step;
    }
    result[0] := 6;
  }

  // ---------- which modules are function modules ----------

  ghost predicate InRect(x: int, y: int, left: int, top: int, width: int, height: int) {
    left <= x < left + width && top <= y < top + height
  }

  ghost predicate IsTiming(v: Version, x: int, y: int) {
    x == 6 || y == 6
  }

  /** The three finder patterns with their separators and the format areas beside them. */
  ghost predicate IsFinder(v: Version, x: int, y: int) {
    InRect(x, y, 0, 0, 9, 9) || InRect(x, y, Size(v) - 8, 0, 8, 9) || InRect(x, y, 0, Size(v) - 8, 9, 8)
  }

  predicate IsCorner(n: nat, i: nat, j: nat) {
    (i == 0 && j == 0) || (i == 0 && j == n - 1) || (i == n - 1 && j == 0)
  }

  function Max(a: int, b: int): int {
    if a < b then b else a
  }

  function Abs(a: int): int {
    if a < 0 then -a else a
  }

  /** Chebyshev distance. */
  function Dist(x: int, y: int, cx: int, cy: int): int {
    Max(Abs(x - cx), Abs(y - cy))
  }

  /** (x, y) lies within distance d of the alignment pattern (i, j), which is not one of the three left out. */
  ghost predicate NearAlign(v: Version, i: nat, j: nat, x: int, y: int, d: nat) {
    && v >= 2 && i < NumAlign(v) && j < NumAlign(v) && !IsCorner(NumAlign(v), i, j)
    && Dist(x, y, AlignPos(v, i), AlignPos(v, j)) <= d
  }

  ghost predicate IsAlignment(v: Version, x: int, y: int) {
    exists i: nat, j: nat :: NearAlign(v, i, j, x, y, 2)
  }

  ghost predicate IsVersionBlock(v: Version, x: int, y: int) {
    v >= 7 && (InRect(x, y, Size(v) - 11, 0, 3, 6) || InRect(x, y, 0, Size(v) - 11, 6, 3))
  }

  ghost predicate IsFunction(v: Version, x: int, y: int) {
    IsTiming(v, x, y) || IsFinder(v, x, y) || IsAlignment(v, x, y) || IsVersionBlock(v, x, y)
  }

  // ---------- marking them ----------

  method FillRectangle(ghost v: Version, left: int, top: int, width: int, height: int, qrcode: array<bv8>)
    requires IsGrid(qrcode[..], v)
    requires 0 <= left && 0 <= top && 0 <= width && 0 <= height && left + width <= Size(v) && top + height <= Size(v)
    modifies qrcode
    ensures IsGrid(qrcode[..], v)
    ensures forall x, y | InGrid(v, x, y) ::
              At(qrcode[..], v, x, y) == (At(old(qrcode[..]), v, x, y) || InRect(x, y, left, top, width, height))
  {
    hide At, BufferLen;
    ghost var before := qrcode[..];
    for dy := 0 to height
      invariant IsGrid(qrcode[..], v)
      invariant forall x, y | InGrid(v, x, y) ::
                  At(qrcode[..], v, x, y) == (At(before, v, x, y) || InRect(x, y, left, top, width, dy))
    {
      for dx := 0 to width
        invariant IsGrid(qrcode[..], v)
        invariant forall x, y | InGrid(v, x, y) ::
                    At(qrcode[..], v, x, y) ==
                    (At(before, v, x, y) || InRect(x, y, left, top, width, dy) || InRect(x, y, left, top + dy, dx, 1))
      {
        SetModule(qrcode, v, left + dx, top + dy, true);
      }
    }
  }

  /** The alignment squares drawn before pair (i, j) in row order. */
  ghost predicate AlignedBefore(v: Version, i: nat, j: nat, x: int, y: int) {
    exists a: nat, b: nat :: (a < i || (a == i && b < j)) && NearAlign(v, a, b, x, y, 2)
  }

  lemma AlignedStep(v: Version, i: nat, j: nat, x: int, y: int)
    ensures AlignedBefore(v, i, j + 1, x, y) <==> AlignedBefore(v, i, j, x, y) || NearAlign(v, i, j, x, y, 2)
    ensures !AlignedBefore(v, 0, 0, x, y)
    ensures AlignedBefore(v, i, NumAlign(v), x, y) <==> AlignedBefore(v, i + 1, 0, x, y)
    ensures AlignedBefore(v, NumAlign(v), 0, x, y) <==> IsAlignment(v, x, y)
  {
    hide AlignPos, Dist;
    if AlignedBefore(v, i + 1, 0, x, y) {
      var a: nat, b: nat :| a < i + 1 && NearAlign(v, a, b, x, y, 2);
    }
  }

  /** The first lines of InitializeFunctionModules: an all-white grid of the right size. */
  method ClearGrid(v: Version, qrcode: array<bv8>)
    requires qrcode.Length >= BufferLen(v)
    modifies qrcode
    ensures IsGrid(qrcode[..], v)
    ensures forall x, y | InGrid(v, x, y) :: !At(qrcode[..], v, x, y)
  {
    var qrsize := v * 4 + 17;
    assert BufferLen(v) == (qrsize * qrsize + 7) / 8 + 1;
    forall k | 0 <= k < (qrsize * qrsize + 7) / 8 + 1 {
      qrcode[k] := 0;
    }
    qrcode[0] := ByteFrom(qrsize);
    ByteValueFrom(qrsize);
    forall x, y | InGrid(v, x, y)
      ensures !At(qrcode[..], v, x, y)
    {
      IndexBound(v, x, y);
    }
  }

  /** Clears the grid and blackens exactly the function modules. */
  method InitializeFunctionModules(v: Version, qrcode: array<bv8>)
    requires qrcode.Length >= BufferLen(v)
    modifies qrcode
    ensures IsGrid(qrcode[..], v)
    ensures forall x, y | InGrid(v, x, y) :: At(qrcode[..], v, x, y) == IsFunction(v, x, y)
  {
    hide At, BufferLen, IsAlignment, IsFinder, IsVersionBlock;
    ClearGrid(v, qrcode);
    var qrsize := v * 4 + 17;
    FillRectangle(v, 6, 0, 1, qrsize, qrcode);
    FillRectangle(v, 0, 6, qrsize, 1, qrcode);
    assert forall x, y | InGrid(v, x, y) :: At(qrcode[..], v, x, y) == IsTiming(v, x, y);
    FillFinderPatterns(v, qrcode);
    FillAlignmentPatterns(v, qrcode);
    FillVersionBlocks(v, qrcode);
  }

  method FillFinderPatterns(v: Version, qrcode: array<bv8>)
    requires IsGrid(qrcode[..], v)
    modifies qrcode
    ensures IsGrid(qrcode[..], v)
    ensures forall x, y | InGrid(v, x, y) ::
              At(qrcode[..], v, x, y) == (At(old(qrcode[..]), v, x, y) || IsFinder(v, x, y))
  {
    hide At, BufferLen;
    var qrsize := v * 4 + 17;
    FillRectangle(v, 0, 0, 9, 9, qrcode);
    FillRectangle(v, qrsize - 8, 0, 8, 9, qrcode);
    FillRectangle(v, 0, qrsize - 8, 9, 8, qrcode);
  }

  method FillVersionBlocks(v: Version, qrcode: array<bv8>)
    requires IsGrid(qrcode[..], v)
    modifies qrcode
    ensures IsGrid(qrcode[..], v)
    ensures forall x, y | InGrid(v, x, y) ::
              At(qrcode[..], v, x, y) == (At(old(qrcode[..]), v, x, y) || IsVersionBlock(v, x, y))
  {
    hide At, BufferLen;
    var qrsize := v * 4 + 17;
    if v >= 7 {
      FillRectangle(v, qrsize - 11, 0, 3, 6, qrcode);
      FillRectangle(v, 0, qrsize - 11, 6, 3, qrcode);
    }
  }

  /** The alignment part of InitializeFunctionModules. */
  method FillAlignmentPatterns(v: Version, qrcode: array<bv8>)
    requires IsGrid(qrcode[..], v)
    modifies qrcode
    ensures IsGrid(qrcode[..], v)
    ensures forall x, y | InGrid(v, x, y) ::
              At(qrcode[..], v, x, y) == (At(old(qrcode[..]), v, x, y) || IsAlignment(v, x, y))
  {
    hide At, BufferLen, AlignPos, IsAlignment, AlignedBefore;
    ghost var before := qrcode[..];
    var alignPatPos := new UInt8[7];
    var numAlign := GetAlignmentPatternPositions(v, alignPatPos);
    forall x, y
      ensures !AlignedBefore(v, 0, 0, x, y)
    {
      AlignedStep(v, 0, 0, x, y);
    }
    for i := 0 to numAlign
      invariant IsGrid(qrcode[..], v)
      invariant forall k | 0 <= k < numAlign :: v >= 2 && alignPatPos[k] as int == AlignPos(v, k)
      invariant forall x, y | InGrid(v, x, y) ::
                  At(qrcode[..], v, x, y) == (At(before, v, x, y) || AlignedBefore(v, i, 0, x, y))
    {
      for j := 0 to numAlign
        invariant IsGrid(qrcode[..], v)
        invariant forall k | 0 <= k < numAlign :: v >= 2 && alignPatPos[k] as int == AlignPos(v, k)
        invariant forall x, y | InGrid(v, x, y) ::
                    At(qrcode[..], v, x, y) == (At(before, v, x, y) || AlignedBefore(v, i, j, x, y))
      {
        AlignRange(v, i);
        AlignRange(v, j);
        if !((i == 0 && j == 0) || (i == 0 && j == numAlign - 1) || (i == numAlign - 1 && j == 0)) {
          FillRectangle(v, alignPatPos[i] as int - 2, alignPatPos[j] as int - 2, 5, 5, qrcode);
        }
        forall x, y
          ensures AlignedBefore(v, i, j + 1, x, y) <==> AlignedBefore(v, i, j, x, y) || NearAlign(v, i, j, x, y, 2)
        {
          AlignedStep(v, i, j, x, y);
        }
      }
      forall x, y
        ensures AlignedBefore(v, i, numAlign, x, y) <==> AlignedBefore(v, i + 1, 0, x, y)
      {
        AlignedStep(v, i, 0, x, y);
      }
    }
    forall x, y
      ensures AlignedBefore(v, numAlign, 0, x, y) <==> IsAlignment(v, x, y)
    {
      AlignedStep(v, 0, 0, x, y);
    }
  }
}
