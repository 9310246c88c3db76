/** The colours of the function modules: white parts of the patterns, version blocks and format bits. */
module FunctionPatterns {
  import opened VersionInfo
  import opened Grid
  import opened FunctionModules

  // ---------- version and format words ----------

  /** The word after i rounds of dividing by the 13-bit generator 0x1F25. */
  function VersionRem(data: bv32, i: nat): bv32
    decreases i, data as int
  {
    if i == 0 then data else VersionDivide(VersionRem(data, i - 1))
  }

  function VersionDivide(rem: bv32): bv32 {
    (rem << 1) ^ ((rem >> 11) * 0x1F25)
  }

  lemma {:induction false} VersionRemBound(data: bv32, i: nat)
    requires data < 0x1000
    ensures VersionRem(data, i) < 0x1000
  {
    hide VersionDivide;
    if i > 0 {
      VersionRemBound(data, i - 1);
      VersionRemStep(VersionRem(data, i - 1));
    }
  }

  lemma VersionRemStep(rem: bv32)
    requires rem < 0x1000
    ensures VersionDivide(rem) < 0x1000
  {
    assert rem >> 11 == 0 || rem >> 11 == 1;
  }

  function VersionWord(v: Version): bv32 {
    var data := v as bv32;
    (data << 12) | VersionRem(data, 12)
  }

  /** The version word after t right shifts. */
  function VersionShifted(v: Version, t: nat): bv32
    decreases t, v
  {
    if t == 0 then VersionWord(v) else Halve(VersionShifted(v, t - 1))
  }

  function VersionBit(v: Version, t: nat): bool {
    LowBit(VersionShifted(v, t))
  }

  function Halve(x: bv32): bv32 {
    x >> 1
  }

  function LowBit(x: bv32): bool {
    x & 1 != 0
  }

  function FormatData(e: Ecc, m: MaskId): bv32 {
    (LevelCode(e) << 3) | MaskCode(m)
  }

  /** The two-bit indicator of a level. */
  function LevelCode(e: Ecc): bv32 {
    if e == LOW then 1 else if e == MEDIUM then 0 else if e == QUARTILE then 3 else 2
  }

  /** The mask number as a machine word. */
  function MaskCode(m: MaskId): bv32 {
    if m == 0 then 0 else if m == 1 then 1 else if m == 2 then 2 else if m == 3 then 3
    else if m == 4 then 4 else if m == 5 then 5 else if m == 6 then 6 else 7
  }

  function FormatRem(data: bv32, i: nat): bv32
    decreases i, data as int
  {
    if i == 0 then data
    else FormatDivide(FormatRem(data, i - 1))
  }

  function FormatDivide(rem: bv32): bv32 {
    (rem << 1) ^ ((rem >> 9) * 0x537)
  }

  lemma {:induction false} FormatRemBound(data: bv32, i: nat)
    requires data < 0x400
    ensures FormatRem(data, i) < 0x400
  {
    hide FormatDivide;
    if i > 0 {
      FormatRemBound(data, i - 1);
      FormatRemStep(FormatRem(data, i - 1));
    }
  }

  lemma FormatRemStep(rem: bv32)
    requires rem < 0x400
    ensures FormatDivide(rem) < 0x400
  {
    assert rem >> 9 == 0 || rem >> 9 == 1;
  }

  function FormatWord(e: Ecc, m: MaskId): bv32 {
    var data := FormatData(e, m);
    ((data << 10) | FormatRem(data, 10)) ^ 0x5412
  }

  function GetBit(x: bv32, i: nat): bool
    requires i < 15
  {
    (x >> i) & 1 != 0
  }

  lemma FormatDataBound(e: Ecc, m: MaskId)
    ensures FormatData(e, m) < 32
  {
  }

  /** The upper five bits of a format word, unmasked, are its data. */
  lemma FormatWordData(e: Ecc, m: MaskId)
    ensures FormatWord(e, m) < 0x8000
    ensures (FormatWord(e, m) ^ 0x5412) >> 10 == FormatData(e, m)
  {
    FormatDataBound(e, m);
    hide FormatData;
    FormatRemBound(FormatData(e, m), 10);
    FormatWordSplit(FormatData(e, m), FormatRem(FormatData(e, m), 10));
  }

  lemma FormatWordSplit(data: bv32, rem: bv32)
    requires data < 32 && rem < 0x400
    ensures ((data << 10) | rem) ^ 0x5412 < 0x8000
    ensures (((data << 10) | rem) ^ 0x5412 ^ 0x5412) >> 10 == data
  {
  }

  // ---------- white function modules ----------

  ghost predicate IsTimingWhite(v: Version, x: int, y: int) {
    (x == 6 && 7 <= y < Size(v) - 7 && y % 2 == 1) || (y == 6 && 7 <= x < Size(v) - 7 && x % 2 == 1)
  }

  /** The light ring and the separator around one finder pattern. */
  ghost predicate IsRingWhite(x: int, y: int, cx: int, cy: int) {
    Dist(x, y, cx, cy) == 2 || Dist(x, y, cx, cy) == 4
  }

  ghost predicate IsFinderWhite(v: Version, x: int, y: int) {
    IsRingWhite(x, y, 3, 3) || IsRingWhite(x, y, Size(v) - 4, 3) || IsRingWhite(x, y, 3, Size(v) - 4)
  }

  ghost predicate AlignRing(v: Version, i: nat, j: nat, x: int, y: int) {
    NearAlign(v, i, j, x, y, 1) && !NearAlign(v, i, j, x, y, 0)
  }

  ghost predicate IsAlignmentWhite(v: Version, x: int, y: int) {
    exists i: nat, j: nat :: AlignRing(v, i, j, x, y)
  }

  ghost predicate IsVersionWhite(v: Version, x: int, y: int) {
    && v >= 7
    && ((InRect(x, y, Size(v) - 11, 0, 3, 6) && !VersionBit(v, 3 * y + (x - (Size(v) - 11))))
        || (InRect(x, y, 0, Size(v) - 11, 6, 3) && !VersionBit(v, 3 * x + (y - (Size(v) - 11)))))
  }

  ghost predicate IsWhite(v: Version, x: int, y: int) {
    IsTimingWhite(v, x, y) || IsFinderWhite(v, x, y) || IsAlignmentWhite(v, x, y) || IsVersionWhite(v, x, y)
  }

  /** Only function modules are ever whitened. */
  lemma WhiteIsFunction(v: Version, x: int, y: int)
    requires InGrid(v, x, y) && IsWhite(v, x, y)
    ensures IsFunction(v, x, y)
  {
    if IsAlignmentWhite(v, x, y) {
      var i: nat, j: nat :| AlignRing(v, i, j, x, y);
      hide AlignPos;
      assert NearAlign(v, i, j, x, y, 2);
    }
  }

  // ---------- drawing them ----------

  /** One step of the timing loop. */
  method DrawTimingPair(ghost v: Version, i: int, qrcode: array<bv8>)
    requires IsGrid(qrcode[..], v) && 7 <= i < Size(v)
    modifies qrcode
    ensures IsGrid(qrcode[..], v)
    ensures forall x, y | InGrid(v, x, y) ::
              At(qrcode[..], v, x, y) == (At(old(qrcode[..]), v, x, y) && !((x == 6 && y == i) || (x == i && y == 6)))
  {
    hide At, BufferLen;
    SetModule(qrcode, v, 6, i, false);
    SetModule(qrcode, v, i, 6, false);
  }

  method DrawTimingWhite(ghost v: Version, qrcode: array<bv8>)
    requires IsGrid(qrcode[..], v)
    modifies qrcode
    ensures IsGrid(qrcode[..], v)
    ensures forall x, y | InGrid(v, x, y) ::
              At(qrcode[..], v, x, y) == (At(old(qrcode[..]), v, x, y) && !IsTimingWhite(v, x, y))
  {
    hide At, BufferLen;
    ghost var before := qrcode[..];
    var qrsize := GetSize(qrcode, v);
    var i := 7;
    while i < qrsize - 7
      invariant 7 <= i <= qrsize - 6 && i % 2 == 1 && qrsize == Size(v)
      invariant IsGrid(qrcode[..], v)
      invariant forall x, y | InGrid(v, x, y) ::
                  At(qrcode[..], v, x, y) ==
                  (At(before, v, x, y) &&
                   !((x == 6 && 7 <= y < i && y % 2 == 1) || (y == 6 && 7 <= x < i && x % 2 == 1)))
    {
      DrawTimingPair(v, i, qrcode);
      i := i + 2;
    }
  }

  method DrawFinderWhite(ghost v: Version, qrcode: array<bv8>)
    requires IsGrid(qrcode[..], v)
    modifies qrcode
    ensures IsGrid(qrcode[..], v)
    ensures forall x, y | InGrid(v, x, y) ::
              At(qrcode[..], v, x, y) == (At(old(qrcode[..]), v, x, y) && !IsFinderWhite(v, x, y))
  {
    hide At, BufferLen;
    ghost var before := qrcode[..];
    var qrsize := GetSize(qrcode, v);
    for dy := -4 to 5
      invariant IsGrid(qrcode[..], v) && qrsize == Size(v)
      invariant forall x, y | InGrid(v, x, y) ::
                  At(qrcode[..], v, x, y) == (At(before, v, x, y) && !FinderRows(v, x, y, dy))
    {
      DrawFinderRow(v, dy, qrcode);
    }
  }

  /** The same offset in each of the three patterns. */
  method DrawFinderTriple(ghost v: Version, dx: int, dy: int, qrsize: int, qrcode: array<bv8>)
    requires IsGrid(qrcode[..], v) && qrsize == Size(v)
    modifies qrcode
    ensures IsGrid(qrcode[..], v)
    ensures forall x, y | InGrid(v, x, y) ::
              At(qrcode[..], v, x, y) ==
              (At(old(qrcode[..]), v, x, y) &&
               !((x - 3 == dx && y - 3 == dy) || (x - (Size(v) - 4) == dx && y - 3 == dy) ||
                 (x - 3 == dx && y - (Size(v) - 4) == dy)))
  {
    hide At, BufferLen;
    SetModuleBounded(qrcode, v, 3 + dx, 3 + dy, false);
    SetModuleBounded(qrcode, v, qrsize - 4 + dx, 3 + dy, false);
    SetModuleBounded(qrcode, v, 3 + dx, qrsize - 4 + dy, false);
  }

  /** The inner loop of DrawFinderWhite: row dy of the three patterns. */
  method DrawFinderRow(ghost v: Version, dy: int, qrcode: array<bv8>)
    requires IsGrid(qrcode[..], v) && -4 <= dy <= 4
    modifies qrcode
    ensures IsGrid(qrcode[..], v)
    ensures forall x, y | InGrid(v, x, y) ::
              At(qrcode[..], v, x, y) == (At(old(qrcode[..]), v, x, y) && !FinderRow(v, x, y, dy, 5))
  {
    hide At, BufferLen;
    ghost var before := qrcode[..];
    var qrsize := GetSize(qrcode, v);
    for dx := -4 to 5
      invariant IsGrid(qrcode[..], v)
      invariant forall x, y | InGrid(v, x, y) ::
                  At(qrcode[..], v, x, y) == (At(before, v, x, y) && !FinderRow(v, x, y, dy, dx))
    {
      var dist := Abs(dx);
      if Abs(dy) > dist {
        dist := Abs(dy);
      }
      if dist == 2 || dist == 4 {
        DrawFinderTriple(v, dx, dy, qrsize, qrcode);
      }
    }
  }

  /** White ring modules in rows of the pattern above offset dy. */
  ghost predicate RingRows(x: int, y: int, cx: int, cy: int, dy: int) {
    IsRingWhite(x, y, cx, cy) && y - cy < dy
  }

  ghost predicate RingRow(x: int, y: int, cx: int, cy: int, dy: int, dx: int) {
    IsRingWhite(x, y, cx, cy) && y - cy == dy && x - cx < dx
  }

  ghost predicate FinderRows(v: Version, x: int, y: int, dy: int) {
    RingRows(x, y, 3, 3, dy) || RingRows(x, y, Size(v) - 4, 3, dy) || RingRows(x, y, 3, Size(v) - 4, dy)
  }

  ghost predicate FinderRow(v: Version, x: int, y: int, dy: int, dx: int) {
    RingRow(x, y, 3, 3, dy, dx) || RingRow(x, y, Size(v) - 4, 3, dy, dx) || RingRow(x, y, 3, Size(v) - 4, dy, dx)
  }

  /** Rings of the alignment patterns drawn before pair (i, j). */
  ghost predicate RingsBefore(v: Version, i: nat, j: nat, x: int, y: int) {
    exists a: nat, b: nat :: (a < i || (a == i && b < j)) && AlignRing(v, a, b, x, y)
  }

  lemma RingsStep(v: Version, i: nat, j: nat, x: int, y: int)
    ensures RingsBefore(v, i, j + 1, x, y) <==> RingsBefore(v, i, j, x, y) || AlignRing(v, i, j, x, y)
    ensures !RingsBefore(v, 0, 0, x, y)
    ensures RingsBefore(v, i, NumAlign(v), x, y) <==> RingsBefore(v, i + 1, 0, x, y)
    ensures RingsBefore(v, NumAlign(v), 0, x, y) <==> IsAlignmentWhite(v, x, y)
  {
    hide AlignPos, Dist;
    if RingsBefore(v, i + 1, 0, x, y) {
      var a: nat, b: nat :| a < i + 1 && AlignRing(v, a, b, x, y);
    }
  }

  /** The colour of a module after one alignment pattern is drawn over a black square. */
  method DrawOneAlignment(ghost v: Version, ghost i: nat, ghost j: nat, cx: int, cy: int, qrcode: array<bv8>)
    requires IsGrid(qrcode[..], v) && v >= 2 && i < NumAlign(v) && j < NumAlign(v) && !IsCorner(NumAlign(v), i, j)
    requires cx == AlignPos(v, i) && cy == AlignPos(v, j)
    requires InGrid(v, cx, cy) && At(qrcode[..], v, cx, cy)
    modifies qrcode
    ensures IsGrid(qrcode[..], v)
    ensures forall x, y | InGrid(v, x, y) ::
              At(qrcode[..], v, x, y) == (At(old(qrcode[..]), v, x, y) && !AlignRing(v, i, j, x, y))
  {
    AlignRange(v, i);
    AlignRange(v, j);
    hide At, BufferLen, AlignPos;
    ghost var before := qrcode[..];
    for dy := -1 to 2
      invariant IsGrid(qrcode[..], v)
      invariant forall x, y | InGrid(v, x, y) ::
                  At(qrcode[..], v, x, y) ==
                  (At(before, v, x, y) && !(Dist(x, y, cx, cy) == 1 && y - cy < dy))
    {
      DrawAlignmentRow(v, cx, cy, dy, qrcode);
    }
  }

  method DrawAlignmentRow(ghost v: Version, cx: int, cy: int, dy: int, qrcode: array<bv8>)
    requires IsGrid(qrcode[..], v) && -1 <= dy <= 1
    requires 1 <= cx < Size(v) - 1 && 1 <= cy < Size(v) - 1 && At(qrcode[..], v, cx, cy)
    modifies qrcode
    ensures IsGrid(qrcode[..], v)
    ensures forall x, y | InGrid(v, x, y) ::
              At(qrcode[..], v, x, y) == (At(old(qrcode[..]), v, x, y) && !(Dist(x, y, cx, cy) == 1 && y - cy == dy))
  {
    hide At, BufferLen;
    ghost var before := qrcode[..];
    for dx := -1 to 2
      invariant IsGrid(qrcode[..], v)
      invariant forall x, y | InGrid(v, x, y) ::
                  At(qrcode[..], v, x, y) ==
                  (At(before, v, x, y) && !(y == cy + dy && cx - 1 <= x < cx + dx && (x != cx || y != cy)))
    {
      SetModule(qrcode, v, cx + dx, cy + dy, dx == 0 && dy == 0);
    }
  }

  /** No drawing before it whitens the centre of an alignment pattern. */
  lemma CentreStaysBlack(v: Version, i: nat, j: nat, a: nat, b: nat)
    requires v >= 2 && i < NumAlign(v) && j < NumAlign(v) && !IsCorner(NumAlign(v), i, j)
    ensures var x, y := AlignPos(v, i), AlignPos(v, j);
            InGrid(v, x, y) && IsFunction(v, x, y) && !IsTimingWhite(v, x, y) && !IsFinderWhite(v, x, y) &&
            !AlignRing(v, a, b, x, y)
  {
    AlignFacts(v);
    AlignRange(v, i);
    AlignRange(v, j);
    var x, y := AlignPos(v, i), AlignPos(v, j);
    assert NearAlign(v, i, j, x, y, 2);
    if a < NumAlign(v) && b < NumAlign(v) {
      CentresApart(v, i, a);
      CentresApart(v, j, b);
    }
    hide AlignPos, AlignStep;
    LastCentre(v, i);
    LastCentre(v, j);
  }

  lemma LastCentre(v: Version, i: nat)
    requires v >= 2 && i < NumAlign(v)
    ensures AlignPos(v, i) == 6 || (18 <= AlignPos(v, i) <= 4 * v - 2) ||
            (i == NumAlign(v) - 1 && AlignPos(v, i) == 4 * v + 10)
    ensures i == 0 <==> AlignPos(v, i) == 6
  {
    AlignRange(v, i);
    AlignFacts(v);
    if i == NumAlign(v) - 1 {
      assert AlignStep(v) * 0 == 0;
    }
  }

  lemma CentresApart(v: Version, i: nat, a: nat)
    requires v >= 2 && i < NumAlign(v) && a < NumAlign(v)
    ensures i == a || Abs(AlignPos(v, i) - AlignPos(v, a)) >= 12
  {
    if i < a {
      AlignGap(v, i, a);
    } else if a < i {
      AlignGap(v, a, i);
    }
  }

  method DrawAlignmentWhite(v: Version, qrcode: array<bv8>)
    requires IsGrid(qrcode[..], v)
    requires forall x, y | InGrid(v, x, y) && IsFunction(v, x, y) && !IsTimingWhite(v, x, y) &&
             !IsFinderWhite(v, x, y) ::
               At(qrcode[..], v, x, y)
    modifies qrcode
    ensures IsGrid(qrcode[..], v)
    ensures forall x, y | InGrid(v, x, y) ::
              At(qrcode[..], v, x, y) == (At(old(qrcode[..]), v, x, y) && !IsAlignmentWhite(v, x, y))
  {
    hide At, BufferLen, AlignPos, IsAlignmentWhite, RingsBefore, IsFunction, IsTimingWhite, IsFinderWhite, AlignRing;
    ghost var before := qrcode[..];
    var alignPatPos := new UInt8[7];
    var numAlign := GetAlignmentPatternPositions(v, alignPatPos);
    forall x, y
      ensures !RingsBefore(v, 0, 0, x, y)
      ensures RingsBefore(v, numAlign, 0, x, y) <==> IsAlignmentWhite(v, x, y)
    {
      RingsStep(v, 0, 0, x, y);
    }
    for i := 0 to numAlign
      invariant IsGrid(qrcode[..], v)
      invariant forall k | 0 <= k < numAlign :: v >= 2 && alignPatPos[k] as int == AlignPos(v, k)
      invariant forall x, y | InGrid(v, x, y) ::
                  At(qrcode[..], v, x, y) == (At(before, v, x, y) && !RingsBefore(v, i, 0, x, y))
    {
      for j := 0 to numAlign
        invariant IsGrid(qrcode[..], v)
        invariant forall k | 0 <= k < numAlign :: v >= 2 && alignPatPos[k] as int == AlignPos(v, k)
        invariant forall x, y | InGrid(v, x, y) ::
                    At(qrcode[..], v, x, y) == (At(before, v, x, y) && !RingsBefore(v, i, j, x, y))
      {
        forall x, y
          ensures RingsBefore(v, i, j + 1, x, y) <==> RingsBefore(v, i, j, x, y) || AlignRing(v, i, j, x, y)
        {
          RingsStep(v, i, j, x, y);
        }
        if (i == 0 && j == 0) || (i == 0 && j == numAlign - 1) || (i == numAlign - 1 && j == 0) {
          CornerHasNoRing(v, i, j);
          continue;
        }
        CentreUntouched(v, i, j);
        DrawOneAlignment(v, i, j, alignPatPos[i] as int, alignPatPos[j] as int, qrcode);
      }
      forall x, y
        ensures RingsBefore(v, i, numAlign, x, y) <==> RingsBefore(v, i + 1, 0, x, y)
      {
        RingsStep(v, i, 0, x, y);
      }
    }
  }

  lemma CornerHasNoRing(v: Version, i: nat, j: nat)
    requires IsCorner(NumAlign(v), i, j)
    ensures forall x, y :: !AlignRing(v, i, j, x, y)
  {
    hide AlignPos, Dist;
  }

  lemma CentreUntouched(v: Version, i: nat, j: nat)
    requires v >= 2 && i < NumAlign(v) && j < NumAlign(v) && !IsCorner(NumAlign(v), i, j)
    ensures var x, y := AlignPos(v, i), AlignPos(v, j);
            InGrid(v, x, y) && IsFunction(v, x, y) && !IsTimingWhite(v, x, y) && !IsFinderWhite(v, x, y) &&
            !RingsBefore(v, i, j, x, y)
  {
    hide AlignPos, AlignRing, IsFunction, IsTimingWhite, IsFinderWhite;
    CentreStaysBlack(v, i, j, 0, 0);
    forall a: nat, b: nat
      ensures !AlignRing(v, a, b, AlignPos(v, i), AlignPos(v, j))
    {
      CentreStaysBlack(v, i, j, a, b);
    }
  }

  ghost predicate VersionWhiteBefore(v: Version, x: int, y: int, t: int) {
    && v >= 7
    && ((InRect(x, y, Size(v) - 11, 0, 3, 6) &&
         3 * y + (x - (Size(v) - 11)) < t && !VersionBit(v, 3 * y + (x - (Size(v) - 11))))
        || (InRect(x, y, 0, Size(v) - 11, 6, 3) &&
            3 * x + (y - (Size(v) - 11)) < t && !VersionBit(v, 3 * x + (y - (Size(v) - 11)))))
  }

  lemma VersionWhiteStep(v: Version, i: int, j: int, x: int, y: int)
    requires v >= 7 && 0 <= i < 6 && 0 <= j < 3
    ensures VersionWhiteBefore(v, x, y, 3 * i + j + 1) <==>
            VersionWhiteBefore(v, x, y, 3 * i + j) ||
            (!VersionBit(v, 3 * i + j) && ((x == Size(v) - 11 + j && y == i) || (x == i && y == Size(v) - 11 + j)))
    ensures (x == Size(v) - 11 + j && y == i) || (x == i && y == Size(v) - 11 + j) ==>
            IsVersionBlock(v, x, y) && !VersionWhiteBefore(v, x, y, 3 * i + j)
    ensures VersionWhiteBefore(v, x, y, 18) <==> IsVersionWhite(v, x, y)
    ensures !VersionWhiteBefore(v, x, y, 0)
  {
    hide VersionBit;
  }

  /** One bit in both copies of the version block. */
  method DrawVersionBit(ghost v: Version, i: int, k: int, c: bool, qrcode: array<bv8>)
    requires IsGrid(qrcode[..], v) && 0 <= i < 6 && 0 <= k < Size(v)
    requires At(qrcode[..], v, k, i) && At(qrcode[..], v, i, k)
    modifies qrcode
    ensures IsGrid(qrcode[..], v)
    ensures forall x, y | InGrid(v, x, y) ::
              At(qrcode[..], v, x, y) == (At(old(qrcode[..]), v, x, y) &&
                !(!c && ((x == k && y == i) || (x == i && y == k))))
  {
    hide At, BufferLen;
    SetModule(qrcode, v, k, i, c);
    SetModule(qrcode, v, i, k, c);
  }

  method CalcVersionWord(v: Version) returns (bits: bv32)
    ensures bits == VersionWord(v) && bits >> 18 == 0
  {
    var data: bv32 := v as bv32;
    var rem := data;
    for i := 0 to 12
      invariant rem == VersionRem(data, i)
    {
      hide VersionDivide;
      VersionRemNext(data, i);
      rem := VersionDivide(rem);
    }
    bits := (data << 12) | rem;
    SmallVersion(v);
    VersionWordFits(data);
  }

  method DrawVersionBlocks(v: Version, qrcode: array<bv8>)
    requires IsGrid(qrcode[..], v) && v >= 7
    requires forall x, y | InGrid(v, x, y) && IsVersionBlock(v, x, y) :: At(qrcode[..], v, x, y)
    modifies qrcode
    ensures IsGrid(qrcode[..], v)
    ensures forall x, y | InGrid(v, x, y) ::
              At(qrcode[..], v, x, y) == (At(old(qrcode[..]), v, x, y) && !IsVersionWhite(v, x, y))
  {
    hide At, BufferLen, VersionWord, VersionRem, VersionShifted, LowBit, Halve, VersionWhiteBefore, IsVersionBlock,
         IsVersionWhite;
    ghost var before := qrcode[..];
    var qrsize := GetSize(qrcode, v);
    var bits := CalcVersionWord(v);
    VersionShiftedStart(v);
    forall x, y
      ensures !VersionWhiteBefore(v, x, y, 0)
      ensures VersionWhiteBefore(v, x, y, 18) <==> IsVersionWhite(v, x, y)
    {
      VersionWhiteStep(v, 0, 0, x, y);
    }
    for i := 0 to 6
      invariant IsGrid(qrcode[..], v)
      invariant bits == VersionShifted(v, 3 * i)
      invariant forall x, y | InGrid(v, x, y) ::
                  At(qrcode[..], v, x, y) == (At(before, v, x, y) && !VersionWhiteBefore(v, x, y, 3 * i))
    {
      for j := 0 to 3
        invariant IsGrid(qrcode[..], v)
        invariant bits == VersionShifted(v, 3 * i + j)
        invariant forall x, y | InGrid(v, x, y) ::
                    At(qrcode[..], v, x, y) == (At(before, v, x, y) && !VersionWhiteBefore(v, x, y, 3 * i + j))
      {
        var k := qrsize - 11 + j;
        forall x, y | InGrid(v, x, y)
          ensures VersionWhiteBefore(v, x, y, 3 * i + j + 1) <==>
                  VersionWhiteBefore(v, x, y, 3 * i + j) ||
                  (!VersionBit(v, 3 * i + j) && ((x == k && y == i) || (x == i && y == k)))
        {
          VersionWhiteStep(v, i, j, x, y);
        }
        VersionWhiteStep(v, i, j, k, i);
        VersionWhiteStep(v, i, j, i, k);
        DrawVersionBit(v, i, k, LowBit(bits), qrcode);
        VersionShiftedNext(v, 3 * i + j);
        bits := Halve(bits);
      }
    }
  }

  lemma VersionRemNext(data: bv32, i: nat)
    ensures VersionRem(data, i + 1) == VersionDivide(VersionRem(data, i))
  {
    hide VersionDivide;
  }

  lemma VersionShiftedStart(v: Version)
    ensures VersionShifted(v, 0) == VersionWord(v)
  {
    hide VersionWord;
  }

  lemma VersionShiftedNext(v: Version, t: nat)
    ensures VersionShifted(v, t + 1) == Halve(VersionShifted(v, t))
  {
    hide VersionWord;
  }

  /** The version word has 18 bits: 6 of data, 12 of check. */
  lemma VersionWordFits(data: bv32)
    requires data < 64
    ensures ((data << 12) | VersionRem(data, 12)) >> 18 == 0
  {
    hide VersionRem;
    VersionRemBound(data, 12);
    SixBits(data, VersionRem(data, 12));
  }

  lemma SmallVersion(n: nat)
    requires n < 64
    ensures (n as bv32) < 64
  {
  }

  lemma SixBits(a: bv32, rem: bv32)
    requires rem < 0x1000
    ensures a < 64 ==> ((a << 12) | rem) >> 18 == 0
  {
  }

  lemma VersionBlocksUntouched(v: Version, x: int, y: int)
    requires InGrid(v, x, y) && IsVersionBlock(v, x, y)
    ensures !IsTimingWhite(v, x, y) && !IsFinderWhite(v, x, y) && !IsAlignmentWhite(v, x, y)
  {
    if IsAlignmentWhite(v, x, y) {
      var i: nat, j: nat :| AlignRing(v, i, j, x, y);
      LastCentre(v, i);
      LastCentre(v, j);
      hide AlignPos;
    }
  }

  /** Whitens every white function module, given that all function modules are black; touches nothing else. */
  method DrawWhiteFunctionModules(qrcode: array<bv8>, v: Version)
    requires IsGrid(qrcode[..], v)
    requires forall x, y | InGrid(v, x, y) && IsFunction(v, x, y) :: At(qrcode[..], v, x, y)
    modifies qrcode
    ensures IsGrid(qrcode[..], v)
    ensures forall x, y | InGrid(v, x, y) ::
              At(qrcode[..], v, x, y) == (At(old(qrcode[..]), v, x, y) && !IsWhite(v, x, y))
  {
    hide At, BufferLen, IsTimingWhite, IsFinderWhite, IsAlignmentWhite, IsTiming, IsFinder, IsAlignment, IsVersionBlock;
    DrawTimingWhite(v, qrcode);
    DrawFinderWhite(v, qrcode);
    DrawAlignmentWhite(v, qrcode);
    forall x, y | InGrid(v, x, y) && IsVersionBlock(v, x, y)
      ensures At(qrcode[..], v, x, y)
    {
      VersionBlocksUntouched(v, x, y);
    }
    if v >= 7 {
      DrawVersionBlocks(v, qrcode);
    }
  }

  // ---------- format bits ----------

  /** The bit of the format word shown at (x, y), or 15 for the module that is always dark. */
  function FormatIndex(v: Version, x: int, y: int): int {
    if x == 8 && 0 <= y <= 5 then y
    else if x == 8 && y == 7 then 6
    else if x == 8 && y == 8 then 7
    else if x == 7 && y == 8 then 8
    else if y == 8 && 0 <= x <= 5 then 14 - x
    else if y == 8 && Size(v) - 8 <= x < Size(v) then Size(v) - 1 - x
    else if x == 8 && Size(v) - 7 <= y < Size(v) then y - Size(v) + 15
    else if x == 8 && y == Size(v) - 8 then 15
    else -1
  }

  predicate IsFormat(v: Version, x: int, y: int) {
    FormatIndex(v, x, y) >= 0
  }

  ghost predicate FormatColor(v: Version, word: bv32, x: int, y: int)
    requires IsFormat(v, x, y)
  {
    FormatIndex(v, x, y) == 15 || GetBit(word, FormatIndex(v, x, y))
  }

  lemma FormatIsFunction(v: Version, x: int, y: int)
    requires IsFormat(v, x, y)
    ensures InGrid(v, x, y) && IsFunction(v, x, y)
  {
  }

  /** q' is q with some format modules, those for which `done` holds, showing the word. */
  ghost predicate FormatShown(q: seq<bv8>, q': seq<bv8>, v: Version, word: bv32, first: int, second: int) {
    && IsGrid(q, v) && IsGrid(q', v)
    && forall x, y | InGrid(v, x, y) ::
         At(q', v, x, y) ==
         if IsFormat(v, x, y) && FormatIndex(v, x, y) < (if IsFirstCopy(x, y) then first else second)
            then FormatColor(v, word, x, y)
         else At(q, v, x, y)
  }

  predicate IsFirstCopy(x: int, y: int) {
    x <= 8 && y <= 8
  }

  lemma FormatStep(q: seq<bv8>, q': seq<bv8>, q'': seq<bv8>, v: Version, word: bv32, first: int, second: int, x: int,
                   y: int, c: bool)
    requires FormatShown(q, q', v, word, first, second)
    requires InGrid(v, x, y) && IsFormat(v, x, y) && OneModuleSet(q', q'', v, x, y, c) &&
             c == FormatColor(v, word, x, y)
    requires FormatIndex(v, x, y) == if IsFirstCopy(x, y) then first else second
    ensures if IsFirstCopy(x, y) then FormatShown(q, q'', v, word, first + 1, second)
            else FormatShown(q, q'', v, word, first, second + 1)
  {
    hide At, BufferLen, GetBit;
  }

  method DrawFormatBits(ghost v: Version, ecl: Ecc, mask: MaskId, qrcode: array<bv8>)
    requires IsGrid(qrcode[..], v)
    modifies qrcode
    ensures IsGrid(qrcode[..], v)
    ensures forall x, y | InGrid(v, x, y) ::
              At(qrcode[..], v, x, y) ==
              if IsFormat(v, x, y) then FormatColor(v, FormatWord(ecl, mask), x, y) else At(old(qrcode[..]), v, x, y)
  {
    hide At, BufferLen, GetBit, FormatWord, FormatShown;
    var bits := CalcFormatWord(ecl, mask);
    ghost var q := qrcode[..];
    assert IsGrid(qrcode[..], v);
    DrawFirstFormatCopy(v, bits, qrcode);
    ghost var q' := qrcode[..];
    assert FormatShown(q, q', v, bits, 15, 0);
    FormatGrids(q, q', v, bits, 15, 0);
    DrawSecondFormatCopy(v, bits, qrcode);
    BothCopies(q, q', qrcode[..], v, bits);
  }

  lemma FormatGrids(q: seq<bv8>, q': seq<bv8>, v: Version, word: bv32, first: int, second: int)
    requires FormatShown(q, q', v, word, first, second)
    ensures IsGrid(q', v)
  {
  }

  lemma BothCopies(q: seq<bv8>, q': seq<bv8>, q'': seq<bv8>, v: Version, word: bv32)
    requires FormatShown(q, q', v, word, 15, 0) && FormatShown(q', q'', v, word, 0, 16)
    ensures IsGrid(q'', v)
    ensures forall x, y | InGrid(v, x, y) ::
              At(q'', v, x, y) == if IsFormat(v, x, y) then FormatColor(v, word, x, y) else At(q, v, x, y)
  {
    hide At, BufferLen, GetBit;
    forall x, y | InGrid(v, x, y)
      ensures At(q'', v, x, y) == if IsFormat(v, x, y) then FormatColor(v, word, x, y) else At(q, v, x, y)
    {
      if IsFormat(v, x, y) && IsFirstCopy(x, y) {
        assert FormatIndex(v, x, y) < 15;
        assert At(q'', v, x, y) == At(q', v, x, y);
      }
    }
  }

  method CalcFormatWord(ecl: Ecc, mask: MaskId) returns (bits: bv32)
    ensures bits == FormatWord(ecl, mask) && bits >> 15 == 0
  {
    hide FormatDivide;
    var data := (LevelCode(ecl) << 3) | MaskCode(mask);
    var rem := data;
    for i := 0 to 10
      invariant rem == FormatRem(data, i)
    {
      FormatRemNext(data, i);
      rem := FormatDivide(rem);
    }
    bits := ((data << 10) | rem) ^ 0x5412;
    FormatWordData(ecl, mask);
    assert bits >> 15 == 0 by { NoHighBits(bits); }
  }

  lemma NoHighBits(x: bv32)
    ensures x < 0x8000 ==> x >> 15 == 0
  {
  }

  lemma FormatRemNext(data: bv32, i: nat)
    ensures FormatRem(data, i + 1) == FormatDivide(FormatRem(data, i))
  {
    hide FormatDivide;
  }

  method DrawFirstFormatCopy(ghost v: Version, bits: bv32, qrcode: array<bv8>)
    requires IsGrid(qrcode[..], v)
    modifies qrcode
    ensures FormatShown(old(qrcode[..]), qrcode[..], v, bits, 15, 0)
  {
    hide At, BufferLen, GetBit;
    ghost var q := qrcode[..];
    for i := 0 to 6
      invariant FormatShown(q, qrcode[..], v, bits, i, 0)
    {
      DrawFormatModule(v, 8, i, bits, i, q, i, 0, qrcode);
    }
    DrawFormatModule(v, 8, 7, bits, 6, q, 6, 0, qrcode);
    DrawFormatModule(v, 8, 8, bits, 7, q, 7, 0, qrcode);
    DrawFormatModule(v, 7, 8, bits, 8, q, 8, 0, qrcode);
    for i := 9 to 15
      invariant FormatShown(q, qrcode[..], v, bits, i, 0)
    {
      DrawFormatModule(v, 14 - i, 8, bits, i, q, i, 0, qrcode);
    }
  }

  method DrawSecondFormatCopy(ghost v: Version, bits: bv32, qrcode: array<bv8>)
    requires IsGrid(qrcode[..], v)
    modifies qrcode
    ensures FormatShown(old(qrcode[..]), qrcode[..], v, bits, 0, 16)
  {
    hide At, BufferLen, GetBit;
    ghost var q := qrcode[..];
    var qrsize := GetSize(qrcode, v);
    for i := 0 to 8
      invariant FormatShown(q, qrcode[..], v, bits, 0, i)
    {
      DrawFormatModule(v, qrsize - 1 - i, 8, bits, i, q, 0, i, qrcode);
    }
    for i := 8 to 15
      invariant FormatShown(q, qrcode[..], v, bits, 0, i)
    {
      DrawFormatModule(v, 8, qrsize - 15 + i, bits, i, q, 0, i, qrcode);
    }
    ghost var q' := qrcode[..];
    SetModule(qrcode, v, 8, qrsize - 8, true);
    FormatStep(q, q', qrcode[..], v, bits, 0, 15, 8, qrsize - 8, true);
  }

  /** One setModule call of drawFormatBits. */
  method DrawFormatModule(ghost v: Version, x: int, y: int, bits: bv32, i: nat, ghost q: seq<bv8>, ghost first: int,
                          ghost second: int, qrcode: array<bv8>)
    requires FormatShown(q, qrcode[..], v, bits, first, second)
    requires InGrid(v, x, y) && i < 15 && FormatIndex(v, x, y) == i
    requires i == if IsFirstCopy(x, y) then first else second
    modifies qrcode
    ensures if IsFirstCopy(x, y) then FormatShown(q, qrcode[..], v, bits, first + 1, second)
            else FormatShown(q, qrcode[..], v, bits, first, second + 1)
  {
    hide At, BufferLen, GetBit;
    ghost var q' := qrcode[..];
    SetModule(qrcode, v, x, y, GetBit(bits, i));
    FormatStep(q, q', qrcode[..], v, bits, first, second, x, y, GetBit(bits, i));
  }
}
