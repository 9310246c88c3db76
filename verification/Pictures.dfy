/** What a symbol looks like outside its data: its patterns as pictures, its alignment centres as a list, and where its
    format and version words are shown. */
module Pictures {
  import opened Bytes
  import opened VersionInfo
  import opened Grid
  import opened FunctionModules
  import opened FunctionPatterns
  import opened CheckWords
  import opened Symbols

  // ---------- the alignment centres ----------

  /** The coordinates of the centres, for every version that has any. */
  function AlignTable(v: Version): seq<int>
    requires v >= 2
  {
    match v
    case 2 => [6, 18] case 3 => [6, 22] case 4 => [6, 26] case 5 => [6, 30] case 6 => [6, 34] case 7 => [6, 22, 38]
    case 8 => [6, 24, 42] case 9 => [6, 26, 46] case 10 => [6, 28, 50] case 11 => [6, 30, 54] case 12 => [6, 32, 58]
    case 13 => [6, 34, 62] case 14 => [6, 26, 46, 66] case 15 => [6, 26, 48, 70] case 16 => [6, 26, 50, 74]
    case 17 => [6, 30, 54, 78] case 18 => [6, 30, 56, 82] case 19 => [6, 30, 58, 86] case 20 => [6, 34, 62, 90]
    case 21 => [6, 28, 50, 72, 94] case 22 => [6, 26, 50, 74, 98] case 23 => [6, 30, 54, 78, 102]
    case 24 => [6, 28, 54, 80, 106] case 25 => [6, 32, 58, 84, 110] case 26 => [6, 30, 58, 86, 114]
    case 27 => [6, 34, 62, 90, 118] case 28 => [6, 26, 50, 74, 98, 122] case 29 => [6, 30, 54, 78, 102, 126]
    case 30 => [6, 26, 52, 78, 104, 130] case 31 => [6, 30, 56, 82, 108, 134] case 32 => [6, 34, 60, 86, 112, 138]
    case 33 => [6, 30, 58, 86, 114, 142] case 34 => [6, 34, 62, 90, 118, 146]
    case 35 => [6, 30, 54, 78, 102, 126, 150] case 36 => [6, 24, 50, 76, 102, 128, 154]
    case 37 => [6, 28, 54, 80, 106, 132, 158] case 38 => [6, 32, 58, 84, 110, 136, 162]
    case 39 => [6, 26, 54, 82, 110, 138, 166] case _ => [6, 30, 58, 86, 114, 142, 170]
  }

  /** The distance of neighbouring centres. */
  function StepTable(v: Version): int
    requires v >= 2
  {
    match v
    case 2 => 12 case 3 => 16 case 4 => 20 case 5 => 24 case 6 => 28 case 7 => 16 case 8 => 18 case 9 => 20
    case 10 => 22 case 11 => 24 case 12 => 26 case 13 => 28 case 14 => 20 case 15 => 22 case 16 => 24 case 17 => 24
    case 18 => 26 case 19 => 28 case 20 => 28 case 21 => 22 case 22 => 24 case 23 => 24 case 24 => 26 case 25 => 26
    case 26 => 28 case 27 => 28 case 28 => 24 case 29 => 24 case 30 => 26 case 31 => 26 case 32 => 26 case 33 => 28
    case 34 => 28 case 35 => 24 case 36 => 26 case 37 => 26 case 38 => 26 case 39 => 28 case _ => 28
  }

  lemma Steps2(v: Version)
    requires 2 <= v <= 6
    ensures NumAlign(v) == 2 && AlignStep(v) == StepTable(v)
  {
  }

  lemma AlignRows2(v: Version, i: nat)
    requires 2 <= v <= 6 && i < 2
    ensures NumAlign(v) == 2 == |AlignTable(v)| && AlignPos(v, i) == AlignTable(v)[i]
  {
    Steps2(v);
    hide AlignStep;
    match v
    case 2 => case 3 => case 4 => case 5 => case 6 =>
  }

  lemma Steps3(v: Version)
    requires 7 <= v <= 13
    ensures NumAlign(v) == 3 && AlignStep(v) == StepTable(v)
  {
  }

  lemma AlignRows3(v: Version, i: nat)
    requires 7 <= v <= 13 && i < 3
    ensures NumAlign(v) == 3 == |AlignTable(v)| && AlignPos(v, i) == AlignTable(v)[i]
  {
    Steps3(v);
    hide AlignStep;
    match v
    case 7 => case 8 => case 9 => case 10 => case 11 => case 12 => case 13 =>
  }

  lemma Steps4(v: Version)
    requires 14 <= v <= 20
    ensures NumAlign(v) == 4 && AlignStep(v) == StepTable(v)
  {
  }

  lemma AlignRows4(v: Version, i: nat)
    requires 14 <= v <= 20 && i < 4
    ensures NumAlign(v) == 4 == |AlignTable(v)| && AlignPos(v, i) == AlignTable(v)[i]
  {
    Steps4(v);
    hide AlignStep;
    match v
    case 14 => case 15 => case 16 => case 17 => case 18 => case 19 => case 20 =>
  }

  lemma Steps5(v: Version)
    requires 21 <= v <= 27
    ensures NumAlign(v) == 5 && AlignStep(v) == StepTable(v)
  {
  }

  lemma AlignRows5(v: Version, i: nat)
    requires 21 <= v <= 27 && i < 5
    ensures NumAlign(v) == 5 == |AlignTable(v)| && AlignPos(v, i) == AlignTable(v)[i]
  {
    Steps5(v);
    hide AlignStep;
    match v
    case 21 => case 22 => case 23 => case 24 => case 25 => case 26 => case 27 =>
  }

  lemma Steps6(v: Version)
    requires 28 <= v <= 34
    ensures NumAlign(v) == 6 && AlignStep(v) == StepTable(v)
  {
  }

  lemma AlignRows6(v: Version, i: nat)
    requires 28 <= v <= 34 && i < 6
    ensures NumAlign(v) == 6 == |AlignTable(v)| && AlignPos(v, i) == AlignTable(v)[i]
  {
    Steps6(v);
    hide AlignStep;
    match v
    case 28 => case 29 => case 30 => case 31 => case 32 => case 33 => case 34 =>
  }

  lemma Steps7(v: Version)
    requires 35 <= v <= 40
    ensures NumAlign(v) == 7 && AlignStep(v) == StepTable(v)
  {
  }

  lemma AlignRows7(v: Version, i: nat)
    requires 35 <= v <= 40 && i < 7
    ensures NumAlign(v) == 7 == |AlignTable(v)| && AlignPos(v, i) == AlignTable(v)[i]
  {
    Steps7(v);
    hide AlignStep;
    match v
    case 35 => case 36 => case 37 => case 38 => case 39 => case 40 =>
  }

  /** The centres that the code computes are the listed ones. */
  lemma AlignListed(v: Version)
    requires v >= 2
    ensures NumAlign(v) == |AlignTable(v)| >= 2
    ensures forall i: nat | i < NumAlign(v) :: AlignPos(v, i) == AlignTable(v)[i]
  {
    hide AlignTable, AlignPos;
    AlignListedAt(v, 0);
    forall i: nat | i < NumAlign(v)
      ensures AlignPos(v, i) == AlignTable(v)[i]
    {
      AlignListedAt(v, i);
    }
  }

  lemma AlignListedAt(v: Version, i: nat)
    requires v >= 2 && i < v / 7 + 2
    ensures NumAlign(v) == v / 7 + 2 == |AlignTable(v)| && AlignPos(v, i) == AlignTable(v)[i]
  {
    hide AlignTable, AlignPos;
    if v <= 6 {
      AlignRows2(v, i);
    } else if v <= 13 {
      AlignRows3(v, i);
    } else if v <= 20 {
      AlignRows4(v, i);
    } else if v <= 27 {
      AlignRows5(v, i);
    } else if v <= 34 {
      AlignRows6(v, i);
    } else {
      AlignRows7(v, i);
    }
  }

  // ---------- finder, alignment and timing patterns ----------

  /** A finder pattern with its separator, as far as that lies in the symbol. */
  const FINDER: seq<string> := [
    ".........",
    ".#######.",
    ".#.....#.",
    ".#.###.#.",
    ".#.###.#.",
    ".#.###.#.",
    ".#.....#.",
    ".#######.",
    "........."]

  const ALIGNMENT: seq<string> := [
    "#####",
    "#...#",
    "#.#.#",
    "#...#",
    "#####"]

  /** Rings around the centre: light at distance 2 and 4. */
  lemma FinderRings(dx: int, dy: int)
    requires -4 <= dx <= 4 && -4 <= dy <= 4
    ensures |FINDER| == 9 && |FINDER[dy + 4]| == 9
    ensures FINDER[dy + 4][dx + 4] == '.' <==> Max(Abs(dx), Abs(dy)) == 2 || Max(Abs(dx), Abs(dy)) == 4
  {
    assert dy == -4 || dy == -3 || dy == -2 || dy == -1 || dy == 0 || dy == 1 || dy == 2 || dy == 3 || dy == 4;
  }

  lemma AlignmentRing(dx: int, dy: int)
    requires -2 <= dx <= 2 && -2 <= dy <= 2
    ensures |ALIGNMENT| == 5 && |ALIGNMENT[dy + 2]| == 5
    ensures ALIGNMENT[dy + 2][dx + 2] == '.' <==> Max(Abs(dx), Abs(dy)) == 1
  {
    assert dy == -2 || dy == -1 || dy == 0 || dy == 1 || dy == 2;
  }

  ghost predicate IsFinderCentre(v: Version, cx: int, cy: int) {
    (cx == 3 && cy == 3) || (cx == 4 * v + 13 && cy == 3) || (cx == 3 && cy == 4 * v + 13)
  }

  /** Alignment patterns sit at all pairs of centres but the three in the corners of the finder patterns. */
  ghost predicate IsAlignmentCentre(v: Version, cx: int, cy: int) {
    && v >= 2 && cx in AlignTable(v) && cy in AlignTable(v)
    && !(cx == 6 && cy == 6) && !(cx == 6 && cy == 4 * v + 10) && !(cx == 4 * v + 10 && cy == 6)
  }

  /** The finder patterns and their separators look like the picture in every symbol. */
  lemma FinderDrawn(v: Version, e: Ecc, m: MaskId, codewords: seq<bv8>, cx: int, cy: int, dx: int, dy: int)
    requires IsFinderCentre(v, cx, cy) && -4 <= dx <= 4 && -4 <= dy <= 4 && InGrid(v, cx + dx, cy + dy)
    ensures |FINDER| == 9 && |FINDER[dy + 4]| == 9
    ensures SymbolModule(v, e, m, codewords, cx + dx, cy + dy) == (FINDER[dy + 4][dx + 4] != '.')
  {
    hide FINDER, FormatWord, DataModule, IsAlignmentWhite, IsVersionWhite;
    FinderRings(dx, dy);
    NearFinder(v, cx + dx, cy + dy, cx, cy);
  }

  /** Around a finder pattern there is nothing else. */
  lemma NearFinder(v: Version, x: int, y: int, cx: int, cy: int)
    requires IsFinderCentre(v, cx, cy) && InGrid(v, x, y) && Dist(x, y, cx, cy) <= 4
    ensures !IsFormat(v, x, y) && IsFinder(v, x, y) && !IsAlignmentWhite(v, x, y) && !IsVersionWhite(v, x, y)
    ensures IsFinderWhite(v, x, y) <==> Dist(x, y, cx, cy) == 2 || Dist(x, y, cx, cy) == 4
    ensures IsTimingWhite(v, x, y) ==> Dist(x, y, cx, cy) == 4
  {
    hide VersionBit, IsAlignmentWhite;
    NoRingNearFinder(v, x, y, cx, cy);
  }

  lemma NoRingNearFinder(v: Version, x: int, y: int, cx: int, cy: int)
    requires IsFinderCentre(v, cx, cy) && Dist(x, y, cx, cy) <= 4
    ensures !IsAlignmentWhite(v, x, y)
  {
    hide AlignPos, AlignStep, IsCorner;
    if IsAlignmentWhite(v, x, y) {
      var i: nat, j: nat :| AlignRing(v, i, j, x, y);
      LastCentre(v, i);
      LastCentre(v, j);
      CornersAre(v, i, j);
    }
  }

  lemma CornersAre(v: Version, i: nat, j: nat)
    requires v >= 2 && i < NumAlign(v) && j < NumAlign(v) && !IsCorner(NumAlign(v), i, j)
    ensures !(AlignPos(v, i) == 6 && AlignPos(v, j) == 6) && !(AlignPos(v, i) == 6 && AlignPos(v, j) == 4 * v + 10)
    ensures !(AlignPos(v, i) == 4 * v + 10 && AlignPos(v, j) == 6)
  {
    hide AlignPos, AlignStep;
    LastCentre(v, i);
    LastCentre(v, j);
  }

  /** The alignment patterns look like the picture in every symbol. */
  lemma AlignmentDrawn(v: Version, e: Ecc, m: MaskId, codewords: seq<bv8>, cx: int, cy: int, dx: int, dy: int)
    requires IsAlignmentCentre(v, cx, cy) && -2 <= dx <= 2 && -2 <= dy <= 2
    ensures InGrid(v, cx + dx, cy + dy) && |ALIGNMENT| == 5 && |ALIGNMENT[dy + 2]| == 5
    ensures SymbolModule(v, e, m, codewords, cx + dx, cy + dy) == (ALIGNMENT[dy + 2][dx + 2] != '.')
  {
    hide ALIGNMENT, FormatWord, DataModule, AlignTable, AlignPos, IsFunction, IsTimingWhite, IsFinderWhite,
         IsAlignmentWhite, IsVersionWhite, IsFormat;
    AlignmentRing(dx, dy);
    AlignListed(v);
    var i: nat :| i < |AlignTable(v)| && AlignTable(v)[i] == cx;
    var j: nat :| j < |AlignTable(v)| && AlignTable(v)[j] == cy;
    NearCentre(v, i, j, cx + dx, cy + dy);
  }

  ghost predicate NearPattern(v: Version, i: nat, j: nat, x: int, y: int) {
    && v >= 2 && i < NumAlign(v) && j < NumAlign(v) && !IsCorner(NumAlign(v), i, j)
    && Dist(x, y, AlignPos(v, i), AlignPos(v, j)) <= 2
  }

  lemma NearCentre(v: Version, i: nat, j: nat, x: int, y: int)
    requires v >= 2 && i < NumAlign(v) && j < NumAlign(v)
    requires !(AlignPos(v, i) == 6 && AlignPos(v, j) == 6) && !(AlignPos(v, i) == 6 && AlignPos(v, j) == 4 * v + 10)
    requires !(AlignPos(v, i) == 4 * v + 10 && AlignPos(v, j) == 6)
    requires Dist(x, y, AlignPos(v, i), AlignPos(v, j)) <= 2
    ensures InGrid(v, x, y) && !IsFormat(v, x, y) && IsFunction(v, x, y)
    ensures !IsFinderWhite(v, x, y) && !IsVersionWhite(v, x, y)
    ensures IsTimingWhite(v, x, y) ==> Dist(x, y, AlignPos(v, i), AlignPos(v, j)) == 1
    ensures IsAlignmentWhite(v, x, y) <==> Dist(x, y, AlignPos(v, i), AlignPos(v, j)) == 1
  {
    CornersByPlace(v, i, j);
    assert NearPattern(v, i, j, x, y);
    hide *;
    OnlyThisRing(v, i, j, x, y);
    AwayFromOthers(v, i, j, x, y);
  }

  lemma OnlyThisRing(v: Version, i: nat, j: nat, x: int, y: int)
    requires NearPattern(v, i, j, x, y)
    ensures IsFunction(v, x, y)
    ensures IsAlignmentWhite(v, x, y) <==> Dist(x, y, AlignPos(v, i), AlignPos(v, j)) == 1
  {
    hide AlignPos, AlignStep, IsCorner;
    assert NearAlign(v, i, j, x, y, 2);
    if Dist(x, y, AlignPos(v, i), AlignPos(v, j)) == 1 {
      assert AlignRing(v, i, j, x, y);
    }
    if IsAlignmentWhite(v, x, y) {
      var a: nat, b: nat :| AlignRing(v, a, b, x, y);
      CentresApart(v, i, a);
      CentresApart(v, j, b);
    }
  }

  lemma AwayFromOthers(v: Version, i: nat, j: nat, x: int, y: int)
    requires NearPattern(v, i, j, x, y)
    ensures InGrid(v, x, y) && !IsFormat(v, x, y) && !IsFinderWhite(v, x, y) && !IsVersionWhite(v, x, y)
    ensures IsTimingWhite(v, x, y) ==> Dist(x, y, AlignPos(v, i), AlignPos(v, j)) == 1
  {
    hide AlignPos, AlignStep, VersionBit, IsCorner;
    CornersAre(v, i, j);
    LastCentre(v, i);
    LastCentre(v, j);
    AlignRange(v, i);
    AlignRange(v, j);
  }

  lemma CornersByPlace(v: Version, i: nat, j: nat)
    requires v >= 2 && i < NumAlign(v) && j < NumAlign(v)
    requires !(AlignPos(v, i) == 6 && AlignPos(v, j) == 6) && !(AlignPos(v, i) == 6 && AlignPos(v, j) == 4 * v + 10)
    requires !(AlignPos(v, i) == 4 * v + 10 && AlignPos(v, j) == 6)
    ensures !IsCorner(NumAlign(v), i, j)
  {
    hide AlignPos;
    FirstAndLast(v);
  }

  lemma FirstAndLast(v: Version)
    requires v >= 2
    ensures NumAlign(v) >= 2 && AlignPos(v, 0) == 6 && AlignPos(v, NumAlign(v) - 1) == 4 * v + 10
  {
    hide AlignStep;
    assert AlignStep(v) * 0 == 0;
  }

  /** The timing patterns: between the finder patterns, row and column 6 alternate, black at even places. */
  lemma TimingDrawn(v: Version, e: Ecc, m: MaskId, codewords: seq<bv8>, k: int)
    requires 8 <= k < 4 * v + 9
    ensures SymbolModule(v, e, m, codewords, k, 6) == (k % 2 == 0)
    ensures SymbolModule(v, e, m, codewords, 6, k) == (k % 2 == 0)
  {
    hide FormatWord, DataModule, AlignPos, AlignStep, VersionBit, IsAlignmentWhite;
    RingsOnTiming(v, k, 6);
    RingsOnTiming(v, 6, k);
  }

  lemma RingsOnTiming(v: Version, x: int, y: int)
    requires x == 6 || y == 6
    ensures IsAlignmentWhite(v, x, y) ==> x % 2 == 1 || y % 2 == 1
  {
    hide AlignPos, AlignStep;
    if IsAlignmentWhite(v, x, y) {
      var i: nat, j: nat :| AlignRing(v, i, j, x, y);
      AlignRange(v, i);
      AlignRange(v, j);
      LastCentre(v, i);
      LastCentre(v, j);
    }
  }

  // ---------- which modules hold no data ----------

  /** The function modules are exactly these: finder patterns with separators, timing patterns, alignment patterns,
      version blocks, and the modules of the format information. */
  lemma FunctionRoles(v: Version, x: int, y: int)
    requires InGrid(v, x, y)
    ensures IsFunction(v, x, y) <==>
            (exists cx, cy :: IsFinderCentre(v, cx, cy) && Dist(x, y, cx, cy) <= 4) || x == 6 || y == 6 ||
            (exists cx, cy :: IsAlignmentCentre(v, cx, cy) && Dist(x, y, cx, cy) <= 2) ||
            (v >= 7 && ((4 * v + 6 <= x < 4 * v + 9 && y < 6) || (x < 6 && 4 * v + 6 <= y < 4 * v + 9))) ||
            IsFormat(v, x, y)
  {
    hide IsFinder, IsAlignment, IsAlignmentCentre, IsFinderCentre, Dist, IsFormat;
    FinderRoles(v, x, y);
    AlignmentRoles(v, x, y);
  }

  lemma FinderRoles(v: Version, x: int, y: int)
    requires InGrid(v, x, y)
    ensures IsFinder(v, x, y) || x == 6 || y == 6 <==>
            (exists cx, cy :: IsFinderCentre(v, cx, cy) && Dist(x, y, cx, cy) <= 4) || x == 6 || y == 6 ||
            IsFormat(v, x, y)
  {
    assert IsFinderCentre(v, 3, 3) && IsFinderCentre(v, 4 * v + 13, 3) && IsFinderCentre(v, 3, 4 * v + 13);
  }

  lemma AlignmentRoles(v: Version, x: int, y: int)
    ensures IsAlignment(v, x, y) <==> exists cx, cy :: IsAlignmentCentre(v, cx, cy) && Dist(x, y, cx, cy) <= 2
  {
    hide AlignPos, AlignStep, AlignTable, Dist, IsCorner;
    if v >= 2 {
      AlignListed(v);
      if i: nat, j: nat :| NearAlign(v, i, j, x, y, 2) {
        CornersAre(v, i, j);
        assert IsAlignmentCentre(v, AlignPos(v, i), AlignPos(v, j));
      }
      if cx, cy :| IsAlignmentCentre(v, cx, cy) && Dist(x, y, cx, cy) <= 2 {
        var i: nat :| i < |AlignTable(v)| && AlignTable(v)[i] == cx;
        var j: nat :| j < |AlignTable(v)| && AlignTable(v)[j] == cy;
        CornersByPlace(v, i, j);
        assert NearAlign(v, i, j, x, y, 2);
      }
    }
  }

  // ---------- format and version words in the symbol ----------

  /** The bit of weight 2^t. */
  function WordBit(x: bv32, t: nat): bool
    decreases t
  {
    if t == 0 then x & 1 != 0 else WordBit(x >> 1, t - 1)
  }

  lemma WordBitStep(x: bv32, t: nat)
    ensures WordBit(x, t) == if t == 0 then LowBit(x) else WordBit(Halve(x), t - 1)
  {
  }

  lemma {:induction false} VersionShiftedBit(v: Version, s: nat, t: nat)
    ensures WordBit(VersionShifted(v, s), t) == VersionBit(v, s + t)
    decreases t
  {
    hide VersionWord, WordBit, Halve, LowBit, VersionShifted;
    WordBitStep(VersionShifted(v, s), t);
    if t > 0 {
      VersionShiftedNext(v, s);
      VersionShiftedBit(v, s + 1, t - 1);
    }
  }

  /** Where bit i of the format word is shown around the top left finder pattern... */
  function FirstPlace(i: nat): (nat, nat)
    requires i < 15
  {
    if i < 6 then (8, i) else if i == 6 then (8, 7) else if i == 7 then (8, 8) else if i == 8 then (7, 8)
    else (14 - i, 8)
  }

  /** ...and where it is shown again, beside the other two. */
  function SecondPlace(v: Version, i: nat): (nat, nat)
    requires i < 15
  {
    if i < 8 then (4 * v + 16 - i, 8) else (8, 4 * v + 2 + i)
  }

  /** Every symbol shows its listed format word twice, and one module that is always black. */
  lemma FormatDrawn(v: Version, e: Ecc, m: MaskId, codewords: seq<bv8>, i: nat)
    requires i < 15
    ensures var x, y := FirstPlace(i).0, FirstPlace(i).1;
            SymbolModule(v, e, m, codewords, x, y) == GetBit(FormatList(e, m), i)
    ensures var x, y := SecondPlace(v, i).0, SecondPlace(v, i).1;
            SymbolModule(v, e, m, codewords, x, y) == GetBit(FormatList(e, m), i)
    ensures SymbolModule(v, e, m, codewords, 8, 4 * v + 9)
  {
    hide GetBit, FormatWord, FormatList, DataModule, IsFunction, IsWhite;
    FormatWordIs(e, m);
  }

  /** Every symbol of version 7 or more shows its listed version word twice, three bits to a row or column. */
  lemma VersionDrawn(v: Version, e: Ecc, m: MaskId, codewords: seq<bv8>, t: nat)
    requires v >= 7 && t < 18
    ensures SymbolModule(v, e, m, codewords, 4 * v + 6 + t % 3, t / 3) == WordBit(VersionList(v), t)
    ensures SymbolModule(v, e, m, codewords, t / 3, 4 * v + 6 + t % 3) == WordBit(VersionList(v), t)
  {
    hide WordBit, VersionWord, VersionList, VersionShifted, VersionBit, DataModule, FormatWord, IsTimingWhite,
         IsFinderWhite, IsAlignmentWhite;
    VersionWordIs(v);
    VersionShiftedStart(v);
    VersionShiftedBit(v, 0, t);
    VersionBlocksUntouched(v, 4 * v + 6 + t % 3, t / 3);
    VersionBlocksUntouched(v, t / 3, 4 * v + 6 + t % 3);
    assert t == 3 * (t / 3) + t % 3;
  }
}
