/** The parameters of the 40 symbol versions and 4 error correction levels. */
module VersionInfo {

  const VERSION_MIN := 1
  const VERSION_MAX := 40
  const INT16_MAX := 32767

  type Version = v: int | 1 <= v <= 40 witness 1

  /** Error correction levels in ascending order of protection. */
  type Ecc = e: int | 0 <= e <= 3

  const LOW: Ecc := 0
  const MEDIUM: Ecc := 1
  const QUARTILE: Ecc := 2
  const HIGH: Ecc := 3

  type MaskId = m: int | 0 <= m <= 7

  datatype Mode = Numeric | Alphanumeric | Byte | Kanji | Eci

  function LowEccCodewords(v: Version): int {
    match v
    case 1 => 7 case 2 => 10 case 3 => 15 case 4 => 20 case 5 => 26 case 6 => 18 case 7 => 20 case 8 => 24
    case 9 => 30 case 10 => 18 case 11 => 20 case 12 => 24 case 13 => 26 case 14 => 30 case 15 => 22 case 16 => 24
    case 17 => 28 case 18 => 30 case 19 => 28 case 20 => 28 case 21 => 28 case 22 => 28 case 23 => 30 case 24 => 30
    case 25 => 26 case 26 => 28 case 27 => 30 case 28 => 30 case 29 => 30 case 30 => 30 case 31 => 30 case 32 => 30
    case 33 => 30 case 34 => 30 case 35 => 30 case 36 => 30 case 37 => 30 case 38 => 30 case 39 => 30 case _ => 30
  }

  function MediumEccCodewords(v: Version): int {
    match v
    case 1 => 10 case 2 => 16 case 3 => 26 case 4 => 18 case 5 => 24 case 6 => 16 case 7 => 18 case 8 => 22
    case 9 => 22 case 10 => 26 case 11 => 30 case 12 => 22 case 13 => 22 case 14 => 24 case 15 => 24 case 16 => 28
    case 17 => 28 case 18 => 26 case 19 => 26 case 20 => 26 case 21 => 26 case 22 => 28 case 23 => 28 case 24 => 28
    case 25 => 28 case 26 => 28 case 27 => 28 case 28 => 28 case 29 => 28 case 30 => 28 case 31 => 28 case 32 => 28
    case 33 => 28 case 34 => 28 case 35 => 28 case 36 => 28 case 37 => 28 case 38 => 28 case 39 => 28 case _ => 28
  }

  function QuartileEccCodewords(v: Version): int {
    match v
    case 1 => 13 case 2 => 22 case 3 => 18 case 4 => 26 case 5 => 18 case 6 => 24 case 7 => 18 case 8 => 22
    case 9 => 20 case 10 => 24 case 11 => 28 case 12 => 26 case 13 => 24 case 14 => 20 case 15 => 30 case 16 => 24
    case 17 => 28 case 18 => 28 case 19 => 26 case 20 => 30 case 21 => 28 case 22 => 30 case 23 => 30 case 24 => 30
    case 25 => 30 case 26 => 28 case 27 => 30 case 28 => 30 case 29 => 30 case 30 => 30 case 31 => 30 case 32 => 30
    case 33 => 30 case 34 => 30 case 35 => 30 case 36 => 30 case 37 => 30 case 38 => 30 case 39 => 30 case _ => 30
  }

  function HighEccCodewords(v: Version): int {
    match v
    case 1 => 17 case 2 => 28 case 3 => 22 case 4 => 16 case 5 => 22 case 6 => 28 case 7 => 26 case 8 => 26
    case 9 => 24 case 10 => 28 case 11 => 24 case 12 => 28 case 13 => 22 case 14 => 24 case 15 => 24 case 16 => 30
    case 17 => 28 case 18 => 28 case 19 => 26 case 20 => 28 case 21 => 30 case 22 => 24 case 23 => 30 case 24 => 30
    case 25 => 30 case 26 => 30 case 27 => 30 case 28 => 30 case 29 => 30 case 30 => 30 case 31 => 30 case 32 => 30
    case 33 => 30 case 34 => 30 case 35 => 30 case 36 => 30 case 37 => 30 case 38 => 30 case 39 => 30 case _ => 30
  }

  function EccCodewordsPerBlock(e: Ecc, v: Version): int {
    if e == LOW then LowEccCodewords(v)
    else if e == MEDIUM then MediumEccCodewords(v)
    else if e == QUARTILE then QuartileEccCodewords(v)
    else HighEccCodewords(v)
  }

  function LowBlocks(v: Version): int {
    match v
    case 1 => 1 case 2 => 1 case 3 => 1 case 4 => 1 case 5 => 1 case 6 => 2 case 7 => 2 case 8 => 2
    case 9 => 2 case 10 => 4 case 11 => 4 case 12 => 4 case 13 => 4 case 14 => 4 case 15 => 6 case 16 => 6
    case 17 => 6 case 18 => 6 case 19 => 7 case 20 => 8 case 21 => 8 case 22 => 9 case 23 => 9 case 24 => 10
    case 25 => 12 case 26 => 12 case 27 => 12 case 28 => 13 case 29 => 14 case 30 => 15 case 31 => 16 case 32 => 17
    case 33 => 18 case 34 => 19 case 35 => 19 case 36 => 20 case 37 => 21 case 38 => 22 case 39 => 24 case _ => 25
  }

  function MediumBlocks(v: Version): int {
    match v
    case 1 => 1 case 2 => 1 case 3 => 1 case 4 => 2 case 5 => 2 case 6 => 4 case 7 => 4 case 8 => 4
    case 9 => 5 case 10 => 5 case 11 => 5 case 12 => 8 case 13 => 9 case 14 => 9 case 15 => 10 case 16 => 10
    case 17 => 11 case 18 => 13 case 19 => 14 case 20 => 16 case 21 => 17 case 22 => 17 case 23 => 18 case 24 => 20
    case 25 => 21 case 26 => 23 case 27 => 25 case 28 => 26 case 29 => 28 case 30 => 29 case 31 => 31 case 32 => 33
    case 33 => 35 case 34 => 37 case 35 => 38 case 36 => 40 case 37 => 43 case 38 => 45 case 39 => 47 case _ => 49
  }

  function QuartileBlocks(v: Version): int {
    match v
    case 1 => 1 case 2 => 1 case 3 => 2 case 4 => 2 case 5 => 4 case 6 => 4 case 7 => 6 case 8 => 6
    case 9 => 8 case 10 => 8 case 11 => 8 case 12 => 10 case 13 => 12 case 14 => 16 case 15 => 12 case 16 => 17
    case 17 => 16 case 18 => 18 case 19 => 21 case 20 => 20 case 21 => 23 case 22 => 23 case 23 => 25 case 24 => 27
    case 25 => 29 case 26 => 34 case 27 => 34 case 28 => 35 case 29 => 38 case 30 => 40 case 31 => 43 case 32 => 45
    case 33 => 48 case 34 => 51 case 35 => 53 case 36 => 56 case 37 => 59 case 38 => 62 case 39 => 65 case _ => 68
  }

  function HighBlocks(v: Version): int {
    match v
    case 1 => 1 case 2 => 1 case 3 => 2 case 4 => 4 case 5 => 4 case 6 => 4 case 7 => 5 case 8 => 6
    case 9 => 8 case 10 => 8 case 11 => 11 case 12 => 11 case 13 => 16 case 14 => 16 case 15 => 18 case 16 => 16
    case 17 => 19 case 18 => 21 case 19 => 25 case 20 => 25 case 21 => 25 case 22 => 34 case 23 => 30 case 24 => 32
    case 25 => 35 case 26 => 37 case 27 => 40 case 28 => 42 case 29 => 45 case 30 => 48 case 31 => 51 case 32 => 54
    case 33 => 57 case 34 => 60 case 35 => 63 case 36 => 66 case 37 => 70 case 38 => 74 case 39 => 77 case _ => 81
  }

  function NumErrorCorrectionBlocks(e: Ecc, v: Version): int {
    if e == LOW then LowBlocks(v)
    else if e == MEDIUM then MediumBlocks(v)
    else if e == QUARTILE then QuartileBlocks(v)
    else HighBlocks(v)
  }

  function Size(v: Version): int {
    4 * v + 17
  }

  /** Bytes needed for the grid of a version: one for the size, the rest for the modules. */
  function BufferLen(v: Version): int {
    (Size(v) * Size(v) + 7) / 8 + 1
  }

  function NumAlign(v: Version): nat {
    if v == 1 then 0 else v / 7 + 2
  }

  /** Modules that are not function modules. */
  function NumRawDataModules(v: Version): int {
    var all := (16 * v + 128) * v + 64;
    if v < 2 then all
    else
      var n := v / 7 + 2;
      all - ((25 * n - 10) * n - 55) - (if v >= 7 then 36 else 0)
  }

  function RawCodewords(v: Version): int {
    NumRawDataModules(v) / 8
  }

  function NumDataCodewords(v: Version, e: Ecc): int {
    RawCodewords(v) - EccCodewordsPerBlock(e, v) * NumErrorCorrectionBlocks(e, v)
  }

  /** Width of the character count field. */
  function NumCharCountBits(mode: Mode, v: Version): (n: nat)
    ensures n <= 16
  {
    var i := (v + 7) / 17;
    match mode
    case Numeric => [10, 12, 14][i]
    case Alphanumeric => [9, 11, 13][i]
    case Byte => [8, 16, 16][i]
    case Kanji => [8, 10, 12][i]
    case Eci => 0
  }

  function Version2Size(v: int): int {
    if v < VERSION_MIN || v > VERSION_MAX then -1 else (v - 1) * 4 + 21
  }

  /** Symbols grow by four modules from version to version, from 21 to 177, and a buffer has just room for them. */
  lemma SizesAre(v: int)
    ensures Version2Size(v) == if 1 <= v <= 40 then 21 + 4 * (v - 1) else -1
    ensures 1 <= v <= 40 ==> Size(v) == Version2Size(v)
    ensures 1 <= v <= 40 ==> 8 * (BufferLen(v) - 2) < Size(v) * Size(v) <= 8 * (BufferLen(v) - 1)
  {
  }

  /** The widths of the count fields in the three ranges of versions. */
  lemma FieldWidths(v: Version)
    ensures NumCharCountBits(Numeric, v) == if v < 10 then 10 else if v < 27 then 12 else 14
    ensures NumCharCountBits(Alphanumeric, v) == if v < 10 then 9 else if v < 27 then 11 else 13
    ensures NumCharCountBits(Byte, v) == if v < 10 then 8 else 16
    ensures NumCharCountBits(Kanji, v) == if v < 10 then 8 else if v < 27 then 10 else 12
    ensures NumCharCountBits(Eci, v) == 0
  {
    assert (v + 7) / 17 == if v < 10 then 0 else if v < 27 then 1 else 2;
  }

  // ---------- how the numbers of one table entry fit together ----------

  function ShortBlockLen(v: Version, e: Ecc): int
    requires NumErrorCorrectionBlocks(e, v) > 0
  {
    RawCodewords(v) / NumErrorCorrectionBlocks(e, v) - EccCodewordsPerBlock(e, v)
  }

  function NumShortBlocks(v: Version, e: Ecc): int
    requires NumErrorCorrectionBlocks(e, v) > 0
  {
    NumErrorCorrectionBlocks(e, v) - RawCodewords(v) % NumErrorCorrectionBlocks(e, v)
  }

  // ---------- the capacities as a list ----------

  /** All codewords of a version. */
  function RawTable(v: Version): int {
    match v
    case 1 => 26 case 2 => 44 case 3 => 70 case 4 => 100 case 5 => 134
    case 6 => 172 case 7 => 196 case 8 => 242 case 9 => 292 case 10 => 346
    case 11 => 404 case 12 => 466 case 13 => 532 case 14 => 581 case 15 => 655
    case 16 => 733 case 17 => 815 case 18 => 901 case 19 => 991 case 20 => 1085
    case 21 => 1156 case 22 => 1258 case 23 => 1364 case 24 => 1474 case 25 => 1588
    case 26 => 1706 case 27 => 1828 case 28 => 1921 case 29 => 2051 case 30 => 2185
    case 31 => 2323 case 32 => 2465 case 33 => 2611 case 34 => 2761 case 35 => 2876
    case 36 => 3034 case 37 => 3196 case 38 => 3362 case 39 => 3532 case _ => 3706
  }

  /** Data codewords at the lowest level. */
  function LowData(v: Version): int {
    match v
    case 1 => 19 case 2 => 34 case 3 => 55 case 4 => 80 case 5 => 108
    case 6 => 136 case 7 => 156 case 8 => 194 case 9 => 232 case 10 => 274
    case 11 => 324 case 12 => 370 case 13 => 428 case 14 => 461 case 15 => 523
    case 16 => 589 case 17 => 647 case 18 => 721 case 19 => 795 case 20 => 861
    case 21 => 932 case 22 => 1006 case 23 => 1094 case 24 => 1174 case 25 => 1276
    case 26 => 1370 case 27 => 1468 case 28 => 1531 case 29 => 1631 case 30 => 1735
    case 31 => 1843 case 32 => 1955 case 33 => 2071 case 34 => 2191 case 35 => 2306
    case 36 => 2434 case 37 => 2566 case 38 => 2702 case 39 => 2812 case _ => 2956
  }

  function MediumData(v: Version): int {
    match v
    case 1 => 16 case 2 => 28 case 3 => 44 case 4 => 64 case 5 => 86
    case 6 => 108 case 7 => 124 case 8 => 154 case 9 => 182 case 10 => 216
    case 11 => 254 case 12 => 290 case 13 => 334 case 14 => 365 case 15 => 415
    case 16 => 453 case 17 => 507 case 18 => 563 case 19 => 627 case 20 => 669
    case 21 => 714 case 22 => 782 case 23 => 860 case 24 => 914 case 25 => 1000
    case 26 => 1062 case 27 => 1128 case 28 => 1193 case 29 => 1267 case 30 => 1373
    case 31 => 1455 case 32 => 1541 case 33 => 1631 case 34 => 1725 case 35 => 1812
    case 36 => 1914 case 37 => 1992 case 38 => 2102 case 39 => 2216 case _ => 2334
  }

  function QuartileData(v: Version): int {
    match v
    case 1 => 13 case 2 => 22 case 3 => 34 case 4 => 48 case 5 => 62
    case 6 => 76 case 7 => 88 case 8 => 110 case 9 => 132 case 10 => 154
    case 11 => 180 case 12 => 206 case 13 => 244 case 14 => 261 case 15 => 295
    case 16 => 325 case 17 => 367 case 18 => 397 case 19 => 445 case 20 => 485
    case 21 => 512 case 22 => 568 case 23 => 614 case 24 => 664 case 25 => 718
    case 26 => 754 case 27 => 808 case 28 => 871 case 29 => 911 case 30 => 985
    case 31 => 1033 case 32 => 1115 case 33 => 1171 case 34 => 1231 case 35 => 1286
    case 36 => 1354 case 37 => 1426 case 38 => 1502 case 39 => 1582 case _ => 1666
  }

  function HighData(v: Version): int {
    match v
    case 1 => 9 case 2 => 16 case 3 => 26 case 4 => 36 case 5 => 46
    case 6 => 60 case 7 => 66 case 8 => 86 case 9 => 100 case 10 => 122
    case 11 => 140 case 12 => 158 case 13 => 180 case 14 => 197 case 15 => 223
    case 16 => 253 case 17 => 283 case 18 => 313 case 19 => 341 case 20 => 385
    case 21 => 406 case 22 => 442 case 23 => 464 case 24 => 514 case 25 => 538
    case 26 => 596 case 27 => 628 case 28 => 661 case 29 => 701 case 30 => 745
    case 31 => 793 case 32 => 845 case 33 => 901 case 34 => 961 case 35 => 986
    case 36 => 1054 case 37 => 1096 case 38 => 1142 case 39 => 1222 case _ => 1276
  }

  function Capacity(v: Version, e: Ecc): int {
    if e == LOW then LowData(v)
    else if e == MEDIUM then MediumData(v)
    else if e == QUARTILE then QuartileData(v)
    else HighData(v)
  }

  predicate RowOk(v: Version) {
    && RawCodewords(v) == RawTable(v)
    && NumDataCodewords(v, LOW) == LowData(v) && NumDataCodewords(v, MEDIUM) == MediumData(v)
    && NumDataCodewords(v, QUARTILE) == QuartileData(v) && NumDataCodewords(v, HIGH) == HighData(v)
  }

  /** The n versions from v on, for evaluation in pieces. */
  predicate RowsOk(v: nat, n: nat)
    requires 1 <= v && v + n <= 41
    decreases n
  {
    n == 0 || (RowOk(v) && RowsOk(v + 1, n - 1))
  }

  lemma {:induction false} RowsOkAt(v: nat, n: nat, w: nat)
    requires 1 <= v <= w < v + n <= 41 && RowsOk(v, n)
    ensures RowOk(w)
    decreases n
  {
    hide RowOk;
    if v < w {
      RowsOkAt(v + 1, n - 1, w);
    }
  }

  lemma Rows1()
    ensures RowsOk(1, 5)
  {}

  lemma Rows6()
    ensures RowsOk(6, 5)
  {}

  lemma Rows11()
    ensures RowsOk(11, 5)
  {}

  lemma Rows16()
    ensures RowsOk(16, 5)
  {}

  lemma Rows21()
    ensures RowsOk(21, 5)
  {}

  lemma Rows26()
    ensures RowsOk(26, 5)
  {}

  lemma Rows31()
    ensures RowsOk(31, 5)
  {}

  lemma Rows36()
    ensures RowsOk(36, 5)
  {}

  lemma AllRowsOk(v: Version)
    ensures RowOk(v)
  {
    hide RowOk;
    var n := (v - 1) / 5;
    match n
    case 0 => Rows1();
    case 1 => Rows6();
    case 2 => Rows11();
    case 3 => Rows16();
    case 4 => Rows21();
    case 5 => Rows26();
    case 6 => Rows31();
    case _ => Rows36();
    RowsOkAt(5 * n + 1, 5, v);
  }

  /** The formulas and tables of the code give the listed capacities, for every version and level. */
  lemma CapacityIs(v: Version, e: Ecc)
    ensures RawCodewords(v) == RawTable(v) && NumDataCodewords(v, e) == Capacity(v, e)
  {
    hide RawCodewords, NumDataCodewords, RawTable, LowData, MediumData, QuartileData, HighData;
    AllRowsOk(v);
  }

  // What the lists show at a glance.

  lemma TableBounds(v: Version, e: Ecc)
    ensures 7 <= EccCodewordsPerBlock(e, v) <= 30 && 1 <= NumErrorCorrectionBlocks(e, v) <= 81
    ensures 26 <= RawTable(v) <= 3706
  {}

  lemma BlocksFilled(v: Version, e: Ecc)
    ensures 9 * NumErrorCorrectionBlocks(e, v) <= Capacity(v, e) <= 2956
  {}

  lemma BlocksShort(v: Version, e: Ecc)
    ensures RawTable(v) < 255 * NumErrorCorrectionBlocks(e, v)
  {}

  lemma LevelStep(v: Version, e: Ecc)
    requires e < HIGH
    ensures Capacity(v, e + 1) <= Capacity(v, e)
  {}

  lemma VersionStep(v: Version, e: Ecc)
    requires v < 40
    ensures Capacity(v, e) < Capacity(v + 1, e)
  {}

  // ---------- consequences for the formulas ----------

  /** Every entry: a degree within the generator's limit, at least one block, non-empty blocks, and blocks short
      enough for the code over GF(2^8). */
  lemma EntryBounds(v: Version, e: Ecc)
    ensures 7 <= EccCodewordsPerBlock(e, v) <= 30
    ensures 1 <= NumErrorCorrectionBlocks(e, v) <= 81
    ensures 9 <= ShortBlockLen(v, e)
    ensures ShortBlockLen(v, e) + 1 + EccCodewordsPerBlock(e, v) <= 255
    ensures 9 <= NumDataCodewords(v, e) <= 2956
  {
    hide EccCodewordsPerBlock, NumErrorCorrectionBlocks, RawCodewords, RawTable, Capacity;
    CapacityIs(v, e);
    TableBounds(v, e);
    BlocksFilled(v, e);
    BlocksShort(v, e);
    var c, b := EccCodewordsPerBlock(e, v), NumErrorCorrectionBlocks(e, v);
    assert (9 + c) * b == 9 * b + c * b;
    QuotientBounds(RawCodewords(v), b, 9 + c, 255);
  }

  lemma QuotientBounds(a: nat, b: nat, lo: nat, hi: nat)
    requires b > 0 && lo * b <= a < hi * b
    ensures lo <= a / b < hi
  {
    var q := a / b;
    assert q * b <= a < (q + 1) * b;
    if q < lo {
      MulMonotone(q + 1, lo, b);
    }
    if hi <= q {
      MulMonotone(hi, q, b);
    }
  }

  lemma MulMonotone(x: nat, y: nat, b: nat)
    requires x <= y
    ensures x * b <= y * b
  {
  }

  lemma RawBounds(v: Version)
    ensures 26 <= RawCodewords(v) <= 3706
    ensures RawCodewords(v) + 1 <= BufferLen(v)
  {
    CodewordsFitGrid(v);
    hide *;
    CapacityIs(v, LOW);
    TableBounds(v, LOW);
  }

  /** There are no more codeword bits than modules. */
  lemma CodewordsFitGrid(v: Version)
    ensures RawCodewords(v) + 1 <= BufferLen(v)
  {
    ModulesOfAll(v);
    Deduction(v / 7 + 2);
    hide Size;
    var all := (16 * v + 128) * v + 64;
    assert NumRawDataModules(v) <= all <= Size(v) * Size(v);
  }

  lemma ModulesOfAll(v: Version)
    ensures (16 * v + 128) * v + 64 <= Size(v) * Size(v)
  {
    var s := v * v;
    assert (16 * v + 128) * v == 16 * s + 128 * v;
    assert Size(v) * Size(v) == 16 * s + 136 * v + 289;
  }

  lemma Deduction(n: nat)
    requires n >= 2
    ensures (25 * n - 10) * n >= 80
  {
    MulMonotone(40, 25 * n - 10, n);
  }

  /** More protection never leaves more room. */
  lemma {:induction false} CapacityDecreases(v: Version, e: Ecc, f: Ecc)
    requires e <= f
    ensures NumDataCodewords(v, f) <= NumDataCodewords(v, e)
    decreases f - e
  {
    hide NumDataCodewords, Capacity;
    if e < f {
      CapacityDecreases(v, e + 1, f);
      CapacityIs(v, e);
      CapacityIs(v, e + 1);
      LevelStep(v, e);
    }
  }

  /** A larger version always has more room. */
  lemma {:induction false} CapacityGrows(v: Version, w: Version, e: Ecc)
    requires v < w
    ensures NumDataCodewords(v, e) < NumDataCodewords(w, e)
    decreases w
  {
    hide NumDataCodewords, Capacity;
    CapacityIs(w - 1, e);
    CapacityIs(w, e);
    VersionStep(w - 1, e);
    if v < w - 1 {
      CapacityGrows(v, w - 1, e);
    }
  }

  /** data = blocks of two lengths: the counts add up. */
  lemma BlocksAddUp(v: Version, e: Ecc)
    ensures NumErrorCorrectionBlocks(e, v) > 0
    ensures 1 <= NumShortBlocks(v, e) <= NumErrorCorrectionBlocks(e, v)
    ensures NumDataCodewords(v, e) ==
            ShortBlockLen(v, e) * NumErrorCorrectionBlocks(e, v) +
              (NumErrorCorrectionBlocks(e, v) - NumShortBlocks(v, e))
    ensures RawCodewords(v) ==
            NumDataCodewords(v, e) + EccCodewordsPerBlock(e, v) * NumErrorCorrectionBlocks(e, v)
  {
    EntryBounds(v, e);
    hide EccCodewordsPerBlock, NumErrorCorrectionBlocks, RawCodewords;
    var b, c, raw := NumErrorCorrectionBlocks(e, v), EccCodewordsPerBlock(e, v), RawCodewords(v);
    assert raw == raw / b * b + raw % b;
    assert (raw / b - c) * b == raw / b * b - c * b;
  }

  /** A buffer for a version has room for the data codewords of every smaller version. */
  lemma BufferHoldsSmaller(v: Version, w: Version, e: Ecc)
    requires v <= w
    ensures BufferLen(v) <= BufferLen(w)
    ensures NumDataCodewords(v, e) <= BufferLen(w)
  {
    EntryBounds(v, e);
    hide NumDataCodewords, RawCodewords, EccCodewordsPerBlock, NumErrorCorrectionBlocks;
    RawBounds(v);
    assert NumDataCodewords(v, e) <= RawCodewords(v) by { DataWithinRaw(v, e); }
    assert Size(v) * Size(v) <= Size(w) * Size(w) by { SquareMonotone(Size(v), Size(w)); }
  }

  lemma DataWithinRaw(v: Version, e: Ecc)
    ensures NumDataCodewords(v, e) + 7 <= RawCodewords(v)
  {
    EntryBounds(v, e);
    hide RawCodewords, EccCodewordsPerBlock, NumErrorCorrectionBlocks;
    MulMonotone(1, NumErrorCorrectionBlocks(e, v), EccCodewordsPerBlock(e, v));
  }

  lemma SquareMonotone(a: nat, b: nat)
    requires a <= b
    ensures a * a <= b * b
  {
    assert b * b - a * a == (b - a) * (b + a);
  }
}
