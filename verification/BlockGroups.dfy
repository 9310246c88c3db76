/** How many blocks of each length the data of a symbol is split into, as a list. */
module BlockGroups {
  import opened Bytes
  import opened VersionInfo
  import opened Interleave

  function LowGroups(v: Version): (int, int, int) {
    match v
    case 1 => (1, 0, 19) case 2 => (1, 0, 34) case 3 => (1, 0, 55) case 4 => (1, 0, 80) case 5 => (1, 0, 108)
    case 6 => (2, 0, 68) case 7 => (2, 0, 78) case 8 => (2, 0, 97) case 9 => (2, 0, 116) case 10 => (2, 2, 68)
    case 11 => (4, 0, 81) case 12 => (2, 2, 92) case 13 => (4, 0, 107) case 14 => (3, 1, 115) case 15 => (5, 1, 87)
    case 16 => (5, 1, 98) case 17 => (1, 5, 107) case 18 => (5, 1, 120) case 19 => (3, 4, 113) case 20 => (3, 5, 107)
    case 21 => (4, 4, 116) case 22 => (2, 7, 111) case 23 => (4, 5, 121) case 24 => (6, 4, 117)
    case 25 => (8, 4, 106) case 26 => (10, 2, 114) case 27 => (8, 4, 122) case 28 => (3, 10, 117)
    case 29 => (7, 7, 116) case 30 => (5, 10, 115) case 31 => (13, 3, 115) case 32 => (17, 0, 115)
    case 33 => (17, 1, 115) case 34 => (13, 6, 115) case 35 => (12, 7, 121) case 36 => (6, 14, 121)
    case 37 => (17, 4, 122) case 38 => (4, 18, 122) case 39 => (20, 4, 117) case _ => (19, 6, 118)
  }

  function MediumGroups(v: Version): (int, int, int) {
    match v
    case 1 => (1, 0, 16) case 2 => (1, 0, 28) case 3 => (1, 0, 44) case 4 => (2, 0, 32) case 5 => (2, 0, 43)
    case 6 => (4, 0, 27) case 7 => (4, 0, 31) case 8 => (2, 2, 38) case 9 => (3, 2, 36) case 10 => (4, 1, 43)
    case 11 => (1, 4, 50) case 12 => (6, 2, 36) case 13 => (8, 1, 37) case 14 => (4, 5, 40) case 15 => (5, 5, 41)
    case 16 => (7, 3, 45) case 17 => (10, 1, 46) case 18 => (9, 4, 43) case 19 => (3, 11, 44) case 20 => (3, 13, 41)
    case 21 => (17, 0, 42) case 22 => (17, 0, 46) case 23 => (4, 14, 47) case 24 => (6, 14, 45)
    case 25 => (8, 13, 47) case 26 => (19, 4, 46) case 27 => (22, 3, 45) case 28 => (3, 23, 45)
    case 29 => (21, 7, 45) case 30 => (19, 10, 47) case 31 => (2, 29, 46) case 32 => (10, 23, 46)
    case 33 => (14, 21, 46) case 34 => (14, 23, 46) case 35 => (12, 26, 47) case 36 => (6, 34, 47)
    case 37 => (29, 14, 46) case 38 => (13, 32, 46) case 39 => (40, 7, 47) case _ => (18, 31, 47)
  }

  function QuartileGroups(v: Version): (int, int, int) {
    match v
    case 1 => (1, 0, 13) case 2 => (1, 0, 22) case 3 => (2, 0, 17) case 4 => (2, 0, 24) case 5 => (2, 2, 15)
    case 6 => (4, 0, 19) case 7 => (2, 4, 14) case 8 => (4, 2, 18) case 9 => (4, 4, 16) case 10 => (6, 2, 19)
    case 11 => (4, 4, 22) case 12 => (4, 6, 20) case 13 => (8, 4, 20) case 14 => (11, 5, 16) case 15 => (5, 7, 24)
    case 16 => (15, 2, 19) case 17 => (1, 15, 22) case 18 => (17, 1, 22) case 19 => (17, 4, 21)
    case 20 => (15, 5, 24) case 21 => (17, 6, 22) case 22 => (7, 16, 24) case 23 => (11, 14, 24)
    case 24 => (11, 16, 24) case 25 => (7, 22, 24) case 26 => (28, 6, 22) case 27 => (8, 26, 23)
    case 28 => (4, 31, 24) case 29 => (1, 37, 23) case 30 => (15, 25, 24) case 31 => (42, 1, 24)
    case 32 => (10, 35, 24) case 33 => (29, 19, 24) case 34 => (44, 7, 24) case 35 => (39, 14, 24)
    case 36 => (46, 10, 24) case 37 => (49, 10, 24) case 38 => (48, 14, 24) case 39 => (43, 22, 24)
    case _ => (34, 34, 24)
  }

  function HighGroups(v: Version): (int, int, int) {
    match v
    case 1 => (1, 0, 9) case 2 => (1, 0, 16) case 3 => (2, 0, 13) case 4 => (4, 0, 9) case 5 => (2, 2, 11)
    case 6 => (4, 0, 15) case 7 => (4, 1, 13) case 8 => (4, 2, 14) case 9 => (4, 4, 12) case 10 => (6, 2, 15)
    case 11 => (3, 8, 12) case 12 => (7, 4, 14) case 13 => (12, 4, 11) case 14 => (11, 5, 12) case 15 => (11, 7, 12)
    case 16 => (3, 13, 15) case 17 => (2, 17, 14) case 18 => (2, 19, 14) case 19 => (9, 16, 13)
    case 20 => (15, 10, 15) case 21 => (19, 6, 16) case 22 => (34, 0, 13) case 23 => (16, 14, 15)
    case 24 => (30, 2, 16) case 25 => (22, 13, 15) case 26 => (33, 4, 16) case 27 => (12, 28, 15)
    case 28 => (11, 31, 15) case 29 => (19, 26, 15) case 30 => (23, 25, 15) case 31 => (23, 28, 15)
    case 32 => (19, 35, 15) case 33 => (11, 46, 15) case 34 => (59, 1, 16) case 35 => (22, 41, 15)
    case 36 => (2, 64, 15) case 37 => (24, 46, 15) case 38 => (42, 32, 15) case 39 => (10, 67, 15)
    case _ => (20, 61, 15)
  }

  /** The number of shorter blocks, the number of blocks with one byte more, and the bytes of a shorter one. */
  function Groups(v: Version, e: Ecc): (int, int, int) {
    if e == LOW then LowGroups(v)
    else if e == MEDIUM then MediumGroups(v)
    else if e == QUARTILE then QuartileGroups(v)
    else HighGroups(v)
  }

  predicate GroupOk(v: Version, e: Ecc) {
    var g := Groups(v, e);
    && NumErrorCorrectionBlocks(e, v) == g.0 + g.1 && g.0 > 0 && g.1 >= 0
    && (g.0 + g.1) * (g.2 + EccCodewordsPerBlock(e, v)) + g.1 == RawTable(v)
  }

  lemma Low1(v: Version)
    requires 1 <= v <= 8
    ensures GroupOk(v, LOW)
  {
    match v
    case 1 => case 2 => case 3 => case 4 => case 5 => case 6 => case 7 => case 8 =>
  }

  lemma Low9(v: Version)
    requires 9 <= v <= 16
    ensures GroupOk(v, LOW)
  {
    match v
    case 9 => case 10 => case 11 => case 12 => case 13 => case 14 => case 15 => case 16 =>
  }

  lemma Low17(v: Version)
    requires 17 <= v <= 24
    ensures GroupOk(v, LOW)
  {
    match v
    case 17 => case 18 => case 19 => case 20 => case 21 => case 22 => case 23 => case 24 =>
  }

  lemma Low25(v: Version)
    requires 25 <= v <= 32
    ensures GroupOk(v, LOW)
  {
    match v
    case 25 => case 26 => case 27 => case 28 => case 29 => case 30 => case 31 => case 32 =>
  }

  lemma Low33(v: Version)
    requires 33 <= v <= 40
    ensures GroupOk(v, LOW)
  {
    match v
    case 33 => case 34 => case 35 => case 36 => case 37 => case 38 => case 39 => case 40 =>
  }

  lemma LowOk(v: Version)
    ensures GroupOk(v, LOW)
  {
    hide GroupOk;
    if v <= 8 {
      Low1(v);
    } else if v <= 16 {
      Low9(v);
    } else if v <= 24 {
      Low17(v);
    } else if v <= 32 {
      Low25(v);
    } else {
      Low33(v);
    }
  }

  lemma Medium1(v: Version)
    requires 1 <= v <= 8
    ensures GroupOk(v, MEDIUM)
  {
    match v
    case 1 => case 2 => case 3 => case 4 => case 5 => case 6 => case 7 => case 8 =>
  }

  lemma Medium9(v: Version)
    requires 9 <= v <= 16
    ensures GroupOk(v, MEDIUM)
  {
    match v
    case 9 => case 10 => case 11 => case 12 => case 13 => case 14 => case 15 => case 16 =>
  }

  lemma Medium17(v: Version)
    requires 17 <= v <= 24
    ensures GroupOk(v, MEDIUM)
  {
    match v
    case 17 => case 18 => case 19 => case 20 => case 21 => case 22 => case 23 => case 24 =>
  }

  lemma Medium25(v: Version)
    requires 25 <= v <= 32
    ensures GroupOk(v, MEDIUM)
  {
    match v
    case 25 => case 26 => case 27 => case 28 => case 29 => case 30 => case 31 => case 32 =>
  }

  lemma Medium33(v: Version)
    requires 33 <= v <= 40
    ensures GroupOk(v, MEDIUM)
  {
    match v
    case 33 => case 34 => case 35 => case 36 => case 37 => case 38 => case 39 => case 40 =>
  }

  lemma MediumOk(v: Version)
    ensures GroupOk(v, MEDIUM)
  {
    hide GroupOk;
    if v <= 8 {
      Medium1(v);
    } else if v <= 16 {
      Medium9(v);
    } else if v <= 24 {
      Medium17(v);
    } else if v <= 32 {
      Medium25(v);
    } else {
      Medium33(v);
    }
  }

  lemma Quartile1(v: Version)
    requires 1 <= v <= 8
    ensures GroupOk(v, QUARTILE)
  {
    match v
    case 1 => case 2 => case 3 => case 4 => case 5 => case 6 => case 7 => case 8 =>
  }

  lemma Quartile9(v: Version)
    requires 9 <= v <= 16
    ensures GroupOk(v, QUARTILE)
  {
    match v
    case 9 => case 10 => case 11 => case 12 => case 13 => case 14 => case 15 => case 16 =>
  }

  lemma Quartile17(v: Version)
    requires 17 <= v <= 24
    ensures GroupOk(v, QUARTILE)
  {
    match v
    case 17 => case 18 => case 19 => case 20 => case 21 => case 22 => case 23 => case 24 =>
  }

  lemma Quartile25(v: Version)
    requires 25 <= v <= 32
    ensures GroupOk(v, QUARTILE)
  {
    match v
    case 25 => case 26 => case 27 => case 28 => case 29 => case 30 => case 31 => case 32 =>
  }

  lemma Quartile33(v: Version)
    requires 33 <= v <= 40
    ensures GroupOk(v, QUARTILE)
  {
    match v
    case 33 => case 34 => case 35 => case 36 => case 37 => case 38 => case 39 => case 40 =>
  }

  lemma QuartileOk(v: Version)
    ensures GroupOk(v, QUARTILE)
  {
    hide GroupOk;
    if v <= 8 {
      Quartile1(v);
    } else if v <= 16 {
      Quartile9(v);
    } else if v <= 24 {
      Quartile17(v);
    } else if v <= 32 {
      Quartile25(v);
    } else {
      Quartile33(v);
    }
  }

  lemma High1(v: Version)
    requires 1 <= v <= 8
    ensures GroupOk(v, HIGH)
  {
    match v
    case 1 => case 2 => case 3 => case 4 => case 5 => case 6 => case 7 => case 8 =>
  }

  lemma High9(v: Version)
    requires 9 <= v <= 16
    ensures GroupOk(v, HIGH)
  {
    match v
    case 9 => case 10 => case 11 => case 12 => case 13 => case 14 => case 15 => case 16 =>
  }

  lemma High17(v: Version)
    requires 17 <= v <= 24
    ensures GroupOk(v, HIGH)
  {
    match v
    case 17 => case 18 => case 19 => case 20 => case 21 => case 22 => case 23 => case 24 =>
  }

  lemma High25(v: Version)
    requires 25 <= v <= 32
    ensures GroupOk(v, HIGH)
  {
    match v
    case 25 => case 26 => case 27 => case 28 => case 29 => case 30 => case 31 => case 32 =>
  }

  lemma High33(v: Version)
    requires 33 <= v <= 40
    ensures GroupOk(v, HIGH)
  {
    match v
    case 33 => case 34 => case 35 => case 36 => case 37 => case 38 => case 39 => case 40 =>
  }

  lemma HighOk(v: Version)
    ensures GroupOk(v, HIGH)
  {
    hide GroupOk;
    if v <= 8 {
      High1(v);
    } else if v <= 16 {
      High9(v);
    } else if v <= 24 {
      High17(v);
    } else if v <= 32 {
      High25(v);
    } else {
      High33(v);
    }
  }

  lemma AllGroupsOk(v: Version, e: Ecc)
    ensures GroupOk(v, e)
  {
    hide GroupOk;
    LowOk(v);
    MediumOk(v);
    QuartileOk(v);
    HighOk(v);
  }

  /** For every version and level the code splits the data into the listed blocks; the listed capacity of the version
      then fixes the error correction of each block. */
  lemma GroupsAre(v: Version, e: Ecc)
    ensures NumErrorCorrectionBlocks(e, v) > 0
    ensures NumShortBlocks(v, e) == Groups(v, e).0
    ensures NumErrorCorrectionBlocks(e, v) == Groups(v, e).0 + Groups(v, e).1
    ensures ShortBlockLen(v, e) == Groups(v, e).2
    ensures (Groups(v, e).0 + Groups(v, e).1) * EccCodewordsPerBlock(e, v) == RawTable(v) - Capacity(v, e)
  {
    hide Groups, NumErrorCorrectionBlocks, EccCodewordsPerBlock, RawCodewords, RawTable, Capacity, NumDataCodewords;
    CapacityIs(v, e);
    AllGroupsOk(v, e);
    BlocksAddUp(v, e);
    var blocks, ecc := NumErrorCorrectionBlocks(e, v), EccCodewordsPerBlock(e, v);
    DivUnique(RawTable(v), blocks, Groups(v, e).2 + ecc, Groups(v, e).1);
    Commute(blocks, ecc);
    Commute(blocks, Groups(v, e).2 + ecc);
  }

  lemma Commute(a: int, b: int)
    ensures a * b == b * a
  {
  }

  /** The shorter blocks come first, and the blocks follow one another in the data. */
  lemma BlocksListed(v: Version, e: Ecc, b: nat)
    requires b < Groups(v, e).0 + Groups(v, e).1
    ensures LayoutOf(v, e).blocks == Groups(v, e).0 + Groups(v, e).1
    ensures LayoutOf(v, e).BlockLen(b) == if b < Groups(v, e).0 then Groups(v, e).2 else Groups(v, e).2 + 1
    ensures LayoutOf(v, e).Offset(0) == 0
    ensures LayoutOf(v, e).Offset(b + 1) == LayoutOf(v, e).Offset(b) + LayoutOf(v, e).BlockLen(b)
  {
    hide Groups, RawCodewords, NumErrorCorrectionBlocks, EccCodewordsPerBlock, ShortBlockLen, NumShortBlocks;
    GroupsAre(v, e);
    OffsetStep(LayoutOf(v, e), b);
  }
}
