/** The check bits of the format and version words: the words as a list, and how far apart they are. */
module CheckWords {
  import opened VersionInfo
  import opened FunctionPatterns

  // ---------- the words as a list ----------

  function LowFormat(m: MaskId): bv32 {
    match m
    case 0 => 0x77C4 case 1 => 0x72F3 case 2 => 0x7DAA case 3 => 0x789D
    case 4 => 0x662F case 5 => 0x6318 case 6 => 0x6C41 case _ => 0x6976
  }

  function MediumFormat(m: MaskId): bv32 {
    match m
    case 0 => 0x5412 case 1 => 0x5125 case 2 => 0x5E7C case 3 => 0x5B4B
    case 4 => 0x45F9 case 5 => 0x40CE case 6 => 0x4F97 case _ => 0x4AA0
  }

  function QuartileFormat(m: MaskId): bv32 {
    match m
    case 0 => 0x355F case 1 => 0x3068 case 2 => 0x3F31 case 3 => 0x3A06
    case 4 => 0x24B4 case 5 => 0x2183 case 6 => 0x2EDA case _ => 0x2BED
  }

  function HighFormat(m: MaskId): bv32 {
    match m
    case 0 => 0x1689 case 1 => 0x13BE case 2 => 0x1CE7 case 3 => 0x19D0
    case 4 => 0x0762 case 5 => 0x0255 case 6 => 0x0D0C case _ => 0x083B
  }

  /** The masked format words of the 4 levels and 8 masks. */
  function FormatList(e: Ecc, m: MaskId): bv32 {
    if e == LOW then LowFormat(m)
    else if e == MEDIUM then MediumFormat(m)
    else if e == QUARTILE then QuartileFormat(m)
    else HighFormat(m)
  }

  /** The version words of the versions that show one. */
  function VersionList(v: Version): bv32
    requires v >= 7
  {
    match v
    case 7 => 0x07C94 case 8 => 0x085BC case 9 => 0x09A99 case 10 => 0x0A4D3 case 11 => 0x0BBF6
    case 12 => 0x0C762 case 13 => 0x0D847 case 14 => 0x0E60D case 15 => 0x0F928 case 16 => 0x10B78
    case 17 => 0x1145D case 18 => 0x12A17 case 19 => 0x13532 case 20 => 0x149A6 case 21 => 0x15683
    case 22 => 0x168C9 case 23 => 0x177EC case 24 => 0x18EC4 case 25 => 0x191E1 case 26 => 0x1AFAB
    case 27 => 0x1B08E case 28 => 0x1CC1A case 29 => 0x1D33F case 30 => 0x1ED75 case 31 => 0x1F250
    case 32 => 0x209D5 case 33 => 0x216F0 case 34 => 0x228BA case 35 => 0x2379F case 36 => 0x24B0B
    case 37 => 0x2542E case 38 => 0x26A64 case 39 => 0x27541 case _ => 0x28C69
  }

  // ---------- the division, one data bit at a time ----------

  /** Check bits: a sum of one remainder for each data bit. */
  function FormatCheck(d: bv32): bv32 {
    ((d & 1) * 0x137) ^ (((d >> 1) & 1) * 0x26E) ^ (((d >> 2) & 1) * 0x1EB) ^
    (((d >> 3) & 1) * 0x3D6) ^ (((d >> 4) & 1) * 0x29B)
  }

  function VersionCheck(d: bv32): bv32 {
    ((d & 1) * 0xF25) ^ (((d >> 1) & 1) * 0x16F) ^ (((d >> 2) & 1) * 0x2DE) ^
    (((d >> 3) & 1) * 0x5BC) ^ (((d >> 4) & 1) * 0xB78) ^ (((d >> 5) & 1) * 0x9D5)
  }

  /** One round of the division without the product. */
  function FormatRound(rem: bv32): bv32 {
    if rem & 0x200 == 0 then rem << 1 else (rem << 1) ^ 0x537
  }

  function VersionRound(rem: bv32): bv32 {
    if rem & 0x800 == 0 then rem << 1 else (rem << 1) ^ 0x1F25
  }

  lemma FormatRoundBits(rem: bv32, product: bv32)
    requires rem < 0x400 && product == (rem >> 9) * 0x537
    ensures product == if rem & 0x200 == 0 then 0 else 0x537
  {
  }

  lemma FormatRoundIs(rem: bv32)
    requires rem < 0x400
    ensures FormatDivide(rem) == FormatRound(rem)
  {
    FormatRoundBits(rem, (rem >> 9) * 0x537);
    ZeroXor(rem << 1);
  }

  lemma VersionRoundBits(rem: bv32, product: bv32)
    requires rem < 0x1000 && product == (rem >> 11) * 0x1F25
    ensures product == if rem & 0x800 == 0 then 0 else 0x1F25
  {
  }

  lemma VersionRoundIs(rem: bv32)
    requires rem < 0x1000
    ensures VersionDivide(rem) == VersionRound(rem)
  {
    VersionRoundBits(rem, (rem >> 11) * 0x1F25);
    ZeroXor(rem << 1);
  }

  lemma ZeroXor(x: bv32)
    ensures x ^ 0 == x
  {
  }

  /** Five data bits pass the first five rounds without a subtraction. */
  lemma FormatRounds(d: bv32)
    requires d < 32
    ensures FormatRound(FormatRound(FormatRound(FormatRound(FormatRound(d))))) == d << 5
    ensures FormatRound(FormatRound(FormatRound(FormatRound(FormatRound(d << 5))))) == FormatCheck(d)
  {
  }

  lemma VersionRounds(d: bv32)
    requires d < 64
    ensures VersionRound(VersionRound(VersionRound(VersionRound(VersionRound(VersionRound(d)))))) == d << 6
    ensures VersionRound(VersionRound(VersionRound(VersionRound(VersionRound(VersionRound(d << 6)))))) ==
            VersionCheck(d)
  {
  }

  /** n rounds. */
  function FormatRoundsOf(rem: bv32, n: nat): bv32
    decreases n
  {
    if n == 0 then rem else FormatRound(FormatRoundsOf(rem, n - 1))
  }

  function VersionRoundsOf(rem: bv32, n: nat): bv32
    decreases n
  {
    if n == 0 then rem else VersionRound(VersionRoundsOf(rem, n - 1))
  }

  lemma {:induction false} FormatRemRounds(d: bv32, n: nat)
    requires d < 0x400
    ensures FormatRem(d, n) == FormatRoundsOf(d, n)
    decreases n
  {
    hide FormatDivide, FormatRound;
    if n > 0 {
      FormatRemRounds(d, n - 1);
      FormatRemBound(d, n - 1);
      FormatRoundIs(FormatRem(d, n - 1));
    }
  }

  lemma {:induction false} VersionRemRounds(d: bv32, n: nat)
    requires d < 0x1000
    ensures VersionRem(d, n) == VersionRoundsOf(d, n)
    decreases n
  {
    hide VersionDivide, VersionRound;
    if n > 0 {
      VersionRemRounds(d, n - 1);
      VersionRemBound(d, n - 1);
      VersionRoundIs(VersionRem(d, n - 1));
    }
  }

  lemma FormatTenRounds(d: bv32)
    ensures FormatRoundsOf(d, 10) ==
            FormatRound(FormatRound(FormatRound(FormatRound(FormatRound(FormatRound(FormatRound(FormatRound(
              FormatRound(FormatRound(d))))))))))
  {
    hide FormatRound;
    assert FormatRoundsOf(d, 5) == FormatRound(FormatRound(FormatRound(FormatRound(FormatRound(d)))));
  }

  lemma VersionTwelveRounds(d: bv32)
    ensures VersionRoundsOf(d, 12) ==
            VersionRound(VersionRound(VersionRound(VersionRound(VersionRound(VersionRound(VersionRound(VersionRound(
              VersionRound(VersionRound(VersionRound(VersionRound(d))))))))))))
  {
    hide VersionRound;
    assert VersionRoundsOf(d, 6) ==
           VersionRound(VersionRound(VersionRound(VersionRound(VersionRound(VersionRound(d))))));
  }

  /** Long division by the two generators, in closed form. */
  lemma FormatRemIs(d: bv32)
    requires d < 32
    ensures FormatRem(d, 10) == FormatCheck(d)
  {
    FormatRounds(d);
    hide FormatDivide, FormatRound, FormatCheck, FormatRem, FormatRoundsOf;
    FormatRemRounds(d, 10);
    FormatTenRounds(d);
  }

  lemma VersionRemIs(d: bv32)
    requires d < 64
    ensures VersionRem(d, 12) == VersionCheck(d)
  {
    VersionRounds(d);
    hide VersionDivide, VersionRound, VersionCheck, VersionRem, VersionRoundsOf;
    VersionRemRounds(d, 12);
    VersionTwelveRounds(d);
  }

  function FormatCode(d: bv32): bv32 {
    (d << 10) | FormatCheck(d)
  }

  function VersionCode(d: bv32): bv32 {
    (d << 12) | VersionCheck(d)
  }

  lemma FormatWordIsCode(e: Ecc, m: MaskId)
    ensures FormatWord(e, m) == FormatCode(FormatData(e, m)) ^ 0x5412 && FormatData(e, m) < 32
  {
    FormatDataBound(e, m);
    hide FormatData, FormatCheck, FormatRem;
    FormatRemIs(FormatData(e, m));
  }

  lemma VersionWordIsCode(v: Version)
    ensures VersionWord(v) == VersionCode(v as bv32) && v as bv32 < 64
  {
    SmallVersion(v);
    hide VersionCheck, VersionRem;
    VersionRemIs(v as bv32);
  }

  function MaskedCode(e: Ecc, m: MaskId): bv32 {
    FormatCode(FormatData(e, m)) ^ 0x5412
  }

  lemma FormatWordIsMasked(e: Ecc, m: MaskId)
    ensures FormatWord(e, m) == MaskedCode(e, m)
  {
    hide FormatWord, FormatCode, FormatData;
    FormatWordIsCode(e, m);
  }

  lemma LowFormatIs(m: MaskId)
    ensures MaskedCode(LOW, m) == LowFormat(m)
  {
  }

  lemma MediumFormatIs(m: MaskId)
    ensures MaskedCode(MEDIUM, m) == MediumFormat(m)
  {
  }

  lemma QuartileFormatIs(m: MaskId)
    ensures MaskedCode(QUARTILE, m) == QuartileFormat(m)
  {
  }

  lemma HighFormatIs(m: MaskId)
    ensures MaskedCode(HIGH, m) == HighFormat(m)
  {
  }

  /** Every format word is the one in the list. */
  lemma FormatWordIs(e: Ecc, m: MaskId)
    ensures FormatWord(e, m) == FormatList(e, m)
  {
    hide *;
    FormatWordIsMasked(e, m);
    ListOf(e, m);
    if e == LOW {
      LowFormatIs(m);
    } else if e == MEDIUM {
      MediumFormatIs(m);
    } else if e == QUARTILE {
      QuartileFormatIs(m);
    } else {
      HighFormatIs(m);
    }
  }

  lemma ListOf(e: Ecc, m: MaskId)
    ensures e == LOW ==> FormatList(e, m) == LowFormat(m)
    ensures e == MEDIUM ==> FormatList(e, m) == MediumFormat(m)
    ensures e == QUARTILE ==> FormatList(e, m) == QuartileFormat(m)
    ensures e != LOW && e != MEDIUM && e != QUARTILE ==> e == HIGH && FormatList(e, m) == HighFormat(m)
  {
    hide LowFormat, MediumFormat, QuartileFormat, HighFormat;
  }

  /** Every version word is the one in the list. */
  lemma VersionWordIs(v: Version)
    requires v >= 7
    ensures VersionWord(v) == VersionList(v)
  {
    hide VersionWord;
    VersionWordIsCode(v);
  }

  // ---------- distances ----------

  /** The number of ones among the eighteen low bits, by sixes. */
  function Weight(x: bv32): nat {
    LowWeight(x) + MiddleWeight(x) + HighWeight(x)
  }

  function LowWeight(x: bv32): nat {
    (if x & 0x1 != 0 then 1 else 0) + (if x & 0x2 != 0 then 1 else 0) + (if x & 0x4 != 0 then 1 else 0) +
    (if x & 0x8 != 0 then 1 else 0) + (if x & 0x10 != 0 then 1 else 0) + (if x & 0x20 != 0 then 1 else 0)
  }

  function MiddleWeight(x: bv32): nat {
    (if x & 0x40 != 0 then 1 else 0) + (if x & 0x80 != 0 then 1 else 0) + (if x & 0x100 != 0 then 1 else 0) +
    (if x & 0x200 != 0 then 1 else 0) + (if x & 0x400 != 0 then 1 else 0) + (if x & 0x800 != 0 then 1 else 0)
  }

  function HighWeight(x: bv32): nat {
    (if x & 0x1000 != 0 then 1 else 0) + (if x & 0x2000 != 0 then 1 else 0) + (if x & 0x4000 != 0 then 1 else 0) +
    (if x & 0x8000 != 0 then 1 else 0) + (if x & 0x10000 != 0 then 1 else 0) + (if x & 0x20000 != 0 then 1 else 0)
  }

  /** The number of bits in which two words differ. */
  function Distance(a: bv32, b: bv32): nat {
    Weight(a ^ b)
  }

  lemma WeightIs(x: bv32)
    ensures Weight(x) ==
            (if x & 0x1 != 0 then 1 else 0) + (if x & 0x2 != 0 then 1 else 0) + (if x & 0x4 != 0 then 1 else 0) +
            (if x & 0x8 != 0 then 1 else 0) + (if x & 0x10 != 0 then 1 else 0) + (if x & 0x20 != 0 then 1 else 0) +
            (if x & 0x40 != 0 then 1 else 0) + (if x & 0x80 != 0 then 1 else 0) + (if x & 0x100 != 0 then 1 else 0) +
            (if x & 0x200 != 0 then 1 else 0) + (if x & 0x400 != 0 then 1 else 0) + (if x & 0x800 != 0 then 1 else 0) +
            (if x & 0x1000 != 0 then 1 else 0) + (if x & 0x2000 != 0 then 1 else 0) +
            (if x & 0x4000 != 0 then 1 else 0) +
            (if x & 0x8000 != 0 then 1 else 0) + (if x & 0x10000 != 0 then 1 else 0) +
            (if x & 0x20000 != 0 then 1 else 0)
  {
  }

  /** The distance of two codewords, with nothing left to unfold. */
  lemma FormatBitsApart(a: bv32, b: bv32, c: bv32, d: bv32, x: bv32)
    requires a < 32 && b < 32 && a != b
    requires c == (a << 10) |
                 (((a & 1) * 0x137) ^ (((a >> 1) & 1) * 0x26E) ^ (((a >> 2) & 1) * 0x1EB) ^
                 (((a >> 3) & 1) * 0x3D6) ^ (((a >> 4) & 1) * 0x29B))
    requires d == (b << 10) |
                 (((b & 1) * 0x137) ^ (((b >> 1) & 1) * 0x26E) ^ (((b >> 2) & 1) * 0x1EB) ^
                 (((b >> 3) & 1) * 0x3D6) ^ (((b >> 4) & 1) * 0x29B))
    requires x == (c ^ 0x5412) ^ (d ^ 0x5412)
    ensures (if x & 0x1 != 0 then 1 else 0) + (if x & 0x2 != 0 then 1 else 0) + (if x & 0x4 != 0 then 1 else 0) +
            (if x & 0x8 != 0 then 1 else 0) + (if x & 0x10 != 0 then 1 else 0) + (if x & 0x20 != 0 then 1 else 0) +
            (if x & 0x40 != 0 then 1 else 0) + (if x & 0x80 != 0 then 1 else 0) + (if x & 0x100 != 0 then 1 else 0) +
            (if x & 0x200 != 0 then 1 else 0) + (if x & 0x400 != 0 then 1 else 0) + (if x & 0x800 != 0 then 1 else 0) +
            (if x & 0x1000 != 0 then 1 else 0) + (if x & 0x2000 != 0 then 1 else 0) +
            (if x & 0x4000 != 0 then 1 else 0) +
            (if x & 0x8000 != 0 then 1 else 0) + (if x & 0x10000 != 0 then 1 else 0) +
            (if x & 0x20000 != 0 then 1 else 0) >= 7
  {
  }

  lemma FormatCodeIs(d: bv32)
    ensures FormatCode(d) ==
            (d << 10) |
                 (((d & 1) * 0x137) ^ (((d >> 1) & 1) * 0x26E) ^ (((d >> 2) & 1) * 0x1EB) ^
                 (((d >> 3) & 1) * 0x3D6) ^ (((d >> 4) & 1) * 0x29B))
  {
  }

  lemma FormatCodesApart(a: bv32, b: bv32, c: bv32, d: bv32, x: bv32)
    requires a < 32 && b < 32 && a != b && c == FormatCode(a) && d == FormatCode(b) && x == (c ^ 0x5412) ^ (d ^ 0x5412)
    ensures Weight(x) >= 7
  {
    hide *;
    FormatCodeIs(a);
    FormatCodeIs(b);
    FormatBitsApart(a, b, c, d, x);
    WeightIs(x);
  }

  /** The distance of two codewords, with nothing left to unfold. */
  lemma VersionBitsApart(a: bv32, b: bv32, x: bv32)
    requires a < 64 && b < 64 && a != b
    requires x == ((a << 12) |
                 (((a & 1) * 0xF25) ^ (((a >> 1) & 1) * 0x16F) ^ (((a >> 2) & 1) * 0x2DE) ^
                 (((a >> 3) & 1) * 0x5BC) ^ (((a >> 4) & 1) * 0xB78) ^ (((a >> 5) & 1) * 0x9D5))) ^
                 ((b << 12) |
                 (((b & 1) * 0xF25) ^ (((b >> 1) & 1) * 0x16F) ^ (((b >> 2) & 1) * 0x2DE) ^
                 (((b >> 3) & 1) * 0x5BC) ^ (((b >> 4) & 1) * 0xB78) ^ (((b >> 5) & 1) * 0x9D5)))
    ensures (if x & 0x1 != 0 then 1 else 0) + (if x & 0x2 != 0 then 1 else 0) + (if x & 0x4 != 0 then 1 else 0) +
            (if x & 0x8 != 0 then 1 else 0) + (if x & 0x10 != 0 then 1 else 0) + (if x & 0x20 != 0 then 1 else 0) +
            (if x & 0x40 != 0 then 1 else 0) + (if x & 0x80 != 0 then 1 else 0) + (if x & 0x100 != 0 then 1 else 0) +
            (if x & 0x200 != 0 then 1 else 0) + (if x & 0x400 != 0 then 1 else 0) + (if x & 0x800 != 0 then 1 else 0) +
            (if x & 0x1000 != 0 then 1 else 0) + (if x & 0x2000 != 0 then 1 else 0) +
            (if x & 0x4000 != 0 then 1 else 0) +
            (if x & 0x8000 != 0 then 1 else 0) + (if x & 0x10000 != 0 then 1 else 0) +
            (if x & 0x20000 != 0 then 1 else 0) >= 8
  {
  }

  lemma VersionCodeIs(d: bv32)
    ensures VersionCode(d) ==
            (d << 12) |
                 (((d & 1) * 0xF25) ^ (((d >> 1) & 1) * 0x16F) ^ (((d >> 2) & 1) * 0x2DE) ^
                 (((d >> 3) & 1) * 0x5BC) ^ (((d >> 4) & 1) * 0xB78) ^ (((d >> 5) & 1) * 0x9D5))
  {
  }

  lemma VersionCodesApart(a: bv32, b: bv32, c: bv32, d: bv32, x: bv32)
    requires a < 64 && b < 64 && a != b && c == VersionCode(a) && d == VersionCode(b) && x == c ^ d
    ensures Weight(x) >= 8
  {
    hide *;
    VersionCodeIs(a);
    VersionCodeIs(b);
    VersionBitsApart(a, b, x);
    WeightIs(x);
  }

  lemma CodesBelow(e: Ecc, m: MaskId)
    ensures LevelCode(e) < 4 && MaskCode(m) < 8
  {
  }

  lemma CodesDiffer(e: Ecc, m: MaskId, f: Ecc, n: MaskId)
    ensures LevelCode(e) == LevelCode(f) ==> e == f
    ensures MaskCode(m) == MaskCode(n) ==> m == n
  {
  }

  lemma JoinedParts(a: bv32, b: bv32, x: bv32)
    requires a < 4 && b < 8 && x == (a << 3) | b
    ensures x >> 3 == a && x & 7 == b
  {
  }

  lemma DataDiffer(e: Ecc, m: MaskId, f: Ecc, n: MaskId)
    requires e != f || m != n
    ensures FormatData(e, m) != FormatData(f, n)
  {
    hide LevelCode, MaskCode;
    CodesBelow(e, m);
    CodesBelow(f, n);
    CodesDiffer(e, m, f, n);
    JoinedParts(LevelCode(e), MaskCode(m), FormatData(e, m));
    JoinedParts(LevelCode(f), MaskCode(n), FormatData(f, n));
  }

  lemma DistanceIs(a: bv32, b: bv32, x: bv32)
    requires x == a ^ b
    ensures Distance(a, b) == Weight(x)
  {
    hide Weight;
  }

  lemma MaskedDistance(p: bv32, q: bv32, c: bv32, d: bv32, x: bv32)
    requires p == c ^ 0x5412 && q == d ^ 0x5412 && x == (c ^ 0x5412) ^ (d ^ 0x5412)
    ensures Distance(p, q) == Weight(x)
  {
    hide Weight;
  }

  /** Two different format words differ in at least seven bits. */
  lemma FormatDistance(e: Ecc, m: MaskId, f: Ecc, n: MaskId)
    requires e != f || m != n
    ensures Distance(FormatWord(e, m), FormatWord(f, n)) >= 7
  {
    hide *;
    FormatWordIsCode(e, m);
    FormatWordIsCode(f, n);
    DataDiffer(e, m, f, n);
    var c, d := FormatCode(FormatData(e, m)), FormatCode(FormatData(f, n));
    var x := (c ^ 0x5412) ^ (d ^ 0x5412);
    FormatCodesApart(FormatData(e, m), FormatData(f, n), c, d, x);
    MaskedDistance(FormatWord(e, m), FormatWord(f, n), c, d, x);
  }

  /** A version number from its six bits. */
  function VersionOf(x: bv32): int {
    (if x & 1 != 0 then 1 else 0) + (if x & 2 != 0 then 2 else 0) + (if x & 4 != 0 then 4 else 0) +
    (if x & 8 != 0 then 8 else 0) + (if x & 16 != 0 then 16 else 0) + (if x & 32 != 0 then 32 else 0)
  }

  lemma SmallVersionOfWord(v: Version)
    requires v <= 13
    ensures VersionOf(v as bv32) == v
  {
    match v
    case 1 => case 2 => case 3 => case 4 => case 5 => case 6 => case 7 => case 8 => case 9 => case 10 =>
    case 11 => case 12 => case 13 =>
  }

  lemma MiddleVersionOfWord(v: Version)
    requires 14 <= v <= 26
    ensures VersionOf(v as bv32) == v
  {
    match v
    case 14 => case 15 => case 16 => case 17 => case 18 => case 19 => case 20 => case 21 => case 22 => case 23 =>
    case 24 => case 25 => case 26 =>
  }

  lemma LargeVersionOfWord(v: Version)
    requires 27 <= v
    ensures VersionOf(v as bv32) == v
  {
    match v
    case 27 => case 28 => case 29 => case 30 => case 31 => case 32 => case 33 => case 34 => case 35 => case 36 =>
    case 37 => case 38 => case 39 => case 40 =>
  }

  /** The cast of a version to a word loses nothing. */
  lemma VersionOfWord(v: Version)
    ensures VersionOf(v as bv32) == v
  {
    hide VersionOf;
    if v <= 13 {
      SmallVersionOfWord(v);
    } else if v <= 26 {
      MiddleVersionOfWord(v);
    } else {
      LargeVersionOfWord(v);
    }
  }

  /** Two different version words differ in at least eight bits. */
  lemma VersionDistance(v: Version, w: Version)
    requires v < w
    ensures Distance(VersionWord(v), VersionWord(w)) >= 8
  {
    hide *;
    VersionWordIsCode(v);
    VersionWordIsCode(w);
    VersionOfWord(v);
    VersionOfWord(w);
    var c, d := VersionCode(v as bv32), VersionCode(w as bv32);
    var x := c ^ d;
    VersionCodesApart(v as bv32, w as bv32, c, d, x);
    DistanceIs(c, d, x);
  }

  lemma LowTriangle(p: bv32, q: bv32)
    ensures LowWeight(p ^ q) <= LowWeight(p) + LowWeight(q)
  {
  }

  lemma MiddleTriangle(p: bv32, q: bv32)
    ensures MiddleWeight(p ^ q) <= MiddleWeight(p) + MiddleWeight(q)
  {
  }

  lemma HighTriangle(p: bv32, q: bv32)
    ensures HighWeight(p ^ q) <= HighWeight(p) + HighWeight(q)
  {
  }

  lemma WeightTriangle(p: bv32, q: bv32)
    ensures Weight(p ^ q) <= Weight(p) + Weight(q)
  {
    hide LowWeight, MiddleWeight, HighWeight;
    LowTriangle(p, q);
    MiddleTriangle(p, q);
    HighTriangle(p, q);
  }

  lemma ThroughWord(a: bv32, b: bv32, word: bv32)
    ensures a ^ b == (a ^ word) ^ (b ^ word)
  {
  }

  lemma DistanceTriangle(a: bv32, b: bv32, word: bv32)
    ensures Distance(a, b) <= Distance(a, word) + Distance(b, word)
  {
    hide Weight;
    ThroughWord(a, b, word);
    WeightTriangle(a ^ word, b ^ word);
  }

  /** Three damaged bits leave level and mask determined. */
  lemma FormatNearest(word: bv32, e: Ecc, m: MaskId, f: Ecc, n: MaskId)
    requires Distance(FormatWord(e, m), word) <= 3 && Distance(FormatWord(f, n), word) <= 3
    ensures e == f && m == n
  {
    hide FormatWord, Distance;
    DistanceTriangle(FormatWord(e, m), FormatWord(f, n), word);
    if e != f || m != n {
      FormatDistance(e, m, f, n);
    }
  }

  /** Three damaged bits leave the version determined. */
  lemma VersionNearest(word: bv32, v: Version, w: Version)
    requires Distance(VersionWord(v), word) <= 3 && Distance(VersionWord(w), word) <= 3
    ensures v == w
  {
    hide VersionWord, Distance;
    DistanceTriangle(VersionWord(v), VersionWord(w), word);
    DistanceTriangle(VersionWord(w), VersionWord(v), word);
    if v < w {
      VersionDistance(v, w);
    } else if w < v {
      VersionDistance(w, v);
    }
  }
}
