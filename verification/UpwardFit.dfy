/** When what fits a version fits a larger one. The count fields widen after versions 9 and 26, so it need not; the
    exact condition, for all lists of segments. */
module UpwardFit {
  import opened Bytes
  import opened VersionInfo
  import opened Segments
  import opened DataStream
  import opened Selection

  // ---------- how headers widen ----------

  /** The versions fall into three classes with equal count fields. */
  function FieldClass(v: Version): nat {
    (v + 7) / 17
  }

  /** The most bits that a header gains between two versions. */
  function MaxGrowth(v: Version, w: Version): nat {
    if FieldClass(v) == FieldClass(w) then 0 else if FieldClass(v) == 0 then 8 else 2
  }

  /** The narrowest header that gains that much: byte mode in the first class, Kanji mode in the second. */
  function NarrowHeader(v: Version): nat {
    if FieldClass(v) == 0 then 12 else 14
  }

  lemma HeaderGrowth(mode: Mode, v: Version, w: Version)
    requires v <= w
    ensures NumCharCountBits(mode, v) <= NumCharCountBits(mode, w) <= NumCharCountBits(mode, v) + MaxGrowth(v, w)
    ensures NumCharCountBits(mode, v) < NumCharCountBits(mode, w) ==> NarrowHeader(v) <= 4 + NumCharCountBits(mode, v)
  {
    assert FieldClass(v) <= FieldClass(w) <= 2;
  }

  /** The number of segments whose header widens. */
  function Widening(segs: seq<Segment>, v: Version, w: Version): nat {
    if segs == [] then 0
    else
      var n := |segs| - 1;
      Widening(segs[..n], v, w) + if NumCharCountBits(segs[n].mode, v) < NumCharCountBits(segs[n].mode, w) then 1 else 0
  }

  lemma {:induction false} LengthGrowth(segs: seq<Segment>, v: Version, w: Version)
    requires v <= w
    ensures LengthSum(segs, w) <= LengthSum(segs, v) + MaxGrowth(v, w) * Widening(segs, v, w)
    ensures NarrowHeader(v) * Widening(segs, v, w) <= LengthSum(segs, v)
  {
    hide NumCharCountBits, MaxGrowth, NarrowHeader;
    if segs != [] {
      var n := |segs| - 1;
      LengthGrowth(segs[..n], v, w);
      HeaderGrowth(segs[n].mode, v, w);
      OneMore(MaxGrowth(v, w), Widening(segs[..n], v, w));
      OneMore(NarrowHeader(v), Widening(segs[..n], v, w));
    }
  }

  lemma OneMore(g: nat, n: nat)
    ensures g * (n + 1) == g * n + g
  {
  }

  lemma CountsCarry(segs: seq<Segment>, v: Version, w: Version)
    requires v <= w && CountsFit(segs, v)
    ensures CountsFit(segs, w)
  {
    hide NumCharCountBits, Pow2, MaxGrowth, NarrowHeader;
    forall i | 0 <= i < |segs|
      ensures segs[i].numChars < Pow2(NumCharCountBits(segs[i].mode, w))
    {
      HeaderGrowth(segs[i].mode, v, w);
      Pow2Monotone(NumCharCountBits(segs[i].mode, v), NumCharCountBits(segs[i].mode, w));
    }
  }

  // ---------- the condition ----------

  /** A full version v, all of it short headers that widen, still fits w: sizes are in bytes, `a` and `b`. */
  predicate RoomForGrowth(a: nat, b: nat, growth: nat, header: nat)
    requires header > 0
  {
    8 * a + growth * (8 * a / header) <= 8 * b
  }

  predicate CarriesUp(v: Version, w: Version, e: Ecc) {
    DataPositive(v, e);
    DataPositive(w, e);
    RoomForGrowth(NumDataCodewords(v, e), NumDataCodewords(w, e), MaxGrowth(v, w), NarrowHeader(v))
  }

  lemma DataPositive(v: Version, e: Ecc)
    ensures 9 <= NumDataCodewords(v, e) <= 2956
  {
    hide *;
    EntryBounds(v, e);
  }

  /** Under the condition, whatever fits v fits w. */
  lemma FitCarries(segs: seq<Segment>, v: Version, w: Version, e: Ecc)
    requires v <= w && CarriesUp(v, w, e) && Fits(segs, v, e)
    ensures Fits(segs, w, e)
  {
    hide NumCharCountBits, NumDataCodewords, MaxGrowth, NarrowHeader, CountsFit, LengthSum, Widening;
    CountsCarry(segs, v, w);
    LengthGrowth(segs, v, w);
    DataPositive(v, e);
    DataPositive(w, e);
    HeaderPositive(v);
    GrowthFits(MaxGrowth(v, w), NarrowHeader(v), Widening(segs, v, w), 8 * NumDataCodewords(v, e));
  }

  lemma HeaderPositive(v: Version)
    ensures NarrowHeader(v) > 0
  {
  }

  lemma GrowthFits(growth: nat, header: nat, n: nat, room: nat)
    requires header > 0 && header * n <= room
    ensures growth * n <= growth * (room / header)
  {
    assert room == header * (room / header) + room % header;
    if room / header < n {
      MulMonotone(room / header + 1, n, header);
      OneMore(header, room / header);
    }
    MulMonotone(n, room / header, growth);
  }

  /** Inside one class of count fields everything carries upward. */
  lemma SameClassCarries(v: Version, w: Version, e: Ecc)
    requires v <= w && FieldClass(v) == FieldClass(w)
    ensures CarriesUp(v, w, e)
  {
    hide NumDataCodewords, NarrowHeader, FieldClass;
    if v < w {
      CapacityGrows(v, w, e);
    }
  }

  // ---------- exactly which pairs of versions fail ----------

  /** The pairs of versions between which some list of segments is lost. */
  predicate Lost(v: Version, w: Version, e: Ecc) {
    || (v == 8 && (w == 10 || (w == 11 && e != LOW)))
    || (v == 9 && 10 <= w <= 12)
    || (v == 25 && w == 27 && (e == MEDIUM || e == QUARTILE))
    || (v == 26 && (w == 27 || (w == 28 && e != QUARTILE)))
  }

  /** The condition is inherited by smaller v and larger w. */
  lemma CarriesWider(v: Version, w: Version, v': Version, w': Version, e: Ecc)
    requires v <= v' && w' <= w && CarriesUp(v', w', e)
    requires MaxGrowth(v, w) == MaxGrowth(v', w') && NarrowHeader(v) == NarrowHeader(v')
    ensures CarriesUp(v, w, e)
  {
    hide NumDataCodewords, MaxGrowth, NarrowHeader;
    CapacityRises(v, v', e);
    CapacityRises(w', w, e);
    DataPositive(v, e);
    HeaderPositive(v);
    RoomMonotone(NumDataCodewords(v, e), NumDataCodewords(v', e), MaxGrowth(v, w), NarrowHeader(v));
  }

  lemma CapacityRises(v: Version, w: Version, e: Ecc)
    requires v <= w
    ensures NumDataCodewords(v, e) <= NumDataCodewords(w, e)
  {
    hide NumDataCodewords;
    if v < w {
      CapacityGrows(v, w, e);
    }
  }

  lemma RoomMonotone(a: nat, a': nat, growth: nat, header: nat)
    requires header > 0 && a <= a'
    ensures 8 * a + growth * (8 * a / header) <= 8 * a' + growth * (8 * a' / header)
  {
    var q := 8 * a / header;
    assert 8 * a == header * q + 8 * a % header;
    GrowthFits(growth, header, q, 8 * a');
  }

  /** The condition in terms of the list of capacities. */
  lemma CarriesByTable(v: Version, w: Version, e: Ecc)
    ensures Capacity(v, e) > 0 && Capacity(w, e) > 0 && NarrowHeader(v) > 0
    ensures CarriesUp(v, w, e) <==> RoomForGrowth(Capacity(v, e), Capacity(w, e), MaxGrowth(v, w), NarrowHeader(v))
  {
    hide NumDataCodewords, Capacity, MaxGrowth;
    CapacityIs(v, e);
    CapacityIs(w, e);
    DataPositive(v, e);
    DataPositive(w, e);
  }

  /** The pairs at the edge of the first class. */
  lemma FirstEdge(e: Ecc)
    ensures CarriesUp(7, 10, e) && CarriesUp(8, 12, e) && CarriesUp(9, 13, e)
    ensures !CarriesUp(8, 10, e) && (CarriesUp(8, 11, e) <==> e == LOW)
    ensures !CarriesUp(9, 10, e) && !CarriesUp(9, 11, e) && !CarriesUp(9, 12, e)
  {
    hide CarriesUp;
    CarriesByTable(7, 10, e);
    CarriesByTable(8, 10, e);
    CarriesByTable(8, 11, e);
    CarriesByTable(8, 12, e);
    CarriesByTable(9, 10, e);
    CarriesByTable(9, 11, e);
    CarriesByTable(9, 12, e);
    CarriesByTable(9, 13, e);
    assert e == LOW || e == MEDIUM || e == QUARTILE || e == HIGH;
  }

  /** The pairs at the edge of the second class. */
  lemma SecondEdge(e: Ecc)
    ensures CarriesUp(24, 27, e) && CarriesUp(25, 28, e) && CarriesUp(26, 29, e)
    ensures (CarriesUp(25, 27, e) <==> e == LOW || e == HIGH)
    ensures !CarriesUp(26, 27, e) && (CarriesUp(26, 28, e) <==> e == QUARTILE)
  {
    hide CarriesUp;
    CarriesByTable(24, 27, e);
    CarriesByTable(25, 27, e);
    CarriesByTable(25, 28, e);
    CarriesByTable(26, 27, e);
    CarriesByTable(26, 28, e);
    CarriesByTable(26, 29, e);
    assert e == LOW || e == MEDIUM || e == QUARTILE || e == HIGH;
  }

  /** Only these pairs fail the condition: they lie just past versions 9 and 26. */
  lemma ExactlyLost(v: Version, w: Version, e: Ecc)
    requires v < w
    ensures CarriesUp(v, w, e) <==> !Lost(v, w, e)
  {
    hide CarriesUp;
    if FieldClass(v) == FieldClass(w) {
      SameClassCarries(v, w, e);
    } else if v <= 9 {
      FirstEdge(e);
      if v <= 7 {
        CarriesWider(v, w, 7, 10, e);
      } else if v == 8 && 12 <= w {
        CarriesWider(8, w, 8, 12, e);
      } else if v == 9 && 13 <= w {
        CarriesWider(9, w, 9, 13, e);
      }
    } else {
      SecondEdge(e);
      if v <= 24 {
        CarriesWider(v, w, 24, 27, e);
      } else if v == 25 && 28 <= w {
        CarriesWider(25, w, 25, 28, e);
      } else if v == 26 && 29 <= w {
        CarriesWider(26, w, 26, 29, e);
      }
    }
  }

  // ---------- the lists that are lost ----------

  /** n empty segments of one mode. */
  function Empties(mode: Mode, n: nat): (segs: seq<Segment>)
    ensures |segs| == n && forall i | 0 <= i < n :: segs[i] == Segment(mode, 0, null, 0)
  {
    seq(n, _ => Segment(mode, 0, null, 0))
  }

  lemma {:induction false} EmptiesLength(mode: Mode, n: nat, v: Version)
    ensures LengthSum(Empties(mode, n), v) == n * (4 + NumCharCountBits(mode, v))
  {
    hide NumCharCountBits;
    if n > 0 {
      EmptiesLength(mode, n - 1, v);
      assert Empties(mode, n)[..n - 1] == Empties(mode, n - 1);
    }
  }

  /** What the documentation of a segment demands, count and bit length included. */
  ghost predicate Proper(segs: seq<Segment>) {
    forall i | 0 <= i < |segs| ::
      ValidSegment(segs[i]) && segs[i].bitLength == CalcSegmentBitLength(segs[i].mode, segs[i].numChars)
  }

  /** As many empty segments as fit a version, with the header that widens most. */
  function Fill(v: Version, e: Ecc): nat {
    DataPositive(v, e);
    8 * NumDataCodewords(v, e) / NarrowHeader(v)
  }

  /** Between the lost pairs, empty segments alone overflow the larger version. */
  lemma FillOverflows(v: Version, w: Version, e: Ecc)
    requires Lost(v, w, e)
    ensures (NarrowHeader(v) + MaxGrowth(v, w)) * Fill(v, e) > 8 * NumDataCodewords(w, e)
  {
    hide NumDataCodewords;
    CapacityIs(v, e);
    CapacityIs(w, e);
    var a, b := Capacity(v, e), Capacity(w, e);
    if v == 8 {
      assert a == [194, 154, 110, 86][e] && b == if w == 10 then [274, 216, 154, 122][e] else [324, 254, 180, 140][e];
    } else if v == 9 {
      assert a == [232, 182, 132, 100][e] && b <= [370, 290, 206, 158][e];
    } else if v == 25 {
      assert a == [1276, 1000, 718, 538][e] && b == [1468, 1128, 808, 628][e];
    } else {
      assert a == [1370, 1062, 754, 596][e] &&
             b == if w == 27 then [1468, 1128, 808, 628][e] else [1531, 1193, 871, 661][e];
    }
  }

  /** A list of proper segments that fits v and not w. */
  lemma FitLost(v: Version, w: Version, e: Ecc) returns (segs: seq<Segment>)
    requires v < w && !CarriesUp(v, w, e)
    ensures Proper(segs) && Fits(segs, v, e) && !Fits(segs, w, e)
  {
    hide NumDataCodewords, CarriesUp, LengthSum, Fill;
    ExactlyLost(v, w, e);
    FillOverflows(v, w, e);
    FillFits(v, e);
    var mode := if FieldClass(v) == 0 then Byte else Kanji;
    segs := Empties(mode, Fill(v, e));
    EmptiesLength(mode, Fill(v, e), v);
    EmptiesLength(mode, Fill(v, e), w);
    assert 4 + NumCharCountBits(mode, v) == NarrowHeader(v);
    assert 4 + NumCharCountBits(mode, w) == NarrowHeader(v) + MaxGrowth(v, w);
  }

  lemma FillFits(v: Version, e: Ecc)
    ensures Fill(v, e) * NarrowHeader(v) <= 8 * NumDataCodewords(v, e) <= INT16_MAX
  {
    hide NumDataCodewords;
    DataPositive(v, e);
  }

  /** The condition is exact: everything that fits v fits w if and only if the capacities leave room for growth; and
      restricting attention to proper segments changes nothing. */
  lemma UpwardExactlyWhen(v: Version, w: Version, e: Ecc)
    requires v < w
    ensures (forall segs: seq<Segment> :: Fits(segs, v, e) ==> Fits(segs, w, e)) <==> CarriesUp(v, w, e)
    ensures (forall segs: seq<Segment> | Proper(segs) :: Fits(segs, v, e) ==> Fits(segs, w, e)) <==> CarriesUp(v, w, e)
  {
    hide CarriesUp, Fits, Proper;
    if CarriesUp(v, w, e) {
      forall segs: seq<Segment> | Fits(segs, v, e)
        ensures Fits(segs, w, e)
      {
        FitCarries(segs, v, w, e);
      }
    } else {
      var segs := FitLost(v, w, e);
      assert Proper(segs) && Fits(segs, v, e) && !Fits(segs, w, e);
    }
  }

  /** One such list: it fits version 9 and not version 10. */
  lemma FitNotMonotone() returns (segs: seq<Segment>)
    ensures Proper(segs) && Fits(segs, 9, LOW) && !Fits(segs, 10, LOW)
  {
    hide CarriesUp, Fits, Proper;
    FirstEdge(LOW);
    segs := FitLost(9, 10, LOW);
  }

  /** In a range without lost pairs the largest version decides whether encoding succeeds. */
  lemma LargestDecides(segs: seq<Segment>, e: Ecc, minVersion: Version, maxVersion: Version)
    requires minVersion <= maxVersion && forall v: Version | minVersion <= v < maxVersion :: !Lost(v, maxVersion, e)
    ensures (exists v: Version :: minVersion <= v <= maxVersion && Fits(segs, v, e)) <==> Fits(segs, maxVersion, e)
  {
    hide CarriesUp, Fits, Lost;
    if v: Version :| minVersion <= v < maxVersion && Fits(segs, v, e) {
      ExactlyLost(v, maxVersion, e);
      FitCarries(segs, v, maxVersion, e);
    }
    assert Fits(segs, maxVersion, e) ==> exists v: Version :: minVersion <= v <= maxVersion && Fits(segs, v, e);
  }

  /** A single segment is never lost. */
  lemma SingleCarries(seg: Segment, v: Version, w: Version, e: Ecc)
    requires v <= w && Fits([seg], v, e)
    ensures Fits([seg], w, e)
  {
    hide NumCharCountBits, NumDataCodewords, CountsFit;
    if v < w {
      CountsCarry([seg], v, w);
      CapacityGrows(v, w, e);
      HeaderGrowth(seg.mode, v, w);
      DataPositive(w, e);
      assert [seg][..0] == [];
      assert LengthSum([seg], v) == 4 + NumCharCountBits(seg.mode, v) + seg.bitLength;
      assert LengthSum([seg], w) == 4 + NumCharCountBits(seg.mode, w) + seg.bitLength;
    }
  }
}
