/** Choosing the version and the error correction level. */
module Selection {
  import opened VersionInfo
  import opened Segments
  import opened DataStream

  /** The segments can be stored in this version at this level. */
  ghost predicate Fits(segs: seq<Segment>, v: Version, e: Ecc) {
    CountsFit(segs, v) && LengthSum(segs, v) <= INT16_MAX && LengthSum(segs, v) <= 8 * NumDataCodewords(v, e)
  }

  /** The least version of the range in which the segments fit at the requested level. */
  ghost predicate IsLeastVersion(segs: seq<Segment>, e: Ecc, minVersion: int, maxVersion: int, v: Version) {
    minVersion <= v <= maxVersion && Fits(segs, v, e) &&
    forall w: Version | minVersion <= w < v :: !Fits(segs, w, e)
  }

  /** The level kept or, when boosting, the highest one at which the segments still fit the version. */
  ghost predicate IsFinalLevel(segs: seq<Segment>, v: Version, requested: Ecc, boost: bool, e: Ecc) {
    && requested <= e && Fits(segs, v, e)
    && (if boost then forall f: Ecc | e < f :: !Fits(segs, v, f) else e == requested)
  }

  /** Fitting is inherited by every lower level. */
  lemma FitsBelow(segs: seq<Segment>, v: Version, e: Ecc, f: Ecc)
    requires Fits(segs, v, f) && e <= f
    ensures Fits(segs, v, e)
  {
    hide CountsFit, LengthSum, NumDataCodewords;
    CapacityDecreases(v, e, f);
  }

  /** The search loop over the versions. */
  method FindVersion(segs: seq<Segment>, ecl: Ecc, minVersion: Version, maxVersion: Version)
    returns (found: bool, version: Version, dataUsedBits: nat)
    requires minVersion <= maxVersion
    ensures found <==> exists v: Version :: minVersion <= v <= maxVersion && Fits(segs, v, ecl)
    ensures found ==> IsLeastVersion(segs, ecl, minVersion, maxVersion, version)
    ensures found ==> dataUsedBits == LengthSum(segs, version)
  {
    hide CountsFit, LengthSum, NumDataCodewords;
    version := minVersion;
    dataUsedBits := 0;
    while true
      invariant minVersion <= version <= maxVersion
      invariant forall w: Version | minVersion <= w < version :: !Fits(segs, w, ecl)
      decreases maxVersion - version
    {
      var dataCapacityBits := NumDataCodewords(version, ecl) * 8;
      var used := GetTotalBits(segs, version);
      if used != -1 && used <= dataCapacityBits {
        assert Fits(segs, version, ecl);
        dataUsedBits := used;
        found := true;
        return;
      }
      if version >= maxVersion {
        found := false;
        return;
      }
      version := version + 1;
    }
  }

  /** The boosting loop. */
  method BoostLevel(ghost segs: seq<Segment>, version: Version, ecl: Ecc, boostEcl: bool, dataUsedBits: nat)
    returns (level: Ecc)
    requires Fits(segs, version, ecl) && dataUsedBits == LengthSum(segs, version)
    ensures IsFinalLevel(segs, version, ecl, boostEcl, level)
  {
    hide CountsFit, LengthSum, NumDataCodewords;
    level := ecl;
    for i := MEDIUM to HIGH + 1
      invariant Fits(segs, version, level)
      invariant !boostEcl ==> level == ecl
      invariant boostEcl ==> forall f: Ecc | f < i && Fits(segs, version, f) :: f <= level
      invariant boostEcl ==> level == ecl || level < i
      invariant boostEcl && ecl < i ==> ecl <= level
    {
      var e: Ecc := i;
      if boostEcl && dataUsedBits <= NumDataCodewords(version, e) * 8 {
        level := e;
      }
    }
  }
}
