/** What the error correction is worth: distinct blocks have codewords that differ in more places than there are
    check bytes. */
module MinimumDistance {
  import opened GaloisField
  import opened ReedSolomon

  // ---------- weighted power sums ----------

  /** The sum of c_k * X_k^j with X_k = 2^es[k]. */
  function PowerSum(cs: seq<bv8>, es: seq<nat>, j: nat): bv8
    requires |cs| == |es|
  {
    if cs == [] then 0
    else
      var n := |cs| - 1;
      Add(PowerSum(cs[..n], es[..n], j), Times(cs[n], Exp(es[n] * j)))
  }

  /** Each c_k multiplied by (X_k + x). */
  function Weighted(cs: seq<bv8>, es: seq<nat>, x: bv8): (ds: seq<bv8>)
    requires |cs| == |es|
    ensures |ds| == |cs|
  {
    seq(|cs|, k requires 0 <= k < |cs| => Times(cs[k], Add(Exp(es[k]), x)))
  }

  lemma {:induction false} WeightedSum(cs: seq<bv8>, es: seq<nat>, x: bv8, j: nat)
    requires |cs| == |es|
    ensures PowerSum(Weighted(cs, es, x), es, j) == Add(PowerSum(cs, es, j + 1), Times(PowerSum(cs, es, j), x))
  {
    hide Add, Times, Exp;
    ZeroTimes(x);
    AddFacts(0, 0, 0);
    if cs != [] {
      var n := |cs| - 1;
      var c, e := cs[n], es[n];
      WeightedSum(cs[..n], es[..n], x, j);
      assert Weighted(cs, es, x)[..n] == Weighted(cs[..n], es[..n], x);
      var s0, s1 := PowerSum(cs[..n], es[..n], j), PowerSum(cs[..n], es[..n], j + 1);
      var p := Exp(e * j);
      WeightedTerm(c, e, x, j);
      Distribute(x, s0, Times(c, p));
      AddSwap(s1, Times(s0, x), Times(c, Exp(e * (j + 1))), Times(Times(c, p), x));
    }
  }

  lemma WeightedTerm(c: bv8, e: nat, x: bv8, j: nat)
    ensures Times(Times(c, Add(Exp(e), x)), Exp(e * j)) ==
            Add(Times(c, Exp(e * (j + 1))), Times(Times(c, Exp(e * j)), x))
  {
    hide Add, Times, Exp;
    var p, q := Exp(e * j), Exp(e);
    assert e * (j + 1) == e + e * j;
    ExpAdd(e, e * j);
    Distribute(c, q, x);
    Distribute(p, Times(c, q), Times(c, x));
    Associate(c, q, p);
    Associate(c, x, p);
    Associate(c, p, x);
    Commute(x, p);
  }

  ghost predicate Distinct(es: seq<nat>) {
    (forall k | 0 <= k < |es| :: es[k] < 255) &&
    forall j, k | 0 <= j < k < |es| :: es[j] != es[k]
  }

  /** A Vandermonde system with distinct nodes has only the zero solution. */
  lemma {:induction false} Vandermonde(cs: seq<bv8>, es: seq<nat>)
    requires |cs| == |es| && Distinct(es)
    requires forall j: nat | j < |cs| :: PowerSum(cs, es, j) == 0
    ensures forall k | 0 <= k < |cs| :: cs[k] == 0
    decreases |cs|
  {
    hide Add, Times, Exp;
    if cs == [] {
      return;
    }
    var n := |cs| - 1;
    var x := Exp(es[n]);
    var ds := Weighted(cs, es, x);
    AddFacts(0, 0, 0);
    forall j: nat | j < n
      ensures PowerSum(ds[..n], es[..n], j) == 0
    {
      WeightedSum(cs, es, x, j);
      ZeroTimes(x);
      LastTermVanishes(cs, es, j);
    }
    Vandermonde(ds[..n], es[..n]);
    forall k | 0 <= k < n
      ensures cs[k] == 0
    {
      assert ds[k] == ds[..n][k] == 0;
      NoZeroDivisors(cs[k], Add(Exp(es[k]), x));
      AddZero(Exp(es[k]), x);
      DistinctPowers(es[k], es[n]);
    }
    ZeroSum(cs[..n], es[..n], 0);
    assert PowerSum(cs, es, 0) == Times(cs[n], Exp(es[n] * 0)) by { AddFacts(Times(cs[n], Exp(es[n] * 0)), 0, 0); }
    ExpZero();
    One(cs[n]);
  }

  lemma DistinctPowers(j: nat, k: nat)
    requires j < 255 && k < 255 && j != k
    ensures Exp(j) != Exp(k)
  {
    hide Exp;
    if j < k {
      ExpInjective(j, k);
    } else {
      ExpInjective(k, j);
    }
  }

  lemma LastTermVanishes(cs: seq<bv8>, es: seq<nat>, j: nat)
    requires |cs| == |es| > 0
    ensures var n, ds := |cs| - 1, Weighted(cs, es, Exp(es[|cs| - 1]));
            PowerSum(ds, es, j) == PowerSum(ds[..n], es[..n], j)
  {
    hide Add, Times, Exp;
    var n, x := |cs| - 1, Exp(es[|cs| - 1]);
    var ds := Weighted(cs, es, x);
    AddFacts(x, x, 0);
    ZeroTimes(cs[n]);
    ZeroTimes(Exp(es[n] * j));
    AddFacts(PowerSum(ds[..n], es[..n], j), 0, 0);
  }

  lemma {:induction false} ZeroSum(cs: seq<bv8>, es: seq<nat>, j: nat)
    requires |cs| == |es| && forall k | 0 <= k < |cs| :: cs[k] == 0
    ensures PowerSum(cs, es, j) == 0
  {
    hide Add, Times, Exp;
    if cs != [] {
      var n := |cs| - 1;
      ZeroSum(cs[..n], es[..n], j);
      ZeroTimes(Exp(es[n] * j));
      AddFacts(0, 0, 0);
    }
  }

  // ---------- a word and its nonzero places ----------

  /** The nonzero coefficients of a word, last place first. */
  ghost function Support(w: seq<bv8>): seq<bv8>
  {
    if w == [] then [] else Support(w[1..]) + if w[0] != 0 then [w[0]] else []
  }

  /** Their exponents. */
  ghost function Places(w: seq<bv8>): (es: seq<nat>)
    ensures |es| == |Support(w)|
    ensures forall k | 0 <= k < |es| :: es[k] < |w|
    ensures forall j, k | 0 <= j < k < |es| :: es[j] < es[k]
  {
    if w == [] then [] else Places(w[1..]) + if w[0] != 0 then [|w| - 1] else []
  }

  /** The number of nonzero bytes. */
  ghost function Weight(w: seq<bv8>): (n: nat)
    ensures n == |Support(w)|
  {
    if w == [] then 0 else Weight(w[1..]) + if w[0] != 0 then 1 else 0
  }

  lemma {:induction false} EvalCons(c: bv8, p: seq<bv8>, j: nat)
    ensures Eval([c] + p, Exp(j)) == Add(Eval(p, Exp(j)), Times(c, Exp(|p| * j)))
    decreases |p|
  {
    hide Add, Times, Exp;
    var x := Exp(j);
    if p == [] {
      assert [c][..0] == [] && [c] + p == [c];
      ZeroTimes(x);
      ExpZero();
      One(c);
    } else {
      var n := |p| - 1;
      EvalCons(c, p[..n], j);
      assert ([c] + p)[..n + 1] == [c] + p[..n];
      var u, t := Eval(p[..n], x), Times(c, Exp(n * j));
      Distribute(x, u, t);
      Associate(c, Exp(n * j), x);
      ExpAdd(n * j, j);
      assert n * j + j == |p| * j;
      AddFacts(Times(u, x), Times(t, x), p[n]);
      AddFacts(Times(t, x), p[n], 0);
      AddFacts(Times(u, x), p[n], Times(t, x));
    }
  }

  lemma PowerSumAppend(cs: seq<bv8>, es: seq<nat>, c: bv8, e: nat, j: nat)
    requires |cs| == |es|
    ensures PowerSum(cs + [c], es + [e], j) == Add(PowerSum(cs, es, j), Times(c, Exp(e * j)))
  {
    hide Add, Times, Exp;
    assert (cs + [c])[..|cs|] == cs && (es + [e])[..|es|] == es;
  }

  lemma PowerSumEmpty(j: nat)
    ensures PowerSum([], [], j) == 0
  {
  }

  lemma {:induction false} EvalIsPowerSum(w: seq<bv8>, j: nat)
    ensures Eval(w, Exp(j)) == PowerSum(Support(w), Places(w), j)
  {
    hide Add, Times, Exp, Eval, PowerSum;
    PowerSumEmpty(j);
    if w == [] {
      assert Eval(w, Exp(j)) == 0 by { EvalEmpty(Exp(j)); }
    } else {
      EvalIsPowerSum(w[1..], j);
      assert w == [w[0]] + w[1..];
      EvalCons(w[0], w[1..], j);
      ZeroTimes(Exp(|w[1..]| * j));
      AddFacts(Eval(w[1..], Exp(j)), 0, 0);
      var s, p := Support(w[1..]), Places(w[1..]);
      if w[0] != 0 {
        PowerSumAppend(s, p, w[0], |w| - 1, j);
      } else {
        assert s + [] == s && p + [] == p;
      }
    }
  }

  lemma EvalEmpty(x: bv8)
    ensures Eval([], x) == 0
  {
  }

  lemma {:induction false} SupportNonzero(w: seq<bv8>)
    ensures if |Support(w)| > 0 then Support(w)[0] != 0 else forall k | 0 <= k < |w| :: w[k] == 0
  {
    if w != [] {
      SupportNonzero(w[1..]);
      assert forall k | 0 < k < |w| :: w[k] == w[1..][k - 1];
    }
  }

  /** A word of at most 255 bytes that vanishes at 2^0 .. 2^(m-1) is zero or has more than m nonzero bytes. */
  lemma RootsForceWeight(w: seq<bv8>, m: nat)
    requires |w| <= 255
    requires forall j: nat | j < m :: Eval(w, Exp(j)) == 0
    requires exists k :: 0 <= k < |w| && w[k] != 0
    ensures Weight(w) > m
  {
    hide Add, Times, Exp, Eval, Support, Places;
    if Weight(w) <= m {
      forall j: nat | j < |Support(w)|
        ensures PowerSum(Support(w), Places(w), j) == 0
      {
        EvalIsPowerSum(w, j);
      }
      Vandermonde(Support(w), Places(w));
      SupportNonzero(w);
    }
  }

  /** The number of places where two equally long words differ. */
  ghost function Distance(a: seq<bv8>, b: seq<bv8>): nat
    requires |a| == |b|
  {
    if a == [] then 0 else Distance(a[1..], b[1..]) + if a[0] != b[0] then 1 else 0
  }

  lemma {:induction false} DistanceIsWeight(a: seq<bv8>, b: seq<bv8>)
    requires |a| == |b|
    ensures Distance(a, b) == Weight(AddPoly(a, b))
  {
    hide Add;
    if a != [] {
      DistanceIsWeight(a[1..], b[1..]);
      assert AddPoly(a, b)[1..] == AddPoly(a[1..], b[1..]);
      AddZero(a[0], b[0]);
    }
  }

  /** Two different blocks of one length have codewords at distance more than `degree`, so up to degree/2 damaged
      bytes leave the original block the only closest one. */
  lemma MinimumDistance(a: seq<bv8>, b: seq<bv8>, degree: nat)
    requires degree > 0 && |a| == |b| && |a| + degree <= 255 && a != b
    ensures Distance(Codeword(a, degree), Codeword(b, degree)) > degree
  {
    hide Add, Times, Exp, Eval, Codeword, AddPoly;
    var ca, cb := Codeword(a, degree), Codeword(b, degree);
    var w := AddPoly(ca, cb);
    forall j: nat | j < degree
      ensures Eval(w, Exp(j)) == 0
    {
      EvalAdd(ca, cb, Exp(j));
      CodewordRoots(a, degree, j);
      CodewordRoots(b, degree, j);
      AddFacts(0, 0, 0);
    }
    var k :| 0 <= k < |a| && a[k] != b[k];
    CodewordFront(a, degree, k);
    CodewordFront(b, degree, k);
    SumAt(ca, cb, k);
    RootsForceWeight(w, degree);
    DistanceIsWeight(ca, cb);
  }

  lemma CodewordFront(a: seq<bv8>, degree: nat, k: nat)
    requires degree > 0 && k < |a|
    ensures Codeword(a, degree)[k] == a[k]
  {
  }

  lemma SumAt(a: seq<bv8>, b: seq<bv8>, k: nat)
    requires |a| == |b| && k < |a|
    ensures AddPoly(a, b)[k] == 0 <==> a[k] == b[k]
  {
    AddZero(a[k], b[k]);
  }

  lemma {:induction false} Triangle(a: seq<bv8>, r: seq<bv8>, b: seq<bv8>)
    requires |a| == |r| == |b|
    ensures Distance(a, b) <= Distance(a, r) + Distance(b, r)
  {
    if a != [] {
      Triangle(a[1..], r[1..], b[1..]);
    }
  }

  /** Error tolerance: whatever the received bytes are, at most one block has its codeword within degree/2 places. */
  lemma UniqueDecoding(a: seq<bv8>, b: seq<bv8>, degree: nat, received: seq<bv8>)
    requires degree > 0 && |a| == |b| && |a| + degree <= 255 && |received| == |a| + degree
    requires Distance(Codeword(a, degree), received) <= degree / 2
    requires Distance(Codeword(b, degree), received) <= degree / 2
    ensures a == b
  {
    hide Codeword, Distance;
    Triangle(Codeword(a, degree), received, Codeword(b, degree));
    if a != b {
      MinimumDistance(a, b, degree);
    }
  }
}
