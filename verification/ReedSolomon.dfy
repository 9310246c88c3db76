/** Polynomials over GF(2^8) as byte strings in descending powers, and the Reed-Solomon code built on them. */
module ReedSolomon {
  import opened GaloisField

  const DEGREE_MAX := 30

  // ---------- polynomials ----------

  function ZeroBytes(n: nat): (p: seq<bv8>)
    ensures |p| == n
  {
    seq(n, _ => 0)
  }

  function AddPoly(a: seq<bv8>, b: seq<bv8>): (p: seq<bv8>)
    requires |a| == |b|
    ensures |p| == |a|
  {
    seq(|a|, i requires 0 <= i < |a| => Add(a[i], b[i]))
  }

  function Scale(a: seq<bv8>, c: bv8): (p: seq<bv8>)
    ensures |p| == |a|
  {
    seq(|a|, i requires 0 <= i < |a| => Times(a[i], c))
  }

  /** The value of a polynomial at a field element, by Horner's rule. */
  function Eval(p: seq<bv8>, x: bv8): bv8
  {
    if p == [] then 0 else Add(Times(Eval(p[..|p| - 1], x), x), p[|p| - 1])
  }

  /** The product of two polynomials: shift by one place and add a multiple of g for every coefficient of q. */
  function MulPoly(q: seq<bv8>, g: seq<bv8>): (p: seq<bv8>)
    requires |g| > 0
    ensures |p| == |q| + |g| - 1
  {
    if q == [] then ZeroBytes(|g| - 1)
    else
      var n := |q| - 1;
      AddPoly(MulPoly(q[..n], g) + [0], ZeroBytes(n) + Scale(g, q[n]))
  }

  lemma {:induction false} EvalAdd(a: seq<bv8>, b: seq<bv8>, x: bv8)
    requires |a| == |b|
    ensures Eval(AddPoly(a, b), x) == Add(Eval(a, x), Eval(b, x))
  {
    hide Add, Times;
    AddFacts(0, 0, 0);
    if a != [] {
      var n := |a| - 1;
      EvalAdd(a[..n], b[..n], x);
      assert AddPoly(a, b)[..n] == AddPoly(a[..n], b[..n]);
      var u, v := Eval(a[..n], x), Eval(b[..n], x);
      Distribute(x, u, v);
      AddSwap(Times(u, x), Times(v, x), a[n], b[n]);
    }
  }

  lemma {:induction false} EvalScale(a: seq<bv8>, c: bv8, x: bv8)
    ensures Eval(Scale(a, c), x) == Times(Eval(a, x), c)
  {
    hide Add, Times;
    ZeroTimes(c);
    if a != [] {
      var n := |a| - 1;
      EvalScale(a[..n], c, x);
      assert Scale(a, c)[..n] == Scale(a[..n], c);
      var u := Eval(a[..n], x);
      Distribute(c, Times(u, x), a[n]);
      Associate(u, x, c);
      Associate(u, c, x);
      Commute(x, c);
    }
  }

  lemma {:induction false} EvalLeadingZeros(k: nat, p: seq<bv8>, x: bv8)
    ensures Eval(ZeroBytes(k) + p, x) == Eval(p, x)
    decreases k + |p|
  {
    hide Add, Times;
    var z := ZeroBytes(k) + p;
    ZeroTimes(x);
    AddFacts(0, 0, 0);
    if p != [] {
      EvalLeadingZeros(k, p[..|p| - 1], x);
      assert z[..|z| - 1] == ZeroBytes(k) + p[..|p| - 1];
    } else if k > 0 {
      EvalLeadingZeros(k - 1, p, x);
      assert z[..|z| - 1] == ZeroBytes(k - 1) + p;
    }
  }

  /** Evaluation is multiplicative. */
  lemma {:induction false} EvalMul(q: seq<bv8>, g: seq<bv8>, x: bv8)
    requires |g| > 0
    ensures Eval(MulPoly(q, g), x) == Times(Eval(q, x), Eval(g, x))
  {
    hide Add, Times;
    if q == [] {
      EvalLeadingZeros(|g| - 1, [], x);
      assert ZeroBytes(|g| - 1) + [] == ZeroBytes(|g| - 1);
      ZeroTimes(Eval(g, x));
    } else {
      var n := |q| - 1;
      var m := MulPoly(q[..n], g);
      EvalMul(q[..n], g, x);
      EvalAdd(m + [0], ZeroBytes(n) + Scale(g, q[n]), x);
      EvalLeadingZeros(n, Scale(g, q[n]), x);
      EvalScale(g, q[n], x);
      assert (m + [0])[..|m|] == m;
      AddFacts(Times(Eval(m, x), x), 0, 0);
      var u, v := Eval(q[..n], x), Eval(g, x);
      Distribute(v, Times(u, x), q[n]);
      Associate(u, v, x);
      Associate(u, x, v);
      Commute(v, x);
      Commute(v, q[n]);
    }
  }

  // ---------- the generator ----------

  /** (x - 2^0)(x - 2^1)...(x - 2^(n-1)). */
  function Product(n: nat): (p: seq<bv8>)
    ensures |p| == n + 1
  {
    if n == 0 then [1] else MulPoly(Product(n - 1), [1, Exp(n - 1)])
  }

  function Coef(p: seq<bv8>, k: int): bv8 {
    if 0 <= k < |p| then p[k] else 0
  }

  lemma MulPolyUnfold(q: seq<bv8>, g: seq<bv8>)
    requires |g| > 0 && |q| > 0
    ensures var n := |q| - 1;
            MulPoly(q, g) == AddPoly(MulPoly(q[..n], g) + [0], ZeroBytes(n) + Scale(g, q[n]))
  {
    hide AddPoly, Scale;
  }

  lemma AddPaddedAt(p: seq<bv8>, r: seq<bv8>, n: nat, j: nat)
    requires |p| + 1 == n + |r| && j <= |p|
    ensures AddPoly(p + [0], ZeroBytes(n) + r)[j] == Add(Coef(p, j), Coef(r, j - n))
  {
    hide Add;
  }

  lemma ScaleAt(g: seq<bv8>, c: bv8, k: int)
    requires k < |g|
    ensures Times(Coef(g, k), c) == Coef(Scale(g, c), k)
  {
    hide Times;
    ZeroTimes(c);
  }

  lemma LastTerm(q: seq<bv8>, g: seq<bv8>, j: nat, n: nat, c: bv8, p: seq<bv8>)
    requires |g| > 0 && |q| == n + 1 && j < |q| + |g| - 1 && c == q[n] && p == MulPoly(q[..n], g)
    ensures MulPoly(q, g)[j] == Add(Coef(p, j), Times(Coef(g, j - n), c))
  {
    hide *;
    var r := Scale(g, c);
    MulPolyUnfold(q, g);
    AddPaddedAt(p, r, n, j);
    ScaleAt(g, c, j - n);
  }

  lemma MulPolyAt(q: seq<bv8>, g: seq<bv8>, j: nat)
    requires |g| > 0 && |q| > 0 && j < |q| + |g| - 1
    ensures MulPoly(q, g)[j] ==
            Add(Coef(MulPoly(q[..|q| - 1], g), j), Times(Coef(g, j - (|q| - 1)), q[|q| - 1]))
  {
    hide *;
    var n := |q| - 1;
    LastTerm(q, g, j, n, q[n], MulPoly(q[..n], g));
  }

  /** Coefficients of a product by x + r. */
  lemma {:induction false} LinearFactor(q: seq<bv8>, r: bv8, j: nat)
    requires j <= |q|
    ensures MulPoly(q, [1, r])[j] == Add(Coef(q, j), Times(Coef(q, j - 1), r))
  {
    hide Add, Times, MulPoly;
    AddFacts(0, 0, 0);
    ZeroTimes(r);
    if q != [] {
      var n := |q| - 1;
      var c := q[n];
      MulPolyAt(q, [1, r], j);
      AddFacts(MulPoly(q, [1, r])[j], 0, 0);
      ZeroTimes(c);
      One(c);
      Commute(c, r);
      if j <= n {
        LinearFactor(q[..n], r, j);
        var y := Times(Coef(q, j - 1), r);
        assert Coef(q[..n], j - 1) == Coef(q, j - 1);
        if j < n {
          assert Coef([1, r], j - n) == 0 && Coef(q[..n], j) == Coef(q, j);
          AddFacts(Add(Coef(q, j), y), 0, 0);
        } else {
          assert Coef([1, r], j - n) == 1 && Coef(q[..n], j) == 0;
          AddFacts(y, c, 0);
        }
      }
    } else {
      assert MulPoly(q, [1, r])[j] == 0 by { MulPolyEmpty([1, r]); }
    }
  }

  lemma MulPolyEmpty(g: seq<bv8>)
    requires |g| > 0
    ensures MulPoly([], g) == ZeroBytes(|g| - 1)
  {
  }

  lemma {:induction false} ProductMonic(n: nat)
    ensures Product(n)[0] == 1
  {
    hide Times, Add;
    if n > 0 {
      ProductMonic(n - 1);
      var r := Exp(n - 1);
      LinearFactor(Product(n - 1), r, 0);
      ZeroTimes(r);
      AddFacts(1, 0, 0);
    }
  }

  /** The roots of the generator. */
  lemma {:induction false} ProductRoots(n: nat, k: nat)
    requires k < n
    ensures Eval(Product(n), Exp(k)) == 0
  {
    hide Times, Add, Exp, MulPoly;
    var x, r := Exp(k), Exp(n - 1);
    EvalMul(Product(n - 1), [1, r], x);
    if k < n - 1 {
      ProductRoots(n - 1, k);
      ZeroTimes(Eval([1, r], x));
    } else {
      assert Eval([1], x) == 1 by {
        assert [1][..0] == [];
        ZeroTimes(x);
        AddFacts(1, 0, 0);
      }
      assert [1, r][..1] == [1];
      One(x);
      AddFacts(x, x, 0);
      ZeroTimes(Eval(Product(n - 1), x));
    }
  }

  /** Stores the coefficients of the generator below its leading one. */
  method CalcReedSolomonGenerator(degree: nat, result: array<bv8>)
    requires 1 <= degree <= DEGREE_MAX && degree <= result.Length
    modifies result
    ensures [1] + result[..degree] == Product(degree)
    ensures result[degree..] == old(result[degree..])
  {
    hide Times, Add, Exp;
    forall j | 0 <= j < degree {
      result[j] := 0;
    }
    result[degree - 1] := 1;
    var root: bv8 := 1;
    assert Exp(0) == 1 by { ExpZero(); }
    for i := 0 to degree
      invariant root == Exp(i)
      invariant result[..degree] == Window(degree, i)
      invariant result[degree..] == old(result[degree..])
    {
      ghost var before := result[..degree];
      MultiplyByFactor(result, degree, root);
      WindowStep(degree, i, before, result[..degree]);
      root := FiniteFieldMultiply(root, 0x02);
      TimesDouble(Exp(i), 0);
      assert Exp(i + 1) == Double(Exp(i)) by { ExpSuccessor(i); }
    }
    ProductMonic(degree);
  }

  /** The inner loop of the generator: multiplies the stored polynomial by (x - root), dropping the top term. */
  method MultiplyByFactor(result: array<bv8>, degree: nat, root: bv8)
    requires degree <= result.Length
    modifies result
    ensures forall k | 0 <= k < degree ::
              result[k] == Add(Times(old(result[k]), root), if k + 1 < degree then old(result[k + 1]) else 0)
    ensures result[degree..] == old(result[degree..])
  {
    hide Times, Add;
    for j := 0 to degree
      invariant forall k | 0 <= k < j ::
                  result[k] == Add(Times(old(result[k]), root), if k + 1 < degree then old(result[k + 1]) else 0)
      invariant forall k | j <= k < result.Length :: result[k] == old(result[k])
    {
      var p := FiniteFieldMultiply(result[j], root);
      AddFacts(p, 0, 0);
      result[j] := p;
      if j + 1 < degree {
        XorIsAdd(result[j], result[j + 1]);
        result[j] := result[j] ^ result[j + 1];
      }
    }
  }

  lemma ExpZero()
    ensures Exp(0) == 1
  {
  }

  lemma ExpSuccessor(i: nat)
    ensures Exp(i + 1) == Double(Exp(i))
  {
    hide Double;
  }

  lemma XorIsAdd(a: bv8, b: bv8)
    ensures a ^ b == Add(a, b)
  {
  }

  /** The lowest `degree` coefficients of the product of the first i factors. */
  ghost function Window(degree: nat, i: nat): (w: seq<bv8>)
    requires i <= degree
    ensures |w| == degree
  {
    if i == degree then Product(i)[1..] else ZeroBytes(degree - 1 - i) + Product(i)
  }

  lemma WindowStep(degree: nat, i: nat, before: seq<bv8>, after: seq<bv8>)
    requires i < degree && before == Window(degree, i) && |after| == degree
    requires forall k | 0 <= k < degree ::
               after[k] == Add(Times(before[k], Exp(i)), if k + 1 < degree then before[k + 1] else 0)
    ensures after == Window(degree, i + 1)
  {
    hide Times, Add, Exp, MulPoly;
    var r, p, lead := Exp(i), Product(i), degree - 1 - i;
    ZeroTimes(r);
    AddFacts(0, 0, 0);
    forall k | 0 <= k < degree
      ensures after[k] == Window(degree, i + 1)[k]
    {
      var j := k - lead + 1;     // position in Product(i + 1)
      assert j < 0 ==> after[k] == Add(Times(0, r), if k + 1 < degree then before[k + 1] else 0);
      var u, v := Coef(p, j), Times(Coef(p, j - 1), r);
      assert Coef(p, j - 1) == before[k];
      assert (if k + 1 < degree then before[k + 1] else 0) == u;
      AddFacts(u, v, 0);
      if j >= 0 {
        LinearFactor(p, r, j);
        assert Window(degree, i + 1)[k] == Product(i + 1)[j];
      }
    }
  }

  // ---------- the remainder ----------

  /** One round of the division: feed in the next coefficient d of the dividend. */
  function RemainderStep(rem: seq<bv8>, g: seq<bv8>, d: bv8): (r: seq<bv8>)
    requires |rem| == |g| > 0
    ensures |r| == |g|
  {
    AddPoly(rem[1..] + [0], Scale(g, Add(d, rem[0])))
  }

  lemma RemainderStepAt(rem: seq<bv8>, g: seq<bv8>, d: bv8, j: nat)
    requires |rem| == |g| && j < |g|
    ensures RemainderStep(rem, g, d)[j] ==
            Add(if j + 1 < |g| then rem[j + 1] else 0, Times(g[j], Add(d, rem[0])))
  {
    hide Add, Times;
  }

  function Remainder(data: seq<bv8>, g: seq<bv8>): (r: seq<bv8>)
    requires |g| > 0
    ensures |r| == |g|
  {
    if data == [] then ZeroBytes(|g|)
    else RemainderStep(Remainder(data[..|data| - 1], g), g, data[|data| - 1])
  }

  /** The factors met by the division, in order. */
  ghost function Quotient(data: seq<bv8>, g: seq<bv8>): (q: seq<bv8>)
    requires |g| > 0
    ensures |q| == |data|
  {
    if data == [] then []
    else
      var n := |data| - 1;
      Quotient(data[..n], g) + [Add(data[n], Remainder(data[..n], g)[0])]
  }

  /** data * x^degree == quotient * generator + remainder, coefficient by coefficient. */
  lemma {:induction false} DivisionIdentity(data: seq<bv8>, g: seq<bv8>)
    requires |g| > 0
    ensures AddPoly(MulPoly(Quotient(data, g), [1] + g), ZeroBytes(|data|) + Remainder(data, g)) ==
            data + ZeroBytes(|g|)
  {
    hide Add, Times, MulPoly, RemainderStep;
    MulPolyEmpty([1] + g);
    AddFacts(0, 0, 0);
    if data == [] {
      return;
    }
    var n, deg := |data| - 1, |g|;
    var front, d := data[..n], data[n];
    DivisionIdentity(front, g);
    var q, r := Quotient(front, g), Remainder(front, g);
    var f := Add(d, r[0]);
    var m, m', r' := MulPoly(q, [1] + g), MulPoly(Quotient(data, g), [1] + g), Remainder(data, g);
    assert Quotient(data, g)[..n] == q;
    forall j | 0 <= j < |data| + deg
      ensures Add(m'[j], (ZeroBytes(|data|) + r')[j]) == (data + ZeroBytes(deg))[j]
    {
      MulPolyAt(Quotient(data, g), [1] + g, j);
      var t := Times(Coef([1] + g, j - n), f);
      if j < |data| + deg - 1 {
        assert AddPoly(m, ZeroBytes(n) + r)[j] == (front + ZeroBytes(deg))[j];
      }
      ZeroTimes(f);
      One(f);
      if j < n {
        AddFacts(m[j], 0, 0);
      } else if j == n {
        CancelTail(m[n], r[0], d);
        AddFacts(Add(m[n], f), 0, 0);
      } else {
        RemainderStepAt(r, g, d, j - n - 1);
        var c := Coef(r, j - n);
        assert r'[j - n - 1] == Add(c, t);
        if j - n < deg {
          AddZero(m[j], c);
        }
        AddFacts(Add(c, t), 0, 0);
      }
    }
  }

  lemma CancelTail(m: bv8, r: bv8, d: bv8)
    requires Add(m, r) == 0
    ensures Add(m, Add(d, r)) == d
  {
  }

  /** The codeword of a data block. */
  function Codeword(data: seq<bv8>, degree: nat): (c: seq<bv8>)
    requires degree > 0
    ensures |c| == |data| + degree
  {
    data + Remainder(data, Product(degree)[1..])
  }

  /** Every codeword vanishes at 2^0 .. 2^(degree-1): the syndromes of an undamaged block are all zero. */
  lemma CodewordRoots(data: seq<bv8>, degree: nat, k: nat)
    requires k < degree
    ensures Eval(Codeword(data, degree), Exp(k)) == 0
  {
    hide Add, Times, Exp, MulPoly, Remainder, Quotient;
    var g, x := Product(degree)[1..], Exp(k);
    ProductMonic(degree);
    assert [1] + g == Product(degree);
    var r := Remainder(data, g);
    var m := MulPoly(Quotient(data, g), [1] + g);
    DivisionIdentity(data, g);
    forall j | 0 <= j < |data| + degree
      ensures m[j] == (data + r)[j]
    {
      assert Add(m[j], (ZeroBytes(|data|) + r)[j]) == (data + ZeroBytes(degree))[j];
      if j < |data| {
        AddFacts(m[j], 0, 0);
      } else {
        AddZero(m[j], r[j - |data|]);
      }
    }
    assert m == data + r;
    EvalMul(Quotient(data, g), [1] + g, x);
    ProductRoots(degree, k);
    ZeroTimes(Eval(Quotient(data, g), x));
  }

  /** The ECC map is linear. */
  lemma {:induction false} RemainderLinear(a: seq<bv8>, b: seq<bv8>, g: seq<bv8>)
    requires |a| == |b| && |g| > 0
    ensures Remainder(AddPoly(a, b), g) == AddPoly(Remainder(a, g), Remainder(b, g))
  {
    hide Add, Times, RemainderStep;
    AddFacts(0, 0, 0);
    if a != [] {
      var n := |a| - 1;
      RemainderLinear(a[..n], b[..n], g);
      assert AddPoly(a, b)[..n] == AddPoly(a[..n], b[..n]);
      var ra, rb := Remainder(a[..n], g), Remainder(b[..n], g);
      var fa, fb := Add(a[n], ra[0]), Add(b[n], rb[0]);
      AddSwap(a[n], b[n], ra[0], rb[0]);
      forall j | 0 <= j < |g|
        ensures Remainder(AddPoly(a, b), g)[j] == Add(Remainder(a, g)[j], Remainder(b, g)[j])
      {
        Distribute(g[j], fa, fb);
        RemainderStepAt(ra, g, a[n], j);
        RemainderStepAt(rb, g, b[n], j);
        RemainderStepAt(AddPoly(ra, rb), g, Add(a[n], b[n]), j);
        var u, v: bv8 := if j + 1 < |g| then ra[j + 1] else 0, if j + 1 < |g| then rb[j + 1] else 0;
        AddSwap(u, v, Times(g[j], fa), Times(g[j], fb));
      }
    }
  }

  /** Moves the running remainder one place up and clears the freed last place. */
  method ShiftOut(result: array<bv8>, resOff: nat, degree: nat)
    requires degree > 0 && resOff + degree <= result.Length
    modifies result
    ensures result[resOff..resOff + degree] == old(result[resOff..resOff + degree])[1..] + [0]
    ensures forall k | 0 <= k < result.Length && !(resOff <= k < resOff + degree) :: result[k] == old(result[k])
  {
    forall k | resOff <= k < resOff + degree - 1 {
      result[k] := result[k + 1];
    }
    result[resOff + degree - 1] := 0;
  }

  /** The inner loop of the division: adds `factor` times the generator to the running remainder. */
  method AddMultiple(generator: array<bv8>, degree: nat, factor: bv8, result: array<bv8>, resOff: nat)
    requires degree <= generator.Length && resOff + degree <= result.Length && generator != result
    modifies result
    ensures result[resOff..resOff + degree] ==
            AddPoly(old(result[resOff..resOff + degree]), Scale(generator[..degree], factor))
    ensures forall k | 0 <= k < result.Length && !(resOff <= k < resOff + degree) :: result[k] == old(result[k])
  {
    hide Times, Add;
    ghost var before := result[resOff..resOff + degree];
    ghost var after := AddPoly(before, Scale(generator[..degree], factor));
    for j := 0 to degree
      invariant forall k | 0 <= k < result.Length ::
                  result[k] == if resOff <= k < resOff + j then after[k - resOff] else old(result[k])
    {
      var p := FiniteFieldMultiply(generator[j], factor);
      XorIsAdd(result[resOff + j], p);
      assert Add(before[j], p) == after[j];
      result[resOff + j] := result[resOff + j] ^ p;
    }
  }

  /** The body of the division loop, for one byte of the dividend. */
  method DivisionRound(d: bv8, generator: array<bv8>, degree: nat, result: array<bv8>, resOff: nat)
    requires 1 <= degree <= generator.Length && resOff + degree <= result.Length && generator != result
    modifies result
    ensures result[resOff..resOff + degree] ==
            RemainderStep(old(result[resOff..resOff + degree]), generator[..degree], d)
    ensures forall k | 0 <= k < result.Length && !(resOff <= k < resOff + degree) :: result[k] == old(result[k])
  {
    hide Times, Add, AddPoly, Scale;
    ghost var rem := result[resOff..resOff + degree];
    var factor := d ^ result[resOff];
    XorIsAdd(d, result[resOff]);
    assert factor == Add(d, rem[0]);
    ShiftOut(result, resOff, degree);
    AddMultiple(generator, degree, factor, result, resOff);
  }

  lemma RemainderUnfold(dat: seq<bv8>, g: seq<bv8>, i: nat)
    requires i < |dat| && g != []
    ensures Remainder([], g) == ZeroBytes(|g|)
    ensures Remainder(dat[..i + 1], g) == RemainderStep(Remainder(dat[..i], g), g, dat[i])
  {
    hide RemainderStep;
    assert dat[..i + 1][..i] == dat[..i];
  }

  /** Divides data[datOff..datOff+dataLen) by the generator; both arrays may be the same buffer. */
  method CalcReedSolomonRemainder(data: array<bv8>, datOff: nat, dataLen: nat, generator: array<bv8>, degree: nat,
                                  result: array<bv8>, resOff: nat)
    requires 1 <= degree <= DEGREE_MAX && degree <= generator.Length
    requires datOff + dataLen <= data.Length && resOff + degree <= result.Length
    requires generator != result
    requires data == result ==> datOff + dataLen <= resOff || resOff + degree <= datOff
    modifies result
    ensures result[resOff..resOff + degree] == Remainder(old(data[datOff..datOff + dataLen]), generator[..degree])
    ensures forall k | 0 <= k < result.Length && !(resOff <= k < resOff + degree) :: result[k] == old(result[k])
  {
    hide RemainderStep;
    ghost var dat, g := data[datOff..datOff + dataLen], generator[..degree];
    forall k | resOff <= k < resOff + degree {
      result[k] := 0;
    }
    assert result[resOff..resOff + degree] == ZeroBytes(degree) && dat[..0] == [];
    for i := 0 to dataLen
      invariant result[resOff..resOff + degree] == Remainder(dat[..i], g)
      invariant generator[..degree] == g && data[datOff..datOff + dataLen] == dat
      invariant forall k | 0 <= k < result.Length && !(resOff <= k < resOff + degree) :: result[k] == old(result[k])
    {
      assert data[datOff + i] == dat[i];
      DivisionRound(data[datOff + i], generator, degree, result, resOff);
      RemainderUnfold(dat, g, i);
    }
    assert dat[..dataLen] == dat;
  }
}
