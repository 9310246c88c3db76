/** Arithmetic of GF(2^8) modulo x^8 + x^4 + x^3 + x^2 + 1 (0x11D), as the Reed-Solomon code uses it. */
module GaloisField {
  import opened Bytes

  function Add(a: bv8, b: bv8): bv8 {
    a ^ b
  }

  /** One step of the product loop: multiplication by x, reduced. */
  function Double(z: bv8): bv8 {
    (((z as bv16) << 1) ^ (((z as bv16) >> 7) * 0x11D)) as bv8
  }

  function Term(b: bool, x: bv8): bv8 {
    if b then x else 0
  }

  /** Horner's rule over bits 7..i of y. */
  function TimesFrom(x: bv8, y: bv8, i: nat): bv8
    requires i <= 8
    decreases 8 - i, x as int, y as int
  {
    if i == 8 then 0 else Add(Double(TimesFrom(x, y, i + 1)), Term(Bit(y, i), x))
  }

  function Times(x: bv8, y: bv8): bv8 {
    TimesFrom(x, y, 0)
  }

  /** Russian peasant multiplication. */
  method FiniteFieldMultiply(x: bv8, y: bv8) returns (z: bv8)
    ensures z == Times(x, y)
  {
    hide Double, Bit, Term;
    z := 0;
    var i := 7;
    while i >= 0
      invariant -1 <= i <= 7
      invariant z == TimesFrom(x, y, i + 1)
    {
      LoopTerms(x, y, z, i);
      z := (((z as bv16) << 1) ^ (((z as bv16) >> 7) * 0x11D)) as bv8;
      z := z ^ (((y >> i) & 1) * x);
      i := i - 1;
    }
  }

  lemma LoopTerms(x: bv8, y: bv8, z: bv8, i: nat)
    requires i < 8
    ensures (((z as bv16) << 1) ^ (((z as bv16) >> 7) * 0x11D)) < 256
    ensures (((z as bv16) << 1) ^ (((z as bv16) >> 7) * 0x11D)) as bv8 == Double(z)
    ensures ((y >> i) & 1) * x == Term(Bit(y, i), x)
  {
  }

  // ---------- addition, doubling and conditional terms ----------

  lemma AddFacts(a: bv8, b: bv8, c: bv8)
    ensures Add(a, b) == Add(b, a)
    ensures Add(Add(a, b), c) == Add(a, Add(b, c))
    ensures Add(a, 0) == a && Add(0, a) == a && Add(a, a) == 0
  {
  }

  lemma AddSwap(a: bv8, b: bv8, c: bv8, d: bv8)
    ensures Add(Add(a, b), Add(c, d)) == Add(Add(a, c), Add(b, d))
  {
    hide Add;
    AddFacts(a, b, Add(c, d));
    AddFacts(b, c, d);
    AddFacts(c, b, d);
    AddFacts(a, c, Add(b, d));
  }

  lemma AddZero(a: bv8, b: bv8)
    ensures Add(a, b) == 0 <==> a == b
  {
  }

  lemma DoubleAdd(a: bv8, b: bv8)
    ensures Double(Add(a, b)) == Add(Double(a), Double(b))
    ensures Double(0) == 0
  {
  }

  lemma DoubleInjective(a: bv8, b: bv8)
    requires Double(a) == Double(b)
    ensures a == b
  {
  }

  lemma TermAdd(b: bool, x: bv8, y: bv8)
    ensures Term(b, Add(x, y)) == Add(Term(b, x), Term(b, y))
    ensures Term(b, Double(x)) == Double(Term(b, x))
  {
  }

  lemma TermXor(b: bool, c: bool, x: bv8)
    ensures Term(b != c, x) == Add(Term(b, x), Term(c, x))
  {
  }

  lemma BitAdd(y: bv8, y': bv8, i: nat)
    requires i < 8
    ensures Bit(Add(y, y'), i) == (Bit(y, i) != Bit(y', i))
  {
    assert i == 0 || i == 1 || i == 2 || i == 3 || i == 4 || i == 5 || i == 6 || i == 7;
  }

  /** The bits of y from i up, as a byte. */
  function Upper(y: bv8, i: nat): bv8
    requires i <= 8
  {
    if i == 0 then y else if i == 1 then y >> 1 else if i == 2 then y >> 2 else if i == 3 then y >> 3
    else if i == 4 then y >> 4 else if i == 5 then y >> 5 else if i == 6 then y >> 6
    else if i == 7 then y >> 7 else 0
  }

  lemma UpperStep(y: bv8, i: nat)
    requires i < 8
    ensures Upper(y, i) == Add(Double(Upper(y, i + 1)), Term(Bit(y, i), 1))
    ensures Upper(y, 8) == 0 && Upper(y, 0) == y
  {
  }

  // ---------- the ring laws, by induction over the bits of one factor ----------

  lemma {:induction false} AddLeft(x: bv8, x': bv8, y: bv8, i: nat)
    requires i <= 8
    ensures TimesFrom(Add(x, x'), y, i) == Add(TimesFrom(x, y, i), TimesFrom(x', y, i))
    decreases 8 - i
  {
    hide Double, Bit, Add, Term;
    AddFacts(0, 0, 0);
    if i < 8 {
      AddLeft(x, x', y, i + 1);
      var p, p' := TimesFrom(x, y, i + 1), TimesFrom(x', y, i + 1);
      DoubleAdd(p, p');
      TermAdd(Bit(y, i), x, x');
      AddSwap(Double(p), Double(p'), Term(Bit(y, i), x), Term(Bit(y, i), x'));
    }
  }

  lemma {:induction false} AddRight(x: bv8, y: bv8, y': bv8, i: nat)
    requires i <= 8
    ensures TimesFrom(x, Add(y, y'), i) == Add(TimesFrom(x, y, i), TimesFrom(x, y', i))
    decreases 8 - i
  {
    hide Double, Bit, Add, Term;
    AddFacts(0, 0, 0);
    if i < 8 {
      AddRight(x, y, y', i + 1);
      var p, p' := TimesFrom(x, y, i + 1), TimesFrom(x, y', i + 1);
      DoubleAdd(p, p');
      BitAdd(y, y', i);
      TermXor(Bit(y, i), Bit(y', i), x);
      AddSwap(Double(p), Double(p'), Term(Bit(y, i), x), Term(Bit(y', i), x));
    }
  }

  lemma {:induction false} DoubleLeft(x: bv8, y: bv8, i: nat)
    requires i <= 8
    ensures TimesFrom(Double(x), y, i) == Double(TimesFrom(x, y, i))
    decreases 8 - i
  {
    hide Double, Bit, Add, Term;
    DoubleAdd(0, 0);
    if i < 8 {
      DoubleLeft(x, y, i + 1);
      TermAdd(Bit(y, i), x, 0);
      DoubleAdd(Double(TimesFrom(x, y, i + 1)), Term(Bit(y, i), x));
    }
  }

  lemma {:induction false} OneTimes(y: bv8, i: nat)
    requires i <= 8
    ensures TimesFrom(1, y, i) == Upper(y, i)
    decreases 8 - i
  {
    hide Double, Bit, Add, Term, Upper;
    UpperStep(y, 0);
    if i < 8 {
      OneTimes(y, i + 1);
      UpperStep(y, i);
    }
  }

  lemma {:induction false} CommuteFrom(x: bv8, y: bv8, i: nat)
    requires i <= 8
    ensures Times(Upper(x, i), y) == TimesFrom(y, x, i)
    decreases 8 - i
  {
    hide Double, Bit, Add, Upper;
    ZeroTimes(y);
    UpperStep(x, 0);
    if i < 8 {
      CommuteFrom(x, y, i + 1);
      UpperStep(x, i);
      AddLeft(Double(Upper(x, i + 1)), Term(Bit(x, i), 1), y, 0);
      DoubleLeft(Upper(x, i + 1), y, 0);
      OneTimes(y, 0);
      UpperStep(y, 0);
    }
  }

  lemma {:induction false} AssociateFrom(x: bv8, y: bv8, z: bv8, i: nat)
    requires i <= 8
    ensures Times(x, TimesFrom(y, z, i)) == TimesFrom(Times(x, y), z, i)
    decreases 8 - i
  {
    hide Double, Bit, Add, Times;
    Commute(x, 0);
    ZeroTimes(x);
    if i < 8 {
      AssociateFrom(x, y, z, i + 1);
      var p := TimesFrom(y, z, i + 1);
      Distribute(x, Double(p), Term(Bit(z, i), y));
      TimesDouble(x, p);
    }
  }

  lemma ZeroTimes(y: bv8)
    ensures Times(0, y) == 0 && Times(y, 0) == 0
  {
    hide TimesFrom;
    AddLeft(0, 0, y, 0);
    AddRight(y, 0, 0, 0);
  }

  /** 1 is the unit of the product. */
  lemma One(x: bv8)
    ensures Times(1, x) == x && Times(x, 1) == x
  {
    hide TimesFrom, Upper;
    OneTimes(x, 0);
    UpperStep(x, 0);
    Commute(x, 1);
  }

  lemma Commute(x: bv8, y: bv8)
    ensures Times(x, y) == Times(y, x)
  {
    hide TimesFrom, Upper;
    CommuteFrom(x, y, 0);
    UpperStep(x, 0);
  }

  lemma Distribute(x: bv8, y: bv8, z: bv8)
    ensures Times(x, Add(y, z)) == Add(Times(x, y), Times(x, z))
    ensures Times(Add(y, z), x) == Add(Times(y, x), Times(z, x))
  {
    hide TimesFrom, Add;
    AddRight(x, y, z, 0);
    AddLeft(y, z, x, 0);
  }

  lemma Associate(x: bv8, y: bv8, z: bv8)
    ensures Times(Times(x, y), z) == Times(x, Times(y, z))
  {
    hide TimesFrom;
    AssociateFrom(x, y, z, 0);
  }

  lemma TimesDouble(x: bv8, y: bv8)
    ensures Times(x, Double(y)) == Double(Times(x, y))
    ensures Times(x, 2) == Double(x)
  {
    hide Double, TimesFrom;
    Commute(x, Double(y));
    Commute(x, y);
    DoubleLeft(y, x, 0);
    Commute(x, Double(1));
    DoubleLeft(1, x, 0);
    One(x);
    assert Double(1) == 2 by {
      DoubleOfOne();
    }
  }

  lemma DoubleOfOne()
    ensures Double(1) == 2
  {
  }

  // ---------- 2 generates the multiplicative group, so the ring is a field ----------

  /** 2 to the power k. */
  function Exp(k: nat): bv8
  {
    if k == 0 then 1 else Double(Exp(k - 1))
  }

  lemma {:induction false} ExpAdd(j: nat, k: nat)
    ensures Exp(j + k) == Times(Exp(j), Exp(k))
  {
    hide Double, Times;
    One(Exp(j));
    if k > 0 {
      ExpAdd(j, k - 1);
      TimesDouble(Exp(j), Exp(k - 1));
    }
  }

  lemma {:induction false} ExpNonzero(k: nat)
    ensures Exp(k) != 0
  {
    hide Double;
    if k > 0 {
      ExpNonzero(k - 1);
      DoubleAdd(0, 0);
      if Double(Exp(k - 1)) == 0 {
        DoubleInjective(Exp(k - 1), 0);
      }
    }
  }

  /** Equal powers stay equal when their common tail is taken off. */
  lemma {:induction false} ExpShift(j: nat, k: nat, m: nat)
    ensures Exp(j) == Exp(k) <==> Exp(j + m) == Exp(k + m)
  {
    hide Double;
    if m > 0 {
      ExpShift(j, k, m - 1);
      if Exp(j + m) == Exp(k + m) {
        DoubleInjective(Exp(j + m - 1), Exp(k + m - 1));
      }
    }
  }

  /** The powers 2^0, 2^1, ..., 2^16. */
  function SmallPower(d: nat): bv8
    requires d <= 16
  {
    [0x01, 0x02, 0x04, 0x08, 0x10, 0x20, 0x40, 0x80, 0x1D, 0x3A, 0x74, 0xE8, 0xCD, 0x87, 0x13, 0x26, 0x4C][d]
  }

  /** The powers 2^0, 2^16, ..., 2^256. */
  function LargePower(c: nat): bv8
    requires c <= 16
  {
    [0x01, 0x4C, 0x9D, 0x46, 0x5F, 0xFD, 0xD9, 0x81, 0x85, 0xA8, 0xE6, 0xE3, 0x82, 0x51, 0x12, 0x2C, 0x02][c]
  }

  lemma {:induction false} SmallPowerIsExp(d: nat)
    requires d <= 16
    ensures Exp(d) == SmallPower(d)
  {
    if d > 0 {
      SmallPowerIsExp(d - 1);
      SmallPowerStep(d - 1);
    }
  }

  lemma SmallPowerStep(d: nat)
    requires d < 16
    ensures Double(SmallPower(d)) == SmallPower(d + 1)
  {
    assert d == 0 || d == 1 || d == 2 || d == 3 || d == 4 || d == 5 || d == 6 || d == 7 || d == 8 || d == 9 ||
           d == 10 || d == 11 || d == 12 || d == 13 || d == 14 || d == 15;
  }

  function Double4(z: bv8): bv8 {
    Double(Double(Double(Double(z))))
  }

  lemma ExpPlus16(k: nat)
    ensures Exp(k + 16) == Double4(Double4(Double4(Double4(Exp(k)))))
  {
    ExpPlus4(k);
    ExpPlus4(k + 4);
    ExpPlus4(k + 8);
    ExpPlus4(k + 12);
  }

  lemma ExpPlus4(k: nat)
    ensures Exp(k + 4) == Double4(Exp(k))
  {
    hide Double;
    assert Exp(k + 2) == Double(Exp(k + 1));
    assert Exp(k + 3) == Double(Exp(k + 2));
  }

  lemma LargePowerStep(c: nat)
    requires c < 16
    ensures Double4(Double4(Double4(Double4(LargePower(c))))) == LargePower(c + 1)
  {
    assert c == 0 || c == 1 || c == 2 || c == 3 || c == 4 || c == 5 || c == 6 || c == 7 || c == 8 || c == 9 ||
           c == 10 || c == 11 || c == 12 || c == 13 || c == 14 || c == 15;
  }

  lemma {:induction false} LargePowerIsExp(c: nat)
    requires c <= 16
    ensures Exp(16 * c) == LargePower(c)
  {
    hide Double4, LargePower;
    if c > 0 {
      LargePowerIsExp(c - 1);
      ExpPlus16(16 * (c - 1));
      LargePowerStep(c - 1);
    } else {
      assert LargePower(0) == 1 by { FirstLargePower(); }
    }
  }

  lemma FirstLargePower()
    ensures LargePower(0) == 1
  {
  }

  lemma SmallAndLargePowers(c: nat, d: nat)
    requires 1 <= c <= 16 && 1 <= d <= 16 && LargePower(c) == SmallPower(d)
    ensures (c == 1 && d == 16) || (c == 16 && d == 1)
  {
  }

  /** The order of 2 is 255: no smaller positive power is 1. */
  lemma OrderOfTwo(k: nat)
    requires 0 < k < 255
    ensures Exp(k) != 1
  {
    hide Exp, SmallPower, LargePower;
    var c, d := k / 16 + 1, 16 - k % 16;
    if Exp(k) == 1 {
      assert Exp(0) == 1 by { SmallPowerIsExp(0); FirstSmallPower(); }
      ExpShift(k, 0, d);
      assert k + d == 16 * c;
      LargePowerIsExp(c);
      SmallPowerIsExp(d);
      SmallAndLargePowers(c, d);
    }
  }

  lemma FirstSmallPower()
    ensures SmallPower(0) == 1
  {
  }

  lemma ExpInjective(j: nat, k: nat)
    requires j < k < j + 255
    ensures Exp(j) != Exp(k)
  {
    hide Exp;
    OrderOfTwo(k - j);
    ExpShift(0, k - j, j);
    assert Exp(0) == 1 by { SmallPowerIsExp(0); FirstSmallPower(); }
  }

  ghost predicate IsPowerBelow(k: nat, n: nat, x: int) {
    k < n && x == Exp(k) as int
  }

  ghost function PowersBelow(n: nat): set<int>
  {
    if n == 0 then {} else PowersBelow(n - 1) + {Exp(n - 1) as int}
  }

  lemma {:induction false} PowersBelowAre(n: nat, x: int)
    ensures x in PowersBelow(n) <==> exists k: nat :: IsPowerBelow(k, n, x)
  {
    hide Exp;
    if n > 0 {
      PowersBelowAre(n - 1, x);
      assert x in PowersBelow(n) <==> x in PowersBelow(n - 1) || x == Exp(n - 1) as int;
      assert x == Exp(n - 1) as int ==> IsPowerBelow(n - 1, n, x);
      var m: nat := n - 1;
      if k: nat :| IsPowerBelow(k, m, x) {
        assert IsPowerBelow(k, n, x);
      }
      if k: nat :| IsPowerBelow(k, n, x) {
        assert k == m || IsPowerBelow(k, m, x);
      }
    } else {
      assert forall k: nat :: !IsPowerBelow(k, n, x);
    }
  }

  lemma NewPower(n: nat)
    requires n < 255
    ensures Exp(n) as int !in PowersBelow(n)
  {
    hide Exp, PowersBelow;
    PowersBelowAre(n, Exp(n) as int);
    forall k: nat | k < n
      ensures Exp(k) != Exp(n)
    {
      ExpInjective(k, n);
    }
  }

  lemma {:induction false} PowersBelowCount(n: nat)
    requires n <= 255
    ensures |PowersBelow(n)| == n
  {
    hide Exp;
    if n > 0 {
      PowersBelowCount(n - 1);
      NewPower(n - 1);
    }
  }

  /** A set of n-bounded naturals has at most n elements. */
  lemma {:induction false} BoundedSet(s: set<int>, n: nat)
    requires forall x :: x in s ==> 0 <= x < n
    ensures |s| <= n
  {
    if n == 0 {
      assert forall x :: x !in s;
      assert s == {};
    } else {
      BoundedSet(s - {n - 1}, n - 1);
      assert s == s - {n - 1} || s == s - {n - 1} + {n - 1};
    }
  }

  /** By counting: the 255 distinct powers of 2 are all 255 nonzero bytes. */
  lemma EveryNonzeroIsPower(x: bv8) returns (k: nat)
    requires x != 0
    ensures k < 255 && Exp(k) == x
  {
    hide Exp, PowersBelow;
    PowersBelowCount(255);
    PowersBelowAre(255, x as int);
    if x as int !in PowersBelow(255) {
      PowersBelowAre(255, 0);
      assert 0 !in PowersBelow(255) by {
        forall k: nat
          ensures Exp(k) != 0
        {
          ExpNonzero(k);
        }
      }
      var s := PowersBelow(255) + {x as int, 0};
      forall y | y in s
        ensures 0 <= y < 256
      {
        PowersBelowAre(255, y);
      }
      BoundedSet(s, 256);
    }
    k :| IsPowerBelow(k, 255, x as int);
  }

  /** The ring has no zero divisors. */
  lemma NoZeroDivisors(x: bv8, y: bv8)
    requires Times(x, y) == 0
    ensures x == 0 || y == 0
  {
    hide Exp, Times;
    if x != 0 && y != 0 {
      var j := EveryNonzeroIsPower(x);
      var k := EveryNonzeroIsPower(y);
      ExpAdd(j, k);
      ExpNonzero(j + k);
    }
  }

  /** Every nonzero element has an inverse. */
  lemma Inverse(x: bv8) returns (y: bv8)
    requires x != 0
    ensures Times(x, y) == 1
  {
    hide Exp, Times;
    var k := EveryNonzeroIsPower(x);
    y := Exp(255 - k);
    ExpAdd(k, 255 - k);
    LargePowerIsExp(16);
    SmallPowerIsExp(1);
    SmallPowerIsExp(0);
    assert LargePower(16) == SmallPower(1) && SmallPower(0) == 1;
    ExpShift(255, 0, 1);
  }
}
