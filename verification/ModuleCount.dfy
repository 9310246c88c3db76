/** How many modules a version leaves free for data: the closed form of the source counts the drawn geometry. */
module ModuleCount {
  import opened VersionInfo
  import opened Grid
  import opened FunctionModules

  type Cell = (int, int)

  // ---------- counting products of one-dimensional sets ----------

  ghost function Interval(lo: int, hi: int): set<int>
    requires lo <= hi
    decreases hi - lo
  {
    if lo == hi then {} else Interval(lo, hi - 1) + {hi - 1}
  }

  lemma {:induction false} IntervalIs(lo: int, hi: int)
    requires lo <= hi
    ensures |Interval(lo, hi)| == hi - lo
    ensures forall x :: x in Interval(lo, hi) <==> lo <= x < hi
    decreases hi - lo
  {
    if lo < hi {
      IntervalIs(lo, hi - 1);
    }
  }

  ghost function Product(a: set<int>, b: set<int>): set<Cell> {
    set x, y | x in a && y in b :: (x, y)
  }

  lemma ProductIs(a: set<int>, b: set<int>, x: int, y: int)
    ensures (x, y) in Product(a, b) <==> x in a && y in b
  {
  }

  lemma EmptyOrNot(a: set<int>)
    ensures a == {} || exists x :: x in a
  {
    if forall x :: x !in a {
      assert a == {};
    }
  }

  lemma Pick(a: set<int>) returns (x: int)
    requires a != {}
    ensures x in a
  {
    EmptyOrNot(a);
    x :| x in a;
  }

  /** Sets without a common cell count separately. */
  lemma UnionCount(a: set<Cell>, b: set<Cell>)
    requires forall c | c in a :: c !in b
    ensures |a + b| == |a| + |b|
  {
    assert forall c :: c !in a * b;
    assert a * b == {};
  }

  lemma {:induction false} ProductCount(a: set<int>, b: set<int>)
    ensures |Product(a, b)| == |a| * |b|
    decreases |a|
  {
    if a == {} {
      assert Product(a, b) == {};
    } else {
      var x := Pick(a);
      var rest := a - {x};
      ProductCount(rest, b);
      ColumnCount(x, b);
      assert Product(a, b) == Product(rest, b) + Product({x}, b);
      UnionCount(Product(rest, b), Product({x}, b));
      assert (|rest| + 1) * |b| == |rest| * |b| + |b|;
    }
  }

  lemma {:induction false} ColumnCount(x: int, b: set<int>)
    ensures |Product({x}, b)| == |b|
    decreases |b|
  {
    if b == {} {
      assert Product({x}, b) == {};
    } else {
      var y := Pick(b);
      ColumnCount(x, b - {y});
      assert Product({x}, b) == Product({x}, b - {y}) + {(x, y)};
    }
  }

  /** Disjointness of two products from disjointness of one pair of sides. */
  lemma ProductsApart(a: set<int>, b: set<int>, c: set<int>, d: set<int>)
    requires (forall x | x in a :: x !in c) || (forall y | y in b :: y !in d)
    ensures forall e | e in Product(a, b) :: e !in Product(c, d)
  {
  }

  // ---------- the coordinates covered by alignment patterns ----------

  /** Columns (or rows) within two of the centres 1..k. */
  ghost function Spans(v: Version, k: nat): set<int>
    requires v >= 2 && k < NumAlign(v)
  {
    if k == 0 then {} else Spans(v, k - 1) + Interval(AlignPos(v, k) - 2, AlignPos(v, k) + 3)
  }

  ghost predicate InSpan(v: Version, i: nat, x: int) {
    v >= 2 && i < NumAlign(v) && Abs(x - AlignPos(v, i)) <= 2
  }

  lemma {:induction false} SpansAre(v: Version, k: nat, x: int)
    requires v >= 2 && k < NumAlign(v)
    ensures x in Spans(v, k) <==> exists i: nat :: 1 <= i <= k && InSpan(v, i, x)
  {
    hide AlignPos;
    if k > 0 {
      SpansAre(v, k - 1, x);
      IntervalIs(AlignPos(v, k) - 2, AlignPos(v, k) + 3);
      assert x in Interval(AlignPos(v, k) - 2, AlignPos(v, k) + 3) <==> InSpan(v, k, x);
      if i: nat :| 1 <= i <= k && InSpan(v, i, x) {
        assert i == k || (1 <= i <= k - 1 && InSpan(v, i, x));
      }
    }
  }

  lemma SpanBeyond(v: Version, k: nat, x: int)
    requires v >= 2 && 0 < k < NumAlign(v) && x >= AlignPos(v, k) - 2
    ensures x !in Spans(v, k - 1)
  {
    hide AlignPos, Spans;
    SpansAre(v, k - 1, x);
    if i: nat :| 1 <= i <= k - 1 && InSpan(v, i, x) {
      AlignGap(v, i, k);
    }
  }

  lemma {:induction false} SpansCount(v: Version, k: nat)
    requires v >= 2 && k < NumAlign(v)
    ensures |Spans(v, k)| == 5 * k
  {
    hide AlignPos, Interval;
    if k > 0 {
      SpansCount(v, k - 1);
      var span := Interval(AlignPos(v, k) - 2, AlignPos(v, k) + 3);
      IntervalIs(AlignPos(v, k) - 2, AlignPos(v, k) + 3);
      forall x | x in span
        ensures x !in Spans(v, k - 1)
      {
        SpanBeyond(v, k, x);
      }
      var before := Spans(v, k - 1);
      assert forall x :: x !in before * span;
      assert before * span == {};
    }
  }

  lemma SpanRange(v: Version, k: nat, x: int)
    requires v >= 2 && k < NumAlign(v) && x in Spans(v, k)
    ensures 16 <= x <= 4 * v + 12
    ensures k < NumAlign(v) - 1 ==> x <= 4 * v
  {
    SpansAre(v, k, x);
    var i: nat :| 1 <= i <= k && InSpan(v, i, x);
    AlignRange(v, i);
    hide AlignPos;
  }

  // ---------- function modules as a disjoint union of products ----------

  ghost function FinderSet(v: Version): set<Cell> {
    var n := Size(v);
    Product(Interval(0, 9), Interval(0, 9)) + Product(Interval(n - 8, n), Interval(0, 9)) +
    Product(Interval(0, 9), Interval(n - 8, n))
  }

  /** The finder areas and the rest of the two timing lines. */
  ghost function FrameSet(v: Version): set<Cell> {
    var n := Size(v);
    FinderSet(v) + Product(Interval(9, n - 8), {6}) + Product({6}, Interval(9, n - 8))
  }

  ghost function VersionSet(v: Version): set<Cell> {
    var n := Size(v);
    if v < 7 then {}
    else Product(Interval(n - 11, n - 8), Interval(0, 6)) + Product(Interval(0, 6), Interval(n - 11, n - 8))
  }

  /** Alignment modules off the timing lines: the inner squares, and the two halves of those centred on a line. */
  ghost function AlignSet(v: Version): set<Cell> {
    if v < 2 then {}
    else
      var n := NumAlign(v);
      AlignFacts(v);
      Product(Spans(v, n - 1), Spans(v, n - 1)) + Product({4, 5, 7, 8}, Spans(v, n - 2)) +
      Product(Spans(v, n - 2), {4, 5, 7, 8})
  }

  lemma FinderSetIs(v: Version, x: int, y: int)
    ensures (x, y) in FinderSet(v) <==> IsFinder(v, x, y)
  {
    hide Interval, Product;
    var n := Size(v);
    IntervalIs(0, 9);
    IntervalIs(n - 8, n);
    var a, b := Interval(0, 9), Interval(n - 8, n);
    ProductIs(a, a, x, y);
    ProductIs(b, a, x, y);
    ProductIs(a, b, x, y);
  }

  lemma FrameSetIs(v: Version, x: int, y: int)
    ensures (x, y) in FrameSet(v) <==>
            InGrid(v, x, y) && (IsFinder(v, x, y) || IsTiming(v, x, y))
  {
    FinderSetIs(v, x, y);
    hide Interval, Product, FinderSet;
    var n := Size(v);
    IntervalIs(9, n - 8);
    var c := Interval(9, n - 8);
    ProductIs(c, {6}, x, y);
    ProductIs({6}, c, x, y);
  }

  lemma FinderSetCount(v: Version)
    ensures |FinderSet(v)| == 225
  {
    hide Interval, Product;
    var n := Size(v);
    IntervalIs(0, 9);
    IntervalIs(n - 8, n);
    var a, b := Interval(0, 9), Interval(n - 8, n);
    ProductCount(a, a);
    ProductCount(b, a);
    ProductCount(a, b);
    ProductsApart(a, a, b, a);
    ProductsApart(a, a, a, b);
    ProductsApart(b, a, a, b);
    UnionCount(Product(a, a), Product(b, a));
    UnionCount(Product(a, a) + Product(b, a), Product(a, b));
  }

  lemma FrameSetCount(v: Version)
    ensures |FrameSet(v)| == 225 + 8 * v
  {
    FinderSetCount(v);
    hide Interval, Product, FinderSet;
    var n := Size(v);
    IntervalIs(9, n - 8);
    var c := Interval(9, n - 8);
    ProductCount(c, {6});
    ProductCount({6}, c);
    ProductsApart(c, {6}, {6}, c);
    forall e | e in FinderSet(v)
      ensures e !in Product(c, {6}) && e !in Product({6}, c)
    {
      FinderSetIs(v, e.0, e.1);
      ProductIs(c, {6}, e.0, e.1);
      ProductIs({6}, c, e.0, e.1);
    }
    UnionCount(FinderSet(v), Product(c, {6}));
    UnionCount(FinderSet(v) + Product(c, {6}), Product({6}, c));
  }

  lemma VersionSetIs(v: Version, x: int, y: int)
    ensures (x, y) in VersionSet(v) <==> IsVersionBlock(v, x, y)
  {
    hide Interval, Product;
    var n := Size(v);
    IntervalIs(0, 6);
    IntervalIs(n - 11, n - 8);
    ProductIs(Interval(n - 11, n - 8), Interval(0, 6), x, y);
    ProductIs(Interval(0, 6), Interval(n - 11, n - 8), x, y);
  }

  lemma VersionSetCount(v: Version)
    ensures |VersionSet(v)| == if v >= 7 then 36 else 0
  {
    hide Interval, Product;
    if v >= 7 {
      var n := Size(v);
      IntervalIs(0, 6);
      IntervalIs(n - 11, n - 8);
      var a, b := Interval(0, 6), Interval(n - 11, n - 8);
      ProductCount(a, b);
      ProductCount(b, a);
      ProductsApart(a, b, b, a);
      UnionCount(Product(b, a), Product(a, b));
    }
  }

  lemma AlignSetMembers(v: Version, x: int, y: int)
    requires v >= 2
    ensures 2 <= NumAlign(v)
    ensures var n := NumAlign(v);
            (x, y) in AlignSet(v) <==>
            (x in Spans(v, n - 1) && y in Spans(v, n - 1)) ||
            (x in {4, 5, 7, 8} && y in Spans(v, n - 2)) || (x in Spans(v, n - 2) && y in {4, 5, 7, 8})
  {
    AlignFacts(v);
    var n := NumAlign(v);
    var a, b, c := Spans(v, n - 1), Spans(v, n - 2), {4, 5, 7, 8};
    ProductIs(a, a, x, y);
    ProductIs(c, b, x, y);
    ProductIs(b, c, x, y);
    hide Spans, Product;
  }

  /** Together with the timing lines the products cover exactly the alignment patterns. */
  lemma AlignSetIs(v: Version, x: int, y: int)
    requires InGrid(v, x, y) && !IsTiming(v, x, y)
    ensures (x, y) in AlignSet(v) <==> IsAlignment(v, x, y)
  {
    hide AlignPos, AlignStep, AlignSet;
    if v >= 2 {
      var n := NumAlign(v);
      AlignFacts(v);
      AlignSetMembers(v, x, y);
      SpansAre(v, n - 1, x);
      SpansAre(v, n - 1, y);
      SpansAre(v, n - 2, x);
      SpansAre(v, n - 2, y);
      NearSix(v, x);
      NearSix(v, y);
      if (x, y) in AlignSet(v) {
        var i, j := SquareOf(v, x, y);
        assert NearAlign(v, i, j, x, y, 2);
      }
      if IsAlignment(v, x, y) {
        var i: nat, j: nat :| NearAlign(v, i, j, x, y, 2);
        assert InSpan(v, i, x) && InSpan(v, j, y);
      }
    } else if (x, y) in AlignSet(v) {
      AlignSetRange(v, x, y);
    }
  }

  lemma NearSix(v: Version, x: int)
    requires v >= 2
    ensures InSpan(v, 0, x) <==> 4 <= x <= 8
  {
    AlignFacts(v);
  }

  lemma SquareOf(v: Version, x: int, y: int) returns (i: nat, j: nat)
    requires v >= 2 && (x, y) in AlignSet(v)
    ensures InSpan(v, i, x) && InSpan(v, j, y) && !IsCorner(NumAlign(v), i, j)
  {
    hide AlignPos, AlignStep, AlignSet;
    var n := NumAlign(v);
    AlignFacts(v);
    AlignSetMembers(v, x, y);
    SpansAre(v, n - 1, x);
    SpansAre(v, n - 1, y);
    SpansAre(v, n - 2, x);
    SpansAre(v, n - 2, y);
    NearSix(v, x);
    NearSix(v, y);
    if x in Spans(v, n - 1) && y in Spans(v, n - 1) {
      i :| 1 <= i <= n - 1 && InSpan(v, i, x);
      j :| 1 <= j <= n - 1 && InSpan(v, j, y);
    } else if y in Spans(v, n - 2) {
      i := 0;
      j :| 1 <= j <= n - 2 && InSpan(v, j, y);
    } else {
      i :| 1 <= i <= n - 2 && InSpan(v, i, x);
      j := 0;
    }
  }

  lemma AlignSetCount(v: Version)
    ensures v >= 2 ==> |AlignSet(v)| == 25 * NumAlign(v) * NumAlign(v) - 10 * NumAlign(v) - 55
    ensures v < 2 ==> |AlignSet(v)| == 0
  {
    hide Spans, Product;
    if v >= 2 {
      var n := NumAlign(v);
      AlignFacts(v);
      var a, b, c := Spans(v, n - 1), Spans(v, n - 2), {4, 5, 7, 8};
      SpansCount(v, n - 1);
      SpansCount(v, n - 2);
      ProductCount(a, a);
      ProductCount(c, b);
      ProductCount(b, c);
      forall x | x in a
        ensures x >= 16
      {
        SpanRange(v, n - 1, x);
      }
      forall x | x in b
        ensures x >= 16
      {
        SpanRange(v, n - 2, x);
      }
      ProductsApart(a, a, c, b);
      ProductsApart(a, a, b, c);
      ProductsApart(c, b, b, c);
      UnionCount(Product(a, a), Product(c, b));
      UnionCount(Product(a, a) + Product(c, b), Product(b, c));
      AlignArithmetic(n);
    }
  }

  lemma AlignArithmetic(n: int)
    ensures (5 * (n - 1)) * (5 * (n - 1)) + 4 * (5 * (n - 2)) + (5 * (n - 2)) * 4 == 25 * n * n - 10 * n - 55
  {
  }

  /** Alignment modules off the timing lines keep clear of everything else. */
  lemma AlignSetRange(v: Version, x: int, y: int)
    requires (x, y) in AlignSet(v)
    ensures v >= 2 && InGrid(v, x, y) && !IsTiming(v, x, y) && !IsFinder(v, x, y) && !IsVersionBlock(v, x, y)
  {
    hide AlignPos, AlignStep, AlignSet, Spans;
    assert v >= 2 by { SmallHasNoAlignment(v); }
    var n := NumAlign(v);
    AlignFacts(v);
    AlignSetMembers(v, x, y);
    if x in Spans(v, n - 1) {
      SpanRange(v, n - 1, x);
    }
    if y in Spans(v, n - 1) {
      SpanRange(v, n - 1, y);
    }
    if x in Spans(v, n - 2) {
      SpanRange(v, n - 2, x);
    }
    if y in Spans(v, n - 2) {
      SpanRange(v, n - 2, y);
    }
  }

  lemma SmallHasNoAlignment(v: Version)
    requires AlignSet(v) != {}
    ensures v >= 2
  {
  }

  lemma PiecesDisjoint(v: Version)
    ensures |FrameSet(v) + VersionSet(v) + AlignSet(v)| == |FrameSet(v)| + |VersionSet(v)| + |AlignSet(v)|
  {
    hide FrameSet, VersionSet, AlignSet, IsFinder, IsTiming, IsVersionBlock;
    forall c | c in FrameSet(v)
      ensures c !in VersionSet(v) && c !in AlignSet(v)
    {
      VersionSetIs(v, c.0, c.1);
      FrameSetIs(v, c.0, c.1);
      VersionBlockRange(v, c.0, c.1);
      if c in AlignSet(v) {
        AlignSetRange(v, c.0, c.1);
      }
    }
    forall c | c in VersionSet(v)
      ensures c !in AlignSet(v)
    {
      VersionSetIs(v, c.0, c.1);
      if c in AlignSet(v) {
        AlignSetRange(v, c.0, c.1);
      }
    }
    UnionCount(FrameSet(v), VersionSet(v));
    UnionCount(FrameSet(v) + VersionSet(v), AlignSet(v));
  }

  lemma VersionBlockRange(v: Version, x: int, y: int)
    ensures IsVersionBlock(v, x, y) ==> InGrid(v, x, y) && !IsFinder(v, x, y) && !IsTiming(v, x, y)
  {
  }

  // ---------- the free modules ----------

  ghost function FreeSet(v: Version): set<Cell> {
    set x, y | 0 <= x < Size(v) && 0 <= y < Size(v) && !IsFunction(v, x, y) :: (x, y)
  }

  /** The free modules number exactly what the closed form says. */
  lemma FreeCount(v: Version)
    ensures |FreeSet(v)| == NumRawDataModules(v)
  {
    hide FrameSet, VersionSet, AlignSet, Interval, Product, FreeSet;
    var n := Size(v);
    var side := Interval(0, n);
    IntervalIs(0, n);
    ProductCount(side, side);
    var all, fn := Product(side, side), FrameSet(v) + VersionSet(v) + AlignSet(v);
    FrameSetCount(v);
    VersionSetCount(v);
    AlignSetCount(v);
    PiecesDisjoint(v);
    forall c: Cell
      ensures c in fn ==> c in all
      ensures c in FreeSet(v) <==> c in all && c !in fn
    {
      ProductIs(side, side, c.0, c.1);
      FreeSetSplits(v, c.0, c.1);
    }
    assert fn <= all;
    assert FreeSet(v) == all - fn;
    CountFormula(v);
  }

  lemma FreeSetSplits(v: Version, x: int, y: int)
    ensures var fn := (x, y) in FrameSet(v) || (x, y) in VersionSet(v) || (x, y) in AlignSet(v);
            (fn ==> InGrid(v, x, y)) && ((x, y) in FreeSet(v) <==> InGrid(v, x, y) && !fn)
  {
    hide FrameSet, VersionSet, AlignSet, IsFinder, IsTiming, IsVersionBlock, IsAlignment;
    FrameSetIs(v, x, y);
    VersionSetIs(v, x, y);
    VersionBlockRange(v, x, y);
    if InGrid(v, x, y) && !IsTiming(v, x, y) {
      AlignSetIs(v, x, y);
    }
    if (x, y) in AlignSet(v) {
      AlignSetRange(v, x, y);
    }
  }

  lemma CountFormula(v: Version)
    ensures var align := if v >= 2 then 25 * NumAlign(v) * NumAlign(v) - 10 * NumAlign(v) - 55 else 0;
            NumRawDataModules(v) == Size(v) * Size(v) - (225 + 8 * v) - align - (if v >= 7 then 36 else 0)
  {
    assert Size(v) * Size(v) == (16 * v + 136) * v + 289;
  }
}
