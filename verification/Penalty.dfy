/** The penalty score of a symbol: a declarative definition on pictures, and the scanning code that computes it. */
module Penalty {
  import opened VersionInfo
  import opened Grid
  import opened FunctionModules

  /** Rows of modules, true for black. */
  type Picture = seq<seq<bool>>

  ghost predicate IsSquare(p: Picture, n: nat) {
    |p| == n && forall y | 0 <= y < n :: |p[y]| == n
  }

  ghost function Pixels(q: seq<bv8>, v: Version): (p: Picture)
    requires |q| >= BufferLen(v)
    ensures IsSquare(p, Size(v))
    ensures forall x, y | InGrid(v, x, y) :: p[y][x] == At(q, v, x, y)
  {
    hide At, BufferLen;
    seq(Size(v), y requires 0 <= y < Size(v) => seq(Size(v), x requires 0 <= x < Size(v) => At(q, v, x, y)))
  }

  // ---------- runs ----------

  /** Lengths of the alternating runs of a line, a white one first (possibly of length 0). */
  ghost function Runs(line: seq<bool>): (rs: seq<nat>)
    ensures |rs| > 0
  {
    if line == [] then [0] else NextRuns(Runs(line[..|line| - 1]), line[|line| - 1])
  }

  /** The runs after one more module: the last one longer, or a new one of the other colour. */
  ghost function NextRuns(rs: seq<nat>, c: bool): (next: seq<nat>)
    requires |rs| > 0
    ensures |next| > 0
  {
    if c == EndsBlack(rs) then rs[|rs| - 1 := rs[|rs| - 1] + 1] else rs + [1]
  }

  /** The last run of an alternating list is black when their number is even. */
  ghost predicate EndsBlack(rs: seq<nat>) {
    |rs| % 2 == 0
  }

  ghost function Repeat(c: bool, n: nat): seq<bool> {
    seq(n, _ => c)
  }

  /** The line with the given alternating runs. */
  ghost function Expand(rs: seq<nat>): seq<bool> {
    if rs == [] then [] else Expand(rs[..|rs| - 1]) + Repeat(EndsBlack(rs), rs[|rs| - 1])
  }

  /** Runs is run-length encoding: it expands back to the line, and only the first run can be empty, so each run is a
      maximal stretch of one colour. */
  lemma {:induction false} RunsExpand(line: seq<bool>)
    ensures Expand(Runs(line)) == line
    ensures forall k | 0 < k < |Runs(line)| :: Runs(line)[k] > 0
  {
    if line == [] {
      assert Runs(line)[..0] == [];
    } else {
      var n := |line| - 1;
      RunsExpand(line[..n]);
      assert line == line[..n] + [line[n]];
      RunsAppend(line, n);
      assert line[..n + 1] == line;
      hide Runs, Expand;
      ExpandAppend(Runs(line[..n]), line[n]);
    }
  }

  /** Lengthening the last run, or starting a new one of the other colour, appends one module. */
  lemma ExpandAppend(rs: seq<nat>, c: bool)
    requires |rs| > 0
    ensures Expand(if c == EndsBlack(rs) then rs[|rs| - 1 := rs[|rs| - 1] + 1] else rs + [1]) == Expand(rs) + [c]
  {
    var m := |rs| - 1;
    if c == EndsBlack(rs) {
      assert rs[m := rs[m] + 1][..m] == rs[..m];
      assert Repeat(c, rs[m] + 1) == Repeat(c, rs[m]) + [c];
    } else {
      assert (rs + [1])[..|rs|] == rs;
      assert Repeat(EndsBlack(rs + [1]), 1) == [c];
    }
  }

  /** The runs completed with a last white run when the line ends in black. */
  ghost function FullRuns(line: seq<bool>): seq<nat> {
    var rs := Runs(line);
    if EndsBlack(rs) then rs + [0] else rs
  }

  /** L - 2 for each run of length L >= 5. */
  ghost function RunPenalty(rs: seq<nat>): nat {
    if rs == [] then 0
    else RunPenalty(rs[..|rs| - 1]) + if rs[|rs| - 1] >= 5 then rs[|rs| - 1] - 2 else 0
  }

  /** The white run t ends a 1:1:3:1:1 pattern with at least four units of white on one side. */
  ghost predicate FinderAt(rs: seq<nat>, t: int) {
    && 6 <= t < |rs| && t % 2 == 0 && rs[t - 1] > 0
    && rs[t - 2] == rs[t - 1] && rs[t - 3] == 3 * rs[t - 1] && rs[t - 4] == rs[t - 1] && rs[t - 5] == rs[t - 1]
    && (rs[t] >= 4 * rs[t - 1] || rs[t - 6] >= 4 * rs[t - 1])
  }

  ghost function FinderCount(rs: seq<nat>): nat {
    if rs == [] then 0 else FinderCount(rs[..|rs| - 1]) + if FinderAt(rs, |rs| - 1) then 1 else 0
  }

  ghost function LinePenalty(line: seq<bool>): nat {
    RunPenalty(Runs(line)) + 40 * FinderCount(FullRuns(line))
  }

  // ---------- the score ----------

  ghost function Column(p: Picture, x: nat): (c: seq<bool>)
    requires IsSquare(p, |p|) && x < |p|
    ensures |c| == |p|
  {
    seq(|p|, y requires 0 <= y < |p| => p[y][x])
  }

  ghost function RowsPenalty(p: Picture, n: nat): nat
    requires n <= |p|
  {
    if n == 0 then 0 else RowsPenalty(p, n - 1) + LinePenalty(p[n - 1])
  }

  ghost function ColumnsPenalty(p: Picture, n: nat): nat
    requires IsSquare(p, |p|) && n <= |p|
  {
    if n == 0 then 0 else ColumnsPenalty(p, n - 1) + LinePenalty(Column(p, n - 1))
  }

  ghost predicate IsUniformBlock(p: Picture, x: int, y: int)
    requires IsSquare(p, |p|)
  {
    0 <= x < |p| - 1 && 0 <= y < |p| - 1 && p[y][x] == p[y][x + 1] == p[y + 1][x] == p[y + 1][x + 1]
  }

  ghost function UniformBlocks(p: Picture): set<(int, int)>
    requires IsSquare(p, |p|)
  {
    set x, y | 0 <= x < |p| && 0 <= y < |p| && IsUniformBlock(p, x, y) :: (x, y)
  }

  ghost function BlackModules(p: Picture): set<(int, int)>
    requires IsSquare(p, |p|)
  {
    set x, y | 0 <= x < |p| && 0 <= y < |p| && p[y][x] :: (x, y)
  }

  /** The black share lies within 5(k+1) percent of one half. */
  ghost predicate Balanced(black: nat, total: nat, k: nat) {
    (45 - 5 * k) * total <= 100 * black <= (55 + 5 * k) * total
  }

  function BalanceSteps(black: nat, total: nat): int
    requires total > 0
  {
    (Abs(black * 20 - total * 10) + total - 1) / total - 1
  }

  /** The code's quotient is the least k for which the share is within 5(k+1) percent of one half. */
  lemma BalanceIsLeast(black: nat, total: nat)
    requires total % 2 == 1
    ensures BalanceSteps(black, total) >= 0
    ensures forall k: nat :: Balanced(black, total, k) <==> k >= BalanceSteps(black, total)
  {
    var d := Abs(black * 20 - total * 10);
    var s := BalanceSteps(black, total);
    assert d > 0;
    CeilingDivision(d, total);
    forall k: nat
      ensures Balanced(black, total, k) <==> k >= s
    {
      assert Balanced(black, total, k) <==> d <= (k + 1) * total by {
        Spread(black, total, k);
      }
      if k >= s {
        MulMonotone(s + 1, k + 1, total);
      } else {
        MulMonotone(k + 1, s, total);
      }
    }
  }

  lemma Spread(black: nat, total: nat, k: nat)
    ensures Balanced(black, total, k) <==> Abs(black * 20 - total * 10) <= (k + 1) * total
  {
    var kt := k * total;
    assert (45 - 5 * k) * total == 45 * total - 5 * kt;
    assert (55 + 5 * k) * total == 55 * total + 5 * kt;
    assert (k + 1) * total == kt + total;
  }

  lemma CeilingDivision(d: nat, t: nat)
    requires d > 0 && t > 0
    ensures var c := (d + t - 1) / t; c >= 1 && (c - 1) * t < d <= c * t
  {
    var c := (d + t - 1) / t;
    assert d + t - 1 == c * t + (d + t - 1) % t;
    assert (c - 1) * t == c * t - t;
    assert c == 0 ==> c * t == 0;
  }

  ghost function Score(p: Picture): int
    requires IsSquare(p, |p|) && |p| > 0
  {
    var n := |p|;
    RowsPenalty(p, n) + ColumnsPenalty(p, n) + 3 * |UniformBlocks(p)| + 10 * BalanceSteps(|BlackModules(p)|, n * n)
  }

  // ---------- the scanning code ----------

  /** history[0..7) holds the last completed runs, newest first, padded with zeros. */
  ghost predicate HistoryIs(history: seq<UInt8>, rs: seq<nat>) {
    |history| == 7 &&
    forall k | 0 <= k < 7 :: history[k] as int == if k < |rs| then rs[|rs| - 1 - k] else 0
  }

  method AddRunToHistory(run: UInt8, history: array<UInt8>, ghost rs: seq<nat>)
    requires history.Length == 7 && HistoryIs(history[..], rs)
    modifies history
    ensures HistoryIs(history[..], rs + [run as int])
  {
    ghost var before := history[..];
    forall k | 1 <= k < 7 {
      history[k] := history[k - 1];
    }
    history[0] := run;
    assert forall k | 1 <= k < 7 :: history[..][k] == before[k - 1];
  }

  /** On a history whose newest run is white this finds exactly the patterns that the run ends. */
  method HasFinderLikePattern(runHistory: array<UInt8>, ghost rs: seq<nat>) returns (found: bool)
    requires runHistory.Length == 7 && HistoryIs(runHistory[..], rs) && |rs| % 2 == 1
    ensures found == FinderAt(rs, |rs| - 1)
  {
    var n := runHistory[1] as int;
    ghost var h := runHistory[..];
    assert forall k | 0 <= k < 7 :: h[k] == runHistory[k];
    found := n > 0 && runHistory[2] as int == n && runHistory[4] as int == n && runHistory[5] as int == n
             && runHistory[3] as int == n * 3 && (runHistory[0] as int >= n * 4 || runHistory[6] as int >= n * 4);
  }

  lemma RunsAppend(line: seq<bool>, x: nat)
    requires x < |line|
    ensures var rs := Runs(line[..x]);
            Runs(line[..x + 1]) ==
            if line[x] == EndsBlack(rs) then rs[|rs| - 1 := rs[|rs| - 1] + 1] else rs + [1]
  {
    assert line[..x + 1][..x] == line[..x];
  }

  lemma RunPenaltyAppend(rs: seq<nat>, r: nat)
    ensures RunPenalty(rs + [r]) == RunPenalty(rs) + if r >= 5 then r - 2 else 0
  {
    assert (rs + [r])[..|rs|] == rs;
  }

  lemma FinderCountAppend(rs: seq<nat>, r: nat)
    ensures FinderCount(rs + [r]) == FinderCount(rs) + if FinderAt(rs + [r], |rs|) then 1 else 0
  {
    hide FinderAt;
    assert (rs + [r])[..|rs|] == rs;
  }

  /** Only white runs end a pattern. */
  lemma BlackEndsNone(rs: seq<nat>)
    requires EndsBlack(rs)
    ensures !FinderAt(rs, |rs| - 1)
  {
  }

  lemma {:induction false} RunBounds(line: seq<bool>)
    ensures forall k | 0 <= k < |Runs(line)| :: Runs(line)[k] <= |line|
    ensures |Runs(line)| <= |line| + 1
  {
    if line != [] {
      RunBounds(line[..|line| - 1]);
    }
  }

  /** The sum of the runs is the length of the line. */
  ghost function Sum(rs: seq<nat>): nat {
    if rs == [] then 0 else Sum(rs[..|rs| - 1]) + rs[|rs| - 1]
  }

  lemma {:induction false} RunPenaltyBound(rs: seq<nat>)
    ensures RunPenalty(rs) <= Sum(rs)
  {
    if rs != [] {
      RunPenaltyBound(rs[..|rs| - 1]);
    }
  }

  lemma {:induction false} RunsSum(line: seq<bool>)
    ensures Sum(Runs(line)) == |line|
    ensures RunPenalty(Runs(line)) <= |line|
  {
    if line != [] {
      var n := |line| - 1;
      RunsSum(line[..n]);
      var rs := Runs(line[..n]);
      var m := |rs| - 1;
      assert rs[m := rs[m] + 1][..m] == rs[..m];
      assert (rs + [1])[..|rs|] == rs;
    } else {
      assert Sum([0]) == 0;
    }
    RunPenaltyBound(Runs(line));
  }

  /** The module at position i of row (or column) k. */
  method GetOnLine(qrcode: array<bv8>, ghost v: Version, horizontal: bool, k: int, i: int) returns (black: bool)
    requires IsGrid(qrcode[..], v) && 0 <= k < Size(v) && 0 <= i < Size(v)
    ensures black == Line(Pixels(qrcode[..], v), horizontal, k)[i]
  {
    hide At, BufferLen;
    if horizontal {
      black := GetModule(qrcode, v, i, k);
    } else {
      black := GetModule(qrcode, v, k, i);
    }
  }

  ghost function Line(p: Picture, horizontal: bool, k: nat): (line: seq<bool>)
    requires IsSquare(p, |p|) && k < |p|
    ensures |line| == |p|
  {
    if horizontal then p[k] else Column(p, k)
  }

  /** One pass of the first (or second) loop of getPenaltyScore. */
  method ScoreLine(qrcode: array<bv8>, ghost v: Version, horizontal: bool, k: nat) returns (result: int)
    requires IsGrid(qrcode[..], v) && k < Size(v)
    ensures result == LinePenalty(Line(Pixels(qrcode[..], v), horizontal, k))
  {
    hide At, BufferLen, Pixels, Runs, RunPenalty, FinderAt, FinderCount, HistoryIs, Line;
    var qrsize := GetSize(qrcode, v);
    ghost var line := Line(Pixels(qrcode[..], v), horizontal, k);
    var runHistory := new UInt8[7](_ => 0);
    var color := false;
    var run: UInt8 := 0;
    result := 0;
    ghost var done: seq<nat> := [];
    assert HistoryIs(runHistory[..], done) && Runs(line[..0]) == [0] && RunPenalty([0]) == 0 &&
           FinderCount([]) == 0 by {
      StartOfLine(line, runHistory[..]);
    }
    for x := 0 to qrsize
      invariant Runs(line[..x]) == done + [run as int]
      invariant color == EndsBlack(done + [run as int])
      invariant HistoryIs(runHistory[..], done)
      invariant result == RunPenalty(done + [run as int]) + 40 * FinderCount(done)
    {
      RunsAppend(line, x);
      RunBounds(line[..x]);
      ghost var rs := done + [run as int];
      assert rs[|rs| - 1] <= x;
      var here := GetOnLine(qrcode, v, horizontal, k, x);
      if here == color {
        RunPenaltyAppend(done, run as int);
        RunPenaltyAppend(done, run as int + 1);
        run := run + 1;
        if run == 5 {
          result := result + 3;
        } else if run > 5 {
          result := result + 1;
        }
        assert rs[|rs| - 1 := rs[|rs| - 1] + 1] == done + [run as int];
      } else {
        AddRunToHistory(run, runHistory, done);
        FinderCountAppend(done, run as int);
        RunPenaltyAppend(rs, 1);
        if color {
          BlackEndsNone(rs);
        } else {
          var found := HasFinderLikePattern(runHistory, rs);
          if found {
            result := result + 40;
          }
        }
        color := here;
        run := 1;
        done := rs;
      }
    }
    assert line[..qrsize] == line;
    result := FinishLine(runHistory, run, color, result, done, line);
  }

  lemma StartOfLine(line: seq<bool>, history: seq<UInt8>)
    requires |history| == 7 && forall k | 0 <= k < 7 :: history[k] == 0
    ensures HistoryIs(history, []) && Runs(line[..0]) == [0] && RunPenalty([0]) == 0 && FinderCount([]) == 0
  {
    assert line[..0] == [];
  }

  /** The statements after the inner loop. */
  method FinishLine(runHistory: array<UInt8>, run: UInt8, color: bool, soFar: int, ghost done: seq<nat>,
                    ghost line: seq<bool>)
    returns (result: int)
    requires runHistory.Length == 7 && HistoryIs(runHistory[..], done)
    requires Runs(line) == done + [run as int] && color == EndsBlack(done + [run as int])
    requires soFar == RunPenalty(Runs(line)) + 40 * FinderCount(done)
    modifies runHistory
    ensures result == LinePenalty(line)
  {
    hide Runs, RunPenalty, FinderAt, FinderCount, HistoryIs;
    result := soFar;
    AddRunToHistory(run, runHistory, done);
    ghost var rs := done + [run as int];
    FinderCountAppend(done, run as int);
    if color {
      BlackEndsNone(rs);
      AddRunToHistory(0, runHistory, rs);
      FinderCountAppend(rs, 0);
      rs := rs + [0];
    }
    var found := HasFinderLikePattern(runHistory, rs);
    if found {
      result := result + 40;
    }
  }

  // ---------- uniform blocks and balance ----------

  /** Cells of a set that come before (x, y) in row order. */
  ghost function Earlier(s: set<(int, int)>, x: int, y: int): set<(int, int)> {
    set c | c in s && (c.1 < y || (c.1 == y && c.0 < x))
  }

  lemma EarlierStep(s: set<(int, int)>, n: nat, x: int, y: int)
    requires forall c | c in s :: 0 <= c.0 < n && 0 <= c.1 < n
    ensures |Earlier(s, x + 1, y)| == |Earlier(s, x, y)| + if (x, y) in s then 1 else 0
    ensures Earlier(s, n, y) == Earlier(s, 0, y + 1)
    ensures Earlier(s, 0, 0) == {}
    ensures Earlier(s, 0, n) == s
  {
    var e, e' := Earlier(s, x, y), Earlier(s, x + 1, y);
    assert e' == if (x, y) in s then e + {(x, y)} else e;
  }

  method CountBlocks(qrcode: array<bv8>, ghost v: Version) returns (result: int)
    requires IsGrid(qrcode[..], v)
    ensures result == 3 * |UniformBlocks(Pixels(qrcode[..], v))|
  {
    hide At, BufferLen, Pixels, Earlier, UniformBlocks;
    var qrsize := GetSize(qrcode, v);
    ghost var p := Pixels(qrcode[..], v);
    ghost var blocks := UniformBlocks(p);
    forall c: (int, int)
      ensures c in blocks <==> IsUniformBlock(p, c.0, c.1)
    {
      BlockMembers(p, c.0, c.1);
    }
    EarlierStep(blocks, qrsize, 0, 0);
    result := 0;
    for y := 0 to qrsize - 1
      invariant result == 3 * |Earlier(blocks, 0, y)|
    {
      for x := 0 to qrsize - 1
        invariant result == 3 * |Earlier(blocks, x, y)|
      {
        EarlierStep(blocks, qrsize, x, y);
        var color := GetModule(qrcode, v, x, y);
        var right := GetModule(qrcode, v, x + 1, y);
        var below := GetModule(qrcode, v, x, y + 1);
        var across := GetModule(qrcode, v, x + 1, y + 1);
        if color == right && color == below && color == across {
          result := result + 3;
        }
      }
      EarlierStep(blocks, qrsize, qrsize - 1, y);
    }
    EarlierStep(blocks, qrsize, 0, qrsize - 1);
    LastRowHasNoBlock(p);
  }

  lemma BlockMembers(p: Picture, x: int, y: int)
    requires IsSquare(p, |p|)
    ensures (x, y) in UniformBlocks(p) <==> IsUniformBlock(p, x, y)
  {
  }

  lemma LastRowHasNoBlock(p: Picture)
    requires IsSquare(p, |p|)
    ensures Earlier(UniformBlocks(p), 0, |p| - 1) == UniformBlocks(p)
  {
  }

  method CountBlack(qrcode: array<bv8>, ghost v: Version) returns (black: int)
    requires IsGrid(qrcode[..], v)
    ensures black == |BlackModules(Pixels(qrcode[..], v))|
  {
    hide At, BufferLen, Pixels, Earlier, BlackModules;
    var qrsize := GetSize(qrcode, v);
    ghost var p := Pixels(qrcode[..], v);
    ghost var blacks := BlackModules(p);
    forall c: (int, int)
      ensures c in blacks <==> 0 <= c.0 < |p| && 0 <= c.1 < |p| && p[c.1][c.0]
    {
      BlackMembers(p, c.0, c.1);
    }
    EarlierStep(blacks, qrsize, 0, 0);
    black := 0;
    for y := 0 to qrsize
      invariant black == |Earlier(blacks, 0, y)|
    {
      for x := 0 to qrsize
        invariant black == |Earlier(blacks, x, y)|
      {
        EarlierStep(blacks, qrsize, x, y);
        var isBlack := GetModule(qrcode, v, x, y);
        if isBlack {
          black := black + 1;
        }
      }
      EarlierStep(blacks, qrsize, 0, y);
    }
    EarlierStep(blacks, qrsize, 0, 0);
  }

  lemma BlackMembers(p: Picture, x: int, y: int)
    requires IsSquare(p, |p|)
    ensures (x, y) in BlackModules(p) <==> 0 <= x < |p| && 0 <= y < |p| && p[y][x]
  {
  }

  method GetPenaltyScore(qrcode: array<bv8>, ghost v: Version) returns (result: int)
    requires IsGrid(qrcode[..], v)
    ensures result == Score(Pixels(qrcode[..], v))
  {
    hide At, BufferLen, Pixels, LinePenalty, UniformBlocks, BlackModules, BalanceSteps;
    var qrsize := GetSize(qrcode, v);
    ghost var p := Pixels(qrcode[..], v);
    result := 0;
    for y := 0 to qrsize
      invariant result == RowsPenalty(p, y)
    {
      var row := ScoreLine(qrcode, v, true, y);
      result := result + row;
    }
    for x := 0 to qrsize
      invariant result == RowsPenalty(p, qrsize) + ColumnsPenalty(p, x)
    {
      var column := ScoreLine(qrcode, v, false, x);
      result := result + column;
    }
    var blocks := CountBlocks(qrcode, v);
    result := result + blocks;
    var black := CountBlack(qrcode, v);
    var total := qrsize * qrsize;
    assert total > 0 by { SquarePositive(qrsize); }
    var k := (Abs(black * 20 - total * 10) + total - 1) / total - 1;
    assert k == BalanceSteps(black, total) by { BalanceFormula(black, total); }
    result := result + k * 10;
  }

  lemma SquarePositive(n: int)
    requires n > 0
    ensures n * n > 0
  {
  }

  lemma BalanceFormula(black: nat, total: nat)
    requires total > 0
    ensures BalanceSteps(black, total) == (Abs(black * 20 - total * 10) + total - 1) / total - 1
  {
  }

  // ---------- the score fits its C type ----------

  lemma {:induction false} FinderCountBound(rs: seq<nat>)
    ensures FinderCount(rs) <= |rs|
  {
    hide FinderAt;
    if rs != [] {
      FinderCountBound(rs[..|rs| - 1]);
    }
  }

  lemma LineBound(line: seq<bool>)
    ensures LinePenalty(line) <= 41 * |line| + 80
  {
    RunsSum(line);
    RunBounds(line);
    FinderCountBound(FullRuns(line));
  }

  lemma {:induction false} RowsBound(p: Picture, n: nat)
    requires IsSquare(p, |p|) && |p| <= 177 && n <= |p|
    ensures RowsPenalty(p, n) <= 7337 * n && ColumnsPenalty(p, n) <= 7337 * n
  {
    hide LinePenalty;
    if n > 0 {
      RowsBound(p, n - 1);
      LineBound(p[n - 1]);
      LineBound(Column(p, n - 1));
    }
  }

  lemma {:induction false} CellsBound(s: set<(int, int)>, n: nat, y: nat)
    requires forall c | c in s :: 0 <= c.0 < n && 0 <= c.1 < n
    ensures |Earlier(s, 0, y)| <= n * y
  {
    EarlierStep(s, n, 0, 0);
    if y > 0 {
      CellsBound(s, n, y - 1);
      RowBound(s, n, n, y - 1);
      EarlierStep(s, n, 0, y - 1);
      assert n * (y - 1) + n == n * y;
    }
  }

  lemma {:induction false} RowBound(s: set<(int, int)>, n: nat, x: nat, y: nat)
    requires forall c | c in s :: 0 <= c.0 < n && 0 <= c.1 < n
    ensures |Earlier(s, x, y)| <= |Earlier(s, 0, y)| + x
  {
    hide Earlier;
    if x > 0 {
      RowBound(s, n, x - 1, y);
      EarlierStep(s, n, x - 1, y);
    }
  }

  /** Every score is below LONG_MAX, so the first mask tried is always taken. */
  lemma ScoreBound(p: Picture)
    requires IsSquare(p, |p|) && 21 <= |p| <= 177
    ensures Score(p) < 0x7FFF_FFFF
  {
    hide RowsPenalty, ColumnsPenalty, Earlier, UniformBlocks, BlackModules, BalanceSteps;
    var n := |p|;
    RowsBound(p, n);
    var blocks, blacks := UniformBlocks(p), BlackModules(p);
    forall c | c in blocks
      ensures 0 <= c.0 < n && 0 <= c.1 < n
    {
      BlockMembers(p, c.0, c.1);
    }
    forall c | c in blacks
      ensures 0 <= c.0 < n && 0 <= c.1 < n
    {
      BlackMembers(p, c.0, c.1);
    }
    CellsBound(blocks, n, n);
    CellsBound(blacks, n, n);
    EarlierStep(blocks, n, 0, 0);
    EarlierStep(blacks, n, 0, 0);
    BalanceBound(|blacks|, n * n);
    SquareBound(n);
  }

  lemma SquareBound(n: nat)
    requires n <= 177
    ensures n * n <= 31329
  {
    MulMonotone(n, 177, n);
  }

  lemma BalanceBound(black: nat, total: nat)
    requires total > 0 && black <= total
    ensures BalanceSteps(black, total) <= 9
  {
    var d := Abs(black * 20 - total * 10);
    assert d + total - 1 < 11 * total;
    QuotientBounds(d + total - 1, total, 0, 11);
  }
}
