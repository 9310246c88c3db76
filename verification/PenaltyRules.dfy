/** The penalty rules in terms of modules instead of runs: stretches of one colour, finder-like patterns, and the score
    of a picture of one colour. */
module PenaltyRules {
  import opened Bytes
  import opened VersionInfo
  import opened FunctionModules
  import opened Penalty

  // ---------- stretches of five ----------

  /** The five modules that end before position i have one colour. */
  ghost predicate FiveAt(line: seq<bool>, i: int) {
    5 <= i <= |line| && line[i - 5] == line[i - 4] == line[i - 3] == line[i - 2] == line[i - 1]
  }

  /** They do, and the module before them has the other colour or does not exist. */
  ghost predicate FirstFiveAt(line: seq<bool>, i: int) {
    FiveAt(line, i) && (i == 5 || line[i - 6] != line[i - 5])
  }

  /** One for each five modules of one colour in a row, and two more where such a stretch begins. */
  ghost function FivesPenalty(line: seq<bool>, n: nat): nat
    requires n <= |line|
  {
    if n == 0 then 0
    else FivesPenalty(line, n - 1) + (if FiveAt(line, n) then 1 else 0) + if FirstFiveAt(line, n) then 2 else 0
  }

  lemma RunsUnfold(line: seq<bool>)
    requires line != []
    ensures Runs(line) == NextRuns(Runs(line[..|line| - 1]), line[|line| - 1])
  {
    hide NextRuns;
  }

  lemma RunsOneMore(line: seq<bool>, c: bool)
    ensures Runs(line + [c]) == NextRuns(Runs(line), c)
  {
    hide *;
    RunsUnfold(line + [c]);
    assert (line + [c])[..|line|] == line;
  }

  /** The line ends in l modules of colour c, with one of the other colour before them. */
  ghost predicate EndsIn(line: seq<bool>, l: nat, c: bool) {
    && l <= |line| && (forall i | |line| - l <= i < |line| :: line[i] == c)
    && (l < |line| ==> line[|line| - 1 - l] != c)
  }

  /** That is the last run. */
  lemma {:induction false} LastRun(line: seq<bool>)
    ensures EndsIn(line, Runs(line)[|Runs(line)| - 1], EndsBlack(Runs(line)))
  {
    hide Runs, EndsBlack, EndsIn;
    if line == [] {
      NothingYet();
    } else {
      var n := |line| - 1;
      var rs := Runs(line[..n]);
      LastRun(line[..n]);
      RunsOneMore(line[..n], line[n]);
      if line[..n] != [] {
        NoEmptyLast(line[..n]);
      }
      EndsInOneMore(line[..n], rs[|rs| - 1], EndsBlack(rs), line[n]);
      SameColour(rs, rs[|rs| - 1 := rs[|rs| - 1] + 1]);
      OtherColour(rs + [1]);
      assert (rs + [1])[..|rs|] == rs;
      assert line[..n] + [line[n]] == line;
    }
  }

  lemma NothingYet()
    ensures Runs([]) == [0] && EndsIn([], 0, EndsBlack([0]))
  {
  }

  lemma EndsInOneMore(line: seq<bool>, l: nat, c: bool, d: bool)
    requires EndsIn(line, l, c) && (line != [] ==> l > 0)
    ensures if d == c then EndsIn(line + [d], l + 1, c) else EndsIn(line + [d], 1, d)
  {
  }

  lemma LastRunFive(line: seq<bool>)
    ensures var rs := Runs(line);
            (FiveAt(line, |line|) <==> rs[|rs| - 1] >= 5) && (FirstFiveAt(line, |line|) <==> rs[|rs| - 1] == 5)
  {
    LastRun(line);
    if line != [] {
      NoEmptyLast(line);
    }
    hide Runs, EndsBlack;
  }

  lemma NoEmptyLast(line: seq<bool>)
    requires line != []
    ensures Runs(line)[|Runs(line)| - 1] > 0
  {
  }

  lemma FivesPrefix(line: seq<bool>, i: nat, n: nat)
    requires i <= n <= |line|
    ensures FiveAt(line[..n], i) == FiveAt(line, i) && FirstFiveAt(line[..n], i) == FirstFiveAt(line, i)
  {
  }

  lemma RunPenaltyLonger(rs: seq<nat>)
    requires rs != []
    ensures RunPenalty(rs[|rs| - 1 := rs[|rs| - 1] + 1]) ==
            RunPenalty(rs) + if rs[|rs| - 1] == 4 then 3 else if rs[|rs| - 1] > 4 then 1 else 0
  {
    var m := |rs| - 1;
    assert rs[m := rs[m] + 1][..m] == rs[..m];
  }

  /** What the runs of a line cost. */
  lemma {:induction false} RunsCost(line: seq<bool>, n: nat)
    requires n <= |line|
    ensures RunPenalty(Runs(line[..n])) == FivesPenalty(line, n)
    decreases n
  {
    hide Runs, RunPenalty, FiveAt, FirstFiveAt, EndsBlack;
    if n == 0 {
      assert line[..0] == [];
      NothingCosts();
    } else {
      RunsCost(line, n - 1);
      RunsAppend(line, n - 1);
      LastRunFive(line[..n]);
      FivesPrefix(line, n, n);
      var rs := Runs(line[..n - 1]);
      if line[n - 1] == EndsBlack(rs) {
        RunPenaltyLonger(rs);
      } else {
        RunPenaltyAppend(rs, 1);
      }
    }
  }

  lemma NothingCosts()
    ensures Runs([]) == [0] && RunPenalty([0]) == 0
  {
    assert RunPenalty([0][..0]) == 0;
  }

  /** The penalty of a line: its stretches of five, and forty for each finder-like pattern. */
  lemma LineCost(line: seq<bool>)
    ensures LinePenalty(line) == FivesPenalty(line, |line|) + 40 * FinderCount(FullRuns(line))
  {
    hide Runs, FinderCount, FivesPenalty, FullRuns;
    RunsCost(line, |line|);
    assert line[..|line|] == line;
  }

  // ---------- finder-like patterns ----------

  /** Run lengths of a line: only the first may be zero. */
  ghost predicate AreRuns(rs: seq<nat>) {
    rs != [] && forall k | 0 < k < |rs| :: rs[k] > 0
  }

  /** Every list of run lengths is the list of runs of its line. */
  lemma {:induction false} RunsOfExpand(rs: seq<nat>)
    requires AreRuns(rs)
    ensures Runs(Expand(rs)) == rs
    decreases |rs|, rs[|rs| - 1]
  {
    hide Runs, Expand, EndsBlack;
    var m := |rs| - 1;
    if rs[m] > (if m == 0 then 0 else 1) {
      var shorter := rs[m := rs[m] - 1];
      RunsOfExpand(shorter);
      ExpandAppend(shorter, EndsBlack(shorter));
      RunsOneMore(Expand(shorter), EndsBlack(shorter));
      SameColour(rs, shorter);
      assert shorter[m := shorter[m] + 1] == rs;
    } else if m == 0 {
      assert rs == [0];
      ExpandNothing();
    } else {
      var front := rs[..m];
      RunsOfExpand(front);
      OtherColour(rs);
      ExpandAppend(front, EndsBlack(rs));
      RunsOneMore(Expand(front), EndsBlack(rs));
      assert front + [1] == rs;
    }
  }

  lemma SameColour(rs: seq<nat>, other: seq<nat>)
    requires |rs| == |other|
    ensures EndsBlack(rs) == EndsBlack(other)
  {
  }

  lemma OtherColour(rs: seq<nat>)
    requires rs != []
    ensures EndsBlack(rs[..|rs| - 1]) != EndsBlack(rs)
  {
  }

  lemma ExpandNothing()
    ensures Expand([0]) == [] && Runs([]) == [0]
  {
    assert Expand([0]) == Expand([0][..0]) + Repeat(false, 0);
  }

  /** Seven stretches of modules, white at both ends. */
  ghost function Seven(w: nat, a: nat, b: nat, c: nat, d: nat, e: nat, z: nat): seq<bool> {
    Repeat(false, w) + Repeat(true, a) + Repeat(false, b) + Repeat(true, c) + Repeat(false, d) + Repeat(true, e) +
    Repeat(false, z)
  }

  lemma ExpandLast(rs: seq<nat>, r: nat)
    ensures Expand(rs + [r]) == Expand(rs) + Repeat(|rs| % 2 == 1, r)
  {
    hide Repeat, EndsBlack;
    LastColour(rs, r);
    ExpandStep(rs + [r]);
    assert (rs + [r])[..|rs|] == rs;
  }

  lemma ExpandStep(rs: seq<nat>)
    requires rs != []
    ensures Expand(rs) == Expand(rs[..|rs| - 1]) + Repeat(EndsBlack(rs), rs[|rs| - 1])
  {
    hide Repeat, EndsBlack;
  }

  lemma LastColour(rs: seq<nat>, r: nat)
    ensures EndsBlack(rs + [r]) == (|rs| % 2 == 1)
  {
  }

  lemma NothingExpands()
    ensures Expand([]) == [] && Repeat(false, 0) == []
  {
  }

  lemma SevenIsExpand(w: nat, a: nat, b: nat, c: nat, d: nat, e: nat, z: nat)
    ensures Seven(w, a, b, c, d, e, z) == Expand([w, a, b, c, d, e, z])
    ensures Seven(w, a, b, c, d, e, 0) == Expand([w, a, b, c, d, e])
  {
    hide Expand, Repeat;
    NothingExpands();
    ExpandLast([], w);
    ExpandLast([w], a);
    ExpandLast([w, a], b);
    ExpandLast([w, a, b], c);
    ExpandLast([w, a, b, c], d);
    ExpandLast([w, a, b, c, d], e);
    ExpandLast([w, a, b, c, d, e], z);
    assert [] + [w] == [w] && [w] + [a] == [w, a] && [w, a] + [b] == [w, a, b] && [w, a, b] + [c] == [w, a, b, c];
    assert [w, a, b, c] + [d] == [w, a, b, c, d] && [w, a, b, c, d] + [e] == [w, a, b, c, d, e];
    assert [w, a, b, c, d, e] + [z] == [w, a, b, c, d, e, z];
  }

  lemma FullRunsOfSeven(w: nat, a: nat, b: nat, c: nat, d: nat, e: nat, z: nat)
    requires a > 0 && b > 0 && c > 0 && d > 0 && e > 0
    ensures FullRuns(Seven(w, a, b, c, d, e, z)) == [w, a, b, c, d, e, z]
  {
    hide Runs, Expand, Seven;
    SevenIsExpand(w, a, b, c, d, e, z);
    if z > 0 {
      RunsOfExpand([w, a, b, c, d, e, z]);
    } else {
      RunsOfExpand([w, a, b, c, d, e]);
      assert [w, a, b, c, d, e] + [0] == [w, a, b, c, d, e, z];
    }
  }

  lemma FewRunsNoPattern(rs: seq<nat>)
    requires |rs| <= 6
    ensures FinderCount(rs) == 0
  {
    if rs != [] {
      FewRunsNoPattern(rs[..|rs| - 1]);
    }
  }

  /** Among seven stretches there is a finder-like pattern exactly if the inner five are in the ratio 1:1:3:1:1 and one
      of the outer two is at least four units long. */
  lemma SevenCost(w: nat, a: nat, b: nat, c: nat, d: nat, e: nat, z: nat)
    requires a > 0 && b > 0 && c > 0 && d > 0 && e > 0
    ensures var line := Seven(w, a, b, c, d, e, z);
            LinePenalty(line) ==
            FivesPenalty(line, |line|) +
              if a == b == d == e && c == 3 * a && (4 * a <= w || 4 * a <= z) then 40 else 0
  {
    hide LinePenalty, FivesPenalty, Seven, FullRuns;
    LineCost(Seven(w, a, b, c, d, e, z));
    FullRunsOfSeven(w, a, b, c, d, e, z);
    FewRunsNoPattern([w, a, b, c, d, e]);
    assert [w, a, b, c, d, e] + [z] == [w, a, b, c, d, e, z];
    FinderCountAppend([w, a, b, c, d, e], z);
  }

  // ---------- a picture of one colour ----------

  ghost predicate IsPlain(p: Picture, c: bool) {
    IsSquare(p, |p|) && forall x, y | 0 <= x < |p| && 0 <= y < |p| :: p[y][x] == c
  }

  lemma PlainExpand(n: nat)
    ensures Expand([n]) == Repeat(false, n) && Expand([0, n]) == Repeat(true, n)
  {
    hide Expand, Repeat;
    NothingExpands();
    ExpandLast([], n);
    ExpandLast([], 0);
    ExpandLast([0], n);
    assert [] + [n] == [n] && [] + [0] == [0] && [0] + [n] == [0, n];
    assert [] + Repeat(false, n) == Repeat(false, n) && [] + Repeat(true, n) == Repeat(true, n);
  }

  lemma PlainRuns(n: nat, c: bool)
    requires n > 0
    ensures Runs(Repeat(c, n)) == if c then [0, n] else [n]
  {
    hide Runs, Expand, Repeat;
    PlainExpand(n);
    RunsOfExpand([n]);
    RunsOfExpand([0, n]);
  }

  lemma PlainLine(n: nat, c: bool)
    requires n >= 5
    ensures LinePenalty(Repeat(c, n)) == n - 2
  {
    hide Runs, Repeat;
    PlainRuns(n, c);
    FewRunsNoPattern(FullRuns(Repeat(c, n)));
    RunPenaltyAppend([], n);
    RunPenaltyAppend([], 0);
    RunPenaltyAppend([0], n);
    assert [] + [n] == [n] && [] + [0] == [0] && [0] + [n] == [0, n];
  }

  lemma {:induction false} PlainLines(p: Picture, c: bool, n: nat)
    requires IsPlain(p, c) && |p| >= 5 && n <= |p|
    ensures RowsPenalty(p, n) == n * (|p| - 2) && ColumnsPenalty(p, n) == n * (|p| - 2)
    decreases n
  {
    hide LinePenalty;
    if n > 0 {
      PlainLines(p, c, n - 1);
      PlainLine(|p|, c);
      assert p[n - 1] == Repeat(c, |p|) && Column(p, n - 1) == Repeat(c, |p|);
      assert n * (|p| - 2) == (n - 1) * (|p| - 2) + (|p| - 2);
    }
  }

  lemma {:induction false} FullRow(s: set<(int, int)>, n: nat, m: nat, x: nat, y: nat)
    requires forall c | c in s :: 0 <= c.0 < n && 0 <= c.1 < n
    requires x <= m <= n && forall i | 0 <= i < m :: (i, y) in s
    ensures |Earlier(s, x, y)| == |Earlier(s, 0, y)| + x
    decreases x
  {
    hide Earlier;
    if x > 0 {
      FullRow(s, n, m, x - 1, y);
      EarlierStep(s, n, x - 1, y);
    }
  }

  lemma {:induction false} SquareCount(s: set<(int, int)>, m: nat, y: nat)
    requires forall c: (int, int) :: c in s <==> 0 <= c.0 < m && 0 <= c.1 < m
    requires y <= m
    ensures |Earlier(s, 0, y)| == m * y
    decreases y
  {
    hide Earlier;
    EarlierStep(s, m, 0, 0);
    if y > 0 {
      SquareCount(s, m, y - 1);
      FullRow(s, m, m, m, y - 1);
      EarlierStep(s, m, 0, y - 1);
      assert m * (y - 1) + m == m * y;
    }
  }

  lemma SquareHas(s: set<(int, int)>, m: nat)
    requires forall c: (int, int) :: c in s <==> 0 <= c.0 < m && 0 <= c.1 < m
    ensures |s| == m * m
  {
    hide Earlier;
    SquareCount(s, m, m);
    EarlierStep(s, m, 0, 0);
  }

  lemma PlainBalance(n: nat)
    requires n > 0
    ensures BalanceSteps(0, n) == 9 && BalanceSteps(n, n) == 9
  {
    DivUnique(11 * n - 1, n, 10, n - 1);
  }

  /** A picture of one colour pays for every line, for every square of two by two, and nine steps off balance. */
  lemma PlainScore(p: Picture, c: bool)
    requires IsPlain(p, c) && |p| >= 5
    ensures var n := |p|; Score(p) == 2 * (n * (n - 2)) + 3 * ((n - 1) * (n - 1)) + 90
  {
    hide RowsPenalty, ColumnsPenalty, UniformBlocks, BlackModules, BalanceSteps;
    var n := |p|;
    PlainLines(p, c, n);
    forall q: (int, int)
      ensures q in UniformBlocks(p) <==> 0 <= q.0 < n - 1 && 0 <= q.1 < n - 1
    {
      BlockMembers(p, q.0, q.1);
      assert q == (q.0, q.1);
    }
    SquareHas(UniformBlocks(p), n - 1);
    forall q: (int, int)
      ensures q in BlackModules(p) <==> c && 0 <= q.0 < n && 0 <= q.1 < n
    {
      BlackMembers(p, q.0, q.1);
      assert q == (q.0, q.1);
    }
    if c {
      SquareHas(BlackModules(p), n);
    } else {
      assert BlackModules(p) == {};
    }
    SquarePositive(n);
    PlainBalance(n * n);
  }
}
