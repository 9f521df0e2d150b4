/** The penalty score of a symbol (external/qrcodegen/QrCode.cpp, getPenaltyScore and its helpers). */
module MaskPenalty {
  import opened Basics
  import opened Arith
  import opened Grids

  const PENALTY_N1: nat := 3
  const PENALTY_N2: nat := 3
  const PENALTY_N3: nat := 40
  const PENALTY_N4: nat := 10

  // ---- Runs of one colour in a line ----

  /** The lengths of the runs that have ended, white first, and of the run that goes on. */
  datatype Line = Line(closed: seq<nat>, length: nat)

  predicate Black(s: Line) {
    |s.closed| % 2 == 1
  }

  function All(s: Line): seq<nat> {
    s.closed + [s.length]
  }

  /** The runs of the first x modules of a line. */
  function Runs(line: seq<bool>, x: nat): Line
    requires x <= |line|
  {
    if x == 0 then Line([], 0)
    else
      var s := Runs(line, x - 1);
      if line[x - 1] == Black(s) then Line(s.closed, s.length + 1) else Line(s.closed + [s.length], 1)
  }

  function Solid(n: nat, black: bool): seq<bool> {
    seq(n, _ => black)
  }

  /** The line whose runs are these. */
  function Expand(runs: seq<nat>): seq<bool> {
    if runs == [] then []
    else Expand(runs[..|runs| - 1]) + Solid(runs[|runs| - 1], (|runs| - 1) % 2 == 1)
  }

  lemma ExpandLast(runs: seq<nat>, n: nat)
    ensures Expand(runs + [n]) == Expand(runs) + Solid(n, |runs| % 2 == 1)
  {
    hide Solid;
    assert (runs + [n])[..|runs|] == runs;
  }

  /** The runs are a cutting of the line into pieces of alternating colour, only the first of which may be empty. */
  lemma {:induction false} RunsExpand(line: seq<bool>, x: nat)
    requires x <= |line|
    ensures Expand(All(Runs(line, x))) == line[..x]
    ensures forall k :: 0 < k <= |Runs(line, x).closed| ==> All(Runs(line, x))[k] > 0
  {
    hide Expand, Solid, Runs;
    RunsBounded(line, x);
    if x == 0 {
      RunsNothing(line);
      ExpandLast([], 0);
      ExpandNothing();
    } else {
      var s := Runs(line, x - 1);
      RunsStep(line, x - 1);
      RunsExpand(line, x - 1);
      assert line[..x] == line[..x - 1] + [line[x - 1]];
      ExpandLast(s.closed, s.length);
      if line[x - 1] == Black(s) {
        ExpandLast(s.closed, s.length + 1);
        OneLonger(s.length, Black(s));
        Regrouped(Expand(s.closed), Solid(s.length, Black(s)), [Black(s)]);
      } else {
        ExpandLast(All(s), 1);
        OneLonger(0, !Black(s));
      }
    }
  }

  lemma Regrouped(a: seq<bool>, b: seq<bool>, c: seq<bool>)
    ensures a + (b + c) == a + b + c
  {
  }

  lemma RunsNothing(line: seq<bool>)
    ensures Runs(line, 0) == Line([], 0)
  {
  }

  lemma ExpandNothing()
    ensures Expand([]) == [] && forall black :: Solid(0, black) == []
  {
  }

  lemma OneLonger(n: nat, black: bool)
    ensures Solid(n + 1, black) == Solid(n, black) + [black] && Solid(0, black) == []
  {
  }

  /** Runs are no longer than the line, and no more of them end than it has modules. */
  lemma {:induction false} RunsBounded(line: seq<bool>, x: nat)
    requires x <= |line|
    ensures var s := Runs(line, x);
      && |s.closed| <= x && s.length <= x && (s.closed != [] ==> s.length > 0)
      && forall k :: 0 <= k < |s.closed| ==> s.closed[k] <= x && (k > 0 ==> s.closed[k] > 0)
  {
    if x > 0 {
      RunsBounded(line, x - 1);
    }
  }

  // ---- The score of a line ----

  function RunScore(n: nat): nat {
    if n < 5 then 0 else PENALTY_N1 + (n - 5)
  }

  function RunsScore(runs: seq<nat>): nat {
    if runs == [] then 0 else RunsScore(runs[..|runs| - 1]) + RunScore(runs[|runs| - 1])
  }

  lemma RunsScoreLast(runs: seq<nat>, n: nat)
    ensures RunsScore(runs + [n]) == RunsScore(runs) + RunScore(n)
  {
    assert (runs + [n])[..|runs|] == runs;
  }

  /** The runs with the light border of the symbol added to the first one. */
  function Bordered(runs: seq<nat>, size: nat): (r: seq<nat>)
    ensures |r| == |runs|
  {
    if runs == [] then [] else [runs[0] + size] + runs[1..]
  }

  lemma BorderedLast(runs: seq<nat>, n: nat, size: nat)
    ensures Bordered(runs + [n], size) == Bordered(runs, size) + [if runs == [] then n + size else n]
  {
    if runs != [] {
      assert (runs + [n])[1..] == runs[1..] + [n];
    }
  }

  /** The runs of a whole line in its light border, the last one light. */
  function Framed(s: Line, size: nat): seq<nat> {
    if Black(s) then Bordered(All(s), size) + [size] else Bordered(s.closed + [s.length + size], size)
  }

  /** How often run j ends a 1:1:3:1:1 pattern with four times as much light on one side and as much on the other. */
  function Patterns(d: seq<nat>, j: nat): (r: nat)
    requires j < |d|
    ensures r <= 2
  {
    if j < 6 then 0
    else
      var n := d[j - 1];
      var core := n > 0 && d[j - 2] == n && d[j - 3] == 3 * n && d[j - 4] == n && d[j - 5] == n;
      (if core && d[j] >= 4 * n && d[j - 6] >= n then 1 else 0) + if core && d[j - 6] >= 4 * n && d[j] >= n then 1 else 0
  }

  /** The patterns that end in one of the light runs among the first n. */
  function Finders(d: seq<nat>, n: nat): (r: nat)
    requires n <= |d|
    ensures r <= 2 * n
  {
    if n == 0 then 0 else Finders(d, n - 1) + if n % 2 == 1 then Patterns(d, n - 1) else 0
  }

  lemma {:induction false} FindersPrefix(d: seq<nat>, v: nat, n: nat)
    requires n <= |d|
    ensures Finders(d + [v], n) == Finders(d, n)
  {
    if n > 0 {
      FindersPrefix(d, v, n - 1);
    }
  }

  lemma FindersLast(d: seq<nat>, v: nat)
    ensures Finders(d + [v], |d| + 1) == Finders(d, |d|) + if |d| % 2 == 0 then Patterns(d + [v], |d|) else 0
  {
    hide Patterns;
    FindersPrefix(d, v, |d|);
  }

  function LineScore(line: seq<bool>): nat {
    var s := Runs(line, |line|);
    var d := Framed(s, |line|);
    RunsScore(All(s)) + PENALTY_N3 * Finders(d, |d|)
  }

  // ---- The history of runs ----

  /** h holds the last seven runs of d, the latest first, and 0 where there are not that many. */
  ghost predicate Remembers(h: seq<int>, d: seq<nat>) {
    |h| == 7 && forall k :: 0 <= k < 7 ==> h[k] == if k < |d| then d[|d| - 1 - k] else 0
  }

  lemma RemembersMore(h: seq<int>, d: seq<nat>, v: nat)
    requires Remembers(h, d)
    ensures Remembers([v] + h[..6], d + [v])
  {
  }

  ghost predicate Within(d: seq<nat>, bound: nat) {
    forall k :: 0 <= k < |d| ==> 0 < d[k] <= bound
  }

  method AddHistory(h: array<int>, currentRunLength: int, size: nat)
    requires h.Length == 7
    modifies h
    ensures h[..] == [currentRunLength + if old(h[0]) == 0 then size else 0] + old(h[..6])
  {
    var length := currentRunLength;
    if h[0] == 0 {
      length := length + size;
    }
    for k := 6 downto 0
      invariant forall j :: 0 <= j < 7 ==> h[j] == if j > k then old(h[j - 1]) else old(h[j])
    {
      h[k + 1] := h[k];
    }
    h[0] := length;
  }

  /** What the history says of a pattern that has just ended. */
  function Recent(h: seq<int>): nat
    requires |h| == 7
  {
    var n := h[1];
    var core := n > 0 && h[2] == n && h[3] == n * 3 && h[4] == n && h[5] == n;
    (if core && h[0] >= n * 4 && h[6] >= n then 1 else 0) + if core && h[6] >= n * 4 && h[0] >= n then 1 else 0
  }

  lemma RecentIs(h: seq<int>, d: seq<nat>)
    requires Remembers(h, d) && d != []
    ensures Recent(h) == Patterns(d, |d| - 1)
  {
  }

  /** None is the source's assertion error. */
  method CountPatterns(h: array<int>, size: nat) returns (r: Option<nat>)
    requires h.Length == 7
    ensures r.None? <==> h[1] > size * 3
    ensures r.Some? ==> r.value == Recent(h[..])
  {
    var n := h[1];
    if n > size * 3 {
      return None;
    }
    var core := n > 0 && h[2] == n && h[3] == n * 3 && h[4] == n && h[5] == n;
    var first := if core && h[0] >= n * 4 && h[6] >= n then 1 else 0;
    var second := if core && h[6] >= n * 4 && h[0] >= n then 1 else 0;
    r := Some(first + second);
  }

  /** One more run of the line, with the border if it is the first. */
  method Close(h: array<int>, run: nat, size: nat, ghost d: seq<nat>) returns (ghost d': seq<nat>)
    requires h.Length == 7 && size > 0 && Remembers(h[..], d) && Within(d, 3 * size)
    requires if d == [] then run <= 2 * size else 0 < run <= 3 * size
    modifies h
    ensures d' == d + [if d == [] then run + size else run]
    ensures Remembers(h[..], d') && Within(d', 3 * size)
  {
    RemembersMore(h[..], d, if d == [] then run + size else run);
    AddHistory(h, run, size);
    d' := d + [if d == [] then run + size else run];
  }

  /** The patterns that end in the run closed last; the assertion does not fire. */
  method CountLast(h: array<int>, size: nat, ghost d: seq<nat>) returns (count: nat)
    requires h.Length == 7 && d != [] && Remembers(h[..], d) && Within(d, 3 * size)
    ensures count == Patterns(d, |d| - 1)
  {
    hide Patterns, Recent;
    RecentIs(h[..], d);
    assert h[1] <= 3 * size;
    var r := CountPatterns(h, size);
    count := r.value;
  }

  method TerminateAndCount(h: array<int>, black: bool, run: nat, size: nat, ghost d: seq<nat>) returns (count: nat, ghost d': seq<nat>)
    requires h.Length == 7 && size > 0 && run <= size && Remembers(h[..], d) && Within(d, 3 * size)
    requires black ==> d != [] && run > 0
    modifies h
    ensures d' == if black then d + [run] + [size] else d + [if d == [] then run + size + size else run + size]
    ensures count == Patterns(d', |d'| - 1)
  {
    hide Patterns, Remembers, Within;
    var currentRunLength := run;
    d' := d;
    if black {
      d' := Close(h, currentRunLength, size, d');
      currentRunLength := 0;
    }
    currentRunLength := currentRunLength + size;
    d' := Close(h, currentRunLength, size, d');
    count := CountLast(h, size, d');
  }

  lemma NothingRemembered()
    ensures Remembers([0, 0, 0, 0, 0, 0, 0], []) && Within([], 0)
  {
  }

  lemma WithinMore(d: seq<nat>, bound: nat, more: nat)
    requires Within(d, bound) && bound <= more
    ensures Within(d, more)
  {
  }

  /** Both scans of getPenaltyScore, along a row or down a column. No assertion fires. */
  method LinePenalty(line: seq<bool>) returns (result: nat)
    requires line != []
    ensures result == LineScore(line)
  {
    hide Runs, Remembers, Within, Bordered, Patterns, Finders, RunsScore;
    var size := |line|;
    var h := new int[7](_ => 0);
    assert h[..] == [0, 0, 0, 0, 0, 0, 0];
    var runColor, run := false, 0;
    ghost var s, d := Line([], 0), [];
    NothingRemembered();
    WithinMore([], 0, 3 * size);
    StartOfLine(line);
    result := 0;
    for x := 0 to size
      invariant s == Runs(line, x) && runColor == Black(s) && run == s.length
      invariant d == Bordered(s.closed, size)
      invariant Remembers(h[..], d) && Within(d, 3 * size)
      invariant result == RunsScore(All(s)) + PENALTY_N3 * Finders(d, |d|)
    {
      RunsStep(line, x);
      RunsBounded(line, x);
      RunsScoreLast(s.closed, s.length);
      if line[x] == runColor {
        run := run + 1;
        if run == 5 {
          result := result + PENALTY_N1;
        } else if run > 5 {
          result := result + 1;
        }
        s := Line(s.closed, run);
        RunsScoreLast(s.closed, s.length);
      } else {
        BorderedLast(s.closed, s.length, size);
        ghost var v := if d == [] then run + size else run;
        FindersLast(d, v);
        RunsScoreLast(All(s), 1);
        d := Close(h, run, size, d);
        if !runColor {
          var count := CountLast(h, size, d);
          result := result + count * PENALTY_N3;
        }
        runColor, run := line[x], 1;
        s := Line(All(s), 1);
      }
    }
    RunsBounded(line, size);
    ghost var d';
    var count;
    count, d' := TerminateAndCount(h, runColor, run, size, d);
    FramedIs(s, d, size);
    FramedFinders(s, d, size, d');
    result := result + count * PENALTY_N3;
  }

  lemma StartOfLine(line: seq<bool>)
    ensures Runs(line, 0) == Line([], 0) && Bordered([], |line|) == []
    ensures RunsScore(All(Line([], 0))) == 0 && Finders([], 0) == 0
  {
    RunsScoreLast([], 0);
  }

  lemma RunsStep(line: seq<bool>, x: nat)
    requires x < |line|
    ensures var s := Runs(line, x);
      Runs(line, x + 1) == if line[x] == Black(s) then Line(s.closed, s.length + 1) else Line(s.closed + [s.length], 1)
  {
  }

  lemma FramedIs(s: Line, d: seq<nat>, size: nat)
    requires d == Bordered(s.closed, size)
    ensures Framed(s, size) == if Black(s) then d + [s.length] + [size]
                               else d + [if d == [] then s.length + size + size else s.length + size]
  {
    hide Bordered;
    BorderedLast(s.closed, s.length, size);
    BorderedLast(s.closed, s.length + size, size);
  }

  lemma FramedFinders(s: Line, d: seq<nat>, size: nat, d': seq<nat>)
    requires |d| == |s.closed|
    requires d' == if Black(s) then d + [s.length] + [size]
                   else d + [if d == [] then s.length + size + size else s.length + size]
    ensures Finders(d', |d'|) == Finders(d, |d|) + Patterns(d', |d'| - 1)
  {
    hide Patterns, Finders;
    if Black(s) {
      TwoMore(d, s.length, size);
    } else {
      OneMore(d, if d == [] then s.length + size + size else s.length + size);
    }
  }

  lemma OneMore(d: seq<nat>, v: nat)
    requires |d| % 2 == 0
    ensures Finders(d + [v], |d + [v]|) == Finders(d, |d|) + Patterns(d + [v], |d + [v]| - 1)
  {
    hide Patterns, Finders;
    FindersLast(d, v);
  }

  lemma TwoMore(d: seq<nat>, u: nat, v: nat)
    requires |d| % 2 == 1
    ensures var d' := d + [u] + [v];
      Finders(d', |d'|) == Finders(d, |d|) + Patterns(d', |d'| - 1)
  {
    hide Patterns, Finders;
    FindersLast(d, u);
    OneMore(d + [u], v);
  }

  // ---- The score of a symbol ----

  function Column(g: Grid, x: nat): (r: seq<bool>)
    requires Square(g, |g|) && x < |g|
    ensures |r| == |g| && forall y :: 0 <= y < |g| ==> r[y] == g[y][x]
  {
    seq(|g|, y requires 0 <= y < |g| => g[y][x])
  }

  function RowsScore(g: Grid, n: nat): nat
    requires n <= |g|
  {
    if n == 0 then 0 else RowsScore(g, n - 1) + LineScore(g[n - 1])
  }

  function ColumnsScore(g: Grid, n: nat): nat
    requires Square(g, |g|) && n <= |g|
  {
    if n == 0 then 0 else ColumnsScore(g, n - 1) + LineScore(Column(g, n - 1))
  }

  /** The two by two modules at (x, y) have one colour. */
  predicate Block(g: Grid, x: nat, y: nat)
    requires Square(g, |g|) && x + 1 < |g| && y + 1 < |g|
  {
    g[y][x] == g[y][x + 1] && g[y][x] == g[y + 1][x] && g[y][x] == g[y + 1][x + 1]
  }

  function BlocksInRow(g: Grid, y: nat, n: nat): (r: nat)
    requires Square(g, |g|) && n < |g| && y + 1 < |g|
    ensures r <= n
  {
    if n == 0 then 0 else BlocksInRow(g, y, n - 1) + if Block(g, n - 1, y) then 1 else 0
  }

  function Blocks(g: Grid, n: nat): nat
    requires Square(g, |g|) && n < |g|
  {
    if n == 0 then 0 else Blocks(g, n - 1) + BlocksInRow(g, n - 1, |g| - 1)
  }

  function BlackInLine(line: seq<bool>, n: nat): (r: nat)
    requires n <= |line|
    ensures r <= n
  {
    if n == 0 then 0 else BlackInLine(line, n - 1) + if line[n - 1] then 1 else 0
  }

  function BlackModules(g: Grid, n: nat): nat
    requires n <= |g|
  {
    if n == 0 then 0 else BlackModules(g, n - 1) + BlackInLine(g[n - 1], |g[n - 1]|)
  }

  function Abs(n: int): nat {
    if n < 0 then -n else n
  }

  /** How far the share of black modules is from a half, in steps of five percent. */
  function Imbalance(black: nat, total: nat): int
    requires total > 0
  {
    (Abs(black * 20 - total * 10) + total - 1) / total - 1
  }

  function PenaltyScore(g: Grid): int
    requires Square(g, |g|) && g != []
  {
    RowsScore(g, |g|) + ColumnsScore(g, |g|) + PENALTY_N2 * Blocks(g, |g| - 1)
    + PENALTY_N4 * Imbalance(BlackModules(g, |g|), |g| * |g|)
  }

  method RowsPenalty(g: Grid) returns (result: nat)
    requires Square(g, |g|) && g != []
    ensures result == RowsScore(g, |g|)
  {
    hide LineScore;
    result := 0;
    for y := 0 to |g|
      invariant result == RowsScore(g, y)
    {
      var score := LinePenalty(g[y]);
      result := result + score;
    }
  }

  method ColumnsPenalty(g: Grid) returns (result: nat)
    requires Square(g, |g|) && g != []
    ensures result == ColumnsScore(g, |g|)
  {
    hide LineScore;
    result := 0;
    for x := 0 to |g|
      invariant result == ColumnsScore(g, x)
    {
      var score := LinePenalty(Column(g, x));
      result := result + score;
    }
  }

  method CountBlocks(g: Grid) returns (count: nat)
    requires Square(g, |g|) && g != []
    ensures count == Blocks(g, |g| - 1)
  {
    count := 0;
    for y := 0 to |g| - 1
      invariant count == Blocks(g, y)
    {
      ghost var before := count;
      for x := 0 to |g| - 1
        invariant count == before + BlocksInRow(g, y, x)
      {
        var color := g[y][x];
        if color == g[y][x + 1] && color == g[y + 1][x] && color == g[y + 1][x + 1] {
          count := count + 1;
        }
      }
    }
  }

  method CountBlack(g: Grid) returns (black: nat)
    requires Square(g, |g|)
    ensures black == BlackModules(g, |g|)
  {
    black := 0;
    for y := 0 to |g|
      invariant black == BlackModules(g, y)
    {
      ghost var before := black;
      for x := 0 to |g[y]|
        invariant black == before + BlackInLine(g[y], x)
      {
        if g[y][x] {
          black := black + 1;
        }
      }
    }
  }

  /** getPenaltyScore. None of its assertions fires. */
  method GetPenaltyScore(g: Grid) returns (result: int)
    requires Square(g, |g|) && g != []
    ensures result == PenaltyScore(g)
  {
    hide RowsScore, ColumnsScore, Blocks, BlackModules;
    var rows := RowsPenalty(g);
    var columns := ColumnsPenalty(g);
    result := rows + columns;
    var blocks := CountBlocks(g);
    result := result + PENALTY_N2 * blocks;
    var black := CountBlack(g);
    var total := |g| * |g|;
    PositiveSquare(|g|);
    var k := (Abs(black * 20 - total * 10) + total - 1) / total - 1;
    result := result + k * PENALTY_N4;
  }

  lemma PositiveSquare(n: nat)
    requires n > 0
    ensures n * n > 0
  {
  }

  // ---- What the balance means ----

  /** The share of black modules is within 5 + 5k percent of a half. */
  predicate Balanced(black: nat, total: nat, k: nat) {
    (45 - 5 * k) * total <= 100 * black <= (55 + 5 * k) * total
  }

  lemma BalancedIs(black: nat, total: nat, k: nat)
    ensures Balanced(black, total, k) <==> Abs(black * 20 - total * 10) <= (k + 1) * total
  {
    var t := k * total;
    assert (45 - 5 * k) * total == 45 * total - 5 * t;
    assert (55 + 5 * k) * total == 55 * total + 5 * t;
    assert (k + 1) * total == t + total;
  }

  lemma CeilingIs(d: nat, t: nat, m: nat)
    requires t > 0
    ensures (d + t - 1) / t <= m <==> d <= m * t
  {
    var q, r := (d + t - 1) / t, (d + t - 1) % t;
    assert d + t - 1 == t * q + r;
    if q <= m {
      MulOrder(q, m, t);
    } else {
      MulOrder(m + 1, q, t);
      assert (m + 1) * t == m * t + t;
    }
  }

  /** As the source's comment says, it is the least k for which the symbol is balanced. */
  lemma ImbalanceIsLeast(black: nat, total: nat)
    requires total % 2 == 1
    ensures Imbalance(black, total) >= 0
    ensures Balanced(black, total, Imbalance(black, total))
    ensures forall k: nat :: Balanced(black, total, k) ==> Imbalance(black, total) <= k
  {
    hide Balanced;
    var d := Abs(black * 20 - total * 10);
    assert d > 0;
    var k := (d + total - 1) / total - 1;
    CeilingIs(d, total, 0);
    CeilingIs(d, total, k + 1);
    BalancedIs(black, total, k);
    forall j: nat | Balanced(black, total, j)
      ensures k <= j
    {
      BalancedIs(black, total, j);
      CeilingIs(d, total, j + 1);
    }
  }

  // ---- How large the score can be ----

  lemma {:induction false} ClosedScoreBound(line: seq<bool>, x: nat)
    requires x <= |line|
    ensures RunsScore(Runs(line, x).closed) + Runs(line, x).length <= x
  {
    hide Runs, RunsScore;
    if x == 0 {
      RunsNothing(line);
      NoRuns();
    } else {
      var s := Runs(line, x - 1);
      RunsStep(line, x - 1);
      ClosedScoreBound(line, x - 1);
      RunsScoreLast(s.closed, s.length);
    }
  }

  lemma RunsScoreBound(line: seq<bool>)
    ensures RunsScore(All(Runs(line, |line|))) <= |line|
  {
    hide Runs, RunsScore;
    var s := Runs(line, |line|);
    ClosedScoreBound(line, |line|);
    RunsScoreLast(s.closed, s.length);
  }

  lemma NoRuns()
    ensures RunsScore([]) == 0
  {
  }

  const MAX_SIZE: nat := 177

  lemma LineBound(line: seq<bool>)
    requires |line| <= MAX_SIZE
    ensures LineScore(line) <= 20000
  {
    hide Runs, RunsScore, Finders, Bordered;
    RunsScoreBound(line);
    RunsBounded(line, |line|);
  }

  lemma {:induction false} RowsBound(g: Grid, n: nat)
    requires Square(g, |g|) && n <= |g| <= MAX_SIZE
    ensures RowsScore(g, n) <= 20000 * n
  {
    hide LineScore;
    if n > 0 {
      RowsBound(g, n - 1);
      LineBound(g[n - 1]);
    }
  }

  lemma {:induction false} ColumnsBound(g: Grid, n: nat)
    requires Square(g, |g|) && n <= |g| <= MAX_SIZE
    ensures ColumnsScore(g, n) <= 20000 * n
  {
    hide LineScore;
    if n > 0 {
      ColumnsBound(g, n - 1);
      LineBound(Column(g, n - 1));
    }
  }

  lemma {:induction false} BlocksBound(g: Grid, n: nat)
    requires Square(g, |g|) && n < |g| <= MAX_SIZE
    ensures Blocks(g, n) <= 200 * n
  {
    hide BlocksInRow;
    if n > 0 {
      BlocksBound(g, n - 1);
    }
  }

  lemma {:induction false} BlackBound(g: Grid, n: nat)
    requires Square(g, |g|) && n <= |g|
    ensures BlackModules(g, n) <= n * |g|
  {
    hide BlackInLine;
    if n > 0 {
      BlackBound(g, n - 1);
      assert n * |g| == (n - 1) * |g| + |g|;
    }
  }

  lemma ImbalanceBound(black: nat, total: nat)
    requires total > 0 && black <= total
    ensures Imbalance(black, total) <= 9
  {
    CeilingIs(Abs(black * 20 - total * 10), total, 10);
  }

  /** The score of every symbol fits in a long, however short. */
  lemma PenaltyBound(g: Grid)
    requires Square(g, |g|) && 0 < |g| <= MAX_SIZE
    ensures PenaltyScore(g) < 0x7fff_ffff
  {
    hide RowsScore, ColumnsScore, Blocks, BlackModules, Imbalance;
    RowsBound(g, |g|);
    ColumnsBound(g, |g|);
    BlocksBound(g, |g| - 1);
    BlackBound(g, |g|);
    PositiveSquare(|g|);
    ImbalanceBound(BlackModules(g, |g|), |g| * |g|);
  }
}
