/** The penalty score said by position (external/qrcodegen/QrCode.cpp, getPenaltyScore). */
module PenaltyPositions {
  import opened Zigzag
  import opened Grids
  import opened MaskPenalty
  import opened FinderWindows

  // ---- Stretches of one colour ----

  /** The n modules that end before position end have one colour. */
  predicate SameColour(l: seq<bool>, end: nat, n: nat) {
    n <= end <= |l| && forall k, m :: end - n <= k < end && end - n <= m < end ==> l[k] == l[m]
  }

  /** Module x is the fifth of a stretch of one colour. */
  predicate FifthOfStretch(l: seq<bool>, x: nat) {
    x < |l| && SameColour(l, x + 1, 5) && (x > 4 ==> l[x - 5] != l[x])
  }

  /** At least five modules of the same colour come right before module x. */
  predicate AfterFifth(l: seq<bool>, x: nat) {
    x < |l| && SameColour(l, x + 1, 6)
  }

  ghost function Fifths(l: seq<bool>, n: nat): set<nat> {
    set x: nat | x < n && FifthOfStretch(l, x)
  }

  ghost function Later(l: seq<bool>, n: nat): set<nat> {
    set x: nat | x < n && AfterFifth(l, x)
  }

  lemma NoFifths(l: seq<bool>)
    ensures |Fifths(l, 0)| == 0 && |Later(l, 0)| == 0
  {
    assert Fifths(l, 0) == {} && Later(l, 0) == {};
  }

  lemma FifthsStep(l: seq<bool>, n: nat)
    ensures |Fifths(l, n + 1)| == |Fifths(l, n)| + if FifthOfStretch(l, n) then 1 else 0
  {
    hide FifthOfStretch;
    if FifthOfStretch(l, n) {
      assert Fifths(l, n + 1) == Fifths(l, n) + {n};
    } else {
      assert Fifths(l, n + 1) == Fifths(l, n);
    }
  }

  lemma LaterStep(l: seq<bool>, n: nat)
    ensures |Later(l, n + 1)| == |Later(l, n)| + if AfterFifth(l, n) then 1 else 0
  {
    hide AfterFifth;
    if AfterFifth(l, n) {
      assert Later(l, n + 1) == Later(l, n) + {n};
    } else {
      assert Later(l, n + 1) == Later(l, n);
    }
  }

  /** The run that goes on is the longest stretch of its colour that ends here. */
  lemma {:induction false} RunIsStretch(l: seq<bool>, x: nat)
    requires 0 < x <= |l|
    ensures var s := Runs(l, x);
      && 0 < s.length <= x && (forall k :: x - s.length <= k < x ==> l[k] == Black(s))
      && (s.length < x ==> l[x - s.length - 1] != Black(s))
  {
    hide Runs;
    RunsStep(l, x - 1);
    if x == 1 {
      RunsNothing(l);
    } else {
      RunIsStretch(l, x - 1);
    }
  }

  lemma StretchLength(l: seq<bool>, x: nat, n: nat, black: bool)
    requires 0 < n <= x <= |l| && (forall k :: x - n <= k < x ==> l[k] == black) && (n < x ==> l[x - n - 1] != black)
    ensures FifthOfStretch(l, x - 1) <==> n == 5
    ensures AfterFifth(l, x - 1) <==> n > 5
  {
    assert l[x - 1] == black;
    assert n < x ==> l[x - n - 1] != l[x - 1];
  }

  lemma {:induction false} RunsScoreUpTo(l: seq<bool>, x: nat)
    requires x <= |l|
    ensures RunsScore(All(Runs(l, x))) == 3 * |Fifths(l, x)| + |Later(l, x)|
  {
    hide Runs, RunsScore, Fifths, Later, FifthOfStretch, AfterFifth;
    if x == 0 {
      RunsNothing(l);
      RunsScoreLast([], 0);
      NoRuns();
      NoFifths(l);
    } else {
      var s := Runs(l, x - 1);
      RunsScoreUpTo(l, x - 1);
      RunsStep(l, x - 1);
      RunIsStretch(l, x);
      var t := Runs(l, x);
      StretchLength(l, x, t.length, Black(t));
      FifthsStep(l, x - 1);
      LaterStep(l, x - 1);
      RunsScoreLast(s.closed, s.length);
      RunsScoreLast(s.closed, s.length + 1);
      RunsScoreLast(All(s), 1);
    }
  }

  /**
   * The score of a line by position: 3 for each stretch of five, one for each module after the fifth of its
   * stretch, and 40 for each finder-like window of the line in its border.
   */
  ghost function LinePoints(l: seq<bool>): nat {
    3 * |Fifths(l, |l|)| + |Later(l, |l|)| + 40 * (|Windows(WithBorder(l), 1, 4)| + |Windows(WithBorder(l), 4, 1)|)
  }

  lemma LineByPosition(l: seq<bool>)
    requires l != []
    ensures LineScore(l) == LinePoints(l)
  {
    hide LineScore, Runs, RunsScore, Fifths, Later, Windows, WithBorder;
    FindersAreWindows(l);
    RunsScoreUpTo(l, |l|);
  }

  // ---- Two by two blocks ----

  ghost function BlocksBefore(g: Grid, y: nat): set<Pos>
    requires Square(g, |g|) && y < |g|
  {
    set p: Pos | p in Box(|g|) && p.y < y && OneColour(g, p)
  }

  /** The module at p and those right of it, below it and diagonally below it have one colour. */
  predicate OneColour(g: Grid, p: Pos)
    requires Square(g, |g|)
  {
    && p.x + 1 < |g| && p.y + 1 < |g|
    && ((At(g, p) && At(g, Pos(p.x + 1, p.y)) && At(g, Pos(p.x, p.y + 1)) && At(g, Pos(p.x + 1, p.y + 1)))
        || (!At(g, p) && !At(g, Pos(p.x + 1, p.y)) && !At(g, Pos(p.x, p.y + 1)) && !At(g, Pos(p.x + 1, p.y + 1))))
  }

  ghost function Box(n: nat): set<Pos> {
    set x: nat, y: nat | x < n && y < n :: Pos(x, y)
  }

  ghost function BlocksOf(g: Grid): set<Pos>
    requires Square(g, |g|)
  {
    set p: Pos | p in Box(|g|) && OneColour(g, p)
  }

  ghost function RowOfBlocks(g: Grid, y: nat, n: nat): set<Pos>
    requires Square(g, |g|)
  {
    set p: Pos | p in Box(|g|) && p.y == y && p.x < n && OneColour(g, p)
  }

  lemma BlockIsOneColour(g: Grid, x: nat, y: nat)
    requires Square(g, |g|) && x + 1 < |g| && y + 1 < |g|
    ensures Block(g, x, y) <==> OneColour(g, Pos(x, y))
  {
  }

  lemma {:induction false} RowOfBlocksSize(g: Grid, y: nat, n: nat)
    requires Square(g, |g|) && n < |g| && y + 1 < |g|
    ensures |RowOfBlocks(g, y, n)| == BlocksInRow(g, y, n)
  {
    hide Block, OneColour, Square;
    if n == 0 {
      assert RowOfBlocks(g, y, 0) == {};
    } else {
      RowOfBlocksSize(g, y, n - 1);
      BlockIsOneColour(g, n - 1, y);
      var p := Pos(n - 1, y);
      assert p in Box(|g|);
      assert RowOfBlocks(g, y, n) == RowOfBlocks(g, y, n - 1) + if OneColour(g, p) then {p} else {};
    }
  }

  lemma {:induction false} BlocksBeforeSize(g: Grid, y: nat)
    requires Square(g, |g|) && y < |g|
    ensures |BlocksBefore(g, y)| == Blocks(g, y)
  {
    hide OneColour, Square, Box;
    if y == 0 {
      assert BlocksBefore(g, 0) == {};
    } else {
      BlocksBeforeSize(g, y - 1);
      RowOfBlocksSize(g, y - 1, |g| - 1);
      var a, b := BlocksBefore(g, y - 1), RowOfBlocks(g, y - 1, |g| - 1);
      forall p | p in BlocksBefore(g, y)
        ensures p in a + b
      {
        BlockInside(g, p);
      }
      assert BlocksBefore(g, y) == a + b;
      assert a * b == {};
    }
  }

  lemma BlockInside(g: Grid, p: Pos)
    requires Square(g, |g|) && OneColour(g, p)
    ensures p.x < |g| - 1 && p.y < |g| - 1
  {
  }

  /** The two by two blocks that are counted are the positions whose four modules have one colour. */
  lemma BlocksByPosition(g: Grid)
    requires Square(g, |g|) && g != []
    ensures Blocks(g, |g| - 1) == |BlocksOf(g)|
  {
    hide OneColour, Square, Box, Blocks;
    BlocksBeforeSize(g, |g| - 1);
    forall p | p in BlocksOf(g)
      ensures p in BlocksBefore(g, |g| - 1)
    {
      BlockInside(g, p);
    }
    assert BlocksBefore(g, |g| - 1) == BlocksOf(g);
  }

  // ---- Dark modules ----

  ghost function DarkBefore(g: Grid, y: nat): set<Pos>
    requires Square(g, |g|)
  {
    set p: Pos | p in Box(|g|) && Inside(p, |g|) && p.y < y && At(g, p)
  }

  ghost function DarkOf(g: Grid): set<Pos>
    requires Square(g, |g|)
  {
    set p: Pos | p in Box(|g|) && Inside(p, |g|) && At(g, p)
  }

  ghost function RowOfDark(g: Grid, y: nat, n: nat): set<Pos>
    requires Square(g, |g|)
  {
    set p: Pos | p in Box(|g|) && Inside(p, |g|) && p.y == y && p.x < n && At(g, p)
  }

  lemma {:induction false} RowOfDarkSize(g: Grid, y: nat, n: nat)
    requires Square(g, |g|) && n <= |g| && y < |g|
    ensures |RowOfDark(g, y, n)| == BlackInLine(g[y], n)
  {
    hide At, Box, Square;
    if n == 0 {
      assert RowOfDark(g, y, 0) == {};
    } else {
      RowOfDarkSize(g, y, n - 1);
      RowOfDarkStep(g, y, n - 1);
      DarkAt(g, n - 1, y);
    }
  }

  lemma DarkAt(g: Grid, x: nat, y: nat)
    requires Square(g, |g|) && x < |g| && y < |g|
    ensures |g[y]| == |g| && At(g, Pos(x, y)) == g[y][x]
  {
  }

  lemma RowOfDarkStep(g: Grid, y: nat, n: nat)
    requires Square(g, |g|) && n < |g| && y < |g|
    ensures |RowOfDark(g, y, n + 1)| == |RowOfDark(g, y, n)| + if At(g, Pos(n, y)) then 1 else 0
  {
    hide At, Square;
    var p := Pos(n, y);
    assert p in Box(|g|);
    if At(g, p) {
      assert RowOfDark(g, y, n + 1) == RowOfDark(g, y, n) + {p};
    } else {
      assert RowOfDark(g, y, n + 1) == RowOfDark(g, y, n);
    }
  }

  lemma {:induction false} DarkBeforeSize(g: Grid, y: nat)
    requires Square(g, |g|) && y <= |g|
    ensures |DarkBefore(g, y)| == BlackModules(g, y)
  {
    hide At, Box;
    if y == 0 {
      assert DarkBefore(g, 0) == {};
    } else {
      DarkBeforeSize(g, y - 1);
      RowOfDarkSize(g, y - 1, |g|);
      var a, b := DarkBefore(g, y - 1), RowOfDark(g, y - 1, |g|);
      assert DarkBefore(g, y) == a + b;
      assert a * b == {};
    }
  }

  /** The modules that are counted as black are the dark positions. */
  lemma DarkByPosition(g: Grid)
    requires Square(g, |g|)
    ensures BlackModules(g, |g|) == |DarkOf(g)|
  {
    hide At, Square, Box, BlackModules;
    DarkBeforeSize(g, |g|);
    assert DarkBefore(g, |g|) == DarkOf(g);
  }

  // ---- All of it ----

  ghost function Total(s: seq<nat>): nat {
    if s == [] then 0 else Total(s[..|s| - 1]) + s[|s| - 1]
  }

  ghost function RowPoints(g: Grid, n: nat): seq<nat>
    requires n <= |g|
  {
    seq(n, y requires 0 <= y < n => LinePoints(g[y]))
  }

  ghost function ColumnPoints(g: Grid, n: nat): seq<nat>
    requires Square(g, |g|) && n <= |g|
  {
    seq(n, x requires 0 <= x < n => LinePoints(Column(g, x)))
  }

  lemma {:induction false} RowsTotal(g: Grid, n: nat)
    requires Square(g, |g|) && n <= |g|
    ensures RowsScore(g, n) == Total(RowPoints(g, n))
  {
    hide LinePoints, LineScore;
    if n > 0 {
      RowsTotal(g, n - 1);
      LineByPosition(g[n - 1]);
      assert RowPoints(g, n)[..n - 1] == RowPoints(g, n - 1);
    }
  }

  lemma {:induction false} ColumnsTotal(g: Grid, n: nat)
    requires Square(g, |g|) && n <= |g|
    ensures ColumnsScore(g, n) == Total(ColumnPoints(g, n))
  {
    hide LinePoints, LineScore;
    if n > 0 {
      ColumnsTotal(g, n - 1);
      LineByPosition(Column(g, n - 1));
      assert ColumnPoints(g, n)[..n - 1] == ColumnPoints(g, n - 1);
    }
  }

  /** The whole score by position; Imbalance is the least k of the balance rule. */
  lemma PenaltyByPosition(g: Grid)
    requires Square(g, |g|) && g != []
    ensures PenaltyScore(g) == Total(RowPoints(g, |g|)) + Total(ColumnPoints(g, |g|)) + 3 * |BlocksOf(g)|
      + 10 * Imbalance(|DarkOf(g)|, |g| * |g|)
  {
    hide RowsScore, ColumnsScore, Blocks, BlackModules, RowPoints, ColumnPoints, BlocksOf, DarkOf, Imbalance, Total;
    PositiveSquare(|g|);
    RowsTotal(g, |g|);
    ColumnsTotal(g, |g|);
    BlocksByPosition(g);
    DarkByPosition(g);
  }
}
