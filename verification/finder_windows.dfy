/**
 * What the finder-like patterns of the penalty score are, said by position: windows of a line in its
 * light border (external/qrcodegen/QrCode.cpp, finderPenaltyCountPatterns).
 */
module FinderWindows {
  import opened MaskPenalty

  // ---- Windows of a line ----

  ghost predicate Coloured(l: seq<bool>, from: int, end: int, dark: bool) {
    0 <= from <= end <= |l| && forall k :: from <= k < end ==> l[k] == dark
  }

  /** Runs of n dark, n light, 3n dark, n light and n dark modules from p on, with light on both sides. */
  ghost predicate WindowAt(l: seq<bool>, p: nat, n: nat) {
    && n > 0
    && Coloured(l, p - 1, p, false)
    && Coloured(l, p, p + n, true) && Coloured(l, p + n, p + 2 * n, false) && Coloured(l, p + 2 * n, p + 5 * n, true)
    && Coloured(l, p + 5 * n, p + 6 * n, false) && Coloured(l, p + 6 * n, p + 7 * n, true)
    && Coloured(l, p + 7 * n, p + 7 * n + 1, false)
  }

  /** And at least before times n light modules in front of it and after times n behind it. */
  ghost predicate Flanked(l: seq<bool>, p: nat, n: nat, before: nat, after: nat) {
    && WindowAt(l, p, n)
    && Coloured(l, p - before * n, p, false) && Coloured(l, p + 7 * n, p + 7 * n + after * n, false)
  }

  /** Where such windows begin. */
  ghost function Windows(l: seq<bool>, before: nat, after: nat): set<nat> {
    set p: nat | p < |l| && BeginsAt(l, p, before, after)
  }

  ghost predicate BeginsAt(l: seq<bool>, p: nat, before: nat, after: nat) {
    exists n: nat :: Flanked(l, p, n, before, after)
  }

  // ---- Runs and positions ----

  ghost function Start(d: seq<nat>, i: nat): nat
    requires i <= |d|
  {
    if i == 0 then 0 else Start(d, i - 1) + d[i - 1]
  }

  ghost predicate Positive(d: seq<nat>) {
    forall k :: 0 <= k < |d| ==> d[k] > 0
  }

  lemma {:induction false} StartPrefix(d: seq<nat>, v: nat, i: nat)
    requires i <= |d|
    ensures Start(d + [v], i) == Start(d, i)
  {
    if i > 0 {
      StartPrefix(d, v, i - 1);
    }
  }

  lemma {:induction false} StartOrder(d: seq<nat>, i: nat, j: nat)
    requires Positive(d) && i < j <= |d|
    ensures Start(d, i) < Start(d, j)
    decreases j
  {
    if i < j - 1 {
      StartOrder(d, i, j - 1);
    }
  }

  lemma {:induction false} ExpandSize(d: seq<nat>)
    ensures |Expand(d)| == Start(d, |d|)
  {
    if d != [] {
      var init, v := d[..|d| - 1], d[|d| - 1];
      assert d == init + [v];
      ExpandSize(init);
      StartPrefix(init, v, |init|);
    }
  }

  /** Run i of the line is dark exactly when i is odd. */
  lemma {:induction false} RunColour(d: seq<nat>, i: nat, k: nat)
    requires i < |d| && Start(d, i) <= k < Start(d, i + 1)
    ensures k < |Expand(d)| && Expand(d)[k] == (i % 2 == 1)
    decreases |d|
  {
    hide Start, Expand;
    var init, v := d[..|d| - 1], d[|d| - 1];
    assert d == init + [v];
    ExpandLast(init, v);
    ExpandSize(init);
    StartPrefix(init, v, i);
    StartNext(d, i);
    if i < |init| {
      StartPrefix(init, v, i + 1);
      RunColour(init, i, k);
    } else {
      SolidAt(v, |init| % 2 == 1, k - Start(d, i));
    }
  }

  lemma StartNext(d: seq<nat>, i: nat)
    requires i < |d|
    ensures Start(d, i + 1) == Start(d, i) + d[i]
  {
  }

  lemma SolidAt(n: nat, black: bool, k: nat)
    requires k < n
    ensures |Solid(n, black)| == n && Solid(n, black)[k] == black
  {
  }

  /** The run that position k lies in. */
  lemma {:induction false} RunOf(d: seq<nat>, n: nat, k: nat) returns (i: nat)
    requires n <= |d| && k < Start(d, n)
    ensures i < n && Start(d, i) <= k < Start(d, i + 1)
    decreases n
  {
    if Start(d, n - 1) <= k {
      i := n - 1;
    } else {
      i := RunOf(d, n - 1, k);
    }
  }

  lemma RunStretch(d: seq<nat>, i: nat, m: nat)
    requires i < |d| && m <= d[i]
    ensures Coloured(Expand(d), Start(d, i), Start(d, i) + m, i % 2 == 1)
    ensures Coloured(Expand(d), Start(d, i) + d[i] - m, Start(d, i) + d[i], i % 2 == 1)
  {
    hide Expand, Start;
    StartNext(d, i);
    ExpandSize(d);
    StartMost(d, i + 1);
    forall k | Start(d, i) <= k < Start(d, i + 1)
      ensures k < |Expand(d)| && Expand(d)[k] == (i % 2 == 1)
    {
      RunColour(d, i, k);
    }
  }

  lemma {:induction false} StartMost(d: seq<nat>, i: nat)
    requires i <= |d|
    ensures Start(d, i) <= Start(d, |d|)
    decreases |d| - i
  {
    if i < |d| {
      StartMost(d, i + 1);
    }
  }

  // ---- Runs make windows ----

  /** Runs j - 5 to j - 1 are as 1:1:3:1:1 and those next to them long enough. */
  predicate Match(d: seq<nat>, j: nat, before: nat, after: nat)
    requires j < |d|
  {
    && j >= 6 && j % 2 == 0
    && d[j - 2] == d[j - 1] && d[j - 3] == 3 * d[j - 1] && d[j - 4] == d[j - 1] && d[j - 5] == d[j - 1]
    && d[j - 6] >= before * d[j - 1] && d[j] >= after * d[j - 1]
  }

  lemma MatchWindow(d: seq<nat>, j: nat, before: nat, after: nat)
    requires Positive(d) && j < |d| && Match(d, j, before, after)
    ensures Flanked(Expand(d), Start(d, j - 5), d[j - 1], before, after)
  {
    hide Expand, Start, Coloured;
    var n, p := d[j - 1], Start(d, j - 5);
    StartNext(d, j - 6);
    StartNext(d, j - 5);
    StartNext(d, j - 4);
    StartNext(d, j - 3);
    StartNext(d, j - 2);
    StartNext(d, j - 1);
    RunStretch(d, j - 6, 1);
    RunStretch(d, j - 6, before * n);
    RunStretch(d, j - 5, n);
    RunStretch(d, j - 4, n);
    RunStretch(d, j - 3, 3 * n);
    RunStretch(d, j - 2, n);
    RunStretch(d, j - 1, n);
    RunStretch(d, j, 1);
    RunStretch(d, j, after * n);
  }

  // ---- Windows come from runs ----

  /** A stretch from the start of run i that ends in a change of colour is that run. */
  lemma RunIs(d: seq<nat>, i: nat, m: nat)
    requires Positive(d) && i < |d| && m > 0
    requires Coloured(Expand(d), Start(d, i), Start(d, i) + m, i % 2 == 1)
    requires Coloured(Expand(d), Start(d, i) + m, Start(d, i) + m + 1, i % 2 == 0)
    ensures d[i] == m && i + 1 < |d| && Start(d, i + 1) == Start(d, i) + m
  {
    hide Expand, Start;
    StartNext(d, i);
    ExpandSize(d);
    var s := Start(d, i);
    if d[i] > m {
      RunColour(d, i, s + m);
    } else if i + 1 < |d| && d[i] < m {
      StartNext(d, i + 1);
      RunColour(d, i + 1, s + d[i]);
    }
  }

  /** A light stretch that ends at the start of dark run i lies in the run before it. */
  lemma RunBefore(d: seq<nat>, i: nat, m: nat)
    requires Positive(d) && 0 < i < |d| && i % 2 == 1 && Coloured(Expand(d), Start(d, i) - m, Start(d, i), false)
    ensures d[i - 1] >= m
  {
    hide Expand, Start;
    StartNext(d, i - 1);
    if d[i - 1] < m {
      if i == 1 {
        StartZero(d);
      } else {
        StartNext(d, i - 2);
        RunColour(d, i - 2, Start(d, i - 1) - 1);
      }
    }
  }

  lemma StartZero(d: seq<nat>)
    ensures Start(d, 0) == 0
  {
  }

  lemma RunAfter(d: seq<nat>, j: nat, m: nat)
    requires Positive(d) && j < |d| && j % 2 == 0 && Coloured(Expand(d), Start(d, j), Start(d, j) + m, false)
    ensures d[j] >= m
  {
    hide Expand, Start;
    StartNext(d, j);
    ExpandSize(d);
    if d[j] < m && j + 1 < |d| {
      StartNext(d, j + 1);
      RunColour(d, j + 1, Start(d, j + 1));
    }
  }

  /** A dark module after a light one starts a run. */
  lemma RunStarts(d: seq<nat>, p: nat) returns (i: nat)
    requires Positive(d) && Coloured(Expand(d), p - 1, p, false) && Coloured(Expand(d), p, p + 1, true)
    ensures i < |d| && i % 2 == 1 && p == Start(d, i)
  {
    hide Expand, Start;
    ExpandSize(d);
    i := RunOf(d, |d|, p);
    RunColour(d, i, p);
    if p > Start(d, i) {
      RunColour(d, i, p - 1);
    }
  }

  lemma WindowMatch(d: seq<nat>, p: nat, n: nat, before: nat, after: nat) returns (j: nat)
    requires Positive(d) && Flanked(Expand(d), p, n, before, after)
    ensures j < |d| && Match(d, j, before, after) && d[j - 1] == n && p == Start(d, j - 5)
  {
    hide Expand, Start;
    var i := RunStarts(d, p);
    RunIs(d, i, n);
    RunIs(d, i + 1, n);
    RunIs(d, i + 2, 3 * n);
    RunIs(d, i + 3, n);
    RunIs(d, i + 4, n);
    RunBefore(d, i, before * n);
    RunAfter(d, i + 5, after * n);
    j := i + 5;
  }

  // ---- Counting ----

  ghost function Matches(d: seq<nat>, n: nat, before: nat, after: nat): nat
    requires n <= |d|
  {
    if n == 0 then 0 else Matches(d, n - 1, before, after) + if Match(d, n - 1, before, after) then 1 else 0
  }

  lemma PatternsMatch(d: seq<nat>, j: nat)
    requires Positive(d) && j < |d|
    ensures (if j % 2 == 0 then Patterns(d, j) else 0)
      == (if Match(d, j, 1, 4) then 1 else 0) + if Match(d, j, 4, 1) then 1 else 0
  {
  }

  lemma {:induction false} FindersMatch(d: seq<nat>, n: nat)
    requires Positive(d) && n <= |d|
    ensures Finders(d, n) == Matches(d, n, 1, 4) + Matches(d, n, 4, 1)
  {
    hide Patterns, Match;
    if n > 0 {
      FindersMatch(d, n - 1);
      PatternsMatch(d, n - 1);
    }
  }

  /** Where the matches among the first n runs begin. */
  ghost function Begins(d: seq<nat>, n: nat, before: nat, after: nat): set<nat>
    requires n <= |d|
  {
    if n == 0 then {}
    else Begins(d, n - 1, before, after) + if Match(d, n - 1, before, after) then {Start(d, n - 6)} else {}
  }

  lemma {:induction false} BeginsSize(d: seq<nat>, n: nat, before: nat, after: nat)
    requires Positive(d) && n <= |d|
    ensures |Begins(d, n, before, after)| == Matches(d, n, before, after)
    ensures forall p :: p in Begins(d, n, before, after) ==> n >= 6 && p < Start(d, n - 5)
    decreases n
  {
    hide Start, Match;
    if n > 0 {
      BeginsSize(d, n - 1, before, after);
      MatchFar(d, n - 1, before, after);
      if n >= 6 {
        StartOrder(d, n - 6, n - 5);
      }
    }
  }

  lemma MatchFar(d: seq<nat>, j: nat, before: nat, after: nat)
    requires j < |d|
    ensures Match(d, j, before, after) ==> j >= 6
  {
  }

  lemma {:induction false} BeginsHas(d: seq<nat>, n: nat, j: nat, before: nat, after: nat)
    requires j < n <= |d| && Match(d, j, before, after)
    ensures j >= 6 && Start(d, j - 5) in Begins(d, n, before, after)
    decreases n
  {
    hide Start, Match;
    MatchFar(d, j, before, after);
    if j < n - 1 {
      BeginsHas(d, n - 1, j, before, after);
    }
  }

  lemma {:induction false} BeginsOrigin(d: seq<nat>, n: nat, p: nat, before: nat, after: nat) returns (j: nat)
    requires n <= |d| && p in Begins(d, n, before, after)
    ensures j < n && Match(d, j, before, after) && p == Start(d, j - 5)
    decreases n
  {
    hide Start, Match;
    MatchFar(d, n - 1, before, after);
    if Match(d, n - 1, before, after) && p == Start(d, n - 6) {
      j := n - 1;
    } else {
      j := BeginsOrigin(d, n - 1, p, before, after);
      MatchFar(d, j, before, after);
    }
  }

  lemma WindowsAre(d: seq<nat>, before: nat, after: nat)
    requires Positive(d)
    ensures Windows(Expand(d), before, after) == Begins(d, |d|, before, after)
  {
    hide Expand, Start, Match, Begins, Flanked;
    forall p: nat
      ensures p in Windows(Expand(d), before, after) <==> p in Begins(d, |d|, before, after)
    {
      if p in Windows(Expand(d), before, after) {
        var n: nat :| Flanked(Expand(d), p, n, before, after);
        var j := WindowMatch(d, p, n, before, after);
        BeginsHas(d, |d|, j, before, after);
      }
      if p in Begins(d, |d|, before, after) {
        var j := BeginsOrigin(d, |d|, p, before, after);
        MatchFar(d, j, before, after);
        MatchWindow(d, j, before, after);
        FlankedInside(Expand(d), p, d[j - 1], before, after);
      }
    }
  }

  lemma FlankedInside(l: seq<bool>, p: nat, n: nat, before: nat, after: nat)
    requires Flanked(l, p, n, before, after)
    ensures p < |l|
  {
  }

  // ---- A line in its border ----

  /** The line with as many light modules on either side as it has itself. */
  function WithBorder(line: seq<bool>): seq<bool> {
    Solid(|line|, false) + line + Solid(|line|, false)
  }

  lemma SolidSum(m: nat, n: nat, black: bool)
    ensures Solid(m + n, black) == Solid(m, black) + Solid(n, black)
  {
  }

  lemma {:induction false} ExpandBordered(runs: seq<nat>, size: nat)
    requires runs != []
    ensures Expand(Bordered(runs, size)) == Solid(size, false) + Expand(runs)
    decreases |runs|
  {
    hide Expand, Solid, Bordered;
    var init, v := runs[..|runs| - 1], runs[|runs| - 1];
    assert runs == init + [v];
    BorderedLast(init, v, size);
    ExpandLast(init, v);
    ExpandLast(Bordered(init, size), if init == [] then v + size else v);
    if init == [] {
      BorderedNothing(size);
      ExpandNothing();
      SolidSum(size, v, false);
      assert [] + Solid(v + size, false) == Solid(v + size, false) && [] + Solid(v, false) == Solid(v, false);
    } else {
      ExpandBordered(init, size);
      Regrouped(Solid(size, false), Expand(init), Solid(v, |init| % 2 == 1));
    }
  }

  lemma BorderedNothing(size: nat)
    ensures Bordered([], size) == []
  {
  }

  lemma DarkEnd(runs: seq<nat>, size: nat)
    requires runs != [] && |runs| % 2 == 0
    ensures Expand(Bordered(runs, size) + [size]) == Solid(size, false) + Expand(runs) + Solid(size, false)
  {
    hide Expand, Solid, Bordered;
    ExpandBordered(runs, size);
    ExpandLast(Bordered(runs, size), size);
  }

  lemma LightEnd(closed: seq<nat>, length: nat, size: nat)
    requires |closed| % 2 == 0
    ensures Expand(Bordered(closed + [length + size], size)) == Solid(size, false) + Expand(closed + [length]) + Solid(size, false)
  {
    hide Expand, Solid, Bordered;
    ExpandBordered(closed + [length + size], size);
    ExpandLast(closed, length);
    ExpandLast(closed, length + size);
    SolidSum(length, size, false);
    Regrouped(Expand(closed), Solid(length, false), Solid(size, false));
    Regrouped(Solid(size, false), Expand(closed + [length]), Solid(size, false));
  }

  lemma FramedDark(s: Line, size: nat)
    requires Black(s)
    ensures Framed(s, size) == Bordered(All(s), size) + [size] && |All(s)| % 2 == 0 && All(s) != []
  {
    hide Bordered;
  }

  lemma FramedLight(s: Line, size: nat)
    requires !Black(s)
    ensures Framed(s, size) == Bordered(s.closed + [s.length + size], size) && |s.closed| % 2 == 0
    ensures All(s) == s.closed + [s.length]
  {
    hide Bordered;
  }

  lemma RunsWhole(line: seq<bool>)
    ensures Expand(All(Runs(line, |line|))) == line
  {
    hide Expand, Runs, All;
    RunsExpand(line, |line|);
    assert line[..|line|] == line;
  }

  lemma FrameDark(s: Line, line: seq<bool>)
    requires Black(s) && Expand(All(s)) == line
    ensures Expand(Framed(s, |line|)) == WithBorder(line)
  {
    hide Expand, Solid, Bordered, Black, Framed, All;
    FramedDark(s, |line|);
    DarkEnd(All(s), |line|);
  }

  lemma FrameLight(s: Line, line: seq<bool>)
    requires !Black(s) && Expand(All(s)) == line
    ensures Expand(Framed(s, |line|)) == WithBorder(line)
  {
    hide Expand, Solid, Bordered, Black, Framed, All;
    FramedLight(s, |line|);
    LightEnd(s.closed, s.length, |line|);
  }

  /** The framed runs are those of the line in its border. */
  lemma FramedExpands(line: seq<bool>)
    ensures Expand(Framed(Runs(line, |line|), |line|)) == WithBorder(line)
  {
    hide Expand, WithBorder, Runs, Black, Framed, All;
    var s := Runs(line, |line|);
    RunsWhole(line);
    if Black(s) {
      FrameDark(s, line);
    } else {
      FrameLight(s, line);
    }
  }

  lemma BorderedPositive(runs: seq<nat>, size: nat)
    requires size > 0 && forall k :: 0 < k < |runs| ==> runs[k] > 0
    ensures Positive(Bordered(runs, size))
  {
  }

  lemma FramedPositive(line: seq<bool>)
    requires line != []
    ensures Positive(Framed(Runs(line, |line|), |line|))
  {
    hide Runs, Bordered, Black, Framed;
    var s := Runs(line, |line|);
    RunsBounded(line, |line|);
    if Black(s) {
      FramedDark(s, |line|);
      BorderedPositive(All(s), |line|);
    } else {
      FramedLight(s, |line|);
      BorderedPositive(s.closed + [s.length + |line|], |line|);
    }
  }

  /**
   * The finder part of the score of a line counts, in the line with its light border, every 1:1:3:1:1 window with
   * one part of light before it and four after it, and every one with four parts before it and one after it.
   */
  lemma FindersAreWindows(line: seq<bool>)
    requires line != []
    ensures LineScore(line) == RunsScore(All(Runs(line, |line|)))
      + PENALTY_N3 * (|Windows(WithBorder(line), 1, 4)| + |Windows(WithBorder(line), 4, 1)|)
  {
    hide Runs, Framed, RunsScore, Expand, Windows, Finders, Matches, Begins, WithBorder, Positive;
    var d := Framed(Runs(line, |line|), |line|);
    FramedExpands(line);
    FramedPositive(line);
    FindersMatch(d, |d|);
    WindowsAre(d, 1, 4);
    WindowsAre(d, 4, 1);
    BeginsSize(d, |d|, 1, 4);
    BeginsSize(d, |d|, 4, 1);
  }
}
