/** The loops that draw function patterns (external/qrcodegen/QrCode.cpp, drawFunctionPatterns and its helpers). */
module PatternDrawing {
  import opened Arith
  import opened Bitwise
  import opened GF256
  import opened Zigzag
  import opened Grids
  import opened Symbol
  import opened QrTables
  import opened FunctionModules
  import opened FunctionPatterns

  function Blank(size: nat): (g: Grid)
    ensures Square(g, size) && forall p :: Inside(p, size) ==> !At(g, p)
  {
    seq(size, y => seq(size, x => false))
  }

  /** f' marks what f marks and the modules in region; g' is g outside of it. */
  ghost predicate Stamped(f: Grid, g: Grid, f': Grid, g': Grid, region: set<Pos>) {
    && |f| == |f'| == |g| == |g'| && Square(f, |f|) && Square(f', |f|) && Square(g, |f|) && Square(g', |f|)
    && (forall p :: Inside(p, |f|) ==> At(f', p) == (At(f, p) || p in region))
    && forall p :: Inside(p, |f|) && p !in region ==> At(g', p) == At(g, p)
  }

  lemma StampOne(f: Grid, g: Grid, f': Grid, g': Grid, region: set<Pos>, q: Pos, black: bool)
    requires Stamped(f, g, f', g', region) && Inside(q, |f|)
    ensures Stamped(f, g, Put(f', q, true), Put(g', q, black), region + {q})
  {
    hide Put;
  }

  lemma StampNothing(f: Grid, g: Grid)
    requires |f| == |g| && Square(f, |f|) && Square(g, |f|)
    ensures Stamped(f, g, f, g, {})
  {
  }

  lemma StampTwice(f: Grid, g: Grid, f': Grid, g': Grid, f'': Grid, g'': Grid, r: set<Pos>, r': set<Pos>)
    requires Stamped(f, g, f', g', r) && Stamped(f', g', f'', g'', r')
    ensures Stamped(f, g, f'', g'', r + r')
  {
  }

  // ---- Timing patterns ----

  ghost function TimingSet(n: nat): set<Pos> {
    Rect(6, 0, 1, n) + Rect(0, 6, n, 1)
  }

  lemma TimingSetStep(n: nat)
    ensures TimingSet(0) == {}
    ensures TimingSet(n + 1) == TimingSet(n) + {Pos(6, n)} + {Pos(n, 6)}
  {
    hide Rect;
  }

  method DrawTiming(code: QrCode)
    requires code.Valid()
    modifies code
    ensures code.Valid()
    ensures Stamped(old(code.isFunction), old(code.modules), code.isFunction, code.modules, TimingSet(code.size))
    ensures forall p :: Inside(p, code.size) && p in TimingSet(code.size) ==> At(code.modules, p) == ((p.x + p.y) % 2 == 0)
  {
    hide Stamped, TimingSet;
    ghost var f, g := code.isFunction, code.modules;
    StampNothing(f, g);
    TimingSetStep(0);
    for i := 0 to code.size
      invariant code.Valid()
      invariant Stamped(f, g, code.isFunction, code.modules, TimingSet(i))
      invariant forall p :: Inside(p, code.size) && p in TimingSet(i) ==> At(code.modules, p) == ((p.x + p.y) % 2 == 0)
    {
      TimingSetStep(i);
      StampOne(f, g, code.isFunction, code.modules, TimingSet(i), Pos(6, i), i % 2 == 0);
      code.SetFunctionModule(6, i, i % 2 == 0);
      StampOne(f, g, code.isFunction, code.modules, TimingSet(i) + {Pos(6, i)}, Pos(i, 6), i % 2 == 0);
      code.SetFunctionModule(i, 6, i % 2 == 0);
    }
  }

  // ---- Finder and alignment patterns ----

  /** The modules of the square around (x, y) that come before row dy, column dx of it. */
  ghost function Before(size: nat, x: int, y: int, radius: int, dy: int, dx: int): set<Pos> {
    set p | p in Rect(0, 0, size, size) && Dist(p, x, y) <= radius && (p.y - y < dy || (p.y - y == dy && p.x - x < dx))
  }

  ghost function Around(size: nat, x: int, y: int, radius: int): set<Pos> {
    set p | p in Rect(0, 0, size, size) && Dist(p, x, y) <= radius
  }

  lemma BeforeSteps(size: nat, x: int, y: int, radius: int, dy: int, dx: int)
    requires radius >= 0
    ensures Before(size, x, y, radius, -radius, -radius) == {}
    ensures Before(size, x, y, radius, radius + 1, -radius) == Around(size, x, y, radius)
    ensures Before(size, x, y, radius, dy, radius + 1) == Before(size, x, y, radius, dy + 1, -radius)
  {
    hide Rect;
  }

  lemma BeforeNext(size: nat, x: int, y: int, radius: int, dy: int, dx: int)
    requires -radius <= dy <= radius && -radius <= dx <= radius
    ensures var next := Before(size, x, y, radius, dy, dx + 1);
      if 0 <= x + dx < size && 0 <= y + dy < size
      then next == Before(size, x, y, radius, dy, dx) + {Pos(x + dx, y + dy)} && Dist(Pos(x + dx, y + dy), x, y) <= radius
      else next == Before(size, x, y, radius, dy, dx)
  {
    hide Rect;
  }

  /** Squares around (x, y) as far as radius, black except at the distances in light, clipped to the symbol. */
  method DrawSquares(code: QrCode, x: int, y: int, radius: int, light: set<nat>)
    requires code.Valid() && radius >= 0
    modifies code
    ensures code.Valid()
    ensures Stamped(old(code.isFunction), old(code.modules), code.isFunction, code.modules, Around(code.size, x, y, radius))
    ensures forall p :: Inside(p, code.size) && p in Around(code.size, x, y, radius) ==>
              At(code.modules, p) == (Dist(p, x, y) !in light)
  {
    hide Stamped, Before, Around, Dist;
    ghost var f, g := code.isFunction, code.modules;
    StampNothing(f, g);
    var dy: int := -radius;
    BeforeSteps(code.size, x, y, radius, dy, 0);
    while dy <= radius
      invariant -radius <= dy <= radius + 1 && code.Valid()
      invariant Stamped(f, g, code.isFunction, code.modules, Before(code.size, x, y, radius, dy, -radius))
      invariant forall p :: Inside(p, code.size) && p in Before(code.size, x, y, radius, dy, -radius) ==>
                  At(code.modules, p) == (Dist(p, x, y) !in light)
    {
      var dx: int := -radius;
      while dx <= radius
        invariant -radius <= dx <= radius + 1 && code.Valid()
        invariant Stamped(f, g, code.isFunction, code.modules, Before(code.size, x, y, radius, dy, dx))
        invariant forall p :: Inside(p, code.size) && p in Before(code.size, x, y, radius, dy, dx) ==>
                    At(code.modules, p) == (Dist(p, x, y) !in light)
      {
        BeforeNext(code.size, x, y, radius, dy, dx);
        if 0 <= x + dx < code.size && 0 <= y + dy < code.size {
          var q := Pos(x + dx, y + dy);
          var black := Dist(q, x, y) !in light;
          StampOne(f, g, code.isFunction, code.modules, Before(code.size, x, y, radius, dy, dx), q, black);
          code.SetFunctionModule(x + dx, y + dy, black);
        }
        dx := dx + 1;
      }
      BeforeSteps(code.size, x, y, radius, dy, 0);
      dy := dy + 1;
    }
  }

  method GetAlignmentPatternPositions(version: nat) returns (result: seq<nat>)
    requires 1 <= version <= 40
    ensures version == 1 ==> result == []
    ensures version > 1 ==> |result| == NumAlign(version) && forall i :: 0 <= i < |result| ==> result[i] == AlignPos(version, i)
  {
    if version == 1 {
      return [];
    }
    var numAlign := NumAlign(version);
    assert numAlign >= 2;
    var step := Step(version);
    result := [];
    var pos: int := Size(version) - 7;
    hide NumAlign, Step;
    for i := 0 to numAlign - 1
      invariant |result| == i && pos == 4 * version + 10 - i * step
      invariant forall k :: 0 <= k < i ==> result[k] == AlignPos(version, numAlign - i + k)
    {
      OneMoreStep(i, step);
      assert AlignPos(version, numAlign - 1 - i) == pos;
      result := [pos] + result;
      pos := pos - step;
    }
    result := [6] + result;
  }

  lemma OneMoreStep(i: nat, step: nat)
    ensures (i + 1) * step == i * step + step
  {
  }

  /** The patterns drawn before the one in column i and row j. */
  ghost function AlignedBefore(version: nat, i: nat, j: nat): set<Pos>
    requires 2 <= version <= 40 && i <= NumAlign(version) && j <= NumAlign(version)
    decreases i, j
  {
    var n := NumAlign(version);
    if j > 0 && i < n then
      AlignedBefore(version, i, j - 1)
      + if FinderCorner(n, i, j - 1) then {} else Around(Size(version), AlignPos(version, i), AlignPos(version, j - 1), 2)
    else if i > 0 then AlignedBefore(version, i - 1, n)
    else {}
  }

  /** An alignment pattern: black but for the ring around its centre. */
  ghost predicate AlignmentShown(g: Grid, x: int, y: int) {
    Square(g, |g|) && forall p :: Inside(p, |g|) && Dist(p, x, y) <= 2 ==> At(g, p) == (Dist(p, x, y) != 1)
  }

  predicate Earlier(a: nat, b: nat, i: nat, j: nat) {
    a < i || (a == i && b < j)
  }

  /** The alignment patterns before column i, row j are there. */
  ghost predicate AlignmentsShown(g: Grid, version: nat, i: nat, j: nat)
    requires 2 <= version <= 40
  {
    forall a: nat, b: nat ::
      a < NumAlign(version) && b < NumAlign(version) && Earlier(a, b, i, j) && !FinderCorner(NumAlign(version), a, b) ==>
        AlignmentShown(g, AlignPos(version, a), AlignPos(version, b))
  }

  lemma PositionsApart(version: nat, a: nat, i: nat)
    requires 2 <= version <= 40 && a < NumAlign(version) && i < NumAlign(version) && a != i
    ensures Abs(AlignPos(version, a) - AlignPos(version, i)) >= 5
  {
    hide NumAlign, AlignPos;
    FirstPos(version);
    if 0 < a < i { AlignApart(version, a, i); }
    if 0 < i < a { AlignApart(version, i, a); }
  }

  lemma AlignmentKept(f: Grid, g: Grid, f': Grid, g': Grid, x: int, y: int, x': int, y': int)
    requires Stamped(f, g, f', g', Around(|f|, x', y', 2)) && AlignmentShown(g, x, y)
    requires Abs(x - x') >= 5 || Abs(y - y') >= 5
    ensures AlignmentShown(g', x, y)
  {
    hide Around, Stamped;
    StampedSquare(f, g, f', g', Around(|f|, x', y', 2));
    forall p | Inside(p, |g'|) && Dist(p, x, y) <= 2
      ensures At(g', p) == At(g, p)
    {
      AroundMember(|f|, x', y', 2, p);
      StampedElsewhere(f, g, f', g', Around(|f|, x', y', 2), p);
    }
  }

  lemma StampedSquare(f: Grid, g: Grid, f': Grid, g': Grid, region: set<Pos>)
    requires Stamped(f, g, f', g', region)
    ensures |f| == |f'| == |g| == |g'| && Square(f, |f|) && Square(f', |f|) && Square(g, |f|) && Square(g', |f|)
  {
  }

  lemma StampedElsewhere(f: Grid, g: Grid, f': Grid, g': Grid, region: set<Pos>, p: Pos)
    requires Stamped(f, g, f', g', region) && Inside(p, |f|) && p !in region
    ensures |g| == |g'| == |f| && Square(g, |g|) && Square(g', |g'|) && At(g', p) == At(g, p)
  {
  }

  lemma AlignmentsStep(f: Grid, g: Grid, f': Grid, g': Grid, version: nat, i: nat, j: nat)
    requires 2 <= version <= 40 && i < NumAlign(version) && j < NumAlign(version)
    requires Stamped(f, g, f', g', Around(|f|, AlignPos(version, i), AlignPos(version, j), 2))
    requires AlignmentsShown(g, version, i, j) && AlignmentShown(g', AlignPos(version, i), AlignPos(version, j))
    ensures AlignmentsShown(g', version, i, j + 1)
  {
    hide Around, AlignPos, NumAlign, Stamped, AlignmentShown, FinderCorner;
    forall a: nat, b: nat |
      a < NumAlign(version) && b < NumAlign(version) && Earlier(a, b, i, j + 1) && !FinderCorner(NumAlign(version), a, b)
      ensures AlignmentShown(g', AlignPos(version, a), AlignPos(version, b))
    {
      if a != i || b != j {
        assert Earlier(a, b, i, j);
        if a != i { PositionsApart(version, a, i); } else { PositionsApart(version, b, j); }
        AlignmentKept(f, g, f', g', AlignPos(version, a), AlignPos(version, b), AlignPos(version, i), AlignPos(version, j));
      }
    }
  }

  lemma AlignmentsNone(g: Grid, version: nat, i: nat, j: nat)
    requires 2 <= version <= 40 && i < NumAlign(version) && j < NumAlign(version)
    ensures AlignmentsShown(g, version, 0, 0)
    ensures FinderCorner(NumAlign(version), i, j) && AlignmentsShown(g, version, i, j) ==> AlignmentsShown(g, version, i, j + 1)
    ensures AlignmentsShown(g, version, i, NumAlign(version)) ==> AlignmentsShown(g, version, i + 1, 0)
  {
    hide AlignPos, NumAlign, AlignmentShown;
  }

  lemma AlignmentDone(g: Grid, x: int, y: int)
    requires Square(g, |g|)
    requires forall p :: Inside(p, |g|) && p in Around(|g|, x, y, 2) ==> At(g, p) == (Dist(p, x, y) !in {1})
    ensures AlignmentShown(g, x, y)
  {
    hide Around, Dist;
    forall p | Inside(p, |g|) && Dist(p, x, y) <= 2
      ensures p in Around(|g|, x, y, 2)
    {
      AroundMember(|g|, x, y, 2, p);
    }
  }

  method DrawAlignment(code: QrCode, version: nat)
    requires code.Valid() && 1 <= version <= 40 && code.size == Size(version)
    modifies code
    ensures code.Valid()
    ensures Stamped(old(code.isFunction), old(code.modules), code.isFunction, code.modules, Aligned(version))
    ensures version >= 2 ==> AlignmentsShown(code.modules, version, NumAlign(version), 0)
  {
    hide Stamped, Around, AlignPos, Size, FinderCorner, AlignmentShown, AlignmentsShown;
    ghost var f, g := code.isFunction, code.modules;
    StampNothing(f, g);
    var positions := GetAlignmentPatternPositions(version);
    if version == 1 {
      return;
    }
    var numAlign := |positions|;
    AlignmentsNone(g, version, 0, 0);
    for i := 0 to numAlign
      invariant code.Valid() && Stamped(f, g, code.isFunction, code.modules, AlignedBefore(version, i, 0))
      invariant AlignmentsShown(code.modules, version, i, 0)
    {
      for j := 0 to numAlign
        invariant code.Valid() && Stamped(f, g, code.isFunction, code.modules, AlignedBefore(version, i, j))
        invariant AlignmentsShown(code.modules, version, i, j)
      {
        AlignmentsNone(code.modules, version, i, j);
        if !FinderCorner(numAlign, i, j) {
          ghost var f', g' := code.isFunction, code.modules;
          DrawSquares(code, positions[i], positions[j], 2, {1});
          StampTwice(f, g, f', g', code.isFunction, code.modules, AlignedBefore(version, i, j),
                     Around(code.size, positions[i], positions[j], 2));
          AlignmentDone(code.modules, positions[i], positions[j]);
          AlignmentsStep(f', g', code.isFunction, code.modules, version, i, j);
        } else {
          assert AlignedBefore(version, i, j) + {} == AlignedBefore(version, i, j);
        }
      }
      AlignmentsNone(code.modules, version, i, 0);
    }
  }

  lemma AroundMember(size: nat, x: int, y: int, radius: int, p: Pos)
    ensures p in Around(size, x, y, radius) <==> Inside(p, size) && Dist(p, x, y) <= radius
  {
    hide Rect, Dist;
  }

  lemma {:induction false} AlignedHas(version: nat, i: nat, j: nat, i': nat, j': nat)
    requires 2 <= version <= 40 && i <= NumAlign(version) && j <= NumAlign(version)
    requires j' < NumAlign(version) && (i' < i || (i' == i < NumAlign(version) && j' < j))
    requires !FinderCorner(NumAlign(version), i', j')
    ensures Around(Size(version), AlignPos(version, i'), AlignPos(version, j'), 2) <= AlignedBefore(version, i, j)
    decreases i, j
  {
    hide Around, AlignPos, Size, NumAlign, FinderCorner;
    if j > 0 && i < NumAlign(version) {
      if !(i' == i && j' == j - 1) {
        AlignedHas(version, i, j - 1, i', j');
      }
    } else {
      AlignedHas(version, i - 1, NumAlign(version), i', j');
    }
  }

  lemma {:induction false} AlignedOrigin(version: nat, i: nat, j: nat, p: Pos)
    requires 2 <= version <= 40 && i <= NumAlign(version) && j <= NumAlign(version)
    requires p in AlignedBefore(version, i, j)
    ensures Inside(p, Size(version)) && OnAlignment(version, p)
    decreases i, j
  {
    hide Around, AlignPos, Size, NumAlign, FinderCorner, OnAlignment, Dist;
    if j > 0 && i < NumAlign(version) {
      if p in AlignedBefore(version, i, j - 1) {
        AlignedOrigin(version, i, j - 1, p);
      } else {
        AroundMember(Size(version), AlignPos(version, i), AlignPos(version, j - 1), 2, p);
        OnPattern(version, i, j - 1, p);
      }
    } else {
      AlignedOrigin(version, i - 1, NumAlign(version), p);
    }
  }

  lemma AlignedMember(version: nat, p: Pos)
    requires 2 <= version <= 40 && Inside(p, Size(version))
    ensures p in AlignedBefore(version, NumAlign(version), 0) <==> OnAlignment(version, p)
  {
    hide AlignedBefore, Around, AlignPos, Size, NumAlign, FinderCorner, Dist;
    var n := NumAlign(version);
    if p in AlignedBefore(version, n, 0) {
      AlignedOrigin(version, n, 0, p);
    }
    if OnAlignment(version, p) {
      var i: nat, j: nat :| i < n && j < n && !FinderCorner(n, i, j) && Dist(p, AlignPos(version, i), AlignPos(version, j)) <= 2;
      AlignedHas(version, n, 0, i, j);
      AroundMember(Size(version), AlignPos(version, i), AlignPos(version, j), 2, p);
    }
  }

  // ---- Version bits ----

  function VersionStep(rem: nat): nat {
    Xor(2 * rem, rem / 2048 * 0x1F25)
  }

  function VersionRemainder(version: nat, n: nat): nat {
    if n == 0 then version else VersionStep(VersionRemainder(version, n - 1))
  }

  function VersionBits(version: nat): nat {
    version * 4096 + VersionRemainder(version, 12)
  }

  lemma Shr12(a: nat)
    ensures Shr(a, 12) == a / 4096
  {
    hide Shr;
    Shr10(a);
    ShrSplit(a, 10, 2);
    ShrTwo(a / 1024);
  }

  lemma ShrTwo(a: nat)
    ensures Shr(a, 2) == a / 4
  {
    assert Shr(a / 2, 1) == a / 2 / 2;
  }

  lemma VersionStepBound(rem: nat)
    requires rem < 4096
    ensures VersionStep(rem) < 4096
  {
    hide Xor, Shr;
    var top := rem / 2048;
    XorShr(2 * rem, top * 0x1F25, 12);
    Shr12(2 * rem);
    Shr12(top * 0x1F25);
    Shr12(Xor(2 * rem, top * 0x1F25));
    VersionTopBits(rem);
    XorSelf(top);
  }

  lemma VersionTopBits(rem: nat)
    requires rem < 4096
    ensures 2 * rem / 4096 == rem / 2048 && rem / 2048 * 0x1F25 / 4096 == rem / 2048
  {
    assert rem / 2048 == 0 || rem / 2048 == 1;
  }

  lemma {:induction false} VersionRemainderBound(version: nat, n: nat)
    requires version <= 40
    ensures VersionRemainder(version, n) < 4096
  {
    hide VersionStep;
    if n > 0 {
      VersionRemainderBound(version, n - 1);
      VersionStepBound(VersionRemainder(version, n - 1));
    }
  }

  /** The version bits fit in 18 bits, and the version can be read from them. */
  lemma VersionReadBack(version: nat)
    requires 7 <= version <= 40
    ensures VersionBits(version) < 262144 && VersionBits(version) / 4096 == version
  {
    VersionRemainderBound(version, 12);
    hide VersionRemainder;
    DivModUnique(4096, version, VersionRemainder(version, 12));
  }

  /** Bit i of the version goes to column VersionColumn(size, i) of row i / 3, and to the mirrored place. */
  function VersionColumn(size: nat, i: nat): nat
    requires size >= 21
  {
    size - 11 + i % 3
  }

  ghost function VersionCells(size: nat, n: nat): set<Pos>
    requires size >= 21
  {
    if n == 0 then {}
    else
      var a, b := VersionColumn(size, n - 1), (n - 1) / 3;
      VersionCells(size, n - 1) + {Pos(a, b)} + {Pos(b, a)}
  }

  lemma {:induction false} VersionCellsHave(size: nat, n: nat, i: nat)
    requires size >= 21 && i < n
    ensures Pos(VersionColumn(size, i), i / 3) in VersionCells(size, n) && Pos(i / 3, VersionColumn(size, i)) in VersionCells(size, n)
  {
    hide VersionColumn;
    if i < n - 1 {
      VersionCellsHave(size, n - 1, i);
    }
  }

  lemma {:induction false} VersionCellsOrigin(size: nat, n: nat, p: Pos)
    requires size >= 21 && n <= 18 && p in VersionCells(size, n)
    ensures InVersionArea(p, size)
  {
    if n > 0 && p in VersionCells(size, n - 1) {
      VersionCellsOrigin(size, n - 1, p);
    }
  }

  lemma ThreeAcross(row: nat, column: nat)
    requires column < 3
    ensures (3 * row + column) / 3 == row && (3 * row + column) % 3 == column
  {
  }

  lemma VersionCellsMember(size: nat, p: Pos)
    requires size >= 21
    ensures p in VersionCells(size, 18) <==> InVersionArea(p, size)
  {
    hide VersionCells;
    if p in VersionCells(size, 18) {
      VersionCellsOrigin(size, 18, p);
    }
    if size - 11 <= p.x < size - 8 && p.y <= 5 {
      ThreeAcross(p.y, p.x - (size - 11));
      VersionCellsHave(size, 18, 3 * p.y + (p.x - (size - 11)));
    }
    if size - 11 <= p.y < size - 8 && p.x <= 5 {
      ThreeAcross(p.x, p.y - (size - 11));
      VersionCellsHave(size, 18, 3 * p.x + (p.y - (size - 11)));
    }
  }

  lemma DifferentPlaces(size: nat, i: nat, k: nat)
    requires size >= 45 && k < i < 18
    ensures Pos(VersionColumn(size, i), i / 3) != Pos(VersionColumn(size, k), k / 3)
    ensures Pos(VersionColumn(size, i), i / 3) != Pos(k / 3, VersionColumn(size, k))
  {
    assert i == 3 * (i / 3) + i % 3 && k == 3 * (k / 3) + k % 3;
  }

  /** The first n version bits can be read from both copies. */
  ghost predicate ShowsVersion(g: Grid, bits: nat, n: nat) {
    && |g| >= 45 && Square(g, |g|)
    && forall k :: 0 <= k < n && n <= 18 ==>
         && At(g, Pos(VersionColumn(|g|, k), k / 3)) == Bit(bits, k)
         && At(g, Pos(k / 3, VersionColumn(|g|, k))) == Bit(bits, k)
  }

  lemma ShowsOneMore(g: Grid, bits: nat, i: nat)
    requires ShowsVersion(g, bits, i) && i < 18
    ensures var p, q := Pos(VersionColumn(|g|, i), i / 3), Pos(i / 3, VersionColumn(|g|, i));
      ShowsVersion(Put(Put(g, p, Bit(bits, i)), q, Bit(bits, i)), bits, i + 1)
  {
    hide Put, Bit;
    var p, q := Pos(VersionColumn(|g|, i), i / 3), Pos(i / 3, VersionColumn(|g|, i));
    forall k | 0 <= k < i
      ensures Pos(VersionColumn(|g|, k), k / 3) != p && Pos(VersionColumn(|g|, k), k / 3) != q
      ensures Pos(k / 3, VersionColumn(|g|, k)) != p && Pos(k / 3, VersionColumn(|g|, k)) != q
    {
      DifferentPlaces(|g|, i, k);
    }
    hide VersionColumn;
  }

  method DrawVersion(code: QrCode, version: nat)
    requires code.Valid() && 1 <= version <= 40 && code.size == Size(version)
    modifies code
    ensures code.Valid()
    ensures Stamped(old(code.isFunction), old(code.modules), code.isFunction, code.modules, VersionSet(version))
    ensures version >= 7 ==> ShowsVersion(code.modules, VersionBits(version), 18)
  {
    hide Stamped, VersionCells, VersionColumn, ShowsVersion, VersionStep, Bit;
    ghost var f, g := code.isFunction, code.modules;
    StampNothing(f, g);
    if version < 7 {
      return;
    }
    var rem := version;
    for i := 0 to 12
      invariant rem == VersionRemainder(version, i)
    {
      rem := VersionStep(rem);
    }
    var bits := version * 4096 + rem;
    NoVersionYet(code.modules, code.size, bits);
    for i := 0 to 18
      invariant code.Valid() && Stamped(f, g, code.isFunction, code.modules, VersionCells(code.size, i))
      invariant ShowsVersion(code.modules, bits, i)
    {
      var a, b := VersionColumn(code.size, i), i / 3;
      VersionColumnInside(code.size, i);
      NextVersionCells(code.size, i);
      ShowsOneMore(code.modules, bits, i);
      StampOne(f, g, code.isFunction, code.modules, VersionCells(code.size, i), Pos(a, b), Bit(bits, i));
      code.SetFunctionModule(a, b, Bit(bits, i));
      StampOne(f, g, code.isFunction, code.modules, VersionCells(code.size, i) + {Pos(a, b)}, Pos(b, a), Bit(bits, i));
      code.SetFunctionModule(b, a, Bit(bits, i));
    }
  }

  lemma NoVersionYet(g: Grid, size: nat, bits: nat)
    requires size >= 45 && Square(g, size)
    ensures VersionCells(size, 0) == {} && ShowsVersion(g, bits, 0)
  {
  }

  lemma VersionColumnInside(size: nat, i: nat)
    requires size >= 45 && i < 18
    ensures VersionColumn(size, i) < size && i / 3 < size
  {
  }

  lemma NextVersionCells(size: nat, i: nat)
    requires size >= 45
    ensures VersionCells(size, i + 1)
         == VersionCells(size, i) + {Pos(VersionColumn(size, i), i / 3)} + {Pos(i / 3, VersionColumn(size, i))}
  {
    hide VersionColumn;
  }

  // ---- All of them ----

  lemma {:induction false} MarkedOnly(f: Grid, k: nat, p: Pos)
    requires |f| >= 21 && Square(f, |f|) && k <= 31 && Inside(p, |f|)
    ensures At(Marked(f, k), p) <==> At(f, p) || exists j :: 0 <= j < k && p == FormatCell(|f|, j)
  {
    hide FormatCell, Put;
    if k > 0 {
      MarkedOnly(f, k - 1, p);
    }
  }

  lemma StampedAt(f: Grid, g: Grid, f': Grid, g': Grid, region: set<Pos>, p: Pos)
    requires Stamped(f, g, f', g', region) && Inside(p, |f|)
    ensures At(f', p) == (At(f, p) || p in region)
  {
  }

  lemma TimingSetMember(size: nat, p: Pos)
    requires Inside(p, size)
    ensures p in TimingSet(size) <==> p.x == 6 || p.y == 6
  {
    hide Rect;
  }

  // ---- Colours ----

  predicate OnFinder(size: nat, p: Pos) {
    Dist(p, 3, 3) <= 4 || Dist(p, size - 4, 3) <= 4 || Dist(p, 3, size - 4) <= 4
  }

  /** A finder pattern with its separator, as far as it lies in the symbol. */
  ghost predicate FinderShown(g: Grid, x: int, y: int) {
    Square(g, |g|) && forall p :: Inside(p, |g|) && Dist(p, x, y) <= 4 ==> At(g, p) == (Dist(p, x, y) !in {2, 4})
  }

  /** A module of a timing pattern that no other pattern covers. */
  ghost predicate OnTiming(version: nat, p: Pos)
    requires 1 <= version <= 40
  {
    (p.x == 6 || p.y == 6) && !OnFinder(Size(version), p) && !(version >= 2 && OnAlignment(version, p))
  }

  ghost predicate TimingShown(g: Grid, version: nat)
    requires 1 <= version <= 40
  {
    Square(g, Size(version)) && forall p :: Inside(p, |g|) && OnTiming(version, p) ==> At(g, p) == ((p.x + p.y) % 2 == 0)
  }

  /** Finder, alignment and timing patterns are there in their colours. */
  ghost predicate DrawnSoFar(g: Grid, version: nat)
    requires 1 <= version <= 40
  {
    && |g| == Size(version) && Square(g, |g|)
    && FinderShown(g, 3, 3) && FinderShown(g, |g| - 4, 3) && FinderShown(g, 3, |g| - 4)
    && (version >= 2 ==> AlignmentsShown(g, version, NumAlign(version), 0))
    && TimingShown(g, version)
  }

  /** Every function pattern but the format bits is there in its colours. */
  ghost predicate PatternsShown(g: Grid, version: nat)
    requires 1 <= version <= 40
  {
    DrawnSoFar(g, version) && (version >= 7 ==> ShowsVersion(g, VersionBits(version), 18))
  }

  ghost predicate FormatShown(g: Grid, bits: nat) {
    |g| >= 21 && Square(g, |g|) && forall k :: 0 <= k < 31 ==> At(g, FormatCell(|g|, k)) == FormatValue(bits, k)
  }

  /** g' is g but for the modules in region. */
  ghost predicate SameElsewhere(g: Grid, g': Grid, region: set<Pos>) {
    |g| == |g'| && Square(g, |g|) && Square(g', |g|) && forall p :: Inside(p, |g|) && p !in region ==> At(g', p) == At(g, p)
  }

  lemma StampedSame(f: Grid, g: Grid, f': Grid, g': Grid, region: set<Pos>)
    requires Stamped(f, g, f', g', region)
    ensures SameElsewhere(g, g', region)
  {
  }

  ghost function FormatCells(size: nat): set<Pos>
    requires size >= 21
  {
    set k | 0 <= k < 31 :: FormatCell(size, k)
  }

  lemma FormattedSame(g: Grid, bits: nat)
    requires |g| >= 21 && Square(g, |g|)
    ensures SameElsewhere(g, Formatted(g, bits, 31), FormatCells(|g|))
    ensures FormatShown(Formatted(g, bits, 31), bits)
  {
    hide Formatted, FormatCell, FormatValue;
    forall p | Inside(p, |g|) && p !in FormatCells(|g|)
      ensures At(Formatted(g, bits, 31), p) == At(g, p)
    {
      FormattedAt(g, bits, 31, p);
    }
    forall k | 0 <= k < 31
      ensures At(Formatted(g, bits, 31), FormatCell(|g|, k)) == FormatValue(bits, k)
    {
      FormattedAt(g, bits, 31, FormatCell(|g|, k));
    }
  }

  lemma FinderKept(g: Grid, g': Grid, region: set<Pos>, x: int, y: int)
    requires SameElsewhere(g, g', region) && FinderShown(g, x, y)
    requires forall p :: p in region ==> Dist(p, x, y) > 4
    ensures FinderShown(g', x, y)
  {
    hide Dist;
  }

  lemma FinderAvoids(size: nat, x: int, y: int, x': int, y': int)
    requires Abs(x - x') > 8 || Abs(y - y') > 8
    ensures forall p :: p in Around(size, x', y', 4) ==> Dist(p, x, y) > 4
  {
    hide Around;
    forall p | p in Around(size, x', y', 4)
      ensures Dist(p, x, y) > 4
    {
      AroundMember(size, x', y', 4, p);
    }
  }

  lemma FormatAvoids(size: nat, p: Pos)
    requires size >= 21 && p in FormatCells(size)
    ensures !OnFinder(size, p) && p.x != 6 && p.y != 6
    ensures !(p.x >= 9 && p.y >= 9) && !(9 <= p.y < size - 20) && !(9 <= p.x < size - 20)
    ensures !InVersionArea(p, size)
  {
  }

  lemma VersionAvoids(version: nat, p: Pos)
    requires 1 <= version <= 40 && p in VersionSet(version)
    ensures var size := Size(version);
      && size >= 45 && InVersionArea(p, size)
      && !OnFinder(size, p) && p.x != 6 && p.y != 6 && !(p.x >= 9 && p.y >= 9)
      && !(9 <= p.y < size - 20) && !(9 <= p.x < size - 20)
  {
    hide VersionCells, Size;
    SizeIs(version);
    VersionCellsMember(Size(version), p);
  }

  /** Where an alignment pattern lies. */
  lemma AlignmentPlace(version: nat, i: nat, j: nat, p: Pos)
    requires 2 <= version <= 40 && i < NumAlign(version) && j < NumAlign(version)
    requires !FinderCorner(NumAlign(version), i, j) && Dist(p, AlignPos(version, i), AlignPos(version, j)) <= 2
    ensures var size := Size(version);
      (p.x >= 9 && p.y >= 9) || (9 <= p.y < size - 20 && 4 <= p.x <= 8) || (9 <= p.x < size - 20 && 4 <= p.y <= 8)
    ensures !OnFinder(Size(version), p)
  {
    hide AlignPos, NumAlign, Size;
    SizeIs(version);
    FirstPos(version);
  }

  lemma AlignedAvoids(version: nat, p: Pos)
    requires 1 <= version <= 40 && p in Aligned(version)
    ensures version >= 2 && OnAlignment(version, p) && !OnFinder(Size(version), p)
  {
    hide AlignedBefore, AlignPos, NumAlign, Size, Dist, FinderCorner, OnFinder;
    AlignedOrigin(version, NumAlign(version), 0, p);
    var i: nat, j: nat :| i < NumAlign(version) && j < NumAlign(version) && !FinderCorner(NumAlign(version), i, j)
      && Dist(p, AlignPos(version, i), AlignPos(version, j)) <= 2;
    AlignmentPlace(version, i, j, p);
  }

  /** A region that keeps clear of the finder patterns leaves them as they are. */
  lemma FindersKept(g: Grid, g': Grid, region: set<Pos>, version: nat)
    requires 1 <= version <= 40 && |g| == Size(version) && SameElsewhere(g, g', region)
    requires forall p :: p in region ==> !OnFinder(|g|, p)
    requires FinderShown(g, 3, 3) && FinderShown(g, |g| - 4, 3) && FinderShown(g, 3, |g| - 4)
    ensures FinderShown(g', 3, 3) && FinderShown(g', |g| - 4, 3) && FinderShown(g', 3, |g| - 4)
  {
    hide FinderShown, Dist, SameElsewhere;
    FinderKept(g, g', region, 3, 3);
    FinderKept(g, g', region, |g| - 4, 3);
    FinderKept(g, g', region, 3, |g| - 4);
  }

  lemma TimingKept(g: Grid, g': Grid, region: set<Pos>, version: nat)
    requires 1 <= version <= 40 && SameElsewhere(g, g', region) && TimingShown(g, version)
    requires forall p :: p in region ==> !OnTiming(version, p)
    ensures TimingShown(g', version)
  {
    hide OnTiming;
  }

  /** Neither format bits nor version bits touch an alignment pattern. */
  lemma AlignmentsKept(g: Grid, g': Grid, region: set<Pos>, version: nat, i: nat, j: nat)
    requires 2 <= version <= 40 && |g| == Size(version) && SameElsewhere(g, g', region) && AlignmentsShown(g, version, i, j)
    requires forall p :: p in region ==> ClearOfAlignment(|g|, p)
    ensures AlignmentsShown(g', version, i, j)
  {
    hide AlignPos, NumAlign, Size, Dist, FinderCorner, ClearOfAlignment;
    forall a: nat, b: nat |
      a < NumAlign(version) && b < NumAlign(version) && Earlier(a, b, i, j) && !FinderCorner(NumAlign(version), a, b)
      ensures AlignmentShown(g', AlignPos(version, a), AlignPos(version, b))
    {
      assert AlignmentShown(g, AlignPos(version, a), AlignPos(version, b));
      forall p | Inside(p, |g|) && Dist(p, AlignPos(version, a), AlignPos(version, b)) <= 2
        ensures At(g', p) == At(g, p)
      {
        AlignmentPlace(version, a, b, p);
        NotClear(|g|, p);
      }
    }
  }

  predicate ClearOfAlignment(size: nat, p: Pos) {
    !(p.x >= 9 && p.y >= 9) && !(9 <= p.y < size - 20) && !(9 <= p.x < size - 20)
  }

  lemma NotClear(size: nat, p: Pos)
    requires (p.x >= 9 && p.y >= 9) || (9 <= p.y < size - 20 && 4 <= p.x <= 8) || (9 <= p.x < size - 20 && 4 <= p.y <= 8)
    ensures !ClearOfAlignment(size, p)
  {
  }

  lemma FormatRegion(version: nat)
    requires 1 <= version <= 40
    ensures var size := Size(version);
      && size >= 21
      && (forall p :: p in FormatCells(size) ==> !OnFinder(size, p) && !OnTiming(version, p) && ClearOfAlignment(size, p))
      && forall p :: p in FormatCells(size) ==> !InVersionArea(p, size)
  {
    hide FormatCells, OnFinder, OnAlignment, InVersionArea, Size;
    SizeIs(version);
    forall p | p in FormatCells(Size(version))
      ensures !OnFinder(Size(version), p) && !OnTiming(version, p) && ClearOfAlignment(Size(version), p)
      ensures !InVersionArea(p, Size(version))
    {
      FormatAvoids(Size(version), p);
    }
  }

  lemma VersionRegion(version: nat)
    requires 1 <= version <= 40
    ensures forall p :: p in VersionSet(version) ==>
      !OnFinder(Size(version), p) && !OnTiming(version, p) && ClearOfAlignment(Size(version), p)
  {
    hide VersionSet, OnFinder, OnAlignment, InVersionArea, Size;
    forall p | p in VersionSet(version)
      ensures !OnFinder(Size(version), p) && !OnTiming(version, p) && ClearOfAlignment(Size(version), p)
    {
      VersionAvoids(version, p);
    }
  }

  lemma AlignedRegion(version: nat)
    requires 1 <= version <= 40
    ensures forall p :: p in Aligned(version) ==> !OnFinder(Size(version), p) && !OnTiming(version, p)
  {
    hide Aligned, OnFinder, OnAlignment, Size;
    forall p | p in Aligned(version)
      ensures !OnFinder(Size(version), p) && !OnTiming(version, p)
    {
      AlignedAvoids(version, p);
    }
  }

  lemma FinderRegion(version: nat, x: int, y: int)
    requires 1 <= version <= 40
    requires (x, y) == (3, 3) || (x, y) == (Size(version) - 4, 3) || (x, y) == (3, Size(version) - 4)
    ensures forall p :: p in Around(Size(version), x, y, 4) ==> !OnTiming(version, p)
  {
    hide Around, Dist, OnAlignment, Size;
    forall p | p in Around(Size(version), x, y, 4)
      ensures !OnTiming(version, p)
    {
      AroundMember(Size(version), x, y, 4, p);
    }
  }

  /** A step that keeps clear of everything drawn so far leaves it in its colours. */
  lemma DrawnKept(g: Grid, g': Grid, region: set<Pos>, version: nat)
    requires 1 <= version <= 40 && SameElsewhere(g, g', region) && DrawnSoFar(g, version)
    requires forall p :: p in region ==> !OnFinder(|g|, p) && !OnTiming(version, p) && ClearOfAlignment(|g|, p)
    ensures DrawnSoFar(g', version)
  {
    hide FinderShown, AlignmentsShown, TimingShown, OnFinder, OnTiming, ClearOfAlignment, Size;
    FindersKept(g, g', region, version);
    TimingKept(g, g', region, version);
    if version >= 2 { AlignmentsKept(g, g', region, version, NumAlign(version), 0); }
  }

  lemma FinderDone(g: Grid, x: int, y: int)
    requires Square(g, |g|)
    requires forall p :: Inside(p, |g|) && p in Around(|g|, x, y, 4) ==> At(g, p) == (Dist(p, x, y) !in {2, 4})
    ensures FinderShown(g, x, y)
  {
    hide Around, Dist;
    forall p | Inside(p, |g|) && Dist(p, x, y) <= 4
      ensures p in Around(|g|, x, y, 4)
    {
      AroundMember(|g|, x, y, 4, p);
    }
  }

  lemma TimingDone(g: Grid, version: nat)
    requires 1 <= version <= 40 && |g| == Size(version) && Square(g, |g|)
    requires forall p :: Inside(p, |g|) && p in TimingSet(|g|) ==> At(g, p) == ((p.x + p.y) % 2 == 0)
    ensures TimingShown(g, version)
  {
    hide TimingSet, OnFinder, OnAlignment;
    forall p | Inside(p, |g|) && OnTiming(version, p)
      ensures p in TimingSet(|g|)
    {
      TimingSetMember(|g|, p);
    }
  }

  /** One more finder pattern: it is there, and those before it and the timing patterns still are. */
  lemma FinderStep(f: Grid, g: Grid, f': Grid, g': Grid, version: nat, x: int, y: int)
    requires 1 <= version <= 40 && |f| == Size(version)
    requires (x, y) == (3, 3) || (x, y) == (Size(version) - 4, 3) || (x, y) == (3, Size(version) - 4)
    requires Stamped(f, g, f', g', Around(Size(version), x, y, 4)) && TimingShown(g, version)
    requires Square(g', |f|)
    requires forall p :: Inside(p, |g'|) && p in Around(|g'|, x, y, 4) ==> At(g', p) == (Dist(p, x, y) !in {2, 4})
    ensures FinderShown(g', x, y) && TimingShown(g', version)
  {
    hide Stamped, Around, Dist, TimingShown, Size, FinderShown;
    FinderDone(g', x, y);
    StampedSame(f, g, f', g', Around(Size(version), x, y, 4));
    FinderRegion(version, x, y);
    TimingKept(g, g', Around(Size(version), x, y, 4), version);
  }

  lemma FinderStays(f: Grid, g: Grid, f': Grid, g': Grid, size: nat, x: int, y: int, x': int, y': int)
    requires Stamped(f, g, f', g', Around(size, x', y', 4)) && FinderShown(g, x, y)
    requires Abs(x - x') > 8 || Abs(y - y') > 8
    ensures FinderShown(g', x, y)
  {
    hide Stamped, Around, FinderShown;
    StampedSame(f, g, f', g', Around(size, x', y', 4));
    FinderAvoids(size, x, y, x', y');
    FinderKept(g, g', Around(size, x', y', 4), x, y);
  }

  lemma AlignmentStep(f: Grid, g: Grid, f': Grid, g': Grid, version: nat)
    requires 1 <= version <= 40 && |f| == Size(version) && Stamped(f, g, f', g', Aligned(version)) && TimingShown(g, version)
    requires FinderShown(g, 3, 3) && FinderShown(g, |f| - 4, 3) && FinderShown(g, 3, |f| - 4)
    requires version >= 2 ==> AlignmentsShown(g', version, NumAlign(version), 0)
    ensures DrawnSoFar(g', version)
  {
    hide Stamped, Aligned, TimingShown, FinderShown, AlignmentsShown, OnFinder, OnTiming, Size;
    StampedSquare(f, g, f', g', Aligned(version));
    StampedSame(f, g, f', g', Aligned(version));
    AlignedRegion(version);
    FindersKept(g, g', Aligned(version), version);
    TimingKept(g, g', Aligned(version), version);
  }

  lemma FormatDrawn(g: Grid, version: nat, bits: nat)
    requires 1 <= version <= 40 && DrawnSoFar(g, version)
    ensures |g| >= 21 && DrawnSoFar(Formatted(g, bits, 31), version)
  {
    hide TimingShown, FinderShown, AlignmentsShown, OnFinder, OnTiming, ClearOfAlignment, Formatted, FormatCells, Size;
    FormatRegion(version);
    FormattedSame(g, bits);
    DrawnKept(g, Formatted(g, bits, 31), FormatCells(|g|), version);
  }

  lemma VersionDrawn(f: Grid, g: Grid, f': Grid, g': Grid, version: nat)
    requires 1 <= version <= 40 && Stamped(f, g, f', g', VersionSet(version)) && DrawnSoFar(g, version)
    ensures DrawnSoFar(g', version)
  {
    hide TimingShown, FinderShown, AlignmentsShown, OnFinder, OnTiming, ClearOfAlignment, Stamped, VersionSet, Size;
    VersionRegion(version);
    StampedSame(f, g, f', g', VersionSet(version));
    DrawnKept(g, g', VersionSet(version), version);
  }

  /** The patterns but for the format bits depend on function modules alone. */
  lemma PatternsKept(g: Grid, g': Grid, region: set<Pos>, version: nat)
    requires 1 <= version <= 40 && SameElsewhere(g, g', region) && PatternsShown(g, version)
    requires forall p :: p in region && Inside(p, |g|) ==> !IsFunctionModule(version, p) || p in FormatCells(|g|)
    requires |g| >= 21
    ensures PatternsShown(g', version)
  {
    hide SameElsewhere, DrawnSoFar, ShowsVersion, IsFunctionModule, FormatCells, Size;
    var inner := set p | p in region && Inside(p, |g|);
    SameInside(g, g', region, inner);
    SizeOfDrawn(g, version);
    forall p | p in inner
      ensures !OnFinder(|g|, p) && !OnTiming(version, p)
      ensures version >= 2 ==> !OnAlignment(version, p)
      ensures version >= 7 ==> !InVersionArea(p, |g|)
    {
      FunctionParts(version, p);
      if p in FormatCells(|g|) { FormatApart(version, p); }
    }
    DrawnKeptExactly(g, g', inner, version);
    if version >= 7 { VersionKept(g, g', inner, VersionBits(version)); }
  }

  lemma SizeOfDrawn(g: Grid, version: nat)
    requires 1 <= version <= 40 && DrawnSoFar(g, version)
    ensures |g| == Size(version)
  {
  }

  lemma SameInside(g: Grid, g': Grid, region: set<Pos>, inner: set<Pos>)
    requires SameElsewhere(g, g', region) && forall p :: p in region && Inside(p, |g|) ==> p in inner
    ensures SameElsewhere(g, g', inner)
  {
  }

  lemma FunctionParts(version: nat, p: Pos)
    requires 1 <= version <= 40 && Size(version) >= 21
    ensures OnFinder(Size(version), p) ==> IsFunctionModule(version, p)
    ensures OnTiming(version, p) ==> IsFunctionModule(version, p)
    ensures version >= 2 && OnAlignment(version, p) ==> IsFunctionModule(version, p)
    ensures version >= 7 && InVersionArea(p, Size(version)) ==> IsFunctionModule(version, p)
  {
    hide Dist, OnAlignment, IsFormatCell, Size;
  }

  lemma FormatApart(version: nat, p: Pos)
    requires 1 <= version <= 40 && Size(version) >= 21 && p in FormatCells(Size(version))
    ensures !OnFinder(Size(version), p) && !OnTiming(version, p) && !InVersionArea(p, Size(version))
    ensures version >= 2 ==> !OnAlignment(version, p)
  {
    hide FormatCells, OnFinder, InVersionArea, Size, Dist, NumAlign, AlignPos, FinderCorner;
    FormatAvoids(Size(version), p);
    if version >= 2 && OnAlignment(version, p) {
      var i: nat, j: nat :| i < NumAlign(version) && j < NumAlign(version) && !FinderCorner(NumAlign(version), i, j)
        && Dist(p, AlignPos(version, i), AlignPos(version, j)) <= 2;
      AlignmentPlace(version, i, j, p);
    }
  }

  lemma DrawnKeptExactly(g: Grid, g': Grid, region: set<Pos>, version: nat)
    requires 1 <= version <= 40 && SameElsewhere(g, g', region) && DrawnSoFar(g, version)
    requires forall p :: p in region ==> !OnFinder(|g|, p) && !OnTiming(version, p)
    requires version >= 2 ==> forall p :: p in region ==> !OnAlignment(version, p)
    ensures DrawnSoFar(g', version)
  {
    hide FinderShown, AlignmentsShown, TimingShown, OnFinder, OnTiming, OnAlignment, Size;
    FindersKept(g, g', region, version);
    TimingKept(g, g', region, version);
    if version >= 2 { AlignmentsUntouched(g, g', region, version); }
  }

  lemma AlignmentsUntouched(g: Grid, g': Grid, region: set<Pos>, version: nat)
    requires 2 <= version <= 40 && SameElsewhere(g, g', region) && AlignmentsShown(g, version, NumAlign(version), 0)
    requires forall p :: p in region ==> !OnAlignment(version, p)
    ensures AlignmentsShown(g', version, NumAlign(version), 0)
  {
    hide AlignPos, NumAlign, Dist, FinderCorner, OnAlignment;
    forall a: nat, b: nat |
      a < NumAlign(version) && b < NumAlign(version) && Earlier(a, b, NumAlign(version), 0) && !FinderCorner(NumAlign(version), a, b)
      ensures AlignmentShown(g', AlignPos(version, a), AlignPos(version, b))
    {
      assert AlignmentShown(g, AlignPos(version, a), AlignPos(version, b));
      forall p | Inside(p, |g|) && Dist(p, AlignPos(version, a), AlignPos(version, b)) <= 2
        ensures At(g', p) == At(g, p)
      {
        OnPattern(version, a, b, p);
      }
    }
  }

  lemma VersionKept(g: Grid, g': Grid, region: set<Pos>, bits: nat)
    requires SameElsewhere(g, g', region) && ShowsVersion(g, bits, 18)
    requires forall p :: p in region ==> !InVersionArea(p, |g|)
    ensures ShowsVersion(g', bits, 18)
  {
    hide Bit;
    forall k | 0 <= k < 18
      ensures InVersionArea(Pos(VersionColumn(|g|, k), k / 3), |g|) && InVersionArea(Pos(k / 3, VersionColumn(|g|, k)), |g|)
    {
    }
  }

  /** drawFunctionPatterns, on an empty symbol: exactly the function modules of the version are marked, in their colours. */
  method DrawFunctionPatterns(code: QrCode, version: nat)
    requires code.Valid() && 1 <= version <= 40 && code.size == Size(version) && code.isFunction == Blank(code.size)
    modifies code
    ensures code.Valid()
    ensures forall p :: Inside(p, code.size) ==> (At(code.isFunction, p) <==> IsFunctionModule(version, p))
    ensures PatternsShown(code.modules, version)
  {
    hide Stamped, TimingSet, Around, Aligned, VersionSet, Marked, Formatted, Blank, IsFormatCell, IsFunctionModule, ShowsVersion;
    hide FinderShown, TimingShown, DrawnSoFar, AlignmentsShown, Dist, FormatBits;
    var size := code.size;
    ghost var f0, g0 := code.isFunction, code.modules;
    DrawTiming(code);
    TimingDone(code.modules, version);
    ghost var f1, g1 := code.isFunction, code.modules;
    DrawSquares(code, 3, 3, 4, {2, 4});
    ghost var f2, g2 := code.isFunction, code.modules;
    FinderStep(f1, g1, f2, g2, version, 3, 3);
    DrawSquares(code, size - 4, 3, 4, {2, 4});
    ghost var f3, g3 := code.isFunction, code.modules;
    FinderStep(f2, g2, f3, g3, version, size - 4, 3);
    FinderStays(f2, g2, f3, g3, size, 3, 3, size - 4, 3);
    DrawSquares(code, 3, size - 4, 4, {2, 4});
    ghost var f4, g4 := code.isFunction, code.modules;
    FinderStep(f3, g3, f4, g4, version, 3, size - 4);
    FinderStays(f3, g3, f4, g4, size, 3, 3, 3, size - 4);
    FinderStays(f3, g3, f4, g4, size, size - 4, 3, 3, size - 4);
    DrawAlignment(code, version);
    ghost var f5, g5 := code.isFunction, code.modules;
    AlignmentStep(f4, g4, f5, g5, version);
    code.DrawFormatBits(0);
    ghost var f6, g6 := code.isFunction, code.modules;
    FormatDrawn(g5, version, FormatBits(code.level, 0));
    DrawVersion(code, version);
    VersionDrawn(f6, g6, code.isFunction, code.modules, version);
    MarksTogether(version, f0, g0, f1, g1, f2, g2, f3, g3, f4, g4, f5, g5, f6, g6, code.isFunction, code.modules);
  }

  lemma MarksTogether(version: nat, f0: Grid, g0: Grid, f1: Grid, g1: Grid, f2: Grid, g2: Grid, f3: Grid, g3: Grid,
                      f4: Grid, g4: Grid, f5: Grid, g5: Grid, f6: Grid, g6: Grid, f7: Grid, g7: Grid)
    requires 1 <= version <= 40 && |f0| == Size(version) && f0 == Blank(|f0|)
    requires Stamped(f0, g0, f1, g1, TimingSet(|f0|)) && Stamped(f1, g1, f2, g2, Around(|f0|, 3, 3, 4))
    requires Stamped(f2, g2, f3, g3, Around(|f0|, |f0| - 4, 3, 4)) && Stamped(f3, g3, f4, g4, Around(|f0|, 3, |f0| - 4, 4))
    requires Stamped(f4, g4, f5, g5, Aligned(version)) && |f5| >= 21 && Square(f5, |f5|) && f6 == Marked(f5, 31)
    requires Stamped(f6, g6, f7, g7, VersionSet(version))
    ensures |f7| == |f0| && Square(f7, |f7|)
    ensures forall p :: Inside(p, |f7|) ==> (At(f7, p) <==> IsFunctionModule(version, p))
  {
    hide Stamped, TimingSet, Around, Aligned, VersionSet, Marked, Blank, IsFormatCell, IsFunctionModule, Size;
    var size := |f0|;
    StampedSquare(f0, g0, f1, g1, TimingSet(size));
    StampedSquare(f1, g1, f2, g2, Around(size, 3, 3, 4));
    StampedSquare(f2, g2, f3, g3, Around(size, size - 4, 3, 4));
    StampedSquare(f3, g3, f4, g4, Around(size, 3, size - 4, 4));
    StampedSquare(f4, g4, f5, g5, Aligned(version));
    StampedSquare(f6, g6, f7, g7, VersionSet(version));
    forall p | Inside(p, size)
      ensures At(f7, p) <==> IsFunctionModule(version, p)
    {
      StampedAt(f0, g0, f1, g1, TimingSet(size), p);
      StampedAt(f1, g1, f2, g2, Around(size, 3, 3, 4), p);
      StampedAt(f2, g2, f3, g3, Around(size, size - 4, 3, 4), p);
      StampedAt(f3, g3, f4, g4, Around(size, 3, size - 4, 4), p);
      StampedAt(f4, g4, f5, g5, Aligned(version), p);
      MarkedAll(f5, p);
      StampedAt(f6, g6, f7, g7, VersionSet(version), p);
      PartsTogether(version, p);
    }
  }

  ghost function Aligned(version: nat): set<Pos>
    requires 1 <= version <= 40
  {
    if version == 1 then {} else AlignedBefore(version, NumAlign(version), 0)
  }

  ghost function VersionSet(version: nat): set<Pos>
    requires 1 <= version <= 40
  {
    if version < 7 then {} else VersionCells(Size(version), 18)
  }

  /** What the steps of the drawing mark, taken together. */
  lemma PartsTogether(version: nat, p: Pos)
    requires 1 <= version <= 40 && Inside(p, Size(version))
    ensures var size := Size(version);
      IsFunctionModule(version, p) <==>
        || p in TimingSet(size)
        || p in Around(size, 3, 3, 4) || p in Around(size, size - 4, 3, 4) || p in Around(size, 3, size - 4, 4)
        || p in Aligned(version) || IsFormatCell(size, p) || p in VersionSet(version)
  {
    hide TimingSet, Around, AlignedBefore, VersionCells, IsFormatCell, OnAlignment, InVersionArea, NumAlign, Dist, Size;
    SizeIs(version);
    var size := Size(version);
    TimingSetMember(size, p);
    AroundMember(size, 3, 3, 4, p);
    AroundMember(size, size - 4, 3, 4, p);
    AroundMember(size, 3, size - 4, 4, p);
    if version > 1 { AlignedMember(version, p); }
    VersionCellsMember(size, p);
  }

  lemma MarkedAll(f: Grid, p: Pos)
    requires |f| >= 21 && Square(f, |f|) && Inside(p, |f|)
    ensures At(Marked(f, 31), p) <==> At(f, p) || IsFormatCell(|f|, p)
  {
    hide Marked, FormatCell;
    MarkedOnly(f, 31, p);
  }
}
