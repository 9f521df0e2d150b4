/** Drawing the function patterns of a symbol (external/qrcodegen/QrCode.cpp, drawFunctionPatterns). */
module FunctionPatterns {
  import opened Zigzag
  import opened Grids
  import opened Symbol
  import opened QrTables
  import opened FunctionModules

  function Abs(n: int): nat {
    if n < 0 then -n else n
  }

  /** The larger of the two coordinate distances from p to (x, y). */
  function Dist(p: Pos, x: int, y: int): nat {
    var dx, dy := Abs(p.x - x), Abs(p.y - y);
    if dx > dy then dx else dy
  }

  /** The alignment positions that the finder patterns occupy. */
  predicate FinderCorner(n: nat, i: nat, j: nat) {
    (i == 0 && j == 0) || (i == 0 && j == n - 1) || (i == n - 1 && j == 0)
  }

  ghost predicate OnAlignment(version: nat, p: Pos)
    requires 2 <= version <= 40
  {
    exists i: nat, j: nat ::
      i < NumAlign(version) && j < NumAlign(version) && !FinderCorner(NumAlign(version), i, j)
      && Dist(p, AlignPos(version, i), AlignPos(version, j)) <= 2
  }

  /** The modules that the drawing marks, part by part. */
  ghost predicate IsFunctionModule(version: nat, p: Pos)
    requires 1 <= version <= 40
  {
    var size := Size(version);
    || p.x == 6 || p.y == 6
    || Dist(p, 3, 3) <= 4 || Dist(p, size - 4, 3) <= 4 || Dist(p, 3, size - 4) <= 4
    || (version >= 2 && OnAlignment(version, p))
    || IsFormatCell(size, p)
    || (version >= 7 && InVersionArea(p, size))
  }

  // ---- Membership in the parts ----

  lemma CornersMember(size: nat, p: Pos)
    requires size >= 21
    ensures p in Corners(size) <==>
      (p.x <= 8 && p.y <= 8) || (size - 8 <= p.x < size && p.y <= 8) || (p.x <= 8 && size - 8 <= p.y < size)
  {
    hide Rect;
  }

  lemma TimingMember(size: nat, p: Pos)
    requires size >= 21
    ensures p in Timing(size) <==> (p.y == 6 && 9 <= p.x < size - 8) || (p.x == 6 && 9 <= p.y < size - 8)
  {
    hide Rect;
  }

  lemma VersionMember(version: nat, p: Pos)
    ensures p in VersionArea(version) <==> version >= 7 && InVersionArea(p, Size(version))
  {
    hide Rect, Size;
    SizeIs(version);
  }

  lemma OccupiedMember(version: nat, p: Pos)
    requires 1 <= version <= 40
    ensures p in Occupied(version) <==>
      p in Corners(Size(version)) || p in Timing(Size(version)) || p in VersionArea(version) || p in Alignment(version)
  {
    hide Corners, Timing, VersionArea, Alignment, Size;
  }

  // ---- Format bits lie next to the finder patterns ----

  lemma FormatInCorners(size: nat, p: Pos)
    requires size >= 21 && IsFormatCell(size, p)
    ensures (p.x <= 8 && p.y <= 8) || (size - 8 <= p.x < size && p.y <= 8) || (p.x <= 8 && size - 8 <= p.y < size)
  {
  }

  /** Whatever of a corner is neither finder pattern nor timing pattern holds format bits. */
  lemma CornersCovered(size: nat, p: Pos)
    requires size >= 21 && p.x != 6 && p.y != 6
    requires (p.x <= 8 && p.y <= 8) || (size - 8 <= p.x < size && p.y <= 8) || (p.x <= 8 && size - 8 <= p.y < size)
    ensures Dist(p, 3, 3) <= 4 || Dist(p, size - 4, 3) <= 4 || Dist(p, 3, size - 4) <= 4 || IsFormatCell(size, p)
  {
    if p.x == 8 && p.y <= 8 {
      var k := if p.y <= 5 then p.y else p.y - 1;
      assert p == FormatCell(size, k);
    } else if p.x <= 7 && p.y == 8 {
      var k := if p.x == 7 then 8 else 14 - p.x;
      assert p == FormatCell(size, k);
    } else if p.y == 8 {
      var k := 15 + (size - 1 - p.x);
      assert p == FormatCell(size, k);
    } else if p.x == 8 {
      var k := if p.y == size - 8 then 30 else p.y - size + 30;
      assert p == FormatCell(size, k);
    }
  }

  // ---- Alignment patterns ----

  lemma TileMember(version: nat, i: nat, j: nat, p: Pos)
    requires 2 <= version <= 40 && i < NumAlign(version) && j < NumAlign(version)
    ensures p in Tile(version, i, j) <==> Dist(p, AlignPos(version, i), AlignPos(version, j)) <= 2
  {
    hide Rect, NumAlign, AlignPos;
  }

  lemma {:induction false} InnerColumnHas(version: nat, i: nat, k: nat, j: nat)
    requires 2 <= version <= 40 && 0 < i < NumAlign(version) && 0 < j <= k < NumAlign(version)
    ensures Tile(version, i, j) <= InnerColumn(version, i, k)
    decreases k
  {
    hide Tile, NumAlign;
    if j < k {
      InnerColumnHas(version, i, k - 1, j);
    }
  }

  lemma {:induction false} InnerHas(version: nat, k: nat, i: nat)
    requires 2 <= version <= 40 && 0 < i <= k < NumAlign(version)
    ensures InnerColumn(version, i, NumAlign(version) - 1) <= Inner(version, k)
    decreases k
  {
    hide InnerColumn, NumAlign;
    if i < k {
      InnerHas(version, k - 1, i);
    }
  }

  lemma {:induction false} EdgesHave(version: nat, k: nat, i: nat)
    requires 2 <= version <= 40 && 0 < i <= k < NumAlign(version) - 1
    ensures TopTile(AlignPos(version, i)) <= Top(version, k) && LeftTile(AlignPos(version, i)) <= Left(version, k)
    decreases k
  {
    hide TopTile, LeftTile, NumAlign, AlignPos;
    if i < k {
      EdgesHave(version, k - 1, i);
    }
  }

  lemma {:induction false} InnerColumnOrigin(version: nat, i: nat, k: nat, p: Pos) returns (j: nat)
    requires 2 <= version <= 40 && 0 < i < NumAlign(version) && k < NumAlign(version)
    requires p in InnerColumn(version, i, k)
    ensures 0 < j <= k && p in Tile(version, i, j)
    decreases k
  {
    hide Tile, NumAlign;
    if p in Tile(version, i, k) { j := k; } else { j := InnerColumnOrigin(version, i, k - 1, p); }
  }

  lemma {:induction false} InnerOrigin(version: nat, k: nat, p: Pos) returns (i: nat, j: nat)
    requires 2 <= version <= 40 && k < NumAlign(version) && p in Inner(version, k)
    ensures 0 < i <= k && 0 < j < NumAlign(version) && p in Tile(version, i, j)
    decreases k
  {
    hide Tile, NumAlign, InnerColumn;
    if p in InnerColumn(version, k, NumAlign(version) - 1) {
      i := k;
      j := InnerColumnOrigin(version, k, NumAlign(version) - 1, p);
    } else {
      i, j := InnerOrigin(version, k - 1, p);
    }
  }

  lemma {:induction false} TopOrigin(version: nat, k: nat, p: Pos) returns (i: nat)
    requires 2 <= version <= 40 && k < NumAlign(version) - 1 && p in Top(version, k)
    ensures 0 < i <= k && p in TopTile(AlignPos(version, i))
    decreases k
  {
    hide TopTile, NumAlign, AlignPos;
    if p in TopTile(AlignPos(version, k)) { i := k; } else { i := TopOrigin(version, k - 1, p); }
  }

  lemma {:induction false} LeftOrigin(version: nat, k: nat, p: Pos) returns (i: nat)
    requires 2 <= version <= 40 && k < NumAlign(version) - 1 && p in Left(version, k)
    ensures 0 < i <= k && p in LeftTile(AlignPos(version, i))
    decreases k
  {
    hide LeftTile, NumAlign, AlignPos;
    if p in LeftTile(AlignPos(version, k)) { i := k; } else { i := LeftOrigin(version, k - 1, p); }
  }

  /** The parts of the alignment patterns belong to alignment patterns. */
  lemma AlignmentDrawn(version: nat, p: Pos)
    requires 2 <= version <= 40 && p in Alignment(version)
    ensures OnAlignment(version, p)
  {
    hide Alignment, Inner, Top, Left, NumAlign, AlignPos, TopTile, LeftTile, Tile, OnAlignment;
    AlignmentParts(version);
    var n := NumAlign(version);
    if p in Inner(version, n - 1) {
      var i, j := InnerOrigin(version, n - 1, p);
      TileMember(version, i, j, p);
      OnPattern(version, i, j, p);
    } else if p in Top(version, n - 2) {
      var i := TopOrigin(version, n - 2, p);
      FirstPos(version);
      OnPattern(version, i, 0, p);
    } else {
      var j := LeftOrigin(version, n - 2, p);
      FirstPos(version);
      OnPattern(version, 0, j, p);
    }
  }

  lemma FirstPos(version: nat)
    requires 2 <= version <= 40
    ensures AlignPos(version, 0) == 6
  {
  }

  lemma OnPattern(version: nat, i: nat, j: nat, p: Pos)
    requires 2 <= version <= 40 && i < NumAlign(version) && j < NumAlign(version)
    requires !FinderCorner(NumAlign(version), i, j) && Dist(p, AlignPos(version, i), AlignPos(version, j)) <= 2
    ensures OnAlignment(version, p)
  {
  }

  /** Alignment patterns are made up of those parts and of timing modules. */
  lemma PatternCounted(version: nat, i: nat, j: nat, p: Pos)
    requires 2 <= version <= 40 && i < NumAlign(version) && j < NumAlign(version)
    requires !FinderCorner(NumAlign(version), i, j) && Dist(p, AlignPos(version, i), AlignPos(version, j)) <= 2
    ensures p in Alignment(version) || p in Timing(Size(version))
  {
    hide Alignment, Inner, Top, Left, InnerColumn, NumAlign, AlignPos, Rect, TopTile, LeftTile, Tile, Timing, Size;
    AlignmentParts(version);
    SizeIs(version);
    FirstPos(version);
    var n := NumAlign(version);
    if i > 0 && j > 0 {
      TileMember(version, i, j, p);
      InnerColumnHas(version, i, n - 1, j);
      InnerHas(version, n - 1, i);
    } else {
      TimingMember(Size(version), p);
      EdgesHave(version, n - 2, if i > 0 then i else j);
    }
  }

  /** The drawing marks exactly the modules that were counted. */
  lemma FunctionModulesOccupy(version: nat, p: Pos)
    requires 1 <= version <= 40 && Inside(p, Size(version))
    ensures IsFunctionModule(version, p) <==> p in Occupied(version)
  {
    hide Corners, Timing, VersionArea, Alignment, Size, Occupied, OnAlignment, IsFormatCell, InVersionArea;
    var size := Size(version);
    SizeIs(version);
    CornersMember(size, p);
    TimingMember(size, p);
    VersionMember(version, p);
    OccupiedMember(version, p);
    if version == 1 { NoAlignment(); } else { AlignmentCounted(version, p); }
    if IsFormatCell(size, p) { FormatInCorners(size, p); }
    if p in Corners(size) && p.x != 6 && p.y != 6 { CornersCovered(size, p); }
  }

  lemma AlignmentCounted(version: nat, p: Pos)
    requires 2 <= version <= 40
    ensures OnAlignment(version, p) ==> p in Alignment(version) || p in Timing(Size(version))
    ensures p in Alignment(version) ==> OnAlignment(version, p)
  {
    hide Alignment, Timing, NumAlign, AlignPos, Size, FinderCorner, Dist;
    if p in Alignment(version) { AlignmentDrawn(version, p); }
    if OnAlignment(version, p) {
      var i: nat, j: nat :| i < NumAlign(version) && j < NumAlign(version) && !FinderCorner(NumAlign(version), i, j)
        && Dist(p, AlignPos(version, i), AlignPos(version, j)) <= 2;
      PatternCounted(version, i, j, p);
    }
  }

  // ---- How many modules are left ----

  lemma {:induction false} DistinctSize(s: seq<Pos>)
    requires Distinct(s)
    ensures |set p | p in s| == |s|
  {
    if s != [] {
      var init, last := s[..|s| - 1], s[|s| - 1];
      assert s == init + [last];
      DistinctSize(init);
      assert (set p | p in s) == (set p | p in init) + {last};
    }
  }

  lemma OccupiedInside(version: nat, p: Pos)
    requires 1 <= version <= 40 && p in Occupied(version)
    ensures Inside(p, Size(version))
  {
    hide Corners, Timing, VersionArea, Alignment, Size, Occupied, InVersionArea;
    SizeIs(version);
    OccupiedMember(version, p);
    FrameBounds(Size(version));
    VersionBounds(version);
    if version == 1 { NoAlignment(); } else { AlignmentBounds(version); }
  }

  /** The modules left free by the drawing are as many as getNumRawDataModules says, for every version. */
  lemma FreeModules(version: nat, f: Grid)
    requires 1 <= version <= 40 && Square(f, Size(version))
    requires forall p :: Inside(p, Size(version)) ==> (At(f, p) <==> IsFunctionModule(version, p))
    ensures |FreeCells(Size(version), f)| == RawDataModules(version)
  {
    hide Size, IsFunctionModule, Occupied, FreeCells, Distinct, Rect, Scan, RawDataModules;
    var size := Size(version);
    SizeIs(version);
    var cells, all := FreeCells(size, f), Rect(0, 0, size, size);
    ScanVisits(size);
    DistinctSize(cells);
    forall p: Pos
      ensures p in cells <==> p in all - Occupied(version)
    {
      if Inside(p, size) {
        FunctionModulesOccupy(version, p);
        if p.x == 6 { ColumnSix(version, p); }
      }
    }
    assert (set p | p in cells) == all - Occupied(version);
    forall p | p in Occupied(version)
      ensures p in all
    {
      OccupiedInside(version, p);
    }
    OccupiedSize(version);
    RectSize(0, 0, size, size);
    Complement(all, Occupied(version));
  }

  lemma ColumnSix(version: nat, p: Pos)
    requires 1 <= version <= 40 && p.x == 6
    ensures IsFunctionModule(version, p)
  {
  }

  lemma Complement(all: set<Pos>, part: set<Pos>)
    requires forall p :: p in part ==> p in all
    ensures |all - part| == |all| - |part|
  {
    assert all == part + (all - part);
    DisjointSize(part, all - part);
  }
}
