/**
 * Which modules the function patterns of a symbol occupy, and how many they leave free
 * (external/qrcodegen/QrCode.cpp, drawFunctionPatterns and getNumRawDataModules).
 */
module FunctionModules {
  import opened Arith
  import opened Zigzag
  import opened QrTables

  // ---- Rectangles of modules ----

  ghost function Row(x: nat, y: nat, w: nat): (s: set<Pos>)
    ensures |s| == w && forall p: Pos :: p in s <==> p.y == y && x <= p.x < x + w
  {
    if w == 0 then {} else Row(x, y, w - 1) + {Pos(x + w - 1, y)}
  }

  ghost function Rect(x: nat, y: nat, w: nat, h: nat): (s: set<Pos>)
    ensures forall p: Pos :: p in s <==> x <= p.x < x + w && y <= p.y < y + h
  {
    if h == 0 then {} else Rect(x, y, w, h - 1) + Row(x, y + h - 1, w)
  }

  lemma RectStep(x: nat, y: nat, w: nat, h: nat)
    ensures Rect(x, y, w, 0) == {}
    ensures h > 0 ==> |Rect(x, y, w, h)| == |Rect(x, y, w, h - 1)| + w
  {
    if h > 0 {
      DisjointSize(Rect(x, y, w, h - 1), Row(x, y + h - 1, w));
    }
  }

  lemma {:induction false} RectSize(x: nat, y: nat, w: nat, h: nat)
    ensures |Rect(x, y, w, h)| == w * h
    decreases h
  {
    hide Rect;
    RectStep(x, y, w, h);
    if h > 0 {
      RectSize(x, y, w, h - 1);
      OneMore(h, w);
    }
  }

  lemma DisjointSize(a: set<Pos>, b: set<Pos>)
    requires forall p :: p in a ==> p !in b
    ensures |a + b| == |a| + |b|
  {
    assert a !! b;
  }

  lemma OneMore(k: nat, each: nat)
    requires k > 0
    ensures k * each == (k - 1) * each + each && each * k == each * (k - 1) + each
  {
  }

  // ---- Alignment patterns ----

  function NumAlign(version: nat): nat {
    version / 7 + 2
  }

  function Step(version: nat): nat {
    var n := NumAlign(version);
    if version == 32 then 26 else (version * 4 + n * 2 + 1) / (n * 2 - 2) * 2
  }

  lemma StepSmall(version: nat)
    requires 2 <= version < 21
    ensures NumAlign(version) > 2 ==> Step(version) >= 16
    ensures (NumAlign(version) - 2) * Step(version) + 1 <= 4 * version
  {
    assert NumAlign(version) == if version < 7 then 2 else if version < 14 then 3 else 4;
  }

  lemma StepLarge(version: nat)
    requires 21 <= version <= 40
    ensures Step(version) >= 16 && (NumAlign(version) - 2) * Step(version) + 1 <= 4 * version
  {
    assert NumAlign(version) == if version < 28 then 5 else if version < 35 then 6 else 7;
  }

  /** Where alignment patterns are centred, in either direction. */
  function AlignPos(version: nat, i: nat): (pos: nat)
    requires 2 <= version <= 40 && i < NumAlign(version)
    ensures i > 0 ==> 11 <= pos <= Size(version) - 7
    ensures 0 < i < NumAlign(version) - 1 ==> pos <= Size(version) - 23
  {
    if i == 0 then 6
    else
      AlignInRange(version, i);
      4 * version + 10 - (NumAlign(version) - 1 - i) * Step(version)
  }

  lemma AlignInRange(version: nat, i: nat)
    requires 2 <= version <= 40 && 0 < i < NumAlign(version)
    ensures (NumAlign(version) - 1 - i) * Step(version) + 1 <= 4 * version
    ensures i < NumAlign(version) - 1 ==> (NumAlign(version) - 1 - i) * Step(version) >= 16
  {
    if version < 21 { StepSmall(version); } else { StepLarge(version); }
    hide Step, NumAlign;
    MulOrder(NumAlign(version) - 1 - i, NumAlign(version) - 2, Step(version));
    if i < NumAlign(version) - 1 {
      MulOrder(1, NumAlign(version) - 1 - i, Step(version));
    }
  }

  /** Two patterns do not touch. */
  lemma AlignApart(version: nat, i: nat, j: nat)
    requires 2 <= version <= 40 && 0 < i < j < NumAlign(version)
    ensures AlignPos(version, i) + 5 <= AlignPos(version, j)
  {
    if version < 21 { StepSmall(version); } else { StepLarge(version); }
    var n, step := NumAlign(version), Step(version);
    hide Step, NumAlign;
    assert (n - 1 - i) * step == (n - 1 - j) * step + (j - i) * step;
    MulOrder(1, j - i, step);
  }

  // ---- The modules, in parts that do not overlap ----

  /** The finder patterns with their separators and the format bits next to them. */
  ghost function Corners(size: nat): set<Pos>
    requires size >= 21
  {
    Rect(0, 0, 9, 9) + Rect(size - 8, 0, 8, 9) + Rect(0, size - 8, 9, 8)
  }

  /** The timing patterns between the corners. */
  ghost function Timing(size: nat): set<Pos>
    requires size >= 21
  {
    Rect(9, 6, size - 17, 1) + Rect(6, 9, 1, size - 17)
  }

  ghost function VersionArea(version: nat): set<Pos> {
    if version < 7 then {} else Rect(Size(version) - 11, 0, 3, 6) + Rect(0, Size(version) - 11, 6, 3)
  }

  /** The alignment pattern in column i and row j. */
  ghost function Tile(version: nat, i: nat, j: nat): set<Pos>
    requires 2 <= version <= 40 && i < NumAlign(version) && j < NumAlign(version)
  {
    Rect(AlignPos(version, i) - 2, AlignPos(version, j) - 2, 5, 5)
  }

  ghost function InnerColumn(version: nat, i: nat, k: nat): set<Pos>
    requires 2 <= version <= 40 && 0 < i < NumAlign(version) && k < NumAlign(version)
    decreases k
  {
    if k == 0 then {} else InnerColumn(version, i, k - 1) + Tile(version, i, k)
  }

  /** The alignment patterns away from the timing patterns, up to column k. */
  ghost function Inner(version: nat, k: nat): set<Pos>
    requires 2 <= version <= 40 && k < NumAlign(version)
    decreases k
  {
    if k == 0 then {} else Inner(version, k - 1) + InnerColumn(version, k, NumAlign(version) - 1)
  }

  /** A pattern centred at x on the horizontal timing pattern, without the row they share. */
  ghost function TopTile(x: nat): (s: set<Pos>)
    requires x >= 2
    ensures forall p: Pos :: p in s <==> x - 2 <= p.x < x + 3 && 4 <= p.y <= 8 && p.y != 6
  {
    Rect(x - 2, 4, 5, 2) + Rect(x - 2, 7, 5, 2)
  }

  ghost function LeftTile(y: nat): (s: set<Pos>)
    requires y >= 2
    ensures forall p: Pos :: p in s <==> y - 2 <= p.y < y + 3 && 4 <= p.x <= 8 && p.x != 6
  {
    Rect(4, y - 2, 2, 5) + Rect(7, y - 2, 2, 5)
  }

  ghost function Top(version: nat, k: nat): set<Pos>
    requires 2 <= version <= 40 && k < NumAlign(version) - 1
    decreases k
  {
    if k == 0 then {} else Top(version, k - 1) + TopTile(AlignPos(version, k))
  }

  ghost function Left(version: nat, k: nat): set<Pos>
    requires 2 <= version <= 40 && k < NumAlign(version) - 1
    decreases k
  {
    if k == 0 then {} else Left(version, k - 1) + LeftTile(AlignPos(version, k))
  }

  lemma TwoSize(a: set<Pos>, b: set<Pos>, m: nat, n: nat)
    requires |a| == m && |b| == n && forall p :: p in a ==> p !in b
    ensures |a + b| == m + n
  {
    DisjointSize(a, b);
  }

  lemma TwoRects(x: nat, y: nat, w: nat, h: nat, x': nat, y': nat, w': nat, h': nat)
    requires x + w <= x' || x' + w' <= x || y + h <= y' || y' + h' <= y
    ensures |Rect(x, y, w, h) + Rect(x', y', w', h')| == w * h + w' * h'
  {
    hide Rect;
    RectSize(x, y, w, h);
    RectSize(x', y', w', h');
    TwoSize(Rect(x, y, w, h), Rect(x', y', w', h'), w * h, w' * h');
  }

  lemma InnerColumnStep(version: nat, i: nat, k: nat)
    requires 2 <= version <= 40 && 0 < i < NumAlign(version) && k < NumAlign(version)
    ensures InnerColumn(version, i, k) == if k == 0 then {} else InnerColumn(version, i, k - 1) + Tile(version, i, k)
  {
    hide NumAlign, Tile;
  }

  lemma TileSize(version: nat, i: nat, j: nat)
    requires 2 <= version <= 40 && 0 < i < NumAlign(version) && 0 < j < NumAlign(version)
    ensures |Tile(version, i, j)| == 25
    ensures forall p :: p in Tile(version, i, j) ==>
      && AlignPos(version, i) - 2 <= p.x < AlignPos(version, i) + 3
      && AlignPos(version, j) - 2 <= p.y < AlignPos(version, j) + 3
  {
    hide NumAlign, AlignPos, Rect;
    RectSize(AlignPos(version, i) - 2, AlignPos(version, j) - 2, 5, 5);
  }

  lemma {:induction false} InnerColumnSize(version: nat, i: nat, k: nat)
    requires 2 <= version <= 40 && 0 < i < NumAlign(version) && k < NumAlign(version)
    ensures |InnerColumn(version, i, k)| == 25 * k
    ensures forall p :: p in InnerColumn(version, i, k) ==>
      AlignPos(version, i) - 2 <= p.x < AlignPos(version, i) + 3 && 9 <= p.y < AlignPos(version, k) + 3
    decreases k
  {
    hide NumAlign, AlignPos, InnerColumn, Tile;
    InnerColumnStep(version, i, k);
    if k > 0 {
      InnerColumnSize(version, i, k - 1);
      TileSize(version, i, k);
      if k > 1 { AlignApart(version, k - 1, k); }
      TwoSize(InnerColumn(version, i, k - 1), Tile(version, i, k), 25 * (k - 1), 25);
    }
  }

  lemma {:induction false} InnerSize(version: nat, k: nat)
    requires 2 <= version <= 40 && k < NumAlign(version)
    ensures |Inner(version, k)| == 25 * (NumAlign(version) - 1) * k
    ensures forall p :: p in Inner(version, k) ==> 9 <= p.x < AlignPos(version, k) + 3 && 9 <= p.y < Size(version)
    decreases k
  {
    hide NumAlign, AlignPos, InnerColumn;
    if k > 0 {
      var each := 25 * (NumAlign(version) - 1);
      InnerSize(version, k - 1);
      InnerColumnSize(version, k, NumAlign(version) - 1);
      if k > 1 { AlignApart(version, k - 1, k); }
      TwoSize(Inner(version, k - 1), InnerColumn(version, k, NumAlign(version) - 1), each * (k - 1), each);
      OneMore(k, each);
    }
  }

  lemma TopTileIs(x: nat)
    requires x >= 2
    ensures TopTile(x) == Rect(x - 2, 4, 5, 2) + Rect(x - 2, 7, 5, 2)
  {
    hide Rect;
  }

  lemma LeftTileIs(y: nat)
    requires y >= 2
    ensures LeftTile(y) == Rect(4, y - 2, 2, 5) + Rect(7, y - 2, 2, 5)
  {
    hide Rect;
  }

  lemma TopTileSize(x: nat)
    requires x >= 2
    ensures |TopTile(x)| == 20
  {
    hide Rect, TopTile;
    TopTileIs(x);
    TwoRects(x - 2, 4, 5, 2, x - 2, 7, 5, 2);
  }

  lemma LeftTileSize(y: nat)
    requires y >= 2
    ensures |LeftTile(y)| == 20
  {
    hide Rect, LeftTile;
    LeftTileIs(y);
    TwoRects(4, y - 2, 2, 5, 7, y - 2, 2, 5);
  }

  lemma {:induction false} TopBounds(version: nat, k: nat)
    requires 2 <= version <= 40 && k < NumAlign(version) - 1
    ensures forall p :: p in Top(version, k) ==> 9 <= p.x < AlignPos(version, k) + 3 && 4 <= p.y <= 8 && p.y != 6
    decreases k
  {
    hide NumAlign, AlignPos, TopTile, Size;
    if k > 0 {
      TopBounds(version, k - 1);
      if k > 1 { AlignApart(version, k - 1, k); }
    }
  }

  lemma TopStep(version: nat, k: nat)
    requires 2 <= version <= 40 && k < NumAlign(version) - 1
    ensures Top(version, k) == if k == 0 then {} else Top(version, k - 1) + TopTile(AlignPos(version, k))
  {
    hide NumAlign, AlignPos, TopTile;
  }

  lemma LeftStep(version: nat, k: nat)
    requires 2 <= version <= 40 && k < NumAlign(version) - 1
    ensures Left(version, k) == if k == 0 then {} else Left(version, k - 1) + LeftTile(AlignPos(version, k))
  {
    hide NumAlign, AlignPos, LeftTile;
  }

  lemma {:induction false} TopSize(version: nat, k: nat)
    requires 2 <= version <= 40 && k < NumAlign(version) - 1
    ensures |Top(version, k)| == 20 * k
    decreases k
  {
    hide NumAlign, AlignPos, TopTile, Size, Top;
    TopStep(version, k);
    if k > 0 {
      TopSize(version, k - 1);
      TopTileSize(AlignPos(version, k));
      TopBounds(version, k - 1);
      if k > 1 { AlignApart(version, k - 1, k); }
      TwoSize(Top(version, k - 1), TopTile(AlignPos(version, k)), 20 * (k - 1), 20);
    }
  }

  lemma {:induction false} LeftBounds(version: nat, k: nat)
    requires 2 <= version <= 40 && k < NumAlign(version) - 1
    ensures forall p :: p in Left(version, k) ==> 9 <= p.y < AlignPos(version, k) + 3 && 4 <= p.x <= 8 && p.x != 6
    decreases k
  {
    hide NumAlign, AlignPos, LeftTile, Size;
    if k > 0 {
      LeftBounds(version, k - 1);
      if k > 1 { AlignApart(version, k - 1, k); }
    }
  }

  lemma {:induction false} LeftSize(version: nat, k: nat)
    requires 2 <= version <= 40 && k < NumAlign(version) - 1
    ensures |Left(version, k)| == 20 * k
    decreases k
  {
    hide NumAlign, AlignPos, LeftTile, Size, Left;
    LeftStep(version, k);
    if k > 0 {
      LeftSize(version, k - 1);
      LeftTileSize(AlignPos(version, k));
      LeftBounds(version, k - 1);
      if k > 1 { AlignApart(version, k - 1, k); }
      TwoSize(Left(version, k - 1), LeftTile(AlignPos(version, k)), 20 * (k - 1), 20);
    }
  }

  lemma CornersSize(size: nat)
    requires size >= 21
    ensures |Corners(size)| == 225
  {
    hide Rect;
    TwoRects(0, 0, 9, 9, size - 8, 0, 8, 9);
    RectSize(0, size - 8, 9, 8);
    TwoSize(Rect(0, 0, 9, 9) + Rect(size - 8, 0, 8, 9), Rect(0, size - 8, 9, 8), 153, 72);
  }

  lemma FrameSize(size: nat)
    requires size >= 21
    ensures |Corners(size) + Timing(size)| == 225 + 2 * (size - 17)
  {
    hide Rect;
    CornersSize(size);
    TwoRects(9, 6, size - 17, 1, 6, 9, 1, size - 17);
    TwoSize(Corners(size), Timing(size), 225, 2 * (size - 17));
  }

  lemma VersionAreaIs(version: nat)
    ensures version < 7 ==> VersionArea(version) == {}
    ensures version >= 7 ==>
      Size(version) >= 11
      && VersionArea(version) == Rect(Size(version) - 11, 0, 3, 6) + Rect(0, Size(version) - 11, 6, 3)
  {
    hide Rect;
  }

  lemma VersionAreaSize(version: nat)
    ensures |VersionArea(version)| == if version < 7 then 0 else 36
  {
    hide Rect, Size, VersionArea;
    VersionAreaIs(version);
    if version >= 7 {
      SizeIs(version);
      TwoRects(Size(version) - 11, 0, 3, 6, 0, Size(version) - 11, 6, 3);
    }
  }

  lemma SizeIs(version: nat)
    ensures Size(version) == 4 * version + 17
  {
  }

  ghost function Alignment(version: nat): set<Pos>
    requires 1 <= version <= 40
  {
    if version == 1 then {}
    else
      var n := NumAlign(version);
      Inner(version, n - 1) + (Top(version, n - 2) + Left(version, n - 2))
  }

  /** All function modules. */
  ghost function Occupied(version: nat): set<Pos>
    requires 1 <= version <= 40
  {
    Corners(Size(version)) + Timing(Size(version)) + (VersionArea(version) + Alignment(version))
  }

  ghost predicate InFrame(p: Pos, size: nat)
    requires size >= 21
  {
    p.x == 6 || p.y == 6 || (p.x <= 8 && p.y <= 8) || (p.x >= size - 8 && p.y <= 8) || (p.x <= 8 && p.y >= size - 8)
  }

  ghost predicate InVersionArea(p: Pos, size: nat)
    requires size >= 21
  {
    (size - 11 <= p.x < size - 8 && p.y <= 5) || (size - 11 <= p.y < size - 8 && p.x <= 5)
  }

  /** Away from corners, timing patterns and version bits. */
  ghost predicate Clear(p: Pos, size: nat)
    requires size >= 21
  {
    || (9 <= p.x < size && 9 <= p.y < size)
    || (9 <= p.x < size - 20 && 4 <= p.y <= 8 && p.y != 6)
    || (9 <= p.y < size - 20 && 4 <= p.x <= 8 && p.x != 6)
  }

  lemma FrameBounds(size: nat)
    requires size >= 21
    ensures forall p :: p in Corners(size) + Timing(size) ==> InFrame(p, size) && Inside(p, size)
  {
    hide Rect;
  }

  lemma VersionBounds(version: nat)
    ensures forall p :: p in VersionArea(version) ==> InVersionArea(p, Size(version)) && Inside(p, Size(version))
  {
    hide Rect, Size;
    SizeIs(version);
  }

  lemma AlignmentParts(version: nat)
    requires 2 <= version <= 40
    ensures NumAlign(version) >= 2
    ensures Alignment(version)
         == Inner(version, NumAlign(version) - 1) + (Top(version, NumAlign(version) - 2) + Left(version, NumAlign(version) - 2))
  {
    assert NumAlign(version) >= 2;
    hide Inner, Top, Left, NumAlign;
  }

  lemma AlignmentBounds(version: nat)
    requires 2 <= version <= 40
    ensures forall p :: p in Alignment(version) ==> Clear(p, Size(version))
  {
    hide NumAlign, AlignPos, Inner, Top, Left, Size, Alignment;
    AlignmentParts(version);
    SizeIs(version);
    var n := NumAlign(version);
    InnerSize(version, n - 1);
    TopBounds(version, n - 2);
    LeftBounds(version, n - 2);
    FarPos(version);
    NoneOnEdge(version);
  }

  lemma NoneOnEdge(version: nat)
    requires 2 <= version <= 40
    ensures NumAlign(version) == 2 ==> Top(version, 0) == {} && Left(version, 0) == {}
  {
  }

  lemma FarPos(version: nat)
    requires 2 <= version <= 40
    ensures AlignPos(version, NumAlign(version) - 1) + 3 <= Size(version)
    ensures AlignPos(version, NumAlign(version) - 2) + 3 <= Size(version) - 20 || NumAlign(version) == 2
  {
  }

  lemma AlignmentSize(version: nat)
    requires 2 <= version <= 40
    ensures var n := NumAlign(version);
      |Alignment(version)| == 25 * (n - 1) * (n - 1) + 40 * (n - 2)
  {
    hide NumAlign, AlignPos, Inner, Top, Left, Size, Alignment;
    AlignmentParts(version);
    var n := NumAlign(version);
    InnerSize(version, n - 1);
    EdgesSize(version, n - 2);
    TwoSize(Inner(version, n - 1), Top(version, n - 2) + Left(version, n - 2), 25 * (n - 1) * (n - 1), 40 * (n - 2));
  }

  lemma EdgesSize(version: nat, k: nat)
    requires 2 <= version <= 40 && k < NumAlign(version) - 1
    ensures |Top(version, k) + Left(version, k)| == 40 * k
    ensures forall p :: p in Top(version, k) + Left(version, k) ==> p.x <= 8 || p.y <= 8
  {
    hide NumAlign, AlignPos, Top, Left, Size;
    TopSize(version, k);
    TopBounds(version, k);
    LeftSize(version, k);
    LeftBounds(version, k);
    TwoSize(Top(version, k), Left(version, k), 20 * k, 20 * k);
  }

  /** What is not a function module is a raw data module: the closed formula counts the drawing. */
  lemma OccupiedSize(version: nat)
    requires 1 <= version <= 40
    ensures |Occupied(version)| == Size(version) * Size(version) - RawDataModules(version)
  {
    hide *;
    var size := Size(version);
    SizeIs(version);
    FrameSize(size);
    VersionAreaSize(version);
    PartsApart(version);
    if version >= 2 { AlignmentSize(version); } else { NoAlignment(); }
    DisjointSize(VersionArea(version), Alignment(version));
    DisjointSize(Corners(size) + Timing(size), VersionArea(version) + Alignment(version));
    OccupiedIs(version);
    Formula(version);
  }

  lemma NoAlignment()
    ensures Alignment(1) == {}
  {
  }

  lemma OccupiedIs(version: nat)
    requires 1 <= version <= 40
    ensures Occupied(version) == Corners(Size(version)) + Timing(Size(version)) + (VersionArea(version) + Alignment(version))
  {
    hide Corners, Timing, VersionArea, Alignment, Size;
  }

  lemma PartsApart(version: nat)
    requires 1 <= version <= 40
    ensures forall p :: p in VersionArea(version) ==> p !in Alignment(version)
    ensures forall p :: p in Corners(Size(version)) + Timing(Size(version)) ==> p !in VersionArea(version) + Alignment(version)
  {
    hide Corners, Timing, VersionArea, Alignment, Size;
    SizeIs(version);
    FrameBounds(Size(version));
    VersionBounds(version);
    if version >= 2 { AlignmentBounds(version); } else { NoAlignment(); }
    NoVersionBits(version);
  }

  lemma NoVersionBits(version: nat)
    ensures version < 7 ==> VersionArea(version) == {}
  {
  }

  lemma Formula(version: nat)
    requires 1 <= version <= 40
    ensures var n := NumAlign(version);
      Size(version) * Size(version) - RawDataModules(version)
      == 225 + 2 * (Size(version) - 17) + (if version < 7 then 0 else 36)
       + if version == 1 then 0 else 25 * (n - 1) * (n - 1) + 40 * (n - 2)
  {
    var n := NumAlign(version);
    assert (25 * n - 10) * n - 55 == 25 * (n - 1) * (n - 1) + 40 * (n - 2) by {
      AlignFormula(n);
    }
    SquareFormula(version);
  }

  lemma AlignFormula(n: nat)
    ensures (25 * n - 10) * n - 55 == 25 * (n - 1) * (n - 1) + 40 * (n - 2)
  {
  }

  lemma SquareFormula(v: nat)
    ensures (4 * v + 17) * (4 * v + 17) == (16 * v + 128) * v + 64 + 225 + 8 * v
  {
  }
}
