/** The module grid of a QR Code symbol: drawing codewords, masks and format bits, and reading
    them back (external/qrcodegen/QrCode.cpp). */
module Symbol {
  import opened Basics
  import opened Bitwise
  import opened GF256
  import opened Zigzag
  import opened Grids
  import opened MaskPenalty

  // ---- Masks ----

  /** Whether mask m inverts the module in column x of row y. */
  predicate Inverts(m: nat, x: nat, y: nat)
    requires m < 8
  {
    match m
    case 0 => (x + y) % 2 == 0
    case 1 => y % 2 == 0
    case 2 => x % 3 == 0
    case 3 => (x + y) % 3 == 0
    case 4 => (x / 3 + y / 2) % 2 == 0
    case 5 => x * y % 2 + x * y % 3 == 0
    case 6 => (x * y % 2 + x * y % 3) % 2 == 0
    case _ => ((x + y) % 2 + x * y % 3) % 2 == 0
  }

  /** The grid with mask m applied to its data modules. */
  function Masked(g: Grid, isFunction: Grid, m: nat): (r: Grid)
    requires m < 8 && Square(g, |g|) && Square(isFunction, |g|)
    ensures |r| == |g| && Square(r, |r|)
    ensures forall p :: Inside(p, |g|) ==>
              At(r, p) == (At(g, p) != (Inverts(m, p.x, p.y) && !At(isFunction, p)))
  {
    seq(|g|, y requires 0 <= y < |g| => MaskedRow(g, isFunction, m, y))
  }

  function MaskedRow(g: Grid, isFunction: Grid, m: nat, y: nat): (r: seq<bool>)
    requires m < 8 && Square(g, |g|) && Square(isFunction, |g|) && y < |g|
    ensures |r| == |g|
  {
    seq(|g|, x requires 0 <= x < |g| => g[y][x] != (Inverts(m, x, y) && !isFunction[y][x]))
  }

  /** A mask undoes itself. */
  lemma MaskTwice(g: Grid, isFunction: Grid, m: nat)
    requires m < 8 && Square(g, |g|) && Square(isFunction, |g|)
    ensures Masked(Masked(g, isFunction, m), isFunction, m) == g
  {
    hide Masked, Inverts;
    GridEqual(Masked(Masked(g, isFunction, m), isFunction, m), g);
  }

  // ---- Format bits ----

  function FormatStep(rem: nat): nat {
    Xor(2 * rem, rem / 512 * 0x537)
  }

  function FormatRemainder(data: nat, n: nat): nat {
    if n == 0 then data else FormatStep(FormatRemainder(data, n - 1))
  }

  /** The 15 format bits for the level's 2 bits and a mask. */
  function FormatBits(level: nat, m: nat): nat
    requires level < 4 && m < 8
  {
    var data := level * 8 + m;
    Xor(data * 1024 + FormatRemainder(data, 10), 0x5412)
  }

  lemma Shr10(a: nat)
    ensures Shr(a, 9) == a / 512
    ensures Shr(a, 10) == a / 1024
  {
    Shr8(a);
    ShrSplit(a, 8, 1);
    ShrSplit(a, 8, 2);
    assert Shr(a / 256, 1) == a / 256 / 2;
    assert Shr(a / 256, 2) == a / 256 / 4;
  }

  lemma {:induction false} ShrSplit(a: nat, m: nat, n: nat)
    ensures Shr(a, m + n) == Shr(Shr(a, m), n)
    decreases m
  {
    if m > 0 {
      ShrSplit(a / 2, m - 1, n);
    }
  }

  lemma FormatStepBound(rem: nat)
    requires rem < 1024
    ensures FormatStep(rem) < 1024
  {
    hide *;
    var top := rem / 512;
    XorShr(2 * rem, top * 0x537, 10);
    Shr10(2 * rem);
    Shr10(top * 0x537);
    Shr10(Xor(2 * rem, top * 0x537));
    TopBits(rem);
    XorSelf(top);
    FormatStepIs(rem);
  }

  lemma FormatStepIs(rem: nat)
    ensures FormatStep(rem) == Xor(2 * rem, rem / 512 * 0x537)
  {
  }

  /** Both operands have the same bit 10 and nothing above it. */
  lemma TopBits(rem: nat)
    requires rem < 1024
    ensures 2 * rem / 1024 == rem / 512 && rem / 512 * 0x537 / 1024 == rem / 512
  {
    assert rem / 512 == 0 || rem / 512 == 1;
  }

  lemma {:induction false} FormatRemainderBound(data: nat, n: nat)
    requires data < 1024
    ensures FormatRemainder(data, n) < 1024
  {
    if n > 0 {
      FormatRemainderBound(data, n - 1);
      FormatStepBound(FormatRemainder(data, n - 1));
    }
  }

  /** The five data bits of a format word. */
  function FormatData(bits: nat): nat {
    Xor(bits / 1024, 21)
  }

  lemma FormatRoundTrip(level: nat, m: nat)
    requires level < 4 && m < 8
    ensures FormatBits(level, m) < 32768
    ensures FormatData(FormatBits(level, m)) == level * 8 + m
  {
    hide Xor, Shr, FormatRemainder;
    var data := level * 8 + m;
    var rem := FormatRemainder(data, 10);
    FormatRemainderBound(data, 10);
    var v := data * 1024 + rem;
    XorShr(v, 0x5412, 10);
    Shr10(v);
    Shr10(0x5412);
    Shr10(Xor(v, 0x5412));
    XorCancel(data, 21);
    XorBound(data, 21, 5);
    assert Pow2(5) == 32;
  }

  /** Where the k-th write of drawFormatBits goes: 15 bits, 15 bits again, the dark module. */
  function FormatCell(size: nat, k: nat): (p: Pos)
    requires size >= 21 && k < 31
    ensures Inside(p, size)
  {
    if k <= 5 then Pos(8, k)
    else if k == 6 then Pos(8, 7)
    else if k == 7 then Pos(8, 8)
    else if k == 8 then Pos(7, 8)
    else if k < 15 then Pos(14 - k, 8)
    else if k < 23 then Pos(size - 1 - (k - 15), 8)
    else if k < 30 then Pos(8, size - 15 + (k - 15))
    else Pos(8, size - 8)
  }

  function FormatValue(bits: nat, k: nat): bool {
    if k < 15 then Bit(bits, k) else if k < 30 then Bit(bits, k - 15) else true
  }

  lemma FormatCellsDistinct(size: nat, j: nat, k: nat)
    requires size >= 21 && j < 31 && k < 31 && j != k
    ensures FormatCell(size, j) != FormatCell(size, k)
  {
  }

  predicate IsFormatCell(size: nat, p: Pos)
    requires size >= 21
  {
    exists k :: 0 <= k < 31 && p == FormatCell(size, k)
  }

  /** The grid after the first k writes of drawFormatBits. */
  function Formatted(g: Grid, bits: nat, k: nat): (r: Grid)
    requires |g| >= 21 && Square(g, |g|) && k <= 31
    ensures |r| == |g| && Square(r, |r|)
  {
    if k == 0 then g else Put(Formatted(g, bits, k - 1), FormatCell(|g|, k - 1), FormatValue(bits, k - 1))
  }

  /** The function modules after the first k writes of drawFormatBits. */
  function Marked(f: Grid, k: nat): (r: Grid)
    requires |f| >= 21 && Square(f, |f|) && k <= 31
    ensures |r| == |f| && Square(r, |r|)
    ensures forall p :: Inside(p, |f|) && At(f, p) ==> At(r, p)
    ensures forall j :: 0 <= j < k ==> At(r, FormatCell(|f|, j))
  {
    if k == 0 then f else Put(Marked(f, k - 1), FormatCell(|f|, k - 1), true)
  }

  lemma {:induction false} FormattedAt(g: Grid, bits: nat, k: nat, p: Pos)
    requires |g| >= 21 && Square(g, |g|) && k <= 31 && Inside(p, |g|)
    ensures (forall j :: 0 <= j < k ==> p != FormatCell(|g|, j)) ==> At(Formatted(g, bits, k), p) == At(g, p)
    ensures forall j :: 0 <= j < k && p == FormatCell(|g|, j) ==> At(Formatted(g, bits, k), p) == FormatValue(bits, j)
  {
    hide Put, FormatCell, FormatValue;
    if k > 0 {
      FormattedAt(g, bits, k - 1, p);
      forall j | 0 <= j < k - 1
        ensures FormatCell(|g|, j) != FormatCell(|g|, k - 1)
      {
        FormatCellsDistinct(|g|, j, k - 1);
      }
    }
  }

  /** Writing the format bits makes grids equal that agreed everywhere else. */
  lemma FormattedEqual(g: Grid, h: Grid, bits: nat)
    requires |g| == |h| >= 21 && Square(g, |g|) && Square(h, |g|)
    requires forall p :: Inside(p, |g|) && !IsFormatCell(|g|, p) ==> At(g, p) == At(h, p)
    ensures Formatted(g, bits, 31) == Formatted(h, bits, 31)
  {
    hide Formatted, FormatCell, FormatValue;
    forall p | Inside(p, |g|)
      ensures At(Formatted(g, bits, 31), p) == At(Formatted(h, bits, 31), p)
    {
      FormattedAt(g, bits, 31, p);
      FormattedAt(h, bits, 31, p);
    }
    GridEqual(Formatted(g, bits, 31), Formatted(h, bits, 31));
  }

  // ---- Reading the format bits back ----

  /** The number whose bits 0 to n - 1 are the modules of one copy of the format bits. */
  function ReadFormat(g: Grid, copy: nat, n: nat): nat
    requires |g| >= 21 && Square(g, |g|) && copy < 2 && n <= 15
  {
    if n == 0 then 0
    else ReadFormat(g, copy, n - 1) + if At(g, FormatCell(|g|, 15 * copy + n - 1)) then Pow2(n - 1) else 0
  }

  /** The value of the n lowest bits. */
  function BitsBelow(bits: nat, n: nat): nat {
    if n == 0 then 0 else BitsBelow(bits, n - 1) + if Bit(bits, n - 1) then Pow2(n - 1) else 0
  }

  lemma {:induction false} BitsBelowValue(bits: nat, n: nat)
    ensures BitsBelow(bits, n) + Shr(bits, n) * Pow2(n) == bits
  {
    if n > 0 {
      BitsBelowValue(bits, n - 1);
      ShrStep(bits, n - 1);
      hide Shr;
      Regroup(Shr(bits, n), Shr(bits, n - 1) % 2, Pow2(n - 1));
    }
  }

  lemma Regroup(q: nat, b: nat, w: nat)
    ensures (2 * q + b) * w == q * (2 * w) + b * w
  {
  }

  lemma {:induction false} ReadFormatted(g: Grid, bits: nat, copy: nat, n: nat)
    requires |g| >= 21 && Square(g, |g|) && copy < 2 && n <= 15
    ensures ReadFormat(Formatted(g, bits, 31), copy, n) == BitsBelow(bits, n)
  {
    hide Formatted, FormatCell, Bit, Pow2;
    if n > 0 {
      ReadFormatted(g, bits, copy, n - 1);
      var k := 15 * copy + n - 1;
      FormattedAt(g, bits, 31, FormatCell(|g|, k));
    }
  }

  /** Either copy of the format bits names the level and the mask. */
  lemma FormatNamesMask(g: Grid, level: nat, m: nat, copy: nat)
    requires |g| >= 21 && Square(g, |g|) && level < 4 && m < 8 && copy < 2
    ensures FormatData(ReadFormat(Formatted(g, FormatBits(level, m), 31), copy, 15)) == level * 8 + m
  {
    hide *;
    var bits := FormatBits(level, m);
    FormatRoundTrip(level, m);
    ReadFormatted(g, bits, copy, 15);
    BitsBelowValue(bits, 15);
    Pow2Values();
    ShrZero(bits, 15);
    assert Shr(bits, 15) * Pow2(15) == 0;
  }

  lemma Pow2Values()
    ensures Pow2(15) == 32768
  {
    assert Pow2(5) == 32;
    assert Pow2(10) == 1024;
  }

  // ---- Codewords ----

  ghost predicate AllInside(s: seq<Pos>, size: nat) {
    forall p :: p in s ==> Inside(p, size)
  }

  /** The modules of s that are no function modules, in order. */
  function Free(s: seq<Pos>, f: Grid): (r: seq<Pos>)
    requires Square(f, |f|) && AllInside(s, |f|)
    ensures forall p :: p in r <==> p in s && !At(f, p)
  {
    if s == [] then []
    else Free(s[..|s| - 1], f) + if At(f, s[|s| - 1]) then [] else [s[|s| - 1]]
  }

  lemma FreeAppend(s: seq<Pos>, p: Pos, f: Grid)
    requires Square(f, |f|) && AllInside(s + [p], |f|)
    ensures AllInside(s, |f|)
    ensures Free(s + [p], f) == Free(s, f) + if At(f, p) then [] else [p]
  {
    assert (s + [p])[..|s|] == s;
    assert forall q :: q in s ==> q in s + [p];
  }

  lemma {:induction false} FreeDistinct(s: seq<Pos>, f: Grid)
    requires Square(f, |f|) && AllInside(s, |f|) && Distinct(s)
    ensures Distinct(Free(s, f))
  {
    if s != [] {
      FreeDistinct(s[..|s| - 1], f);
    }
  }

  /** Bit i of the codewords, each read from its highest bit. */
  function CodeBit(data: seq<Byte>, i: nat): bool
    requires i < 8 * |data|
  {
    Bit(data[i / 8], 7 - i % 8)
  }

  /** The first n bits of data are in the first n cells and nothing else has changed. */
  ghost predicate Drawn(g: Grid, g': Grid, cells: seq<Pos>, data: seq<Byte>, n: nat) {
    && |g'| == |g| && Square(g, |g|) && Square(g', |g|) && AllInside(cells, |g|)
    && n <= |cells| && n <= 8 * |data|
    && (forall k :: 0 <= k < n ==> At(g', cells[k]) == CodeBit(data, k))
    && (forall p :: Inside(p, |g|) && p !in cells[..n] ==> At(g', p) == At(g, p))
  }

  lemma DrawOne(g: Grid, g': Grid, cells: seq<Pos>, p: Pos, data: seq<Byte>)
    requires Drawn(g, g', cells, data, |cells|) && |cells| < 8 * |data|
    requires Inside(p, |g|) && p !in cells
    ensures Drawn(g, Put(g', p, CodeBit(data, |cells|)), cells + [p], data, |cells| + 1)
  {
    hide CodeBit;
    var n := |cells|;
    var r := Put(g', p, CodeBit(data, n));
    assert (cells + [p])[..n + 1] == cells + [p];
    assert cells[..n] == cells;
    forall k | 0 <= k < n + 1
      ensures At(r, (cells + [p])[k]) == CodeBit(data, k)
    {
      if k < n { assert cells[k] in cells; }
    }
  }

  lemma DrawMore(g: Grid, g': Grid, cells: seq<Pos>, p: Pos, data: seq<Byte>, n: nat)
    requires Drawn(g, g', cells, data, n) && Inside(p, |g|)
    ensures Drawn(g, g', cells + [p], data, n)
  {
    assert (cells + [p])[..n] == cells[..n];
  }

  /** The state of drawCodewords after it has visited the modules of done. */
  ghost predicate Progress(start: Grid, g: Grid, f: Grid, done: seq<Pos>, data: seq<Byte>, i: nat) {
    && Square(start, |start|) && Square(f, |start|) && AllInside(done, |start|)
    && i == (if |Free(done, f)| < 8 * |data| then |Free(done, f)| else 8 * |data|)
    && Drawn(start, g, Free(done, f), data, i)
  }

  lemma Visit(start: Grid, g: Grid, f: Grid, done: seq<Pos>, data: seq<Byte>, i: nat, p: Pos)
    requires Progress(start, g, f, done, data, i) && Inside(p, |start|) && p !in done
    ensures if !At(f, p) && i < 8 * |data|
            then Progress(start, Put(g, p, CodeBit(data, i)), f, done + [p], data, i + 1)
            else Progress(start, g, f, done + [p], data, i)
  {
    hide Drawn, CodeBit;
    assert AllInside(done + [p], |start|);
    FreeAppend(done, p, f);
    var cells := Free(done, f);
    if At(f, p) {
      assert cells + [] == cells;
    } else if i < 8 * |data| {
      DrawOne(start, g, cells, p, data);
    } else {
      DrawMore(start, g, cells, p, data, i);
    }
  }

  // ---- The symbol ----

  class QrCode {
    const size: nat
    const level: nat
    var modules: Grid
    var isFunction: Grid

    ghost predicate Valid()
      reads this
    {
      && 21 <= size <= MAX_SIZE && size % 2 == 1 && level < 4
      && Square(modules, size) && Square(isFunction, size)
    }

    /** The two grids as the function patterns leave them; level is the source's two format bits. */
    constructor (size: nat, level: nat, patterns: Grid, functionModules: Grid)
      requires 21 <= size <= MAX_SIZE && size % 2 == 1 && level < 4
      requires Square(patterns, size) && Square(functionModules, size)
      ensures Valid() && this.size == size && this.level == level
      ensures modules == patterns && isFunction == functionModules
    {
      this.size, this.level := size, level;
      modules, isFunction := patterns, functionModules;
    }

    method DrawCodewords(data: seq<Byte>) returns (ok: bool)
      requires Valid()
      modifies this`modules
      ensures Valid()
      ensures var cells := FreeCells(size, isFunction);
        && (ok <==> |cells| >= 8 * |data|)
        && Drawn(old(modules), modules, cells, data, if ok then 8 * |data| else |cells|)
    {
      hide Drawn, Free, Distinct, Progress, ColumnPair, FreeCells, ScanFrom;
      var i := 0;
      var right := size - 1;
      ScanVisits(size);
      ghost var done: seq<Pos> := [];
      NothingDrawn(modules, isFunction, data);
      while right >= 1
        invariant Valid() && -1 <= right < size
        invariant Scan(size) == done + ScanFrom(right, size)
        invariant Progress(old(modules), modules, isFunction, done, data, i)
      {
        ScanStep(right, size);
        if right == 6 {
          right := 5;
        }
        ghost var all := done + ColumnPair(right, size);
        assert Scan(size) == all + ScanFrom(right - 2, size);
        DistinctPrefix(all, ScanFrom(right - 2, size));
        i := DrawColumnPair(data, i, right, done, old(modules));
        done := all;
        right := right - 2;
      }
      ScanEnd(right, size);
      assert done == Scan(size);
      DrawingDone(old(modules), modules, isFunction, data, i);
      ok := i == 8 * |data|;
    }

    /** The two inner loops of drawCodewords. */
    method DrawColumnPair(data: seq<Byte>, i0: nat, right: nat, ghost done: seq<Pos>, ghost start: Grid)
      returns (i: nat)
      requires Valid() && 1 <= right < size
      requires Distinct(done + ColumnPair(right, size))
      requires Progress(start, modules, isFunction, done, data, i0)
      modifies this`modules
      ensures Valid()
      ensures Progress(start, modules, isFunction, done + ColumnPair(right, size), data, i)
    {
      hide Drawn, Free, CodeBit;
      i := i0;
      ghost var pair := ColumnPair(right, size);
      assert done + pair[..0] == done;
      var vert := 0;
      while vert < size
        invariant 0 <= vert <= size && Valid()
        invariant Progress(start, modules, isFunction, done + pair[..2 * vert], data, i)
      {
        var j := 0;
        while j < 2
          invariant 0 <= j <= 2 && Valid()
          invariant Progress(start, modules, isFunction, done + pair[..2 * vert + j], data, i)
        {
          var x := right - j;
          var upward := (right + 1) / 2 % 2 == 0;
          var y := if upward then size - 1 - vert else vert;
          ghost var k, p := 2 * vert + j, Pos(x, y);
          assert k / 2 == vert && k % 2 == j;
          assert pair[k] == p && done + pair[..k + 1] == done + pair[..k] + [p];
          assert p !in done + pair[..k] by {
            ghost var all := done + pair;
            assert all[|done| + k] == p && all[..|done| + k] == done + pair[..k];
          }
          Visit(start, modules, isFunction, done + pair[..k], data, i, p);
          if !isFunction[y][x] && i < |data| * 8 {
            modules := Put(modules, Pos(x, y), CodeBit(data, i));
            i := i + 1;
          }
          j := j + 1;
        }
        vert := vert + 1;
      }
      assert pair[..2 * size] == pair;
    }

    method ApplyMask(m: int) returns (ok: bool)
      requires Valid()
      modifies this`modules
      ensures Valid()
      ensures ok <==> 0 <= m < 8
      ensures modules == if ok then Masked(old(modules), isFunction, m) else old(modules)
    {
      if m < 0 || m > 7 {
        return false;
      }
      hide Inverts;
      ghost var g, r := modules, Masked(modules, isFunction, m);
      var y := 0;
      while y < size
        invariant 0 <= y <= size && Valid()
        invariant forall p :: Inside(p, size) ==> At(modules, p) == At(if p.y < y then r else g, p)
      {
        var x := 0;
        while x < size
          invariant 0 <= x <= size && Valid()
          invariant forall p :: Inside(p, size) ==>
                      At(modules, p) == At(if p.y < y || (p.y == y && p.x < x) then r else g, p)
        {
          assert At(modules, Pos(x, y)) == At(g, Pos(x, y));
          var invert := Inverts(m, x, y);
          modules := Put(modules, Pos(x, y), modules[y][x] != (invert && !isFunction[y][x]));
          x := x + 1;
        }
        y := y + 1;
      }
      GridEqual(modules, r);
      ok := true;
    }

    method SetFunctionModule(x: nat, y: nat, isBlack: bool)
      requires Valid() && x < size && y < size
      modifies this
      ensures Valid()
      ensures modules == Put(old(modules), Pos(x, y), isBlack)
      ensures isFunction == Put(old(isFunction), Pos(x, y), true)
    {
      modules := Put(modules, Pos(x, y), isBlack);
      isFunction := Put(isFunction, Pos(x, y), true);
    }

    /** The first k writes of drawFormatBits have been made. */
    ghost predicate Writing(g: Grid, f: Grid, bits: nat, k: nat)
      reads this
    {
      && Valid() && Square(g, size) && Square(f, size) && k <= 31
      && modules == Formatted(g, bits, k) && isFunction == Marked(f, k)
    }

    method SetFormatModule(x: nat, y: nat, isBlack: bool, ghost g: Grid, ghost f: Grid, ghost bits: nat, ghost k: nat)
      requires k < 31 && Writing(g, f, bits, k)
      requires Pos(x, y) == FormatCell(size, k) && isBlack == FormatValue(bits, k)
      modifies this
      ensures Writing(g, f, bits, k + 1)
    {
      hide FormatCell, FormatValue;
      SetFunctionModule(x, y, isBlack);
    }

    method DrawFormatBits(m: nat)
      requires Valid() && m < 8
      modifies this
      ensures Valid()
      ensures modules == Formatted(old(modules), FormatBits(level, m), 31)
      ensures isFunction == Marked(old(isFunction), 31)
    {
      hide FormatBits, Bit;
      var bits := ComputeFormatBits(m);
      ghost var g, f := modules, isFunction;
      DrawFirstCopy(bits, g, f);
      DrawSecondCopy(bits, g, f);
      SetFormatModule(8, size - 8, true, g, f, bits, 30);
    }

    method DrawFirstCopy(bits: nat, ghost g: Grid, ghost f: Grid)
      requires Writing(g, f, bits, 0)
      modifies this
      ensures Writing(g, f, bits, 15)
    {
      hide Bit, Formatted, Marked;
      var i := 0;
      while i <= 5
        invariant 0 <= i <= 6 && Writing(g, f, bits, i)
      {
        SetFormatModule(8, i, Bit(bits, i), g, f, bits, i);
        i := i + 1;
      }
      SetFormatModule(8, 7, Bit(bits, 6), g, f, bits, 6);
      SetFormatModule(8, 8, Bit(bits, 7), g, f, bits, 7);
      SetFormatModule(7, 8, Bit(bits, 8), g, f, bits, 8);
      i := 9;
      while i < 15
        invariant 9 <= i <= 15 && Writing(g, f, bits, i)
      {
        SetFormatModule(14 - i, 8, Bit(bits, i), g, f, bits, i);
        i := i + 1;
      }
    }

    method DrawSecondCopy(bits: nat, ghost g: Grid, ghost f: Grid)
      requires Writing(g, f, bits, 15)
      modifies this
      ensures Writing(g, f, bits, 30)
    {
      hide Bit, Formatted, Marked;
      var i := 0;
      while i < 8
        invariant 0 <= i <= 8 && Writing(g, f, bits, 15 + i)
      {
        SetFormatModule(size - 1 - i, 8, Bit(bits, i), g, f, bits, 15 + i);
        i := i + 1;
      }
      while i < 15
        invariant 8 <= i <= 15 && Writing(g, f, bits, 15 + i)
      {
        SetFormatModule(8, size - 15 + i, Bit(bits, i), g, f, bits, 15 + i);
        i := i + 1;
      }
    }

    method ComputeFormatBits(m: nat) returns (bits: nat)
      requires level < 4 && m < 8
      ensures bits == FormatBits(level, m)
    {
      hide FormatStep, Xor;
      var data := level * 8 + m;
      var rem := data;
      var i := 0;
      while i < 10
        invariant 0 <= i <= 10 && rem == FormatRemainder(data, i)
      {
        rem := FormatStep(rem);
        i := i + 1;
      }
      bits := Xor(data * 1024 + rem, 0x5412);
    }

    /** The constructor's choice of mask: the least penalty, and of equal ones the first. */
    method ChooseMask(requested: int) returns (mask: nat)
      requires Valid() && -1 <= requested <= 7 && Reserved(isFunction)
      modifies this
      ensures Valid() && isFunction == old(isFunction)
      ensures mask < 8 && modules == Candidate(old(modules), isFunction, level, mask)
      ensures requested >= 0 ==> mask == requested
      ensures requested == -1 ==> LeastPenalty(old(modules), isFunction, level, mask)
    {
      hide Masked, Formatted, FormatBits, AgreeOutsideFormat, Reserved, Candidate, PenaltyScore;
      ghost var g, f := modules, isFunction;
      AgreeAtStart(g);
      var msk := requested;
      if msk == -1 {
        var minPenalty := LONG_MAX;
        var i := 0;
        while i < 8
          invariant 0 <= i <= 8 && Valid() && isFunction == f
          invariant AgreeOutsideFormat(modules, g)
          invariant i == 0 ==> minPenalty == LONG_MAX && msk == -1
          invariant i > 0 ==> 0 <= msk < i && minPenalty == Penalty(g, f, level, msk)
          invariant forall k :: 0 <= k < i ==> minPenalty <= Penalty(g, f, level, k)
          invariant forall k :: 0 <= k < i && k < msk ==> minPenalty < Penalty(g, f, level, k)
        {
          var p := TryMask(i, g);
          if p < minPenalty {
            msk := i;
            minPenalty := p;
          }
          i := i + 1;
        }
      }
      mask := msk;
      FinishMask(mask, g);
    }

    /** Masks the grid and writes the format bits for that mask. */
    method FinishMask(m: nat, ghost g: Grid)
      requires Valid() && m < 8 && Reserved(isFunction) && AgreeOutsideFormat(modules, g)
      modifies this
      ensures Valid() && isFunction == old(isFunction)
      ensures |g| == size && Square(g, size) && modules == Candidate(g, isFunction, level, m)
    {
      hide Masked, Formatted, FormatBits, IsFormatCell;
      TrialCandidate(g, modules, isFunction, level, m);
      MarkedReserved(isFunction, 31);
      var _ := ApplyMask(m);
      DrawFormatBits(m);
    }

    /** One trial: mask, measure, and mask again. */
    method TryMask(m: nat, ghost g: Grid) returns (p: int)
      requires Valid() && m < 8 && Reserved(isFunction) && AgreeOutsideFormat(modules, g)
      modifies this
      ensures Valid() && isFunction == old(isFunction) && AgreeOutsideFormat(modules, g)
      ensures |g| == size && Square(g, size) && p == Penalty(g, isFunction, level, m) && p < LONG_MAX
    {
      hide Masked, Formatted, FormatBits, IsFormatCell, Candidate, PenaltyScore;
      ghost var before, f := modules, isFunction;
      CandidateIs(before, f, level, m);
      FinishMask(m, g);
      PenaltyBound(modules);
      p := GetPenaltyScore(modules);
      TrialCandidate(g, before, f, level, m);
      TrialUndone(before, f, level, m);
      var _ := ApplyMask(m);
      AgreeChain(modules, before, g);
    }
  }

  /** The least value that C++ allows for it. */
  const LONG_MAX: int := 0x7fff_ffff

  /** Every module that drawFormatBits writes is a function module. */
  ghost predicate Reserved(f: Grid) {
    |f| >= 21 && Square(f, |f|) && forall k :: 0 <= k < 31 ==> At(f, FormatCell(|f|, k))
  }

  /** The finished symbol for mask m: mask the drawn grid, then write that mask's format bits. */
  function Candidate(g: Grid, f: Grid, level: nat, m: nat): (r: Grid)
    requires |g| >= 21 && Square(g, |g|) && Square(f, |g|) && level < 4 && m < 8
    ensures |r| == |g| && Square(r, |r|)
  {
    Formatted(Masked(g, f, m), FormatBits(level, m), 31)
  }

  function Penalty(g: Grid, f: Grid, level: nat, m: nat): int
    requires |g| >= 21 && Square(g, |g|) && Square(f, |g|) && level < 4 && m < 8
  {
    PenaltyScore(Candidate(g, f, level, m))
  }

  /** No mask gives a smaller penalty, and none before it an equal one. */
  ghost predicate LeastPenalty(g: Grid, f: Grid, level: nat, m: nat)
    requires |g| >= 21 && Square(g, |g|) && Square(f, |g|) && level < 4 && m < 8
  {
    && (forall i :: 0 <= i < 8 ==> Penalty(g, f, level, m) <= Penalty(g, f, level, i))
    && (forall i :: 0 <= i < m ==> Penalty(g, f, level, m) < Penalty(g, f, level, i))
  }

  ghost predicate AgreeOutsideFormat(g: Grid, h: Grid) {
    && |g| == |h| >= 21 && Square(g, |g|) && Square(h, |g|)
    && forall p :: Inside(p, |g|) && !IsFormatCell(|g|, p) ==> At(g, p) == At(h, p)
  }

  lemma AgreeAtStart(g: Grid)
    requires |g| >= 21 && Square(g, |g|)
    ensures AgreeOutsideFormat(g, g)
  {
  }

  lemma AgreeChain(g: Grid, h: Grid, k: Grid)
    requires AgreeOutsideFormat(g, h) && AgreeOutsideFormat(h, k)
    ensures AgreeOutsideFormat(g, k)
  {
  }

  lemma CandidateIs(g: Grid, f: Grid, level: nat, m: nat)
    requires |g| >= 21 && Square(g, |g|) && Square(f, |g|) && level < 4 && m < 8
    ensures Candidate(g, f, level, m) == Formatted(Masked(g, f, m), FormatBits(level, m), 31)
  {
    hide Formatted, Masked, FormatBits;
  }

  lemma {:induction false} MarkedReserved(f: Grid, k: nat)
    requires Reserved(f) && k <= 31
    ensures Marked(f, k) == f
  {
    if k > 0 {
      MarkedReserved(f, k - 1);
      hide FormatCell;
      GridEqual(Marked(f, k), f);
    }
  }

  lemma TrialCandidate(g: Grid, h: Grid, f: Grid, level: nat, m: nat)
    requires AgreeOutsideFormat(h, g) && Square(f, |g|) && level < 4 && m < 8
    ensures Formatted(Masked(h, f, m), FormatBits(level, m), 31) == Candidate(g, f, level, m)
  {
    hide Masked, Formatted, FormatBits, Inverts, IsFormatCell;
    FormattedEqual(Masked(h, f, m), Masked(g, f, m), FormatBits(level, m));
  }

  /** Applying the mask again undoes a trial, up to the format bits it left behind. */
  lemma TrialUndone(g: Grid, f: Grid, level: nat, m: nat)
    requires |g| >= 21 && Square(g, |g|) && Square(f, |g|) && level < 4 && m < 8
    ensures AgreeOutsideFormat(Masked(Formatted(Masked(g, f, m), FormatBits(level, m), 31), f, m), g)
  {
    hide Masked, Formatted, FormatBits, Inverts;
    var bits, h := FormatBits(level, m), Masked(g, f, m);
    forall p | Inside(p, |g|) && !IsFormatCell(|g|, p)
      ensures At(Formatted(h, bits, 31), p) == At(h, p)
    {
      FormattedAt(h, bits, 31, p);
    }
  }

  // ---- Reading a finished symbol ----

  /** The n lowest bits of codeword j, read from the data modules. */
  function ReadByte(g: Grid, cells: seq<Pos>, j: nat, n: nat): (r: nat)
    requires Square(g, |g|) && AllInside(cells, |g|) && 8 * j + 8 <= |cells| && n <= 8
    ensures r < Pow2(n)
  {
    if n == 0 then 0
    else ReadByte(g, cells, j, n - 1) + if At(g, cells[8 * j + 8 - n]) then Pow2(n - 1) else 0
  }

  /** A reader: the first copy of the format bits names the mask, which is removed. */
  function ReadSymbol(g: Grid, f: Grid, n: nat): (r: seq<Byte>)
    requires |g| >= 21 && |g| % 2 == 1 && Square(g, |g|) && Square(f, |g|)
    requires 8 * n <= |FreeCells(|g|, f)|
    ensures |r| == n
  {
    var m := FormatData(ReadFormat(g, 0, 15)) % 8;
    assert Pow2(8) == 256;
    seq<Byte>(n, j requires 0 <= j < n => ReadByte(Masked(g, f, m), FreeCells(|g|, f), j, 8))
  }

  lemma {:induction false} ReadDrawnByte(u: Grid, cells: seq<Pos>, data: seq<Byte>, j: nat, n: nat)
    requires Square(u, |u|) && AllInside(cells, |u|) && j < |data| && 8 * |data| <= |cells| && n <= 8
    requires forall k :: 0 <= k < 8 * |data| ==> At(u, cells[k]) == CodeBit(data, k)
    ensures ReadByte(u, cells, j, n) == BitsBelow(data[j], n)
  {
    hide Bit, Pow2;
    if n > 0 {
      ReadDrawnByte(u, cells, data, j, n - 1);
      var k := 8 * j + 8 - n;
      assert k / 8 == j && 7 - k % 8 == n - 1;
      assert At(u, cells[k]) == CodeBit(data, k);
    }
  }

  lemma ByteFromBits(b: Byte)
    ensures BitsBelow(b, 8) == b
  {
    BitsBelowValue(b, 8);
    Shr8(b);
    hide Shr;
  }

  /** Whatever the mask, a reader gets back the codewords that were drawn. */
  lemma SymbolRoundTrip(g: Grid, g': Grid, f: Grid, level: nat, m: nat, data: seq<Byte>)
    requires |g| >= 21 && |g| % 2 == 1 && |f| == |g| && Reserved(f) && level < 4 && m < 8
    requires 8 * |data| <= |FreeCells(|g|, f)|
    requires Drawn(g, g', FreeCells(|g|, f), data, 8 * |data|)
    ensures ReadSymbol(Candidate(g', f, level, m), f, |data|) == data
  {
    hide Masked, Formatted, FormatBits, Inverts, ReadFormat, FormatData, FreeCells, CodeBit;
    var h, bits, s, cells := Masked(g', f, m), FormatBits(level, m), Candidate(g', f, level, m), FreeCells(|g|, f);
    FormatNamesMask(h, level, m, 0);
    var u := Masked(s, f, m);
    forall k | 0 <= k < 8 * |data|
      ensures At(u, cells[k]) == CodeBit(data, k)
    {
      assert cells[k] in cells;
      FormattedAt(h, bits, 31, cells[k]);
    }
    forall j | 0 <= j < |data|
      ensures ReadByte(u, cells, j, 8) == data[j]
    {
      ReadDrawnByte(u, cells, data, j, 8);
      ByteFromBits(data[j]);
    }
  }

  /** The data modules of the symbol in scan order. */
  function FreeCells(size: nat, f: Grid): (r: seq<Pos>)
    requires size % 2 == 1 && Square(f, size)
    ensures AllInside(r, size) && Distinct(r)
    ensures forall p :: p in r <==> p in Scan(size) && Inside(p, size) && !At(f, p)
  {
    ScanVisits(size);
    FreeDistinct(Scan(size), f);
    Free(Scan(size), f)
  }

  lemma DistinctPrefix(a: seq<Pos>, b: seq<Pos>)
    requires Distinct(a + b)
    ensures Distinct(a)
  {
    forall i, j | 0 <= i < j < |a|
      ensures a[i] != a[j]
    {
      assert (a + b)[i] == a[i] && (a + b)[j] == a[j];
    }
  }

  lemma DrawingDone(start: Grid, g: Grid, f: Grid, data: seq<Byte>, i: nat)
    requires |start| % 2 == 1 && Progress(start, g, f, Scan(|start|), data, i)
    ensures var cells := FreeCells(|start|, f);
      && (i == 8 * |data| <==> |cells| >= 8 * |data|)
      && Drawn(start, g, cells, data, if i == 8 * |data| then 8 * |data| else |cells|)
  {
    hide Drawn, Free, Distinct;
  }

  lemma NothingDrawn(g: Grid, f: Grid, data: seq<Byte>)
    requires Square(g, |g|) && Square(f, |g|)
    ensures Progress(g, g, f, [], data, 0)
  {
  }
}
