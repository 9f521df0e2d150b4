/**
 * What the words, masks and places of a QR symbol are, said without the definitions that draw them
 * (external/qrcodegen/QrCode.cpp, after ISO/IEC 18004).
 */
module SymbolLaws {
  import opened Arith
  import opened Basics
  import opened Bitwise
  import opened GF256
  import opened Zigzag
  import opened ScanOrder
  import opened Grids
  import opened Symbol

  // ---- Codewords ----

  function Weight(b: bool, w: nat): nat {
    if b then w else 0
  }

  lemma BitsStep(b: nat, n: nat)
    ensures BitsBelow(b, 0) == 0 && BitsBelow(b, n + 1) == BitsBelow(b, n) + Weight(Bit(b, n), Pow2(n))
  {
    hide Bit;
  }

  lemma Powers()
    ensures Pow2(0) == 1 && Pow2(1) == 2 && Pow2(2) == 4 && Pow2(3) == 8
    ensures Pow2(4) == 16 && Pow2(5) == 32 && Pow2(6) == 64 && Pow2(7) == 128
  {
  }

  lemma BitsSum(b: nat)
    ensures BitsBelow(b, 8) ==
      Weight(Bit(b, 7), 128) + Weight(Bit(b, 6), 64) + Weight(Bit(b, 5), 32) + Weight(Bit(b, 4), 16)
      + Weight(Bit(b, 3), 8) + Weight(Bit(b, 2), 4) + Weight(Bit(b, 1), 2) + Weight(Bit(b, 0), 1)
  {
    hide Bit, BitsBelow, Pow2;
    Powers();
    BitsStep(b, 0);
    BitsStep(b, 1);
    BitsStep(b, 2);
    BitsStep(b, 3);
    BitsStep(b, 4);
    BitsStep(b, 5);
    BitsStep(b, 6);
    BitsStep(b, 7);
  }

  lemma CodeBitAt(data: seq<Byte>, j: nat, k: nat)
    requires j < |data| && k < 8
    ensures CodeBit(data, 8 * j + k) == Bit(data[j], 7 - k)
  {
    hide Bit;
    DivModUnique(8, j, k);
  }

  /** The bits of a codeword are drawn from the highest to the lowest. */
  lemma CodeBitsValue(data: seq<Byte>, j: nat)
    requires j < |data|
    ensures data[j] ==
      Weight(CodeBit(data, 8 * j), 128) + Weight(CodeBit(data, 8 * j + 1), 64)
      + Weight(CodeBit(data, 8 * j + 2), 32) + Weight(CodeBit(data, 8 * j + 3), 16)
      + Weight(CodeBit(data, 8 * j + 4), 8) + Weight(CodeBit(data, 8 * j + 5), 4)
      + Weight(CodeBit(data, 8 * j + 6), 2) + Weight(CodeBit(data, 8 * j + 7), 1)
  {
    hide Bit, BitsBelow, CodeBit;
    BitsSum(data[j]);
    ByteFromBits(data[j]);
    CodeBitAt(data, j, 0);
    CodeBitAt(data, j, 1);
    CodeBitAt(data, j, 2);
    CodeBitAt(data, j, 3);
    CodeBitAt(data, j, 4);
    CodeBitAt(data, j, 5);
    CodeBitAt(data, j, 6);
    CodeBitAt(data, j, 7);
  }

  lemma {:induction false} FreeFirst(s: seq<Pos>, f: Grid)
    requires Square(f, |f|) && AllInside(s, |f|) && s != [] && !At(f, s[0])
    ensures Free(s, f) != [] && Free(s, f)[0] == s[0]
  {
    if |s| > 1 {
      FreeFirst(s[..|s| - 1], f);
    }
  }

  lemma CornerFirst(size: nat, f: Grid)
    requires size % 2 == 1 && size % 4 == 1 && size >= 9 && Square(f, size) && !At(f, Pos(size - 1, size - 1))
    ensures FreeCells(size, f) != [] && FreeCells(size, f)[0] == Pos(size - 1, size - 1)
  {
    hide Scan, At, Distinct, Free;
    ScanBegins(size);
    ScanVisits(size);
    FreeFirst(Scan(size), f);
  }

  /** The highest bit of the first codeword goes to the bottom right corner, if that is no function module. */
  lemma CornerModule(g: Grid, g': Grid, size: nat, f: Grid, data: seq<Byte>)
    requires size % 2 == 1 && size % 4 == 1 && size >= 9 && Square(f, size) && !At(f, Pos(size - 1, size - 1))
    requires |g| == |g'| == size && Square(g', size) && data != []
    requires Drawn(g, g', FreeCells(size, f), data, 8 * |data|)
    ensures At(g', Pos(size - 1, size - 1)) <==> data[0] >= 128
  {
    hide FreeCells, At, CodeBit, Square;
    CornerFirst(size, f);
    assert At(g', FreeCells(size, f)[0]) == CodeBit(data, 0);
    CodeBitsValue(data, 0);
  }

  // ---- Masks ----

  /** The mask patterns as pictures, one tile each; X marks a module that is inverted. */
  const PICTURES: seq<seq<string>> := [
    ["X.", ".X"],
    ["X", "."],
    ["X.."],
    ["X..", "..X", ".X."],
    ["XXX...", "XXX...", "...XXX", "...XXX"],
    ["XXXXXX", "X.....", "X..X..", "X.X.X.", "X..X..", "X....."],
    ["XXXXXX", "XXX...", "XX.XX.", "X.X.X.", "X.XX.X", "X...XX"],
    ["X.X.X.", "...XXX", "X...XX", ".X.X.X", "XXX...", ".XXX.."]
  ]

  predicate Pictured(tile: seq<string>, x: nat, y: nat)
    requires tile != [] && tile[0] != "" && forall r :: 0 <= r < |tile| ==> |tile[r]| == |tile[0]|
  {
    tile[y % |tile|][x % |tile[0]|] == 'X'
  }

  lemma ProductMod(x: nat, y: nat)
    ensures x * y % 2 == (x % 6) * (y % 6) % 2 && x * y % 3 == (x % 6) * (y % 6) % 3
  {
    var a, b, c, d := x / 6, x % 6, y / 6, y % 6;
    var m := 6 * (a * c) + a * d + b * c;
    assert x == 6 * a + b && y == 6 * c + d;
    assert x * y == 6 * m + b * d by { Expanded(a, b, c, d); }
    SixTimes(m, b * d);
  }

  lemma Expanded(a: nat, b: nat, c: nat, d: nat)
    ensures (6 * a + b) * (6 * c + d) == 6 * (6 * (a * c) + a * d + b * c) + b * d
  {
  }

  lemma ModTimes(b: nat, m: nat, r: nat)
    requires b > 0
    ensures (b * m + r) % b == r % b
  {
    var q, s := r / b, r % b;
    assert r == b * q + s;
    assert b * m + r == b * (m + q) + s;
    DivModUnique(b, m + q, s);
  }

  lemma SixTimes(m: nat, r: nat)
    ensures (6 * m + r) % 2 == r % 2 && (6 * m + r) % 3 == r % 3
  {
    ModTimes(2, 3 * m, r);
    ModTimes(3, 2 * m, r);
    assert 2 * (3 * m) == 6 * m && 3 * (2 * m) == 6 * m;
  }

  lemma SumMod(b: nat, x: nat, y: nat)
    requires b > 0
    ensures (x + y) % b == (x % b + y % b) % b
  {
    assert x == b * (x / b) + x % b && y == b * (y / b) + y % b;
    assert b * (x / b + y / b) == b * (x / b) + b * (y / b);
    ModTimes(b, x / b + y / b, x % b + y % b);
  }

  lemma Tile0(x: nat, y: nat)
    ensures Inverts(0, x, y) <==> Pictured(PICTURES[0], x, y)
  {
    SumMod(2, x, y);
    var tile := PICTURES[0];
    assert tile[0] == "X." && tile[1] == ".X";
  }

  lemma Tile1(x: nat, y: nat)
    ensures Inverts(1, x, y) <==> Pictured(PICTURES[1], x, y)
  {
    var tile := PICTURES[1];
    assert tile[0] == "X" && tile[1] == ".";
  }

  lemma Tile2(x: nat, y: nat)
    ensures Inverts(2, x, y) <==> Pictured(PICTURES[2], x, y)
  {
    var tile := PICTURES[2];
    assert tile[0] == "X..";
  }

  lemma Tile3(x: nat, y: nat)
    ensures Inverts(3, x, y) <==> Pictured(PICTURES[3], x, y)
  {
    SumMod(3, x, y);
    var tile := PICTURES[3];
    assert tile[0] == "X.." && tile[1] == "..X" && tile[2] == ".X.";
  }

  lemma Thirds(x: nat)
    ensures x / 3 % 2 == x % 6 / 3
  {
  }

  lemma Halves4(y: nat)
    ensures y / 2 % 2 == y % 4 / 2
  {
  }

  lemma Inverts4(x: nat, y: nat)
    ensures Inverts(4, x, y) <==> (x / 3 + y / 2) % 2 == 0
  {
  }

  lemma Tile4(x: nat, y: nat)
    ensures Inverts(4, x, y) <==> Pictured(PICTURES[4], x, y)
  {
    hide PICTURES, Inverts;
    Inverts4(x, y);
    Thirds(x);
    Halves4(y);
    SumMod(2, x / 3, y / 2);
    Tile4Sizes();
    Tile4Small(x % 6, y % 4);
  }

  lemma Tile4Sizes()
    ensures |PICTURES[4]| == 4 && forall r :: 0 <= r < 4 ==> |PICTURES[4][r]| == 6
  {
  }

  lemma Tile4Small(b: nat, d: nat)
    requires b < 6 && d < 4
    ensures (b / 3 + d / 2) % 2 == 0 <==> PICTURES[4][d][b] == 'X'
  {
    var row := PICTURES[4][d];
    if d < 2 {
      assert row == "XXX...";
    } else {
      assert row == "...XXX";
    }
  }

  lemma Tile5(x: nat, y: nat)
    ensures Inverts(5, x, y) <==> Pictured(PICTURES[5], x, y)
  {
    ProductMod(x, y);
    Tile5Small(x % 6, y % 6);
    hide PICTURES;
    Tile5Sizes();
  }

  lemma Tile5Sizes()
    ensures |PICTURES[5]| == 6 && forall r :: 0 <= r < 6 ==> |PICTURES[5][r]| == 6
  {
  }

  lemma Tile5Small(b: nat, d: nat)
    requires b < 6 && d < 6
    ensures b * d % 2 + b * d % 3 == 0 <==> PICTURES[5][d][b] == 'X'
  {
    var row := PICTURES[5][d];
    if d == 0 {
    } else if d == 1 || d == 5 {
      assert row == "X.....";
    } else if d == 2 || d == 4 {
      assert row == "X..X..";
    } else {
      assert row == "X.X.X.";
    }
  }

  lemma Tile6(x: nat, y: nat)
    ensures Inverts(6, x, y) <==> Pictured(PICTURES[6], x, y)
  {
    ProductMod(x, y);
    Tile6Small(x % 6, y % 6);
    hide PICTURES;
    Tile6Sizes();
  }

  lemma Tile6Sizes()
    ensures |PICTURES[6]| == 6 && forall r :: 0 <= r < 6 ==> |PICTURES[6][r]| == 6
  {
  }

  lemma Tile6Small(b: nat, d: nat)
    requires b < 6 && d < 6
    ensures (b * d % 2 + b * d % 3) % 2 == 0 <==> PICTURES[6][d][b] == 'X'
  {
    var row := PICTURES[6][d];
    if d == 0 {
    } else if d == 1 {
      assert row == "XXX...";
    } else if d == 2 {
      assert row == "XX.XX.";
    } else if d == 3 {
      assert row == "X.X.X.";
    } else if d == 4 {
      assert row == "X.XX.X";
    } else {
      assert row == "X...XX";
    }
  }

  lemma Inverts7(x: nat, y: nat)
    ensures Inverts(7, x, y) <==> ((x + y) % 2 + x * y % 3) % 2 == 0
  {
  }

  lemma ParitySum(x: nat, y: nat)
    ensures (x + y) % 2 == (x % 6 + y % 6) % 2
  {
    SumMod(2, x, y);
    SumMod(2, x % 6, y % 6);
    SixTimes(x / 6, x % 6);
    SixTimes(y / 6, y % 6);
  }

  lemma Tile7(x: nat, y: nat)
    ensures Inverts(7, x, y) <==> Pictured(PICTURES[7], x, y)
  {
    hide PICTURES, Inverts;
    Inverts7(x, y);
    ProductMod(x, y);
    ParitySum(x, y);
    Tile7Small(x % 6, y % 6);
    Tile7Sizes();
  }

  lemma Tile7Sizes()
    ensures |PICTURES[7]| == 6 && forall r :: 0 <= r < 6 ==> |PICTURES[7][r]| == 6
  {
  }

  lemma Tile7Small(b: nat, d: nat)
    requires b < 6 && d < 6
    ensures ((b + d) % 2 + b * d % 3) % 2 == 0 <==> PICTURES[7][d][b] == 'X'
  {
    var row := PICTURES[7][d];
    if d == 0 {
      assert row == "X.X.X.";
    } else if d == 1 {
      assert row == "...XXX";
    } else if d == 2 {
      assert row == "X...XX";
    } else if d == 3 {
      assert row == ".X.X.X";
    } else if d == 4 {
      assert row == "XXX...";
    } else {
      assert row == ".XXX..";
    }
  }

  lemma PicturesWhole(m: nat)
    requires m < 8
    ensures |PICTURES| == 8 && PICTURES[m] != [] && PICTURES[m][0] != ""
    ensures forall r :: 0 <= r < |PICTURES[m]| ==> |PICTURES[m][r]| == |PICTURES[m][0]|
  {
  }

  /** Every mask inverts what its picture says, tile by tile. */
  lemma MaskPictures(m: nat, x: nat, y: nat)
    requires m < 8
    ensures |PICTURES| == 8 && PICTURES[m] != [] && PICTURES[m][0] != ""
    ensures forall r :: 0 <= r < |PICTURES[m]| ==> |PICTURES[m][r]| == |PICTURES[m][0]|
    ensures Inverts(m, x, y) <==> Pictured(PICTURES[m], x, y)
  {
    hide PICTURES, Inverts, Pictured;
    PicturesWhole(m);
    if m == 0 {
      Tile0(x, y);
    } else if m == 1 {
      Tile1(x, y);
    } else if m == 2 {
      Tile2(x, y);
    } else if m == 3 {
      Tile3(x, y);
    } else if m == 4 {
      Tile4(x, y);
    } else if m == 5 {
      Tile5(x, y);
    } else if m == 6 {
      Tile6(x, y);
    } else {
      Tile7(x, y);
    }
  }

  // ---- Check words ----

  /** The product of two polynomials over the integers modulo 2, bits as coefficients. */
  function PolyMul(a: nat, b: nat): nat {
    if a == 0 then 0 else Xor(2 * PolyMul(a / 2, b), if a % 2 == 1 then b else 0)
  }

  lemma PolyMulStep(q: nat, t: nat, g: nat)
    requires t < 2
    ensures PolyMul(2 * q + t, g) == Xor(2 * PolyMul(q, g), t * g)
  {
    hide Xor;
    Halves(q, t);
    if 2 * q + t == 0 {
      XorZero(0);
    }
  }

  /** One division step keeps a value congruent modulo the generator. */
  lemma DivisionStep(v: nat, rem: nat, q: nat, t: nat, g: nat)
    requires t < 2 && Xor(v, rem) == PolyMul(q, g)
    ensures Xor(2 * v, Xor(2 * rem, t * g)) == PolyMul(2 * q + t, g)
  {
    hide Xor, PolyMul;
    XorDouble(v, rem);
    XorAssociative(2 * v, 2 * rem, t * g);
    PolyMulStep(q, t, g);
  }

  lemma {:induction false} FormatDivision(data: nat, n: nat) returns (q: nat)
    requires data < 1024
    ensures Xor(data * Pow2(n), FormatRemainder(data, n)) == PolyMul(q, 0x537)
  {
    hide Xor, PolyMul;
    if n == 0 {
      XorSelf(data);
      PolyMulNothing();
      q := 0;
    } else {
      var r := FormatDivision(data, n - 1);
      var rem := FormatRemainder(data, n - 1);
      FormatRemainderBound(data, n - 1);
      var t := rem / 512;
      DivisionStep(data * Pow2(n - 1), rem, r, t, 0x537);
      q := 2 * r + t;
      PowerStep(data, n);
    }
  }

  lemma PowerStep(data: nat, n: nat)
    requires n > 0
    ensures data * Pow2(n) == 2 * (data * Pow2(n - 1))
  {
  }

  lemma PolyMulNothing()
    ensures forall g :: PolyMul(0, g) == 0
  {
  }

  lemma XorSelf(a: nat)
    ensures Xor(a, a) == 0
  {
    XorCancel(a, a);
  }

  /** Numbers without common bits are added. */
  lemma {:induction false} XorBelow(a: nat, n: nat, b: nat)
    requires b < Pow2(n)
    ensures Xor(a * Pow2(n), b) == a * Pow2(n) + b
  {
    hide Xor;
    if n == 0 {
      XorZero(a);
    } else {
      XorBelow(a, n - 1, b / 2);
      XorAppend(a * Pow2(n - 1), b / 2, 0, b % 2);
      PowerStep(a, n);
    }
  }

  /**
   * The format word of a level and mask: five data bits followed by ten check bits that make the word a multiple of
   * the generator x^10 + x^8 + x^5 + x^4 + x^2 + x + 1, exclusive or 101010000010010.
   */
  lemma FormatWord(level: nat, m: nat) returns (word: nat, q: nat)
    requires level < 4 && m < 8
    ensures FormatBits(level, m) == Xor(word, 0x5412)
    ensures word / 1024 == 8 * level + m && word == PolyMul(q, 0x537)
  {
    hide Xor, PolyMul, FormatRemainder;
    var data := level * 8 + m;
    q := FormatDivision(data, 10);
    FormatRemainderBound(data, 10);
    assert Pow2(10) == 1024;
    XorBelow(data, 10, FormatRemainder(data, 10));
    word := data * 1024 + FormatRemainder(data, 10);
  }

  lemma FormatStepSmall(rem: nat)
    requires rem < 512
    ensures FormatStep(rem) == 2 * rem
  {
    hide Xor;
    XorZero(2 * rem);
  }

  /** For mask 0 and the level bits 00 it is 101010000010010 itself. */
  lemma FormatExample()
    ensures FormatBits(0, 0) == 0x5412
  {
    hide FormatStep, Xor;
    ZeroRemainder(10);
    XorCommutative(0, 0x5412);
    XorZero(0x5412);
  }

  lemma {:induction false} ZeroRemainder(n: nat)
    ensures FormatRemainder(0, n) == 0
  {
    hide FormatStep;
    if n > 0 {
      ZeroRemainder(n - 1);
      FormatStepSmall(0);
    }
  }

  // ---- Where the format bits go ----

  /**
   * The first copy runs down column 8 from the top to row 8 and on to the left along row 8, past the timing
   * patterns; the second runs left along row 8 from the right edge and then down column 8 to the bottom. The module
   * above that is always dark.
   */
  lemma FormatPlaces(g: Grid, bits: nat)
    requires |g| >= 21 && Square(g, |g|)
    requires forall k :: 0 <= k < 31 ==> At(g, FormatCell(|g|, k)) == FormatValue(bits, k)
    ensures forall i :: 0 <= i <= 5 ==> At(g, Pos(8, i)) == Bit(bits, i)
    ensures At(g, Pos(8, 7)) == Bit(bits, 6) && At(g, Pos(8, 8)) == Bit(bits, 7) && At(g, Pos(7, 8)) == Bit(bits, 8)
    ensures forall i :: 9 <= i < 15 ==> At(g, Pos(14 - i, 8)) == Bit(bits, i)
    ensures forall i :: 0 <= i < 8 ==> At(g, Pos(|g| - 1 - i, 8)) == Bit(bits, i)
    ensures forall i :: 8 <= i < 15 ==> At(g, Pos(8, |g| - 15 + i)) == Bit(bits, i)
    ensures At(g, Pos(8, |g| - 8))
  {
    hide Bit, Square, At;
    forall i | 0 <= i <= 5
      ensures At(g, Pos(8, i)) == Bit(bits, i)
    {
      assert FormatCell(|g|, i) == Pos(8, i);
    }
    assert FormatCell(|g|, 6) == Pos(8, 7) && FormatCell(|g|, 7) == Pos(8, 8) && FormatCell(|g|, 8) == Pos(7, 8);
    forall i | 9 <= i < 15
      ensures At(g, Pos(14 - i, 8)) == Bit(bits, i)
    {
      assert FormatCell(|g|, i) == Pos(14 - i, 8);
    }
    forall i | 0 <= i < 8
      ensures At(g, Pos(|g| - 1 - i, 8)) == Bit(bits, i)
    {
      assert FormatCell(|g|, 15 + i) == Pos(|g| - 1 - i, 8);
    }
    forall i | 8 <= i < 15
      ensures At(g, Pos(8, |g| - 15 + i)) == Bit(bits, i)
    {
      assert FormatCell(|g|, 15 + i) == Pos(8, |g| - 15 + i);
    }
    assert FormatCell(|g|, 30) == Pos(8, |g| - 8);
  }
}
