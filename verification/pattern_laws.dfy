/**
 * What the tables and patterns of a QR symbol amount to, said without the definitions that draw them
 * (external/qrcodegen/QrCode.cpp, after ISO/IEC 18004).
 */
module PatternLaws {
  import opened Arith
  import opened Bitwise
  import opened GF256
  import opened Zigzag
  import opened Grids
  import opened SymbolLaws
  import opened FunctionModules
  import opened PatternDrawing
  import opened QrPipeline
  import opened Interleave

  // ---- Version information ----

  lemma {:induction false} VersionDivision(version: nat, n: nat) returns (q: nat)
    requires version <= 40
    ensures Xor(version * Pow2(n), VersionRemainder(version, n)) == PolyMul(q, 0x1F25)
  {
    hide Xor, PolyMul;
    if n == 0 {
      SymbolLaws.XorSelf(version);
      PolyMulNothing();
      q := 0;
    } else {
      var r := VersionDivision(version, n - 1);
      var rem := VersionRemainder(version, n - 1);
      VersionRemainderBound(version, n - 1);
      var t := rem / 2048;
      DivisionStep(version * Pow2(n - 1), rem, r, t, 0x1F25);
      q := 2 * r + t;
      PowerStep(version, n);
    }
  }

  /**
   * The version word: six bits of the version followed by twelve check bits that make the word a multiple of the
   * generator x^12 + x^11 + x^10 + x^9 + x^8 + x^5 + x^2 + 1.
   */
  lemma VersionWord(version: nat) returns (q: nat)
    requires 7 <= version <= 40
    ensures VersionBits(version) / 4096 == version && VersionBits(version) == PolyMul(q, 0x1F25)
  {
    hide Xor, PolyMul, VersionRemainder;
    q := VersionDivision(version, 12);
    VersionRemainderBound(version, 12);
    Pow12();
    XorBelow(version, 12, VersionRemainder(version, 12));
    VersionReadBack(version);
  }

  lemma Pow12()
    ensures Pow2(12) == 4096
  {
    assert Pow2(6) == 64;
  }

  /** Three bits to a row left of the top right finder pattern, lowest first, and mirrored above the bottom left one. */
  lemma VersionPlaces(g: Grid, bits: nat, i: nat, j: nat)
    requires ShowsVersion(g, bits, 18) && i < 6 && j < 3
    ensures At(g, Pos(|g| - 11 + j, i)) == At(g, Pos(i, |g| - 11 + j)) == Bit(bits, 3 * i + j)
  {
    hide Bit, At, Square;
    ThreeAcross(i, j);
    assert VersionColumn(|g|, 3 * i + j) == |g| - 11 + j;
  }

  // ---- Alignment patterns ----

  /** A step d is wide enough to lead n patterns from the first centre to the last one. */
  predicate Reaches(version: nat, d: nat) {
    (version / 7 + 1) * d >= 4 * version + 4
  }

  lemma Quotient(a: nat, b: nat)
    requires b > 0
    ensures b * (a / b) <= a < b * (a / b) + b
  {
  }

  lemma HalfStep(m: nat, k: nat, version: nat)
    requires 2 * m * k <= 4 * version + 2 * m + 3 < 2 * m * k + 2 * m
    ensures m * (2 * k) >= 4 * version + 4 && m * (2 * k) < 4 * version + 4 + 2 * m
  {
    assert m * (2 * k) == 2 * m * k;
  }

  lemma HalfOfStep(version: nat, m: nat) returns (k: nat)
    requires m > 0
    ensures k == (4 * version + 2 * m + 3) / (2 * m)
    ensures 2 * m * k <= 4 * version + 2 * m + 3 < 2 * m * k + 2 * m
  {
    k := (4 * version + 2 * m + 3) / (2 * m);
    Quotient(4 * version + 2 * m + 3, 2 * m);
  }

  lemma StepBounds(version: nat)
    requires 2 <= version <= 40 && version != 32
    ensures var m := version / 7 + 1;
      Step(version) % 2 == 0 && 4 * version + 4 <= m * Step(version) < 4 * version + 4 + 2 * m
  {
    hide Step;
    var m := version / 7 + 1;
    var k := HalfOfStep(version, m);
    StepIs(version, m, k);
    HalfStep(m, k, version);
  }

  lemma StepIs(version: nat, m: nat, k: nat)
    requires 2 <= version <= 40 && version != 32 && m == version / 7 + 1
    requires k == (4 * version + 2 * m + 3) / (2 * m)
    ensures Step(version) == 2 * k
  {
    assert NumAlign(version) == m + 1;
  }

  /** The patterns are as close as an even step allows; version 32 is the exception, with the step 26. */
  lemma StepIsLeast(version: nat, d: nat)
    requires 2 <= version <= 40
    ensures version == 32 ==> Step(version) == 26
    ensures version != 32 ==> Step(version) % 2 == 0 && Reaches(version, Step(version))
    ensures version != 32 && d % 2 == 0 && Reaches(version, d) ==> Step(version) <= d
  {
    hide Step;
    if version == 32 {
      Step32();
    } else {
      StepBounds(version);
      if d % 2 == 0 && d < Step(version) {
        MulOrder(d + 2, Step(version), version / 7 + 1);
        Distribute(version / 7 + 1, d);
      }
    }
  }

  lemma Distribute(m: nat, d: nat)
    ensures (d + 2) * m == m * d + 2 * m
  {
  }

  lemma Step32()
    ensures Step(32) == 26
  {
  }

  /** The first centre is at 6 and the last one at six modules from the far edge; those after the first are one step apart. */
  lemma Centres(version: nat, i: nat)
    requires 2 <= version <= 40 && i < NumAlign(version)
    ensures NumAlign(version) == version / 7 + 2
    ensures AlignPos(version, 0) == 6 && AlignPos(version, NumAlign(version) - 1) == 4 * version + 10
    ensures i >= 2 ==> AlignPos(version, i) == AlignPos(version, i - 1) + Step(version)
  {
    hide Step;
    if i >= 2 {
      TimesNext(NumAlign(version) - 1 - i, Step(version));
    }
  }

  lemma TimesNext(n: nat, d: nat)
    ensures (n + 1) * d == n * d + d
  {
  }

  // ---- Levels ----

  /** The two bits of a level: 01 for low, 00 for medium, 11 for quartile and 10 for high. */
  lemma LevelBits(level: nat)
    requires level < 4
    ensures FormatLevel(level) == [0x1, 0x0, 0x3, 0x2][level] && LevelOfFormat(FormatLevel(level)) == level
  {
  }

  // ---- Blocks ----

  /** Short blocks come first, and a long one has one codeword more. */
  lemma BlocksBalanced(l: Layout, j: nat, k: nat)
    requires l.Valid() && j <= k < l.numBlocks
    ensures l.DataLen(j) <= l.DataLen(k) <= l.DataLen(j) + 1
    ensures l.DataLen(0) == (l.raw - l.eccLen * l.numBlocks) / l.numBlocks
  {
    l.DivMod();
    var n, q, r := l.numBlocks, l.raw / l.numBlocks, l.raw % l.numBlocks;
    assert l.raw - l.eccLen * n == n * (q - l.eccLen) + r by { Less(n, q, r, l.eccLen); }
    DivModUnique(n, q - l.eccLen, r);
  }

  lemma Less(n: nat, q: nat, r: nat, e: nat)
    requires e <= q
    ensures n * q + r - e * n == n * (q - e) + r
  {
  }

  lemma NextRow(n: nat, i: nat, i': nat)
    requires i < i'
    ensures i' * n >= i * n + n && (i' >= i + 2 ==> i' * n >= i * n + 2 * n)
  {
    TimesNext(i, n);
    TimesNext(i + 1, n);
    MulOrder(i + 1, i', n);
    if i' >= i + 2 {
      MulOrder(i + 2, i', n);
    }
  }

  /** Rows apart by n places stay in order when the s places that no codeword fills are left out. */
  lemma Ahead(n: nat, s: nat, d: nat, i: nat, j: nat, i': nat, j': nat, a: nat, b: nat)
    requires s <= n && j < n && i < i' && b >= a + n && (i' >= i + 2 ==> b >= a + 2 * n) && (i' == d ==> j' >= s)
    ensures a + j - (if i < d then 0 else s) < b + j' - if i' < d then 0 else s
  {
  }

  /** The codewords are taken row by row, and in a row block by block. */
  lemma RowByRow(l: Layout, i: nat, j: nat, i': nat, j': nat)
    requires l.Valid() && l.Holds(i, j) && l.Holds(i', j')
    requires i < i' || (i == i' && j < j')
    ensures l.Position(i, j) < l.Position(i', j')
  {
    l.DivMod();
    var n := l.numBlocks;
    if i < i' {
      NextRow(n, i, i');
      Ahead(n, l.ShortBlocks(), l.ShortData(), i, j, i', j', i * n, i' * n);
    }
  }
}
