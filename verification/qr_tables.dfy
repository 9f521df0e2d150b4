/** Capacities of QR Code symbols (external/qrcodegen/QrCode.cpp). */
module QrTables {
  import opened Arith
  import opened Interleave

  /** Modules along one side, always an odd number. */
  function Size(version: nat): (size: nat)
    ensures size % 2 == 1
  {
    Odd(2 * version + 8);
    4 * version + 17
  }

  lemma Odd(h: nat)
    ensures (2 * h + 1) % 2 == 1
  {
  }

  /** Error correction levels LOW, MEDIUM, QUARTILE, HIGH in the order of the tables. */
  const LEVELS: nat := 4

  const ECC_LOW: seq<nat> := [
    0, 7, 10, 15, 20, 26, 18, 20, 24, 30, 18, 20, 24, 26, 30, 22, 24, 28, 30, 28, 28, 28, 28, 30, 30,
    26, 28, 30, 30, 30, 30, 30, 30, 30, 30, 30, 30, 30, 30, 30, 30]
  const ECC_MEDIUM: seq<nat> := [
    0, 10, 16, 26, 18, 24, 16, 18, 22, 22, 26, 30, 22, 22, 24, 24, 28, 28, 26, 26, 26, 26, 28, 28, 28,
    28, 28, 28, 28, 28, 28, 28, 28, 28, 28, 28, 28, 28, 28, 28, 28]
  const ECC_QUARTILE: seq<nat> := [
    0, 13, 22, 18, 26, 18, 24, 18, 22, 20, 24, 28, 26, 24, 20, 30, 24, 28, 28, 26, 30, 28, 30, 30, 30,
    30, 28, 30, 30, 30, 30, 30, 30, 30, 30, 30, 30, 30, 30, 30, 30]
  const ECC_HIGH: seq<nat> := [
    0, 17, 28, 22, 16, 22, 28, 26, 26, 24, 28, 24, 28, 22, 24, 24, 30, 28, 28, 26, 28, 30, 24, 30, 30,
    30, 30, 30, 30, 30, 30, 30, 30, 30, 30, 30, 30, 30, 30, 30, 30]

  const BLOCKS_LOW: seq<nat> := [
    0, 1, 1, 1, 1, 1, 2, 2, 2, 2, 4, 4, 4, 4, 4, 6, 6, 6, 6, 7, 8, 8, 9, 9, 10, 12, 12, 12, 13, 14, 15,
    16, 17, 18, 19, 19, 20, 21, 22, 24, 25]
  const BLOCKS_MEDIUM: seq<nat> := [
    0, 1, 1, 1, 2, 2, 4, 4, 4, 5, 5, 5, 8, 9, 9, 10, 10, 11, 13, 14, 16, 17, 17, 18, 20, 21, 23, 25,
    26, 28, 29, 31, 33, 35, 37, 38, 40, 43, 45, 47, 49]
  const BLOCKS_QUARTILE: seq<nat> := [
    0, 1, 1, 2, 2, 4, 4, 6, 6, 8, 8, 8, 10, 12, 16, 12, 17, 16, 18, 21, 20, 23, 23, 25, 27, 29, 34, 34,
    35, 38, 40, 43, 45, 48, 51, 53, 56, 59, 62, 65, 68]
  const BLOCKS_HIGH: seq<nat> := [
    0, 1, 1, 2, 4, 4, 4, 5, 6, 8, 8, 11, 11, 16, 16, 18, 16, 19, 21, 25, 25, 25, 34, 30, 32, 35, 37,
    40, 42, 45, 48, 51, 54, 57, 60, 63, 66, 70, 74, 77, 81]

  function EccPerBlock(level: nat, version: nat): nat
    requires level < LEVELS && 1 <= version <= 40
  {
    if level == 0 then ECC_LOW[version] else if level == 1 then ECC_MEDIUM[version]
    else if level == 2 then ECC_QUARTILE[version] else ECC_HIGH[version]
  }

  function NumBlocks(level: nat, version: nat): nat
    requires level < LEVELS && 1 <= version <= 40
  {
    if level == 0 then BLOCKS_LOW[version] else if level == 1 then BLOCKS_MEDIUM[version]
    else if level == 2 then BLOCKS_QUARTILE[version] else BLOCKS_HIGH[version]
  }

  /** Modules left for data and error correction, remainder bits included. */
  function RawDataModules(version: nat): int
    requires 1 <= version <= 40
  {
    var numAlign := version / 7 + 2;
    (16 * version + 128) * version + 64
    - (if version >= 2 then (25 * numAlign - 10) * numAlign - 55 else 0)
    - (if version >= 7 then 36 else 0)
  }

  /** Codewords in a symbol of each version. */
  const RAW: seq<nat> := [
    0, 26, 44, 70, 100, 134, 172, 196, 242, 292, 346, 404, 466, 532, 581, 655, 733, 815, 901, 991,
    1085, 1156, 1258, 1364, 1474, 1588, 1706, 1828, 1921, 2051, 2185, 2323, 2465, 2611, 2761, 2876,
    3034, 3196, 3362, 3532, 3706]

  lemma RawValues(v: nat)
    requires 1 <= v <= 40
    ensures 8 * RAW[v] <= RawDataModules(v) < 8 * RAW[v] + 8
  {
    if v < 14 { RawSmall(v); } else if v < 28 { RawMiddle(v); } else { RawLarge(v); }
  }

  lemma RawSmall(v: nat)
    requires 1 <= v < 14
    ensures 8 * RAW[v] <= RawDataModules(v) < 8 * RAW[v] + 8
  {
    assert v / 7 == if v < 7 then 0 else 1;
  }

  lemma RawMiddle(v: nat)
    requires 14 <= v < 28
    ensures 8 * RAW[v] <= RawDataModules(v) < 8 * RAW[v] + 8
  {
    assert v / 7 == if v < 21 then 2 else 3;
  }

  lemma RawLarge(v: nat)
    requires 28 <= v <= 40
    ensures 8 * RAW[v] <= RawDataModules(v) < 8 * RAW[v] + 8
  {
    assert v / 7 == if v < 35 then 4 else 5;
  }

  /** The range check at the end of getNumRawDataModules always passes. */
  lemma RawInRange(v: nat)
    requires 1 <= v <= 40
    ensures 208 <= RawDataModules(v) <= 29648
  {
    RawValues(v);
    if v == 40 {
      assert RawDataModules(40) == 29648;
    }
    hide RawDataModules;
  }

  lemma LowRow(v: nat)
    requires 1 <= v <= 40
    ensures 1 <= ECC_LOW[v] <= 30 && 1 <= BLOCKS_LOW[v]
    ensures ECC_LOW[v] * BLOCKS_LOW[v] < RAW[v] < 254 * BLOCKS_LOW[v]
  {
    hide RAW, ECC_LOW, BLOCKS_LOW;
    if v <= 20 { LowRowStart(v); } else { LowRowEnd(v); }
  }

  lemma LowRowStart(v: nat)
    requires 1 <= v <= 20
    ensures 1 <= ECC_LOW[v] <= 30 && 1 <= BLOCKS_LOW[v]
    ensures ECC_LOW[v] * BLOCKS_LOW[v] < RAW[v] < 254 * BLOCKS_LOW[v]
  {
  }

  lemma LowRowEnd(v: nat)
    requires 21 <= v <= 40
    ensures 1 <= ECC_LOW[v] <= 30 && 1 <= BLOCKS_LOW[v]
    ensures ECC_LOW[v] * BLOCKS_LOW[v] < RAW[v] < 254 * BLOCKS_LOW[v]
  {
  }

  lemma MediumRow(v: nat)
    requires 1 <= v <= 40
    ensures 1 <= ECC_MEDIUM[v] <= 30 && 1 <= BLOCKS_MEDIUM[v]
    ensures ECC_MEDIUM[v] * BLOCKS_MEDIUM[v] < RAW[v] < 254 * BLOCKS_MEDIUM[v]
  {
    hide RAW, ECC_MEDIUM, BLOCKS_MEDIUM;
    if v <= 20 { MediumRowStart(v); } else { MediumRowEnd(v); }
  }

  lemma MediumRowStart(v: nat)
    requires 1 <= v <= 20
    ensures 1 <= ECC_MEDIUM[v] <= 30 && 1 <= BLOCKS_MEDIUM[v]
    ensures ECC_MEDIUM[v] * BLOCKS_MEDIUM[v] < RAW[v] < 254 * BLOCKS_MEDIUM[v]
  {
  }

  lemma MediumRowEnd(v: nat)
    requires 21 <= v <= 40
    ensures 1 <= ECC_MEDIUM[v] <= 30 && 1 <= BLOCKS_MEDIUM[v]
    ensures ECC_MEDIUM[v] * BLOCKS_MEDIUM[v] < RAW[v] < 254 * BLOCKS_MEDIUM[v]
  {
  }

  lemma QuartileRow(v: nat)
    requires 1 <= v <= 40
    ensures 1 <= ECC_QUARTILE[v] <= 30 && 1 <= BLOCKS_QUARTILE[v]
    ensures ECC_QUARTILE[v] * BLOCKS_QUARTILE[v] < RAW[v] < 254 * BLOCKS_QUARTILE[v]
  {
    hide RAW, ECC_QUARTILE, BLOCKS_QUARTILE;
    if v <= 20 { QuartileRowStart(v); } else { QuartileRowEnd(v); }
  }

  lemma QuartileRowStart(v: nat)
    requires 1 <= v <= 20
    ensures 1 <= ECC_QUARTILE[v] <= 30 && 1 <= BLOCKS_QUARTILE[v]
    ensures ECC_QUARTILE[v] * BLOCKS_QUARTILE[v] < RAW[v] < 254 * BLOCKS_QUARTILE[v]
  {
  }

  lemma QuartileRowEnd(v: nat)
    requires 21 <= v <= 40
    ensures 1 <= ECC_QUARTILE[v] <= 30 && 1 <= BLOCKS_QUARTILE[v]
    ensures ECC_QUARTILE[v] * BLOCKS_QUARTILE[v] < RAW[v] < 254 * BLOCKS_QUARTILE[v]
  {
  }

  lemma HighRow(v: nat)
    requires 1 <= v <= 40
    ensures 1 <= ECC_HIGH[v] <= 30 && 1 <= BLOCKS_HIGH[v]
    ensures ECC_HIGH[v] * BLOCKS_HIGH[v] < RAW[v] < 254 * BLOCKS_HIGH[v]
  {
    hide RAW, ECC_HIGH, BLOCKS_HIGH;
    if v <= 20 { HighRowStart(v); } else { HighRowEnd(v); }
  }

  lemma HighRowStart(v: nat)
    requires 1 <= v <= 20
    ensures 1 <= ECC_HIGH[v] <= 30 && 1 <= BLOCKS_HIGH[v]
    ensures ECC_HIGH[v] * BLOCKS_HIGH[v] < RAW[v] < 254 * BLOCKS_HIGH[v]
  {
  }

  lemma HighRowEnd(v: nat)
    requires 21 <= v <= 40
    ensures 1 <= ECC_HIGH[v] <= 30 && 1 <= BLOCKS_HIGH[v]
    ensures ECC_HIGH[v] * BLOCKS_HIGH[v] < RAW[v] < 254 * BLOCKS_HIGH[v]
  {
  }

  /** The block structure that the tables give for a version and level is a usable one. */
  function SymbolLayout(level: nat, version: nat): (l: Layout)
    requires level < LEVELS && 1 <= version <= 40
    ensures l.Valid() && l.raw == RawDataModules(version) / 8
    ensures l.DataTotal() >= 0
    ensures l.raw / l.numBlocks < 255
  {
    RawValues(version);
    LowRow(version);
    MediumRow(version);
    QuartileRow(version);
    HighRow(version);
    var n, e, raw := NumBlocks(level, version), EccPerBlock(level, version), RawDataModules(version) / 8;
    FitsBlocks(n, e, raw);
    Layout(n, e, raw)
  }

  lemma FitsBlocks(n: nat, e: nat, raw: nat)
    requires n > 0 && e * n <= raw < 254 * n
    ensures e <= raw / n < 255
  {
    var q, r := raw / n, raw % n;
    assert raw == n * q + r;
    QuotientBounds(n, q, r, e);
  }

  lemma QuotientBounds(n: nat, q: nat, r: nat, e: nat)
    requires r < n && e * n <= n * q + r < 254 * n
    ensures e <= q < 255
  {
    if q < e {
      MulOrder(q + 1, e, n);
    } else if q >= 255 {
      MulOrder(255, q, n);
    }
  }

  /** getNumDataCodewords. */
  function Capacity(level: nat, version: nat): nat
    requires level < LEVELS && 1 <= version <= 40
  {
    SymbolLayout(level, version).DataTotal()
  }
}
