/** The order of the zigzag scan, said by neighbours (external/qrcodegen/QrCode.cpp, drawCodewords). */
module ScanOrder {
  import opened Zigzag

  // ---- Pairs of columns ----

  /** Where a scan can be: right of column 6 in an even column, left of it in an odd one. */
  predicate OnWay(right: int) {
    (right % 2 == 0 && right >= 6) || (right % 2 == 1 && right < 6)
  }

  /** The right column of pair p of a scan from right. */
  function After(right: int, p: nat): int {
    if right % 2 == 0 && right - 2 * p <= 6 then right - 2 * p - 1 else right - 2 * p
  }

  lemma AfterNext(right: int, p: nat)
    requires OnWay(right) && right >= 1 && p > 0
    ensures var r := if right == 6 then 5 else right;
      OnWay(r - 2) && After(right, p) == After(r - 2, p - 1) && After(right, 0) == r
  {
  }

  lemma {:induction false} ScanFromAt(right: int, size: nat, p: nat, k: nat)
    requires OnWay(right) && After(right, p) >= 1 && k < 2 * size
    ensures 2 * (size * p) + k < |ScanFrom(right, size)|
    ensures ScanFrom(right, size)[2 * (size * p) + k] == ColumnPair(After(right, p), size)[k]
    decreases p
  {
    hide ScanFrom, ColumnPair;
    var r := if right == 6 then 5 else right;
    ScanStep(right, size);
    if p > 0 {
      AfterNext(right, p);
      ScanFromAt(r - 2, size, p - 1, k);
      assert size * p == size + size * (p - 1);
    }
  }

  lemma {:induction false} ScanFromSize(right: int, size: nat)
    requires OnWay(right)
    ensures right < 1 ==> |ScanFrom(right, size)| == 0
    ensures right >= 1 ==> |ScanFrom(right, size)| == 2 * (size * ((right + 1) / 2))
    decreases right
  {
    hide ScanFrom, ColumnPair;
    if right < 1 {
      ScanEnd(right, size);
    } else {
      var r := if right == 6 then 5 else right;
      ScanStep(right, size);
      ScanFromSize(r - 2, size);
      var n := (right + 1) / 2;
      assert size * n == size + size * (n - 1);
    }
  }

  lemma PairAt(right: nat, size: nat, k: nat)
    requires right >= 1 && k < 2 * size
    ensures ColumnPair(right, size)[k]
      == Pos(right - k % 2, if (right + 1) / 2 % 2 == 0 then size - 1 - k / 2 else k / 2)
  {
  }

  /** Pair p of the scan of a symbol goes up when p is even. */
  lemma PairRunsUp(size: nat, p: nat)
    requires size % 4 == 1 && size >= 9 && 2 * p < size - 1
    ensures OnWay(size - 1)
    ensures var r := After(size - 1, p);
      r >= 1 && ((r + 1) / 2 % 2 == 0 <==> p % 2 == 0)
  {
    var m := size / 4;
    assert size == 4 * m + 1;
    var r := After(size - 1, p);
    assert (r + 1) / 2 == 2 * m - p;
  }

  /** Module r of pair p, and the module to the left of it. */
  lemma ScanAt(size: nat, p: nat, r: nat)
    requires size % 4 == 1 && size >= 9 && 2 * p < size - 1 && r < size
    ensures var s, i, x := Scan(size), size * p + r, After(size - 1, p);
      && x >= 1 && 2 * i + 1 < |s|
      && s[2 * i] == Pos(x, if p % 2 == 0 then size - 1 - r else r)
      && s[2 * i + 1] == Pos(x - 1, if p % 2 == 0 then size - 1 - r else r)
  {
    hide ScanFrom, ColumnPair, After;
    PairRunsUp(size, p);
    var x := After(size - 1, p);
    ScanFromAt(size - 1, size, p, 2 * r);
    ScanFromAt(size - 1, size, p, 2 * r + 1);
    PairAt(x, size, 2 * r);
    PairAt(x, size, 2 * r + 1);
    assert 2 * r / 2 == r && (2 * r + 1) / 2 == r;
    assert 2 * (size * p + r) == 2 * (size * p) + 2 * r;
  }

  lemma LastPair(size: nat, p: nat)
    requires size % 4 == 1 && size >= 9 && 2 * p + 2 < size - 1
    ensures After(size - 1, p + 1) == After(size - 1, p) - if After(size - 1, p) == 8 then 3 else 2
  {
  }

  // ---- The order by neighbours ----

  /** The scan begins in the bottom right corner. */
  lemma ScanBegins(size: nat)
    requires size % 4 == 1 && size >= 9
    ensures |Scan(size)| == size * (size - 1) && Scan(size) != [] && Scan(size)[0] == Pos(size - 1, size - 1)
  {
    hide ScanFrom;
    ScanAt(size, 0, 0);
    ScanFromSize(size - 1, size);
    var n := size / 2;
    assert size - 1 == 2 * n && (size - 1 + 1) / 2 == n;
    assert size * (2 * n) == 2 * (size * n);
  }

  /**
   * From the modules 2i and 2i + 1 of the scan, of which r others of the same pair of columns come before them:
   * the second is left of the first; the next one is one row further, upwards in every other pair beginning with
   * the first; at the end of a pair it is in the same row, two columns to the left or three across column 6.
   */
  lemma ScanNeighbours(size: nat, p: nat, r: nat)
    requires size % 4 == 1 && size >= 9 && 2 * p < size - 1 && r < size
    ensures var s, i := Scan(size), size * p + r;
      && 2 * i + 1 < |s|
      && s[2 * i].x == s[2 * i + 1].x + 1 && s[2 * i].y == s[2 * i + 1].y
      && (r + 1 < size ==>
            && 2 * i + 2 < |s| && s[2 * i + 2].x == s[2 * i].x
            && (p % 2 == 0 ==> s[2 * i].y == s[2 * i + 2].y + 1)
            && (p % 2 == 1 ==> s[2 * i + 2].y == s[2 * i].y + 1))
      && (r + 1 == size && 2 * p + 2 < size - 1 ==>
            && 2 * i + 2 < |s| && s[2 * i + 2].y == s[2 * i].y
            && s[2 * i].x == s[2 * i + 2].x + if s[2 * i].x == 8 then 3 else 2)
  {
    hide Scan, After;
    ScanAt(size, p, r);
    if r + 1 < size {
      ScanAt(size, p, r + 1);
    } else if 2 * p + 2 < size - 1 {
      ScanAt(size, p + 1, 0);
      LastPair(size, p);
      assert size * p + size == size * (p + 1);
    }
  }
}
