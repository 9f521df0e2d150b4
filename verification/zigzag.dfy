/** The order in which drawCodewords of external/qrcodegen/QrCode.cpp visits the modules. */
module Zigzag {

  /** A module of the symbol: x grows to the right, y downwards. */
  datatype Pos = Pos(x: nat, y: nat)

  predicate Inside(p: Pos, size: nat) {
    p.x < size && p.y < size
  }

  /** The two columns right and right - 1, from the bottom when the scan runs upward. */
  function ColumnPair(right: nat, size: nat): (s: seq<Pos>)
    requires right >= 1
    ensures |s| == 2 * size
  {
    seq(2 * size, k requires 0 <= k < 2 * size =>
      Pos(right - k % 2, if (right + 1) / 2 % 2 == 0 then size - 1 - k / 2 else k / 2))
  }

  /** The columns from right to 0, skipping the vertical timing pattern in column 6. */
  function ScanFrom(right: int, size: nat): seq<Pos>
    decreases right
  {
    if right < 1 then []
    else if right == 6 then ColumnPair(5, size) + ScanFrom(3, size)
    else ColumnPair(right, size) + ScanFrom(right - 2, size)
  }

  lemma ScanStep(right: int, size: nat)
    requires right >= 1
    ensures var r := if right == 6 then 5 else right;
      ScanFrom(right, size) == ColumnPair(r, size) + ScanFrom(r - 2, size)
  {
    hide ColumnPair;
  }

  lemma ScanEnd(right: int, size: nat)
    requires right < 1
    ensures ScanFrom(right, size) == []
  {
  }

  function Scan(size: nat): seq<Pos> {
    ScanFrom(size - 1, size)
  }

  ghost predicate Distinct(s: seq<Pos>) {
    forall i, j :: 0 <= i < j < |s| ==> s[i] != s[j]
  }

  lemma PairDistinct(right: nat, size: nat)
    requires right >= 1
    ensures Distinct(ColumnPair(right, size))
  {
    var s := ColumnPair(right, size);
    forall i, j | 0 <= i < j < |s|
      ensures s[i] != s[j]
    {
      assert s[i].x == right - i % 2 && s[j].x == right - j % 2;
    }
  }

  lemma PairMembers(right: nat, size: nat, p: Pos)
    requires right >= 1
    ensures p in ColumnPair(right, size) <==> p.y < size && (p.x == right || p.x == right - 1)
  {
    var s := ColumnPair(right, size);
    if p.y < size && (p.x == right || p.x == right - 1) {
      var row := if (right + 1) / 2 % 2 == 0 then size - 1 - p.y else p.y;
      var k := 2 * row + (right - p.x);
      assert k % 2 == right - p.x && k / 2 == row;
      assert s[k] == p;
    }
  }

  /** The columns that a scan from right passes over. */
  predicate Passes(right: int, x: nat) {
    0 <= x <= right && (right >= 6 && right % 2 == 0 ==> x != 6) && (right < 6 && right % 2 == 0 ==> x > 0)
  }

  lemma {:induction false} ScanMembers(right: int, size: nat, p: Pos)
    requires right < 6 || right % 2 == 0
    ensures p in ScanFrom(right, size) <==> p.y < size && Passes(right, p.x)
    decreases right
  {
    if right >= 1 {
      var r := if right == 6 then 5 else right;
      PairMembers(r, size, p);
      ScanMembers(r - 2, size, p);
      assert ScanFrom(right, size) == ColumnPair(r, size) + ScanFrom(r - 2, size);
    }
  }

  lemma {:induction false} ScanDistinct(right: int, size: nat)
    requires right < 6 || right % 2 == 0
    ensures Distinct(ScanFrom(right, size))
    decreases right
  {
    hide ScanFrom, ColumnPair;
    if right >= 1 {
      var r := if right == 6 then 5 else right;
      var a, b := ColumnPair(r, size), ScanFrom(r - 2, size);
      PairDistinct(r, size);
      ScanDistinct(r - 2, size);
      forall p | p in a
        ensures p !in b
      {
        PairMembers(r, size, p);
        ScanMembers(r - 2, size, p);
      }
      DistinctJoin(a, b);
      ScanStep(right, size);
    } else {
      ScanEnd(right, size);
    }
  }

  lemma DistinctJoin(a: seq<Pos>, b: seq<Pos>)
    requires Distinct(a) && Distinct(b) && forall p :: p in a ==> p !in b
    ensures Distinct(a + b)
  {
    forall i, j | 0 <= i < j < |a + b|
      ensures (a + b)[i] != (a + b)[j]
    {
      if i < |a| <= j {
        assert a[i] in a && b[j - |a|] in b;
      }
    }
  }

  /** For an odd size the scan meets no module twice, and it meets every module outside column 6
      exactly when the size is at least 7. */
  lemma ScanVisits(size: nat)
    requires size % 2 == 1
    ensures Distinct(Scan(size))
    ensures forall p :: p in Scan(size) ==> Inside(p, size) && p.x != 6
    ensures (forall p :: Inside(p, size) && p.x != 6 ==> p in Scan(size)) <==> size >= 7
  {
    hide ScanFrom, Distinct;
    ScanDistinct(size - 1, size);
    forall p: Pos
      ensures p in Scan(size) <==> p.y < size && Passes(size - 1, p.x)
    {
      ScanMembers(size - 1, size, p);
    }
    if size < 7 {
      assert Inside(Pos(0, 0), size) && Pos(0, 0) !in Scan(size);
    }
  }
}
