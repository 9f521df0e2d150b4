/** Splitting the data codewords into blocks, appending error correction to each block, and
    interleaving the blocks (addEccAndInterleave of external/qrcodegen/QrCode.cpp). */
module Interleave {
  import opened Arith
  import opened ReedSolomon
  import opened Basics

  /** The block structure of one version and error correction level. */
  datatype Layout = Layout(numBlocks: nat, eccLen: nat, raw: nat) {
    ghost predicate Valid() {
      numBlocks > 0 && 1 <= eccLen <= 255 && eccLen <= raw / numBlocks
    }

    function ShortBlocks(): nat
      requires numBlocks > 0
    {
      numBlocks - raw % numBlocks
    }

    /** Data codewords in a short block; a long block has one more. */
    function ShortData(): nat
      requires numBlocks > 0 && eccLen <= raw / numBlocks
    {
      raw / numBlocks - eccLen
    }

    function DataLen(j: nat): nat
      requires numBlocks > 0 && eccLen <= raw / numBlocks
    {
      if j < ShortBlocks() then ShortData() else ShortData() + 1
    }

    /** Index of the first data codeword of block j. */
    function Start(j: nat): nat
      requires numBlocks > 0 && eccLen <= raw / numBlocks
    {
      if j == 0 then 0 else Start(j - 1) + DataLen(j - 1)
    }

    function DataTotal(): int {
      raw - eccLen * numBlocks
    }

    /** Where row i of block j lands in the interleaved sequence; row ShortData is absent from
        short blocks. */
    function Position(i: nat, j: nat): int
      requires numBlocks > 0 && eccLen <= raw / numBlocks
    {
      i * numBlocks + j - if i < ShortData() then 0 else ShortBlocks()
    }

    /** Row i of block j holds a codeword, not padding. */
    predicate Holds(i: nat, j: nat)
      requires numBlocks > 0 && eccLen <= raw / numBlocks
    {
      i <= raw / numBlocks && j < numBlocks && (i == ShortData() ==> j >= ShortBlocks())
    }

    lemma DivMod()
      requires numBlocks > 0
      ensures raw == numBlocks * (raw / numBlocks) + raw % numBlocks
      ensures 0 < ShortBlocks() <= numBlocks
    {
    }

    lemma {:induction false} StartValue(j: nat)
      requires Valid()
      ensures Start(j) == j * ShortData() + (if j < ShortBlocks() then 0 else j - ShortBlocks())
    {
      if j > 0 {
        StartValue(j - 1);
        OneMore(j, ShortData());
      }
    }

    static lemma OneMore(j: nat, d: nat)
      requires j > 0
      ensures j * d == (j - 1) * d + d
    {
    }

    lemma StartTotal()
      requires Valid()
      ensures Start(numBlocks) == DataTotal()
    {
      StartValue(numBlocks);
      DivMod();
    }

    lemma {:induction false} StartMonotone(j: nat, k: nat)
      requires Valid() && j <= k
      ensures Start(j) <= Start(k)
    {
      if j < k {
        StartMonotone(j, k - 1);
      }
    }

    /** The column at which row i starts. */
    function First(i: nat): nat
      requires numBlocks > 0 && eccLen <= raw / numBlocks
    {
      if i == ShortData() then ShortBlocks() else 0
    }

    lemma RowEnd(i: nat)
      requires Valid()
      ensures Position(i + 1, First(i + 1)) == Position(i, numBlocks)
    {
      assert (i + 1) * numBlocks == i * numBlocks + numBlocks;
    }

    lemma LastRow()
      requires Valid()
      ensures Position(raw / numBlocks + 1, 0) == raw
    {
      DivMod();
      assert (raw / numBlocks + 1) * numBlocks == numBlocks * (raw / numBlocks) + numBlocks;
    }
  }

  // ---- The codewords of one block ----

  function Block(l: Layout, data: Poly, j: nat): (b: Poly)
    requires l.Valid() && j < l.numBlocks && |data| == l.DataTotal()
    ensures |b| == l.DataLen(j)
  {
    l.StartTotal();
    l.StartMonotone(j + 1, l.numBlocks);
    data[l.Start(j)..l.Start(j + 1)]
  }

  function Ecc(l: Layout, data: Poly, j: nat): (e: Poly)
    requires l.Valid() && j < l.numBlocks && |data| == l.DataTotal()
    ensures |e| == l.eccLen
  {
    Remainder(Block(l, data, j), Generator(l.eccLen)[1..])
  }

  /** Block j as the source stores it, short blocks padded with one zero. */
  function Padded(l: Layout, data: Poly, j: nat): (p: Poly)
    requires l.Valid() && j < l.numBlocks && |data| == l.DataTotal()
    ensures |p| == l.raw / l.numBlocks + 1
  {
    Block(l, data, j) + (if j < l.ShortBlocks() then [0] else []) + Ecc(l, data, j)
  }

  // ---- De-interleaving ----

  ghost predicate Fits(l: Layout, s: Poly) {
    l.Valid() && |s| == l.raw
  }

  lemma {:induction false} PositionInRange(l: Layout, i: nat, j: nat)
    requires l.Valid() && l.Holds(i, j)
    ensures 0 <= l.Position(i, j) < l.raw
  {
    var n, d, q := l.numBlocks, l.ShortData(), l.raw / l.numBlocks;
    l.DivMod();
    if i < d {
      assert i * n + j <= i * n + n - 1 == (i + 1) * n - 1;
      MulOrder(i + 1, q, n);
    } else {
      MulOrder(i, q, n);
      if i > d { MulOrder(1, i, n); }
      assert q * n == n * q;
    }
  }

  /** The data codewords of block j, read back from the interleaved sequence. */
  function ReadData(l: Layout, s: Poly, j: nat): (b: Poly)
    requires Fits(l, s) && j < l.numBlocks
    ensures |b| == l.DataLen(j)
  {
    seq<Byte>(l.DataLen(j), i requires 0 <= i < l.DataLen(j) => PositionInRange(l, i, j); s[l.Position(i, j)])
  }

  /** The error correction codewords of block j, read back from the interleaved sequence. */
  function ReadEcc(l: Layout, s: Poly, j: nat): (b: Poly)
    requires Fits(l, s) && j < l.numBlocks
    ensures |b| == l.eccLen
  {
    seq<Byte>(l.eccLen, i requires 0 <= i < l.eccLen =>
      PositionInRange(l, l.ShortData() + 1 + i, j); s[l.Position(l.ShortData() + 1 + i, j)])
  }

  /** All data codewords, block after block. */
  function ReadAll(l: Layout, s: Poly, n: nat): Poly
    requires Fits(l, s) && n <= l.numBlocks
  {
    if n == 0 then [] else ReadAll(l, s, n - 1) + ReadData(l, s, n - 1)
  }

  /** The interleaved sequence holds, for every row of every block, that block's codeword. */
  ghost predicate Carries(l: Layout, data: Poly, s: Poly) {
    && Fits(l, s) && |data| == l.DataTotal()
    && forall i: nat, j: nat :: l.Holds(i, j) ==>
         0 <= l.Position(i, j) < |s| && s[l.Position(i, j)] == Padded(l, data, j)[i]
  }

  lemma CarriesBlock(l: Layout, data: Poly, s: Poly, j: nat)
    requires Carries(l, data, s) && j < l.numBlocks
    ensures ReadData(l, s, j) == Block(l, data, j)
    ensures ReadEcc(l, s, j) == Ecc(l, data, j)
  {
    hide Remainder, Generator;
    forall i | 0 <= i < l.DataLen(j)
      ensures ReadData(l, s, j)[i] == Block(l, data, j)[i]
    {
      assert l.Holds(i, j);
    }
    forall i | 0 <= i < l.eccLen
      ensures ReadEcc(l, s, j)[i] == Ecc(l, data, j)[i]
    {
      var r := l.ShortData() + 1 + i;
      assert l.Holds(r, j);
    }
  }

  lemma {:induction false} CarriesAll(l: Layout, data: Poly, s: Poly, n: nat)
    requires Carries(l, data, s) && n <= l.numBlocks
    ensures l.Start(n) <= |data|
    ensures ReadAll(l, s, n) == data[..l.Start(n)]
  {
    hide ReadData, Ecc;
    l.StartTotal();
    l.StartMonotone(n, l.numBlocks);
    if n > 0 {
      CarriesAll(l, data, s, n - 1);
      CarriesBlock(l, data, s, n - 1);
    }
  }

  /** Every index of the interleaved sequence is the place of some codeword. */
  lemma PositionOnto(l: Layout, p: nat) returns (i: nat, j: nat)
    requires l.Valid() && p < l.raw
    ensures l.Holds(i, j) && l.Position(i, j) == p
  {
    l.DivMod();
    i, j := RowAndBlock(l.numBlocks, l.ShortData(), l.raw / l.numBlocks, l.ShortBlocks(), p);
  }

  /** Rows of n places, of which row d lacks its first s. */
  lemma RowAndBlock(n: nat, d: nat, q: nat, s: nat, p: nat) returns (i: nat, j: nat)
    requires d <= q && 0 < s <= n && p < n * q + n - s
    ensures i <= q && j < n && (i == d ==> j >= s)
    ensures i * n + j == p + if i < d then 0 else s
  {
    if p < d * n {
      i, j := RowOf(p, n, d);
    } else {
      assert (q + 1) * n == n * q + n;
      i, j := RowOf(p + s, n, q + 1);
      RowBelow(i, j, n, d);
    }
  }

  lemma RowOf(x: nat, n: nat, m: nat) returns (i: nat, j: nat)
    requires x < m * n
    ensures i < m && j < n && x == i * n + j
  {
    i, j := x / n, x % n;
    Divided(x, n, i, j);
    RowBelow(i, j, n, m);
  }

  lemma Divided(x: nat, n: nat, i: nat, j: nat)
    requires n > 0 && i == x / n && j == x % n
    ensures x == i * n + j && j < n
  {
  }

  lemma RowBelow(i: nat, j: nat, n: nat, m: nat)
    requires j < n
    ensures i * n + j < m * n <==> i < m
  {
    if i < m {
      MulOrder(i + 1, m, n);
    } else {
      MulOrder(m, i, n);
    }
  }

  /** Nothing else is in it: a data sequence has one interleaving. */
  lemma CarriesUnique(l: Layout, data: Poly, s: Poly, t: Poly)
    requires Carries(l, data, s) && Carries(l, data, t)
    ensures s == t
  {
    forall p | 0 <= p < l.raw
      ensures s[p] == t[p]
    {
      var i, j := PositionOnto(l, p);
    }
  }

  // ---- The source's loops ----

  method AddEccAndInterleave(l: Layout, data: Poly) returns (res: Option<Poly>)
    requires l.Valid()
    ensures res.None? <==> |data| != l.DataTotal()
    ensures res.Some? ==> Carries(l, data, res.value)
  {
    if |data| != l.DataTotal() {
      return None;
    }
    var blocks := SplitBlocks(l, data);
    var result := InterleaveBlocks(l, data, blocks);
    return Some(result);
  }

  method SplitBlocks(l: Layout, data: Poly) returns (blocks: seq<Poly>)
    requires l.Valid() && |data| == l.DataTotal()
    ensures |blocks| == l.numBlocks
    ensures forall j :: 0 <= j < l.numBlocks ==> blocks[j] == Padded(l, data, j)
  {
    hide Remainder, Generator;
    blocks := [];
    var div := ReedSolomonComputeDivisor(l.eccLen);
    var rsDiv := div.value;
    assert rsDiv == ([1] + rsDiv)[1..];
    var i, k := 0, 0;
    while i < l.numBlocks
      invariant 0 <= i <= l.numBlocks && k == l.Start(i)
      invariant |blocks| == i
      invariant forall j :: 0 <= j < i ==> blocks[j] == Padded(l, data, j)
    {
      l.StartTotal();
      l.StartMonotone(i + 1, l.numBlocks);
      var dat := data[k..k + l.raw / l.numBlocks - l.eccLen + if i < l.ShortBlocks() then 0 else 1];
      assert dat == Block(l, data, i);
      k := k + |dat|;
      var ecc := ReedSolomonComputeRemainder(dat, rsDiv);
      if i < l.ShortBlocks() {
        dat := dat + [0];
      }
      dat := dat + ecc;
      assert dat == Padded(l, data, i);
      blocks := blocks + [dat];
      i := i + 1;
    }
  }

  method InterleaveBlocks(l: Layout, data: Poly, blocks: seq<Poly>) returns (result: Poly)
    requires l.Valid() && |data| == l.DataTotal()
    requires |blocks| == l.numBlocks
    requires forall j :: 0 <= j < l.numBlocks ==> blocks[j] == Padded(l, data, j)
    ensures Carries(l, data, result)
  {
    hide Padded;
    result := [];
    var i := 0;
    while i < |blocks[0]|
      invariant 0 <= i <= l.raw / l.numBlocks + 1
      invariant |result| == l.Position(i, l.First(i))
      invariant forall r: nat, c: nat :: l.Holds(r, c) && r < i ==>
                  0 <= l.Position(r, c) < |result| && result[l.Position(r, c)] == blocks[c][r]
    {
      var j := 0;
      while j < |blocks|
        invariant 0 <= j <= l.numBlocks
        invariant |result| == l.Position(i, if j < l.First(i) then l.First(i) else j)
        invariant forall r: nat, c: nat :: l.Holds(r, c) && (r < i || (r == i && c < j)) ==>
                    0 <= l.Position(r, c) < |result| && result[l.Position(r, c)] == blocks[c][r]
      {
        if i != l.raw / l.numBlocks - l.eccLen || j >= l.ShortBlocks() {
          result := result + [blocks[j][i]];
        }
        j := j + 1;
      }
      l.RowEnd(i);
      i := i + 1;
    }
    l.LastRow();
  }
}
