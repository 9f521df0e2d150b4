/** Square grids of modules, black where they hold true. */
module Grids {
  import opened Zigzag

  type Grid = seq<seq<bool>>

  ghost predicate Square(g: Grid, size: nat) {
    |g| == size && forall y :: 0 <= y < size ==> |g[y]| == size
  }

  function At(g: Grid, p: Pos): bool
    requires Square(g, |g|) && Inside(p, |g|)
  {
    g[p.y][p.x]
  }

  function Put(g: Grid, p: Pos, b: bool): (r: Grid)
    requires Square(g, |g|) && Inside(p, |g|)
    ensures |r| == |g| && Square(r, |r|)
    ensures forall q :: Inside(q, |g|) ==> At(r, q) == if q == p then b else At(g, q)
  {
    g[p.y := g[p.y][p.x := b]]
  }

  lemma GridEqual(a: Grid, b: Grid)
    requires |a| == |b| && Square(a, |a|) && Square(b, |b|)
    requires forall p :: Inside(p, |a|) ==> At(a, p) == At(b, p)
    ensures a == b
  {
    forall y | 0 <= y < |a|
      ensures a[y] == b[y]
    {
      forall x | 0 <= x < |a|
        ensures a[y][x] == b[y][x]
      {
        assert At(a, Pos(x, y)) == At(b, Pos(x, y));
      }
    }
  }
}
