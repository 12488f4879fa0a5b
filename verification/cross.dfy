/** The deterministic "easy level": a plus-shaped corridor through the middle
    row and the middle column, with the ball placed where they cross. */
module Cross {
  import opened Grid

  /** g is the cross layout of a w-by-h field. */
  ghost predicate IsCross(g: Layout, w: int, h: int)
  {
    && IsGrid(g, w, h)
    && forall x, y :: 0 <= x < w && 0 <= y < h ==> (g[x][y] <==> x == w / 2 || y == h / 2)
  }

  /** Builds the cross layout column by column and returns it with the ball
      start, which is the crossing point (w / 2, h / 2). */
  method EasyLevel(w: int, h: int) returns (g: Layout, start: Cell)
    requires w >= 0 && h >= 0
    ensures IsCross(g, w, h)
    ensures start == Centre(w, h)
    ensures w >= 1 && h >= 1 ==> IsGround(g, start)
  {
    g := [];
    var x := 0;
    while x < w
      invariant 0 <= x <= w
      invariant IsGrid(g, x, h)
      invariant forall i, j :: 0 <= i < x && 0 <= j < h ==> (g[i][j] <==> i == w / 2 || j == h / 2)
    {
      var col: seq<bool> := [];
      var y := 0;
      while y < h
        invariant 0 <= y <= h
        invariant |col| == y
        invariant forall j :: 0 <= j < y ==> (col[j] <==> x == w / 2 || j == h / 2)
      {
        col := col + [x == w / 2 || y == h / 2];
        y := y + 1;
      }
      g := g + [col];
      x := x + 1;
    }
    start := Cell(w / 2, h / 2);
  }

  lemma {:induction false} CountCrossColumn(col: seq<bool>, onSpine: bool, mid: int)
    requires 0 <= mid < |col|
    requires forall j :: 0 <= j < |col| ==> (col[j] <==> onSpine || j == mid)
    ensures CountColumn(col) == if onSpine then |col| else 1
  {
    if onSpine {
      CountColumnBound(col);
    } else {
      var pre := col[..|col| - 1];
      if mid < |col| - 1 {
        CountCrossColumn(pre, onSpine, mid);
      } else {
        CountColumnZero(pre);
      }
    }
  }

  /** The cross has w + h - 1 ground tiles: a full column of h, plus one
      tile in each of the other w - 1 columns (9 for a 5-by-5 field). */
  lemma {:induction false} CrossGroundCount(g: Layout, w: int, h: int)
    requires w >= 1 && h >= 1
    requires IsCross(g, w, h)
    ensures Count(g) == w + h - 1
  {
    CrossPrefixCount(g, w, h, w);
    assert g[..w] == g;
  }

  lemma {:induction false} CrossPrefixCount(g: Layout, w: int, h: int, k: int)
    requires w >= 1 && h >= 1
    requires IsCross(g, w, h)
    requires 0 <= k <= w
    ensures Count(g[..k]) == k + (if k > w / 2 then h - 1 else 0)
  {
    if k > 0 {
      assert g[..k][..k - 1] == g[..k - 1];
      CrossPrefixCount(g, w, h, k - 1);
      var col := g[k - 1];
      CountCrossColumn(col, k - 1 == w / 2, h / 2);
    }
  }
}
