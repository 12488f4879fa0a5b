/** The level layout shared by every generator: a dense two-dimensional field
    of booleans indexed as g[x][y], where true is ground and false is wall. */
module Grid {

  /** A tile coordinate (the engine's integer vector). */
  datatype Cell = Cell(x: int, y: int)

  /** g[x][y] for 0 <= x < width, 0 <= y < height. */
  type Layout = seq<seq<bool>>

  /** g is a fully initialised w-by-h field. */
  predicate IsGrid(g: Layout, w: int, h: int)
  {
    |g| == w && forall x :: 0 <= x < |g| ==> |g[x]| == h
  }

  predicate InBounds(c: Cell, w: int, h: int)
  {
    0 <= c.x < w && 0 <= c.y < h
  }

  /** c is a ground tile of g; false for any coordinate outside g. */
  predicate IsGround(g: Layout, c: Cell)
  {
    0 <= c.x < |g| && 0 <= c.y < |g[c.x]| && g[c.x][c.y]
  }

  /** Every in-bounds tile of g is ground. */
  ghost predicate AllGround(g: Layout, w: int, h: int)
  {
    forall c :: InBounds(c, w, h) ==> IsGround(g, c)
  }

  /** Every ground tile of g is still ground in g' (the layout only gained ground). */
  ghost predicate Grows(g: Layout, g': Layout)
  {
    forall c :: IsGround(g, c) ==> IsGround(g', c)
  }

  /** No tile occurs twice in s. */
  predicate Distinct(s: seq<Cell>)
  {
    forall i, j :: 0 <= i < j < |s| ==> s[i] != s[j]
  }

  /** The tile both the repair pass and the start search treat as the middle. */
  function Centre(w: int, h: int): Cell
  {
    Cell(w / 2, h / 2)
  }

  /** Turns tile c into ground and leaves every other tile as it was. */
  function SetGround(g: Layout, c: Cell): (r: Layout)
    requires 0 <= c.x < |g| && 0 <= c.y < |g[c.x]|
    ensures |r| == |g| && forall x :: 0 <= x < |g| ==> |r[x]| == |g[x]|
    ensures IsGround(r, c)
    ensures forall d :: d != c ==> IsGround(r, d) == IsGround(g, d)
  {
    g[c.x := g[c.x][c.y := true]]
  }

  /** The four axis neighbours in the order the engine visits them:
      up (y + 1), down (y - 1), left (x - 1), right (x + 1). */
  function Neighbours(c: Cell): (r: seq<Cell>)
    ensures |r| == 4
    ensures forall i :: 0 <= i < 4 ==> Adjacent(c, r[i])
    ensures forall d :: Adjacent(c, d) ==> d in r
  {
    [Cell(c.x, c.y + 1), Cell(c.x, c.y - 1), Cell(c.x - 1, c.y), Cell(c.x + 1, c.y)]
  }

  /** a and b share an edge. */
  predicate Adjacent(a: Cell, b: Cell)
  {
    (a.x == b.x && (a.y - b.y == 1 || b.y - a.y == 1)) ||
    (a.y == b.y && (a.x - b.x == 1 || b.x - a.x == 1))
  }

  /** Every in-bounds neighbour of c is ground in g. */
  predicate Closed(g: Layout, c: Cell, w: int, h: int)
  {
    forall d :: d in Neighbours(c) && InBounds(d, w, h) ==> IsGround(g, d)
  }

  /** p is a walk over ground tiles of g, one edge at a time, from a to b. */
  ghost predicate IsGroundPath(g: Layout, p: seq<Cell>, a: Cell, b: Cell)
  {
    && |p| >= 1 && p[0] == a && p[|p| - 1] == b
    && (forall i :: 0 <= i < |p| ==> IsGround(g, p[i]))
    && (forall i :: 0 < i < |p| ==> Adjacent(p[i - 1], p[i]))
  }

  /** b can be reached from a by walking over ground tiles of g. */
  ghost predicate Reachable(g: Layout, a: Cell, b: Cell)
  {
    exists p :: IsGroundPath(g, p, a, b)
  }

  /** Number of ground tiles in one column. */
  function CountColumn(col: seq<bool>): nat
  {
    if |col| == 0 then 0
    else CountColumn(col[..|col| - 1]) + (if col[|col| - 1] then 1 else 0)
  }

  /** Number of ground tiles in the whole layout. */
  function Count(g: Layout): nat
  {
    if |g| == 0 then 0
    else Count(g[..|g| - 1]) + CountColumn(g[|g| - 1])
  }

  lemma {:induction false} CountColumnBound(col: seq<bool>)
    ensures CountColumn(col) <= |col|
    ensures CountColumn(col) == |col| <==> forall y :: 0 <= y < |col| ==> col[y]
  {
    if |col| > 0 {
      var pre := col[..|col| - 1];
      CountColumnBound(pre);
      assert forall y :: 0 <= y < |pre| ==> pre[y] == col[y];
    }
  }

  /** At most w * h tiles are ground, and exactly w * h when all of them are. */
  lemma {:induction false} CountBound(g: Layout, w: int, h: int)
    requires IsGrid(g, w, h) && h >= 0
    ensures Count(g) <= w * h
    ensures Count(g) == w * h <==> AllGround(g, w, h)
  {
    if w > 0 {
      var pre := g[..w - 1];
      CountBound(pre, w - 1, h);
      CountColumnBound(g[w - 1]);
      assert w * h == (w - 1) * h + h;
      if Count(g) == w * h {
        forall c | InBounds(c, w, h) ensures IsGround(g, c) {
          if c.x < w - 1 {
            assert IsGround(pre, c);
          } else {
            assert g[w - 1][c.y];
          }
        }
      }
      if AllGround(g, w, h) {
        forall c | InBounds(c, w - 1, h) ensures IsGround(pre, c) {
          assert IsGround(g, c);
        }
        var last := g[w - 1];
        forall y | 0 <= y < h ensures last[y] {
          assert IsGround(g, Cell(w - 1, y));
        }
      }
    }
  }

  lemma {:induction false} CountColumnZero(col: seq<bool>)
    requires forall y :: 0 <= y < |col| ==> !col[y]
    ensures CountColumn(col) == 0
  {
    if |col| > 0 {
      CountColumnZero(col[..|col| - 1]);
    }
  }

  /** A layout without ground tiles counts zero. */
  lemma {:induction false} CountZero(g: Layout)
    requires forall x, y :: 0 <= x < |g| && 0 <= y < |g[x]| ==> !g[x][y]
    ensures Count(g) == 0
  {
    if |g| > 0 {
      CountZero(g[..|g| - 1]);
      CountColumnZero(g[|g| - 1]);
    }
  }

  lemma {:induction false} CountColumnSet(col: seq<bool>, y: int)
    requires 0 <= y < |col| && !col[y]
    ensures CountColumn(col[y := true]) == CountColumn(col) + 1
  {
    var col' := col[y := true];
    if y < |col| - 1 {
      assert col'[..|col'| - 1] == col[..|col| - 1][y := true];
      CountColumnSet(col[..|col| - 1], y);
    } else {
      assert col'[..|col'| - 1] == col[..|col| - 1];
    }
  }

  /** Turning one wall into ground adds exactly one ground tile. */
  lemma {:induction false} CountSetGround(g: Layout, c: Cell)
    requires 0 <= c.x < |g| && 0 <= c.y < |g[c.x]| && !g[c.x][c.y]
    ensures Count(SetGround(g, c)) == Count(g) + 1
  {
    var g' := SetGround(g, c);
    if c.x < |g| - 1 {
      assert g'[..|g'| - 1] == SetGround(g[..|g| - 1], c);
      CountSetGround(g[..|g| - 1], c);
    } else {
      assert g'[..|g'| - 1] == g[..|g| - 1];
      CountColumnSet(g[c.x], c.y);
    }
  }

  /** If the origin is ground and every ground tile has only ground
      neighbours, then the whole field is ground. */
  lemma {:induction false} ClosedFillsGrid(g: Layout, w: int, h: int, c: Cell)
    requires IsGrid(g, w, h)
    requires IsGround(g, Cell(0, 0))
    requires forall d :: InBounds(d, w, h) && IsGround(g, d) ==> Closed(g, d, w, h)
    requires InBounds(c, w, h)
    ensures IsGround(g, c)
    decreases c.x + c.y
  {
    if c.x > 0 {
      var d := Cell(c.x - 1, c.y);
      ClosedFillsGrid(g, w, h, d);
      assert c == Neighbours(d)[3];
    } else if c.y > 0 {
      var d := Cell(c.x, c.y - 1);
      ClosedFillsGrid(g, w, h, d);
      assert c == Neighbours(d)[0];
    }
  }
}
