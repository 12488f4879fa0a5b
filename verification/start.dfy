/** Choosing the ball's starting tile: the centre if it is ground, otherwise
    the first ground tile met while scanning ever larger squares around it. */
module StartSearch {
  import opened Grid

  function Abs(n: int): nat
  {
    if n < 0 then -n else n
  }

  /** Chebyshev (chessboard) distance: the radius of the smallest square
      around b that contains a. */
  function Cheb(a: Cell, b: Cell): nat
  {
    var dx := Abs(a.x - b.x);
    var dy := Abs(a.y - b.y);
    if dx < dy then dy else dx
  }

  /** a precedes b in the scan order: smaller x first, then smaller y. */
  predicate ScanBefore(a: Cell, b: Cell)
  {
    a.x < b.x || (a.x == b.x && a.y < b.y)
  }

  ghost predicate HasGround(g: Layout, w: int, h: int)
  {
    exists q :: InBounds(q, w, h) && IsGround(g, q)
  }

  /** p is the ground tile nearest the centre by Chebyshev distance; among
      equally near ground tiles it has the smallest x, then the smallest y. */
  ghost predicate IsNearestGround(g: Layout, w: int, h: int, p: Cell)
  {
    && InBounds(p, w, h) && IsGround(g, p)
    && forall q :: InBounds(q, w, h) && IsGround(g, q) && q != p ==>
         Cheb(p, Centre(w, h)) < Cheb(q, Centre(w, h)) ||
         (Cheb(p, Centre(w, h)) == Cheb(q, Centre(w, h)) && ScanBefore(p, q))
  }

  /** Every in-bounds tile lies within max(w, h) - 1 of the centre, so the
      radii the search tries cover the whole field. */
  lemma RadiusCoversGrid(w: int, h: int, q: Cell)
    requires w >= 1 && h >= 1
    requires InBounds(q, w, h)
    ensures Cheb(q, Centre(w, h)) < if w < h then h else w
  {
  }

  /** The nearest ground tile is unique, so the search result is fully determined. */
  lemma NearestGroundUnique(g: Layout, w: int, h: int, p: Cell, q: Cell)
    requires IsNearestGround(g, w, h, p) && IsNearestGround(g, w, h, q)
    ensures p == q
  {
  }

  /** The centre first, then for radius 1, 2, ... below max(w, h) the whole
      square of that radius, column by column; the origin when nothing is
      ground. */
  method FindStart(g: Layout, w: int, h: int) returns (p: Cell)
    requires w >= 1 && h >= 1 && IsGrid(g, w, h)
    ensures IsGround(g, Centre(w, h)) ==> p == Centre(w, h)
    ensures HasGround(g, w, h) ==> IsNearestGround(g, w, h, p)
    ensures !HasGround(g, w, h) ==> p == Cell(0, 0)
    ensures IsGround(g, p) <==> HasGround(g, w, h)
  {
    var cx := w / 2;
    var cy := h / 2;
    var c := Cell(cx, cy);
    if g[cx][cy] {
      assert IsNearestGround(g, w, h, c);
      return c;
    }
    var limit := if w < h then h else w;
    var radius := 1;
    while radius < limit
      invariant 1 <= radius <= limit
      invariant forall q :: InBounds(q, w, h) && Cheb(q, c) < radius ==> !IsGround(g, q)
    {
      var x := cx - radius;
      while x <= cx + radius
        invariant cx - radius <= x <= cx + radius + 1
        invariant forall q :: InBounds(q, w, h) && Cheb(q, c) <= radius && q.x < x ==> !IsGround(g, q)
      {
        var y := cy - radius;
        while y <= cy + radius
          invariant cy - radius <= y <= cy + radius + 1
          invariant forall q ::
            InBounds(q, w, h) && Cheb(q, c) <= radius && (q.x < x || (q.x == x && q.y < y))
            ==> !IsGround(g, q)
        {
          if 0 <= x < w && 0 <= y < h {
            if g[x][y] {
              p := Cell(x, y);
              assert Cheb(p, c) == radius;
              assert IsNearestGround(g, w, h, p);
              return p;
            }
          }
          y := y + 1;
        }
        x := x + 1;
      }
      radius := radius + 1;
    }
    forall q | InBounds(q, w, h) ensures !IsGround(g, q) {
      RadiusCoversGrid(w, h, q);
    }
    p := Cell(0, 0);
  }
}
