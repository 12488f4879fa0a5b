/** The random level: every tile is ground with a probability set by the wall
    density, then a flood out of the centre turns some walls into ground so
    that a region around the centre is open. Random.value draws are the
    stream `value` (each in [0, 1]); Random.Range(0, n) draws are the stream
    `pick`, reduced modulo n. */
module Repair {
  import opened Grid

  /** The repair target (int)(w * h * 0.6f), as the integer floor of 3wh/5. */
  function MinTiles(w: int, h: int): int
  {
    (w * h * 3) / 5
  }

  /** A wall neighbour is converted when its Random.value draw exceeds this. */
  const ConvertAbove: real := 0.3

  /** Why the repair loop stopped: its own exit condition held (Settled), or
      the iteration budget given to the model ran out first (OutOfFuel). */
  datatype Outcome = Settled | OutOfFuel

  /** The position of the first occurrence of v in s. */
  function FirstIndex(s: seq<Cell>, v: Cell): (k: nat)
    requires v in s
    ensures k < |s| && s[k] == v && v !in s[..k]
  {
    if s[0] == v then 0
    else
      var k := 1 + FirstIndex(s[1..], v);
      assert s[..k] == [s[0]] + s[1..][..k - 1];
      k
  }

  /** List removal of the first occurrence of v (List<T>.Remove). */
  function RemoveFirst(s: seq<Cell>, v: Cell): (r: seq<Cell>)
    ensures forall c :: c in r ==> c in s
    ensures v in s ==> |r| == |s| - 1
    ensures v !in s ==> r == s
    ensures Distinct(s) ==> Distinct(r) && v !in r && forall c :: c in s && c != v ==> c in r
  {
    if |s| == 0 then []
    else if s[0] == v then s[1..]
    else
      var rest := RemoveFirst(s[1..], v);
      assert Distinct(s) ==> s[0] !in s[1..];
      [s[0]] + rest
  }

  /** Cutting entry k out of t and putting x in front is cutting entry
      k + 1 out of x in front of t. */
  lemma CutAfterHead(x: Cell, t: seq<Cell>, k: nat)
    requires k < |t|
    ensures [x] + (t[..k] + t[k + 1..]) == ([x] + t)[..k + 1] + ([x] + t)[k + 2..]
  {
  }

  /** The entry removal drops is the first v, and the entries before and
      after it keep their order; a later pick by position reads this order. */
  lemma {:induction false} RemoveFirstKeepsOrder(s: seq<Cell>, v: Cell)
    requires v in s
    ensures RemoveFirst(s, v) == s[..FirstIndex(s, v)] + s[FirstIndex(s, v) + 1..]
  {
    if s[0] != v {
      var t := s[1..];
      assert s == [s[0]] + t;
      RemoveFirstKeepsOrder(t, v);
      CutAfterHead(s[0], t, FirstIndex(t, v));
    }
  }

  /** The repair invariant over the working layout g grown from the input
      layout grid: g only gained ground and its centre is ground; the open
      list holds distinct in-bounds ground tiles; every open tile and every
      converted tile carries a ground path from the centre in `paths`. */
  ghost predicate Frontier(g: Layout, grid: Layout, open: seq<Cell>, paths: map<Cell, seq<Cell>>, w: int, h: int)
  {
    && IsGrid(g, w, h)
    && Grows(grid, g)
    && IsGround(g, Centre(w, h))
    && Distinct(open)
    && (forall c :: c in open ==> InBounds(c, w, h) && IsGround(g, c) && c in paths)
    && (forall c :: c in paths ==> IsGroundPath(g, paths[c], Centre(w, h), c))
    && (forall c :: IsGround(g, c) && !IsGround(grid, c) ==> c in paths)
  }

  /** Converting a wall next to a reached tile and opening it keeps the invariant. */
  lemma ConvertKeepsFrontier(g: Layout, grid: Layout, open: seq<Cell>, paths: map<Cell, seq<Cell>>,
                             w: int, h: int, cur: Cell, n: Cell)
    requires Frontier(g, grid, open, paths, w, h)
    requires cur in paths && Adjacent(cur, n)
    requires InBounds(n, w, h) && !IsGround(g, n)
    ensures Frontier(SetGround(g, n), grid, open + [n], paths[n := paths[cur] + [n]], w, h)
  {
  }

  /** Re-opening a ground neighbour of a reached tile keeps the invariant. */
  lemma ReopenKeepsFrontier(g: Layout, grid: Layout, open: seq<Cell>, paths: map<Cell, seq<Cell>>,
                            w: int, h: int, cur: Cell, n: Cell)
    requires Frontier(g, grid, open, paths, w, h)
    requires cur in paths && Adjacent(cur, n)
    requires InBounds(n, w, h) && IsGround(g, n) && n !in open
    ensures Frontier(g, grid, open + [n], if n in paths then paths else paths[n := paths[cur] + [n]], w, h)
  {
  }

  /** A tile of a field with at least two tiles has an in-bounds neighbour. */
  lemma HasNeighbour(c: Cell, w: int, h: int)
    requires InBounds(c, w, h) && w * h >= 2
    ensures exists j :: 0 <= j < 4 && InBounds(Neighbours(c)[j], w, h)
  {
    if h >= 2 {
      if c.y + 1 < h {
        assert InBounds(Neighbours(c)[0], w, h);
      } else {
        assert InBounds(Neighbours(c)[1], w, h);
      }
    } else {
      if c.x + 1 < w {
        assert InBounds(Neighbours(c)[3], w, h);
      } else {
        assert InBounds(Neighbours(c)[2], w, h);
      }
    }
  }

  /** The connectivity repair, run for at most `fuel` iterations. Forces the
      centre to ground, then repeatedly takes a random tile off the open
      list and, for each in-bounds neighbour in the order up, down, left,
      right: a wall is converted (if its draw exceeds 0.3), opened and
      counted; a ground tile not on the list is opened again. Returns the
      layout, the tile counter, the open list at exit and why it stopped. */
  method EnsureConnected(grid: Layout, w: int, h: int, value: nat -> real, pick: nat -> nat, fuel: nat)
    returns (g: Layout, tiles: int, frontier: seq<Cell>, outcome: Outcome)
    requires w >= 1 && h >= 1 && IsGrid(grid, w, h)
    ensures IsGrid(g, w, h)
    ensures IsGround(g, Centre(w, h))
    ensures forall c :: IsGround(grid, c) ==> IsGround(g, c)
    ensures forall c :: IsGround(g, c) && !IsGround(grid, c) ==> Reachable(g, Centre(w, h), c)
    ensures forall c :: c in frontier ==> InBounds(c, w, h) && IsGround(g, c) && Reachable(g, Centre(w, h), c)
    ensures tiles == 1 + Count(g) - Count(SetGround(grid, Centre(w, h)))
    ensures outcome == Settled <==> |frontier| == 0 || tiles >= MinTiles(w, h)
    ensures AllGround(grid, w, h) && w * h >= 4 ==> outcome == OutOfFuel
  {
    var centre := Centre(w, h);
    var g0 := SetGround(grid, centre);
    g := g0;
    var open := [centre];
    ghost var paths: map<Cell, seq<Cell>> := map[centre := [centre]];
    tiles := 1;
    var draws: nat := 0;
    var steps: nat := 0;
    while |open| > 0 && tiles < MinTiles(w, h) && steps < fuel
      invariant Frontier(g, grid, open, paths, w, h)
      invariant tiles == 1 + Count(g) - Count(g0)
      invariant AllGround(grid, w, h) ==> tiles == 1
      invariant AllGround(grid, w, h) && w * h >= 2 ==> |open| > 0
      decreases fuel - steps
    {
      var cur := open[pick(steps) % |open|];
      open := RemoveFirst(open, cur);
      steps := steps + 1;
      var nbrs := Neighbours(cur);
      var i := 0;
      while i < 4
        invariant 0 <= i <= 4
        invariant cur in paths
        invariant Frontier(g, grid, open, paths, w, h)
        invariant tiles == 1 + Count(g) - Count(g0)
        invariant AllGround(grid, w, h) ==> tiles == 1
        invariant AllGround(grid, w, h) && |open| == 0 ==>
          forall j :: 0 <= j < i ==> !InBounds(nbrs[j], w, h)
      {
        var n := nbrs[i];
        if 0 <= n.x < w && 0 <= n.y < h {
          var wall := !g[n.x][n.y];
          var convert := false;
          if wall {
            convert := value(draws) > ConvertAbove;
            draws := draws + 1;
          }
          if convert {
            CountSetGround(g, n);
            ConvertKeepsFrontier(g, grid, open, paths, w, h, cur, n);
            g := SetGround(g, n);
            open := open + [n];
            paths := paths[n := paths[cur] + [n]];
            tiles := tiles + 1;
          } else if !wall && n !in open {
            ReopenKeepsFrontier(g, grid, open, paths, w, h, cur, n);
            open := open + [n];
            if n !in paths {
              paths := paths[n := paths[cur] + [n]];
            }
          }
        }
        i := i + 1;
      }
      if AllGround(grid, w, h) && w * h >= 2 {
        HasNeighbour(cur, w, h);
      }
    }
    frontier := open;
    outcome := if |open| > 0 && tiles < MinTiles(w, h) then OutOfFuel else Settled;
    forall c | c in paths ensures Reachable(g, centre, c) {
      assert IsGroundPath(g, paths[c], centre, c);
    }
  }

  /** The initial random fill, column by column: tile (x, y) takes draw
      number x * h + y and is ground when that draw exceeds the wall
      density. Returns the layout and the number of draws consumed. */
  method FillRandom(w: int, h: int, wallDensity: real, value: nat -> real) returns (g: Layout, draws: nat)
    requires w >= 0 && h >= 0
    ensures IsGrid(g, w, h)
    ensures draws == w * h
    ensures forall x, y :: 0 <= x < w && 0 <= y < h ==> (g[x][y] <==> value(x * h + y) > wallDensity)
  {
    g := [];
    draws := 0;
    var x := 0;
    while x < w
      invariant 0 <= x <= w
      invariant IsGrid(g, x, h)
      invariant draws == x * h
      invariant forall i, j :: 0 <= i < x && 0 <= j < h ==> (g[i][j] <==> value(i * h + j) > wallDensity)
    {
      var col: seq<bool> := [];
      var y := 0;
      while y < h
        invariant 0 <= y <= h
        invariant |col| == y
        invariant draws == x * h + y
        invariant forall j :: 0 <= j < y ==> (col[j] <==> value(x * h + j) > wallDensity)
      {
        col := col + [value(draws) > wallDensity];
        draws := draws + 1;
        y := y + 1;
      }
      g := g + [col];
      x := x + 1;
    }
  }

  /** The random level: fill, then repair with the draws that follow the
      fill's. Every tile whose fill draw made it ground stays ground; every
      other ground tile is one the repair reached from the centre. */
  method GenerateGrid(w: int, h: int, wallDensity: real, value: nat -> real, pick: nat -> nat, fuel: nat)
    returns (g: Layout, outcome: Outcome)
    requires w >= 1 && h >= 1
    ensures IsGrid(g, w, h)
    ensures IsGround(g, Centre(w, h))
    ensures forall x, y :: 0 <= x < w && 0 <= y < h && value(x * h + y) > wallDensity ==> g[x][y]
    ensures forall c :: InBounds(c, w, h) && IsGround(g, c) && value(c.x * h + c.y) <= wallDensity ==>
              Reachable(g, Centre(w, h), c)
  {
    var raw, used := FillRandom(w, h, wallDensity, value);
    var tiles, frontier;
    g, tiles, frontier, outcome := EnsureConnected(raw, w, h, (k: nat) => value(used + k), pick, fuel);
    forall x, y | 0 <= x < w && 0 <= y < h && value(x * h + y) > wallDensity ensures g[x][y] {
      assert IsGround(raw, Cell(x, y));
    }
  }
}
