/** The "maze" generator: depth-first carving with an explicit stack from
    the origin, stepping one tile at a time. Because it moves to any
    adjacent wall (rather than jumping two tiles and leaving a wall between
    passages), it keeps carving until no wall is left: the result is an
    entirely open field, not a spanning tree of corridors. */
module Maze {
  import opened Grid

  /** The members of s that are in-bounds walls of g; none is listed twice
      when s has no repeats. */
  function WallsAmong(g: Layout, s: seq<Cell>, w: int, h: int): (r: seq<Cell>)
    ensures |r| <= |s|
    ensures Distinct(s) ==> Distinct(r)
    ensures forall c :: c in r <==> c in s && InBounds(c, w, h) && !IsGround(g, c)
  {
    if |s| == 0 then []
    else
      var rest := WallsAmong(g, s[1..], w, h);
      if InBounds(s[0], w, h) && !IsGround(g, s[0]) then [s[0]] + rest else rest
  }

  /** The all-wall w-by-h field. */
  function AllWalls(w: nat, h: nat): (g: Layout)
    ensures IsGrid(g, w, h)
    ensures Count(g) == 0
  {
    var g := seq(w, x => seq(h, y => false));
    CountZero(g);
    g
  }

  /** The carving invariant: every stack entry is an in-bounds ground tile,
      the bottom is the origin, each entry is adjacent to the one below it,
      no tile is on the stack twice, and every ground tile that has left the
      stack has no wall neighbour left. */
  ghost predicate Carving(g: Layout, stack: seq<Cell>, w: int, h: int)
  {
    && IsGrid(g, w, h)
    && IsGround(g, Cell(0, 0))
    && (|stack| > 0 ==> stack[0] == Cell(0, 0))
    && (forall i :: 0 <= i < |stack| ==> InBounds(stack[i], w, h) && IsGround(g, stack[i]))
    && (forall i :: 0 < i < |stack| ==> Adjacent(stack[i - 1], stack[i]))
    && Distinct(stack)
    && (forall c :: InBounds(c, w, h) && IsGround(g, c) && c !in stack ==> Closed(g, c, w, h))
  }

  /** Pushing an adjacent wall after carving it keeps the invariant. */
  lemma PushKeepsCarving(g: Layout, stack: seq<Cell>, w: int, h: int, next: Cell)
    requires Carving(g, stack, w, h) && |stack| > 0
    requires InBounds(next, w, h) && !IsGround(g, next)
    requires Adjacent(stack[|stack| - 1], next)
    ensures Carving(SetGround(g, next), stack + [next], w, h)
  {
  }

  /** Popping a top whose neighbours are all ground keeps the invariant. */
  lemma PopKeepsCarving(g: Layout, stack: seq<Cell>, w: int, h: int)
    requires Carving(g, stack, w, h) && |stack| > 0
    requires Closed(g, stack[|stack| - 1], w, h)
    ensures Carving(g, stack[..|stack| - 1], w, h)
  {
  }

  /** Carves from the origin. pick(k) answers the k-th random choice among
      the wall neighbours of the stack top (reduced modulo their number).
      Returns the layout and the number of loop iterations. */
  method GenerateMaze(w: int, h: int, pick: nat -> nat) returns (g: Layout, steps: nat)
    requires w >= 1 && h >= 1
    ensures IsGrid(g, w, h)
    ensures AllGround(g, w, h)
    ensures Count(g) == w * h
    ensures steps == 2 * (w * h) - 1
  {
    var origin := Cell(0, 0);
    g := SetGround(AllWalls(w, h), origin);
    CountSetGround(AllWalls(w, h), origin);
    var stack := [origin];
    var draws: nat := 0;
    steps := 0;
    CountBound(g, w, h);
    while |stack| > 0
      invariant Carving(g, stack, w, h)
      invariant Count(g) <= w * h
      invariant steps + |stack| + 1 == 2 * Count(g)
      decreases 2 * (w * h - Count(g)) + |stack|
    {
      var top := stack[|stack| - 1];
      var open := WallsAmong(g, Neighbours(top), w, h);
      if |open| > 0 {
        var next := open[pick(draws) % |open|];
        assert next in open;
        draws := draws + 1;
        CountSetGround(g, next);
        PushKeepsCarving(g, stack, w, h, next);
        g := SetGround(g, next);
        stack := stack + [next];
        CountBound(g, w, h);
      } else {
        assert Closed(g, top, w, h);
        PopKeepsCarving(g, stack, w, h);
        stack := stack[..|stack| - 1];
      }
      steps := steps + 1;
    }
    forall c | InBounds(c, w, h) ensures IsGround(g, c) {
      ClosedFillsGrid(g, w, h, c);
    }
    CountBound(g, w, h);
  }
}
