/** A paintable ground tile: a latch that records the first colour it is
    painted with and asks for a completion check exactly then. */
module Painting {

  /** An RGBA colour. */
  datatype Color = Color(r: real, g: real, b: real, a: real)

  /** The state of one ground piece that the game logic reads. */
  datatype Piece = Piece(isColored: bool, targetColor: Color)

  /** What a paint call leaves behind: the piece, and whether it asked the
      game manager for a completion check. */
  datatype Painted = Painted(piece: Piece, checkRequested: bool)

  /** A freshly placed piece: not coloured, default (all-zero) colour. */
  function NewPiece(): (p: Piece)
    ensures !p.isColored
  {
    Piece(false, Color(0.0, 0.0, 0.0, 0.0))
  }

  /** Painting a piece. A coloured piece ignores the call entirely; an
      uncoloured one becomes coloured with the given colour and requests
      one completion check. */
  function Colored(p: Piece, color: Color): (r: Painted)
    ensures r.piece.isColored
    ensures p.isColored ==> r == Painted(p, false)
    ensures !p.isColored ==> r.piece == Piece(true, color) && r.checkRequested
    ensures r.checkRequested <==> !p.isColored
  {
    if p.isColored then Painted(p, false)
    else Painted(Piece(true, color), true)
  }

  /** Paints a piece with each colour of a sequence in turn; returns the
      final piece and how many completion checks were requested. */
  function PaintAll(p: Piece, colors: seq<Color>): (Piece, nat)
    decreases |colors|
  {
    if |colors| == 0 then (p, 0)
    else
      var first := Colored(p, colors[0]);
      var (last, checks) := PaintAll(first.piece, colors[1..]);
      (last, checks + (if first.checkRequested then 1 else 0))
  }

  /** Painting is a latch: the first colour sticks, later calls change
      nothing, and exactly one completion check is requested over any run
      of calls that starts from an uncoloured piece. */
  lemma {:induction false} PaintLatch(p: Piece, colors: seq<Color>)
    ensures var (last, checks) := PaintAll(p, colors);
      && (|colors| == 0 ==> last == p && checks == 0)
      && (p.isColored ==> last == p && checks == 0)
      && (!p.isColored && |colors| > 0 ==> last == Piece(true, colors[0]) && checks == 1)
    decreases |colors|
  {
    if |colors| > 0 {
      var first := Colored(p, colors[0]);
      PaintLatch(first.piece, colors[1..]);
    }
  }
}
