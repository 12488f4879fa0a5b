/** Level-progress bookkeeping of the game manager: the move counter, the
    once-per-level completion latch, the star rating and the scene order. */
module Progress {
  import opened Painting

  /** What the manager tracks about the current level. `pieces` are the
      ground pieces found when the level was set up. */
  datatype Level = Level(pieces: seq<Piece>, moveCount: int, levelComplete: bool, moveCountForPerfect: int)

  /** What a completion check announces: nothing, or the level's result. */
  datatype Report = Quiet | Completed(stars: int, isPerfect: bool)

  /** Stars for finishing in moveCount moves: 3 within moveCountForPerfect,
      2 within one and a half times that (moveCount <= 1.5 * perfect, kept
      exact as 2 * moveCount <= 3 * perfect), otherwise 1. */
  function StarRating(moveCount: int, perfect: int): (stars: int)
    ensures 1 <= stars <= 3
    ensures stars == 3 <==> moveCount <= perfect
  {
    if moveCount <= perfect then 3
    else if 2 * moveCount <= 3 * perfect then 2
    else 1
  }

  /** For a non-negative move count, the rating is one star plus one for
      each threshold the count stays within. The counter starts at 0 and only
      counts up, so it stays non-negative for fewer than 2^31 moves. */
  lemma StarsCountThresholds(moveCount: int, perfect: int)
    requires moveCount >= 0
    ensures StarRating(moveCount, perfect) ==
      1 + (if moveCount <= perfect then 1 else 0) + (if 2 * moveCount <= 3 * perfect then 1 else 0)
  {
  }

  /** More moves never earn more stars. */
  lemma StarsNonIncreasing(m1: int, m2: int, perfect: int)
    requires m1 <= m2
    ensures StarRating(m2, perfect) <= StarRating(m1, perfect)
  {
  }

  /** True when every piece is coloured, scanning in order and stopping at
      the first uncoloured one. */
  function Finished(pieces: seq<Piece>): (b: bool)
    ensures b <==> forall i :: 0 <= i < |pieces| ==> pieces[i].isColored
  {
    |pieces| == 0 || (pieces[0].isColored && Finished(pieces[1..]))
  }

  /** The level was set up again: the pieces are the ones now in the scene,
      no moves have been made and the level is not complete. */
  function SetupNewLevel(lv: Level, found: seq<Piece>): (r: Level)
    ensures r.pieces == found && r.moveCount == 0 && !r.levelComplete
    ensures r.moveCountForPerfect == lv.moveCountForPerfect
  {
    Level(found, 0, false, lv.moveCountForPerfect)
  }

  /** One more move; nothing else changes. */
  function IncrementMoveCount(lv: Level): (r: Level)
    ensures r.moveCount == lv.moveCount + 1
    ensures r.pieces == lv.pieces && r.levelComplete == lv.levelComplete
    ensures r.moveCountForPerfect == lv.moveCountForPerfect
  {
    lv.(moveCount := lv.moveCount + 1)
  }

  /** Completion: set the latch and announce the rating; it is perfect
      exactly when it is three stars. */
  function OnLevelComplete(lv: Level): (r: (Level, Report))
    ensures r.0 == lv.(levelComplete := true)
    ensures r.1.Completed? && r.1.stars == StarRating(lv.moveCount, lv.moveCountForPerfect)
    ensures r.1.isPerfect <==> lv.moveCount <= lv.moveCountForPerfect
  {
    var stars := StarRating(lv.moveCount, lv.moveCountForPerfect);
    (lv.(levelComplete := true), Completed(stars, stars == 3))
  }

  /** The completion check: ignored once the level is complete, otherwise
      completes the level exactly when every piece is coloured. */
  function CheckComplete(lv: Level): (r: (Level, Report))
    ensures lv.levelComplete ==> r == (lv, Quiet)
    ensures !lv.levelComplete ==> (r.1.Completed? <==> forall i :: 0 <= i < |lv.pieces| ==> lv.pieces[i].isColored)
    ensures r.0 == lv.(levelComplete := lv.levelComplete || r.1.Completed?)
  {
    if lv.levelComplete then (lv, Quiet)
    else if Finished(lv.pieces) then OnLevelComplete(lv)
    else (lv, Quiet)
  }

  /** The ball rolls over piece i and paints it; a first-time painting
      triggers the completion check. */
  function PaintPiece(lv: Level, i: int, color: Color): (r: (Level, Report))
    requires 0 <= i < |lv.pieces|
    ensures |r.0.pieces| == |lv.pieces| && r.0.pieces[i].isColored
    ensures forall j :: 0 <= j < |lv.pieces| && j != i ==> r.0.pieces[j] == lv.pieces[j]
    ensures r.0.moveCount == lv.moveCount
    ensures lv.pieces[i].isColored ==> r == (lv, Quiet)
    ensures !lv.pieces[i].isColored ==> r.0.pieces[i] == Piece(true, color)
    ensures r.1.Completed? <==> !lv.levelComplete && !lv.pieces[i].isColored && Finished(r.0.pieces)
    ensures r.0.levelComplete == (lv.levelComplete || r.1.Completed?)
  {
    var painted := Colored(lv.pieces[i], color);
    if painted.checkRequested then CheckComplete(lv.(pieces := lv.pieces[i := painted.piece]))
    else (lv, Quiet)
  }

  /** Things that happen during a level. */
  datatype Event = Move | Paint(index: int, color: Color)

  predicate EventsFit(events: seq<Event>, n: int)
  {
    forall k :: 0 <= k < |events| && events[k].Paint? ==> 0 <= events[k].index < n
  }

  function Moves(events: seq<Event>): nat
  {
    if |events| == 0 then 0
    else (if events[0].Move? then 1 else 0) + Moves(events[1..])
  }

  /** Plays the events in order; returns the final level and how many
      completions were announced. */
  function Run(lv: Level, events: seq<Event>): (Level, nat)
    requires EventsFit(events, |lv.pieces|)
    decreases |events|
  {
    if |events| == 0 then (lv, 0)
    else
      var (next, report) :=
        match events[0]
        case Move => (IncrementMoveCount(lv), Quiet)
        case Paint(i, c) => PaintPiece(lv, i, c);
      var (last, fired) := Run(next, events[1..]);
      (last, fired + (if report.Completed? then 1 else 0))
  }

  /** The latch tracks the board: the level is complete exactly when every
      piece is coloured. Holds for a freshly set-up level with at least one
      uncoloured piece. */
  predicate LatchTracksBoard(lv: Level)
  {
    lv.levelComplete == Finished(lv.pieces)
  }

  /** Over any run of moves and paintings of one level, with the latch
      tracking the board: it keeps tracking it, the completion is announced
      once if the run finishes the board and never otherwise (at most once
      per level), coloured pieces stay coloured, and the move counter grows
      by the number of moves. */
  lemma {:induction false} CompletionFiresOnce(lv: Level, events: seq<Event>)
    requires EventsFit(events, |lv.pieces|)
    requires LatchTracksBoard(lv)
    ensures var (last, fired) := Run(lv, events);
      && |last.pieces| == |lv.pieces|
      && LatchTracksBoard(last)
      && fired == (if !lv.levelComplete && last.levelComplete then 1 else 0)
      && (forall i :: 0 <= i < |lv.pieces| && lv.pieces[i].isColored ==> last.pieces[i].isColored)
      && last.moveCount == lv.moveCount + Moves(events)
    decreases |events|
  {
    if |events| > 0 {
      var (next, report) :=
        match events[0]
        case Move => (IncrementMoveCount(lv), Quiet)
        case Paint(i, c) => PaintPiece(lv, i, c);
      if events[0].Paint? {
        var i := events[0].index;
        if !lv.pieces[i].isColored {
          assert !Finished(lv.pieces);
        }
      }
      assert LatchTracksBoard(next);
      assert EventsFit(events[1..], |next.pieces|);
      CompletionFiresOnce(next, events[1..]);
    }
  }

  /** A level set up with at least one uncoloured piece announces its
      completion exactly once if the play finishes painting every piece,
      and not at all otherwise; its move counter is the number of moves. */
  lemma FreshLevelCompletesOnce(lv: Level, found: seq<Piece>, events: seq<Event>)
    requires EventsFit(events, |found|)
    requires exists i :: 0 <= i < |found| && !found[i].isColored
    ensures var (last, fired) := Run(SetupNewLevel(lv, found), events);
      && fired == (if forall i :: 0 <= i < |last.pieces| ==> last.pieces[i].isColored then 1 else 0)
      && last.levelComplete == (fired == 1)
      && last.moveCount == Moves(events)
  {
    CompletionFiresOnce(SetupNewLevel(lv, found), events);
  }

  /** Once the level is complete nothing in the level announces completion again. */
  lemma {:induction false} CompleteLevelStaysQuiet(lv: Level, events: seq<Event>)
    requires EventsFit(events, |lv.pieces|)
    requires lv.levelComplete
    ensures Run(lv, events).0.levelComplete && Run(lv, events).1 == 0
    decreases |events|
  {
    if |events| > 0 {
      var next :=
        match events[0]
        case Move => IncrementMoveCount(lv)
        case Paint(i, c) => PaintPiece(lv, i, c).0;
      assert EventsFit(events[1..], |next.pieces|);
      CompleteLevelStaysQuiet(next, events[1..]);
    }
  }

  /** A level whose pieces are all coloured when it is set up (in
      particular a level without ground pieces) never completes: the check
      runs only after a first-time painting, and no piece is left to paint
      for the first time. */
  lemma {:induction false} PaintedLevelNeverCompletes(lv: Level, events: seq<Event>)
    requires EventsFit(events, |lv.pieces|)
    requires !lv.levelComplete && Finished(lv.pieces)
    ensures !Run(lv, events).0.levelComplete && Run(lv, events).1 == 0
    decreases |events|
  {
    if |events| > 0 {
      var next :=
        match events[0]
        case Move => IncrementMoveCount(lv)
        case Paint(i, c) => PaintPiece(lv, i, c).0;
      assert EventsFit(events[1..], |next.pieces|);
      assert Finished(next.pieces);
      PaintedLevelNeverCompletes(next, events[1..]);
    }
  }

  /** The scene after the current one, wrapping to the first after the last. */
  function NextSceneIndex(current: int, sceneCount: int): (next: int)
    ensures 0 <= current < sceneCount ==> 0 <= next < sceneCount
    ensures 0 <= current < sceneCount ==> next == (current + 1) % sceneCount
  {
    var next := current + 1;
    if next >= sceneCount then 0 else next
  }

  /** The scene index after k level transitions. */
  function AdvanceScenes(current: int, sceneCount: int, k: nat): int
  {
    if k == 0 then current else NextSceneIndex(AdvanceScenes(current, sceneCount, k - 1), sceneCount)
  }

  /** Scenes are played in a cycle: within one round of k <= sceneCount
      transitions the index climbs from current to the last scene, wraps to
      the first and climbs again, so after sceneCount transitions play is
      back at the starting scene. */
  lemma {:induction false} ScenesCycle(current: int, sceneCount: int, k: nat)
    requires 0 <= current < sceneCount && k <= sceneCount
    ensures AdvanceScenes(current, sceneCount, k) ==
      if current + k < sceneCount then current + k else current + k - sceneCount
    ensures k == sceneCount ==> AdvanceScenes(current, sceneCount, k) == current
  {
    if k > 0 {
      ScenesCycle(current, sceneCount, k - 1);
    }
  }
}
