/** The game rules as functions over a snapshot of the engine's fields.
    Every method of the engine class is proved to move its fields from
    `s` to the function of `s` defined here, and the lemmas below state
    what those functions guarantee. */
module Rules {
  import opened Pieces
  import opened Board

  /** Milliseconds between two forced descents. */
  const FallInterval: int := 500

  datatype Option<T> = None | Some(value: T)

  /** The one input read per tick. F1..F4 restart a finished game; F5 only
      hides the application, which has no effect on the game state. */
  datatype Key = NoKey | Left | Right | Down | Up | F1 | F2 | F3 | F4 | F5 {
    predicate IsRestart() {
      F1? || F2? || F3? || F4?
    }
  }

  /** All the engine's game fields at one moment. */
  datatype Snapshot = Snapshot(
    board: Grid,
    piece: Option<Tag>,
    x: int,
    y: int,
    rot: nat,
    fallTime: int,
    score: nat,
    gameOver: bool)

  /** The shape invariant: the grid keeps its dimensions and the rotation
      index of a live piece stays below its rotation count. */
  predicate Consistent(s: Snapshot) {
    WellFormed(s.board) && (s.piece.Some? ==> s.rot < RotationCount(s.piece.value))
  }

  /** The collision test of the piece shifted by (dx, dy) and turned to
      rotation `rot`; with no piece it reports a collision. The test scans
      the shape's offsets (Board.ShapeCollides), which Board.ShapeCollidesIff
      shows to answer exactly SomeCellBlocked. */
  function CollidesAt(s: Snapshot, dx: int, dy: int, rot: nat): (r: bool)
    requires WellFormed(s.board)
    ensures s.piece.None? ==> r
  {
    match s.piece
    case None => true
    case Some(t) => SomeCellBlocked(s.board, Shape(t, rot), s.x + dx, s.y + dy)
  }

  /** The live-piece invariant: while the game runs, a live piece overlaps
      no occupied cell and stays within the walls and above the floor. */
  predicate Fits(s: Snapshot)
    requires WellFormed(s.board)
  {
    !s.gameOver && s.piece.Some? ==> !CollidesAt(s, 0, 0, s.rot)
  }

  /** The piece's absolute cells whose row is on the board; empty when there
      is no piece. */
  function PieceCells(s: Snapshot): (r: seq<Cell>)
    ensures s.piece.None? ==> r == []
    ensures |r| <= 4
    ensures forall k :: 0 <= k < |r| ==> 0 <= r[k].y < Height
  {
    match s.piece
    case None => []
    case Some(t) => VisibleCells(Shape(t, s.rot), s.x, s.y)
  }

  // ---------------------------------------------------------------------
  // Transitions
  // ---------------------------------------------------------------------

  /** A new piece of kind `t` at the top centre in rotation 0; the game ends
      if it collides there. The game-over flag is only ever set here. */
  function Spawned(s: Snapshot, t: Tag): Snapshot
    requires WellFormed(s.board)
  {
    var r := s.(piece := Some(t), x := SpawnX, y := 0, rot := 0);
    r.(gameOver := s.gameOver || CollidesAt(r, 0, 0, 0))
  }

  /** A one-cell move, committed only when the shifted piece does not collide. */
  function Translated(s: Snapshot, dx: int, dy: int): Snapshot
    requires WellFormed(s.board)
  {
    if CollidesAt(s, dx, dy, s.rot) then s else s.(x := s.x + dx, y := s.y + dy)
  }

  /** The index of the next rotation state, wrapping to 0 after the last. */
  function NextRotation(s: Snapshot): (n: nat)
    requires s.piece.Some?
    ensures n < RotationCount(s.piece.value)
    ensures s.rot + 1 < RotationCount(s.piece.value) ==> n == s.rot + 1
    ensures s.rot + 1 == RotationCount(s.piece.value) ==> n == 0
  {
    (s.rot + 1) % RotationCount(s.piece.value)
  }

  /** Turning to the next rotation state, committed only when the turned
      piece does not collide in place (no wall kicks). */
  function Rotated(s: Snapshot): Snapshot
    requires WellFormed(s.board)
  {
    if s.piece.None? || CollidesAt(s, 0, 0, NextRotation(s)) then s
    else s.(rot := NextRotation(s))
  }

  /** The board once the piece's colour is written into its visible cells. */
  function StampedBoard(s: Snapshot): (b: Grid)
    requires WellFormed(s.board) && s.piece.Some?
    ensures WellFormed(b)
  {
    Stamp(s.board, PieceCells(s), Color(s.piece.value))
  }

  /** Locking: stamp the piece, clear the full rows for a flat bonus each,
      then spawn a piece of kind `t`. Without a piece nothing happens, and
      no piece is spawned either. */
  function Locked(s: Snapshot, t: Tag): Snapshot
    requires WellFormed(s.board)
  {
    if s.piece.None? then s
    else
      var b := StampedBoard(s);
      Spawned(s.(board := Cleared(b), score := s.score + LineBonus * CountFull(b)), t)
  }

  /** A restart: empty board, score 0, game running, timer at `now`, and a
      new piece. Piece, position and rotation are overwritten by the spawn. */
  function Restarted(s: Snapshot, now: int, t: Tag): Snapshot {
    Spawned(s.(board := EmptyBoard(), score := 0, gameOver := false, fallTime := now), t)
  }

  /** The state of a freshly constructed game object: empty board, no
      piece, everything else zero, not over. */
  function Initial(): Snapshot {
    Snapshot(EmptyBoard(), None, 0, 0, 0, 0, 0, false)
  }

  /** Bringing the application to the foreground at time `now`: the timer
      restarts, and a piece of kind `t` is spawned if there is none. */
  function Entered(s: Snapshot, now: int, t: Tag): Snapshot
    requires WellFormed(s.board)
  {
    var r := s.(fallTime := now);
    if r.piece.None? then Spawned(r, t) else r
  }

  /** The input part of a running tick: at most one action. A successful
      manual descent also restarts the fall timer. */
  function AfterKey(s: Snapshot, key: Key, now: int): Snapshot
    requires WellFormed(s.board)
  {
    match key
    case Left => Translated(s, -1, 0)
    case Right => Translated(s, 1, 0)
    case Down => if CollidesAt(s, 0, 1, s.rot) then s else s.(y := s.y + 1, fallTime := now)
    case Up => Rotated(s)
    case _ => s
  }

  /** The gravity part of a running tick: once the interval has elapsed,
      the piece descends or, if it cannot, is locked; the timer restarts
      either way. */
  function AfterGravity(s: Snapshot, now: int, t: Tag): Snapshot
    requires WellFormed(s.board)
  {
    if now - s.fallTime >= FallInterval then
      (if CollidesAt(s, 0, 1, s.rot) then Locked(s, t) else Translated(s, 0, 1)).(fallTime := now)
    else s
  }

  /** One tick. A finished game only reacts to a restart key; a running one
      applies the key, then gravity. `t` is the random piece kind that a
      spawn in this tick would use. */
  function Step(s: Snapshot, key: Key, now: int, t: Tag): Snapshot
    requires WellFormed(s.board)
  {
    if s.gameOver then
      (if key.IsRestart() then Restarted(s, now, t) else s)
    else AfterGravity(AfterKey(s, key, now), now, t)
  }

  // ---------------------------------------------------------------------
  // Properties
  // ---------------------------------------------------------------------

  /** A spawn keeps the shape invariant and re-establishes the live-piece
      invariant: either the new piece fits or the game is over. */
  lemma SpawnedFits(s: Snapshot, t: Tag)
    requires Consistent(s)
    ensures Consistent(Spawned(s, t)) && Fits(Spawned(s, t))
    ensures Spawned(s, t).gameOver <==> s.gameOver || SomeCellBlocked(s.board, Shape(t, 0), SpawnX, 0)
  {
  }

  /** Testing a shifted piece is testing the piece at the shifted pivot. */
  lemma ShiftedCollision(s: Snapshot, dx: int, dy: int, rot: nat)
    requires WellFormed(s.board)
    ensures CollidesAt(s.(x := s.x + dx, y := s.y + dy), 0, 0, rot) == CollidesAt(s, dx, dy, rot)
  {
  }

  /** A committed move keeps both invariants, since the move was checked
      against exactly the cells the piece then occupies. */
  lemma {:induction false} TranslatedKeepsInvariant(s: Snapshot, dx: int, dy: int)
    requires Consistent(s) && Fits(s)
    ensures Consistent(Translated(s, dx, dy)) && Fits(Translated(s, dx, dy))
  {
    ShiftedCollision(s, dx, dy, s.rot);
  }

  /** A rotation either does nothing or advances the index cyclically; the
      index stays below the rotation count, so I and O stay at 0. */
  lemma {:induction false} RotatedKeepsInvariant(s: Snapshot)
    requires Consistent(s) && Fits(s)
    ensures var r := Rotated(s);
      Consistent(r) && Fits(r) &&
      r.(rot := s.rot) == s &&
      (s.piece == Some(I) || s.piece == Some(O) ==> r.rot == 0)
  {
  }

  /** The cells a lock writes: every visible cell of a fitting piece was
      empty, now holds the piece's (non-zero) colour, and no other cell of
      the grid changes. */
  lemma {:induction false} LockFillsEmptyCells(s: Snapshot)
    requires Consistent(s) && Fits(s) && !s.gameOver && s.piece.Some?
    ensures var b, color := StampedBoard(s), Color(s.piece.value);
      color != 0 &&
      (forall c :: c in PieceCells(s) ==>
         0 <= c.x < Width && 0 <= c.y < Height && s.board[c.y][c.x] == 0 && b[c.y][c.x] == color) &&
      (forall y, x :: 0 <= y < Height && 0 <= x < Width && Cell(x, y) !in PieceCells(s) ==>
         b[y][x] == s.board[y][x])
  {
    var t := s.piece.value;
    FittingCellsAreEmpty(s.board, Shape(t, s.rot), s.x, s.y);
  }

  /** A lock keeps both invariants: the board keeps its shape, and the next
      piece either fits or ends the game. */
  lemma {:induction false} LockedKeepsInvariant(s: Snapshot, t: Tag)
    requires Consistent(s) && Fits(s)
    ensures Consistent(Locked(s, t)) && Fits(Locked(s, t))
    ensures s.piece.Some? ==> Locked(s, t).score == s.score + LineBonus * CountFull(StampedBoard(s))
  {
    if s.piece.Some? {
      var b := StampedBoard(s);
      SpawnedFits(s.(board := Cleared(b), score := s.score + LineBonus * CountFull(b)), t);
    }
  }

  /** A restart always yields a fresh running game: a spawn on an empty
      board never collides. Restarting twice is the same as restarting once. */
  lemma {:induction false} RestartIsFreshGame(s: Snapshot, now: int, t: Tag)
    ensures var r := Restarted(s, now, t);
      r.board == EmptyBoard() && r.score == 0 && !r.gameOver && r.fallTime == now &&
      r.piece == Some(t) && r.x == SpawnX && r.y == 0 && r.rot == 0 &&
      Consistent(r) && Fits(r)
    ensures Restarted(Restarted(s, now, t), now, t) == Restarted(s, now, t)
  {
    SpawnFitsOnEmptyBoard(t, 0);
  }

  /** The first time the game comes to the foreground it starts running,
      with a piece of kind `t` that fits at the top centre of the empty
      board. */
  lemma {:induction false} FirstEntryStartsGame(now: int, t: Tag)
    ensures var r := Entered(Initial(), now, t);
      r.piece == Some(t) && !r.gameOver && r.score == 0 && r.board == EmptyBoard() &&
      r.x == SpawnX && r.y == 0 && r.rot == 0 && r.fallTime == now &&
      Consistent(r) && Fits(r)
  {
    SpawnFitsOnEmptyBoard(t, 0);
  }

  /** Entering the foreground keeps both invariants. Later entries, with a
      piece already in play, keep the piece, its position and the board:
      only the timer changes. */
  lemma {:induction false} EnteredKeepsInvariant(s: Snapshot, now: int, t: Tag)
    requires Consistent(s) && Fits(s)
    ensures Consistent(Entered(s, now, t)) && Fits(Entered(s, now, t))
    ensures s.piece.Some? ==> Entered(s, now, t) == s.(fallTime := now)
  {
    if s.piece.None? {
      SpawnedFits(s.(fallTime := now), t);
    }
  }

  /** The input part of a tick keeps both invariants. */
  lemma {:induction false} AfterKeyKeepsInvariant(s: Snapshot, key: Key, now: int)
    requires Consistent(s) && Fits(s)
    ensures Consistent(AfterKey(s, key, now)) && Fits(AfterKey(s, key, now))
  {
    match key {
      case Left => TranslatedKeepsInvariant(s, -1, 0);
      case Right => TranslatedKeepsInvariant(s, 1, 0);
      case Down => ShiftedCollision(s, 0, 1, s.rot);
      case Up => RotatedKeepsInvariant(s);
      case _ =>
    }
  }

  /** The gravity part of a tick keeps both invariants. */
  lemma {:induction false} AfterGravityKeepsInvariant(s: Snapshot, now: int, t: Tag)
    requires Consistent(s) && Fits(s)
    ensures Consistent(AfterGravity(s, now, t)) && Fits(AfterGravity(s, now, t))
  {
    if now - s.fallTime >= FallInterval {
      if CollidesAt(s, 0, 1, s.rot) {
        LockedKeepsInvariant(s, t);
      } else {
        TranslatedKeepsInvariant(s, 0, 1);
      }
    }
  }

  /** The invariant holds after every tick. */
  lemma {:induction false} StepKeepsInvariant(s: Snapshot, key: Key, now: int, t: Tag)
    requires Consistent(s) && Fits(s)
    ensures Consistent(Step(s, key, now, t)) && Fits(Step(s, key, now, t))
  {
    if s.gameOver {
      if key.IsRestart() {
        RestartIsFreshGame(s, now, t);
      }
    } else {
      AfterKeyKeepsInvariant(s, key, now);
      AfterGravityKeepsInvariant(AfterKey(s, key, now), now, t);
    }
  }

  /** The fall timer of a running game after a tick: it restarts at `now`
      after a successful manual descent or when gravity fires, and is left
      alone otherwise. */
  lemma {:induction false} TimerLaw(s: Snapshot, key: Key, now: int, t: Tag)
    requires WellFormed(s.board) && !s.gameOver
    ensures Step(s, key, now, t).fallTime ==
              if (key == Down && !CollidesAt(s, 0, 1, s.rot)) || now - s.fallTime >= FallInterval
              then now else s.fallTime
  {
  }

  /** Keys move or turn the piece only: board, score and piece kind stay. */
  lemma {:induction false} KeyKeepsBoard(s: Snapshot, key: Key, now: int)
    requires WellFormed(s.board)
    ensures var a := AfterKey(s, key, now);
      a.board == s.board && a.score == s.score && a.piece == s.piece && a.gameOver == s.gameOver
  {
  }

  /** The score of a running game changes only when gravity locks the
      piece, and then by the flat bonus for each row the stamped piece
      completes. */
  lemma {:induction false} ScoreLaw(s: Snapshot, key: Key, now: int, t: Tag)
    requires WellFormed(s.board) && !s.gameOver
    ensures var a, r := AfterKey(s, key, now), Step(s, key, now, t);
      r.score == if now - a.fallTime >= FallInterval && CollidesAt(a, 0, 1, a.rot) && s.piece.Some?
                 then s.score + LineBonus * CountFull(StampedBoard(a))
                 else s.score
  {
    KeyKeepsBoard(s, key, now);
  }

  /** A finished game is frozen until a restart key, which starts a fresh
      running game. */
  lemma {:induction false} GameOverWaitsForRestart(s: Snapshot, key: Key, now: int, t: Tag)
    requires WellFormed(s.board) && s.gameOver
    ensures Step(s, key, now, t) == s <==> !key.IsRestart()
    ensures key.IsRestart() ==> !Step(s, key, now, t).gameOver && Step(s, key, now, t).score == 0
  {
    if key.IsRestart() {
      RestartIsFreshGame(s, now, t);
    }
  }

  /** A successful manual descent restarts the timer, so gravity does not
      fire in the same tick. */
  lemma {:induction false} ManualDownDefersGravity(s: Snapshot, now: int, t: Tag)
    requires WellFormed(s.board) && !s.gameOver && !CollidesAt(s, 0, 1, s.rot)
    ensures Step(s, Down, now, t) == s.(y := s.y + 1, fallTime := now)
  {
  }
}
