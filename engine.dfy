/** The game object: its fields and the methods that update them in place.
    Each method is proved to take `State()` to the matching function of the
    old state in module Rules. The random piece kind and the current time
    come in as parameters. */
module Engine {
  import opened Pieces
  import opened Board
  import opened Rules

  class Tetris {
    var board: Grid
    var currentPiece: Option<Tag>
    var currentX: int
    var currentY: int
    var currentRotation: nat
    var fallTime: int
    var score: nat
    var gameOver: bool

    /** The read-only view of the game fields. */
    function State(): Snapshot
      reads this
    {
      Snapshot(board, currentPiece, currentX, currentY, currentRotation, fallTime, score, gameOver)
    }

    /** Object invariant: board dimensions and rotation bound. */
    ghost predicate Valid()
      reads this
    {
      Consistent(State())
    }

    /** Game invariant: a live piece in a running game does not collide. */
    ghost predicate PieceFits()
      reads this
      requires Valid()
    {
      Fits(State())
    }

    /** A new game object: empty board, no piece yet, score 0, not over. */
    constructor ()
      ensures State() == Initial()
      ensures Valid() && PieceFits()
    {
      board := EmptyBoard();
      currentPiece := None;
      currentX, currentY, currentRotation := 0, 0, 0;
      fallTime := 0;
      score := 0;
      gameOver := false;
    }

    /** Spawns a piece of kind `choice` (the random pick) at the top centre. */
    method NewPiece(choice: Tag)
      requires WellFormed(board)
      modifies this
      ensures State() == Spawned(old(State()), choice)
      ensures Valid() && PieceFits()
    {
      currentPiece := Some(choice);
      currentX := SpawnX;
      currentY := 0;
      currentRotation := 0;
      if CollidesAt(State(), 0, 0, currentRotation) {
        gameOver := true;
      }
    }

    method MoveLeft() returns (moved: bool)
      requires Valid()
      modifies this
      ensures moved == !old(CollidesAt(State(), -1, 0, currentRotation))
      ensures State() == if moved then old(State()).(x := old(currentX) - 1) else old(State())
      ensures old(currentPiece).None? ==> !moved
      ensures Valid() && (old(PieceFits()) ==> PieceFits())
    {
      moved := !CollidesAt(State(), -1, 0, currentRotation);
      if moved {
        currentX := currentX - 1;
        ShiftedCollision(old(State()), -1, 0, currentRotation);
      }
    }

    method MoveRight() returns (moved: bool)
      requires Valid()
      modifies this
      ensures moved == !old(CollidesAt(State(), 1, 0, currentRotation))
      ensures State() == if moved then old(State()).(x := old(currentX) + 1) else old(State())
      ensures old(currentPiece).None? ==> !moved
      ensures Valid() && (old(PieceFits()) ==> PieceFits())
    {
      moved := !CollidesAt(State(), 1, 0, currentRotation);
      if moved {
        currentX := currentX + 1;
        ShiftedCollision(old(State()), 1, 0, currentRotation);
      }
    }

    method MoveDown() returns (moved: bool)
      requires Valid()
      modifies this
      ensures moved == !old(CollidesAt(State(), 0, 1, currentRotation))
      ensures State() == if moved then old(State()).(y := old(currentY) + 1) else old(State())
      ensures old(currentPiece).None? ==> !moved
      ensures Valid() && (old(PieceFits()) ==> PieceFits())
    {
      moved := !CollidesAt(State(), 0, 1, currentRotation);
      if moved {
        currentY := currentY + 1;
        ShiftedCollision(old(State()), 0, 1, currentRotation);
      }
    }

    method Rotate() returns (rotated: bool)
      requires Valid()
      modifies this
      ensures rotated == (old(currentPiece).Some? && !old(CollidesAt(State(), 0, 0, NextRotation(State()))))
      ensures State() == if rotated then old(State()).(rot := old(NextRotation(State()))) else old(State())
      ensures Valid() && (old(PieceFits()) ==> PieceFits())
    {
      if currentPiece.None? {
        return false;
      }
      var newRotation := (currentRotation + 1) % RotationCount(currentPiece.value);
      rotated := !CollidesAt(State(), 0, 0, newRotation);
      if rotated {
        currentRotation := newRotation;
      }
    }

    /** Removes every full row and adds the flat bonus for each one. */
    method ClearLines()
      requires Valid()
      modifies this
      ensures State() == old(State()).(board := Cleared(old(board)),
                                       score := old(score) + LineBonus * CountFull(old(board)))
      ensures Valid()
    {
      var rows, linesCleared := ScanRows(board);
      board := rows;
      score := score + linesCleared * LineBonus;
    }

    /** Writes the piece's colour into its visible cells, clears full rows
        and spawns the next piece. Does nothing at all without a piece. */
    method LockPiece(choice: Tag)
      requires Valid()
      modifies this
      ensures State() == Locked(old(State()), choice)
      ensures Valid() && (old(PieceFits()) ==> PieceFits())
    {
      if currentPiece.None? {
        return;
      }
      StampPiece();
      ClearLines();
      NewPiece(choice);
    }

    /** The writing part of locking: the piece's colour goes into each of
        its visible cells in turn, nothing else changes. */
    method StampPiece()
      requires Valid() && currentPiece.Some?
      modifies this
      ensures State() == old(State()).(board := StampedBoard(old(State())))
    {
      var cells := PieceCells(State());
      var color := Color(currentPiece.value);
      for i := 0 to |cells|
        invariant WellFormed(board)
        invariant board == Stamp(old(board), cells[..i], color)
        invariant State() == old(State()).(board := board)
      {
        var c := cells[i];
        StampOneMore(old(board), cells, i, color);
        if 0 <= c.y < Height && 0 <= c.x < Width {
          board := board[c.y := board[c.y][c.x := color]];
        }
      }
      assert cells[..|cells|] == cells;
    }

    /** Restarts the game at time `now` with a piece of kind `choice`. */
    method ResetGame(now: int, choice: Tag)
      modifies this
      ensures State() == Restarted(old(State()), now, choice)
      ensures board == EmptyBoard() && score == 0 && !gameOver
      ensures Valid() && PieceFits()
    {
      board := EmptyBoard();
      score := 0;
      gameOver := false;
      fallTime := now;
      NewPiece(choice);
      RestartIsFreshGame(old(State()), now, choice);
    }

    /** The game part of coming to the foreground at time `now`: restart the
        timer and, if there is no piece yet, spawn one of kind `choice`. */
    method EnterForeground(now: int, choice: Tag)
      requires Valid()
      modifies this
      ensures State() == Entered(old(State()), now, choice)
      ensures Valid() && (old(PieceFits()) ==> PieceFits())
    {
      fallTime := now;
      if currentPiece.None? {
        NewPiece(choice);
      }
    }

    /** The input part of a running tick: one key, one action at most. */
    method HandleKey(key: Key, now: int)
      requires Valid()
      modifies this
      ensures State() == AfterKey(old(State()), key, now)
      ensures Valid() && (old(PieceFits()) ==> PieceFits())
    {
      if key == Left {
        var _ := MoveLeft();
      } else if key == Right {
        var _ := MoveRight();
      } else if key == Down {
        var moved := MoveDown();
        if moved {
          fallTime := now;
        }
      } else if key == Up {
        var _ := Rotate();
      }
    }

    /** The gravity part of a running tick. */
    method AutoFall(now: int, choice: Tag)
      requires Valid()
      modifies this
      ensures State() == AfterGravity(old(State()), now, choice)
      ensures Valid() && (old(PieceFits()) ==> PieceFits())
    {
      if now - fallTime >= FallInterval {
        var moved := MoveDown();
        if !moved {
          LockPiece(choice);
        }
        fallTime := now;
      }
    }

    /** One pass of the foreground loop at time `now` with input `key`;
        `choice` is the random kind for any piece spawned in this tick. */
    method Tick(key: Key, now: int, choice: Tag)
      requires Valid()
      modifies this
      ensures State() == Step(old(State()), key, now, choice)
      ensures old(gameOver) && !key.IsRestart() ==> State() == old(State())
      ensures old(gameOver) && key.IsRestart() ==> board == EmptyBoard() && score == 0 && !gameOver
      ensures Valid() && (old(PieceFits()) ==> PieceFits())
    {
      if gameOver {
        if key.IsRestart() {
          ResetGame(now, choice);
        }
        return;
      }
      HandleKey(key, now);
      AutoFall(now, choice);
    }
  }

  /** The row scan of line clearing, from the bottom row upwards. After a
      removal the same index is examined again, since the rows above moved
      down into it. */
  method ScanRows(orig: Grid) returns (rows: Grid, linesCleared: nat)
    requires WellFormed(orig)
    ensures rows == Cleared(orig) && linesCleared == CountFull(orig)
  {
    ghost var m := Height;
    rows := orig;
    linesCleared := 0;
    var y := Height - 1;
    ScanStart(orig);
    while y >= 0
      invariant ScanInvariant(orig, rows, m, linesCleared, y)
      decreases y + 1 + m
    {
      RowUnderScan(orig, rows, m, linesCleared, y);
      if IsFull(rows[y]) {
        RemovedRow(orig, rows, m, linesCleared, y);
        rows := [EmptyRow()] + (rows[..y] + rows[y + 1..]);
        linesCleared := linesCleared + 1;
        m := m - 1;
      } else {
        KeptRow(orig, rows, m, linesCleared, y);
        if m > 0 {
          m := m - 1;
        }
        y := y - 1;
      }
    }
    ScanDone(orig, rows, m, linesCleared, y);
  }

  /** One more cell written by the lock loop. */
  lemma StampOneMore(b: Grid, cells: seq<Cell>, i: nat, color: int)
    requires WellFormed(b) && i < |cells|
    ensures var r, c := Stamp(b, cells[..i], color), cells[i];
      Stamp(b, cells[..i + 1], color) ==
        if 0 <= c.y < Height && 0 <= c.x < Width then r[c.y := r[c.y][c.x := color]] else r
  {
    assert cells[..i + 1][..i] == cells[..i];
  }

  /** Unfolds the filtered and counted suffixes of `orig` by one row. */
  lemma ExamineRow(orig: Grid, m: int)
    requires 0 < m <= |orig|
    ensures KeepNonFull(orig[m - 1..]) ==
              (if IsFull(orig[m - 1]) then [] else [orig[m - 1]]) + KeepNonFull(orig[m..])
    ensures CountFull(orig[m - 1..]) == (if IsFull(orig[m - 1]) then 1 else 0) + CountFull(orig[m..])
  {
    assert orig[m - 1..][1..] == orig[m..];
  }

  /** The state of the line-clearing scan: the original rows orig[m..] have
      been examined, `lines` of them were full and have been replaced by
      empty rows on top, and y indexes the next row to examine (the last
      unexamined original row, or an inserted empty row once none is left). */
  ghost predicate ScanInvariant(orig: Grid, rows: Grid, m: int, lines: int, y: int) {
    WellFormed(orig) && -1 <= y < Height && 0 <= m <= Height && 0 <= lines &&
    rows == Zeros(lines) + orig[..m] + KeepNonFull(orig[m..]) &&
    lines == CountFull(orig[m..]) &&
    (m > 0 ==> y + 1 == lines + m) &&
    (m == 0 ==> y + 1 <= lines)
  }

  lemma ScanStart(orig: Grid)
    requires WellFormed(orig)
    ensures ScanInvariant(orig, orig, Height, 0, Height - 1)
  {
    assert orig[Height..] == [];
    assert Zeros(0) + orig[..Height] + KeepNonFull([]) == orig;
  }

  lemma ScanDone(orig: Grid, rows: Grid, m: int, lines: int, y: int)
    requires ScanInvariant(orig, rows, m, lines, y) && y < 0
    ensures rows == Cleared(orig) && lines == CountFull(orig)
  {
    assert m == 0 && orig[0..] == orig && orig[..0] == [];
  }

  /** The row under the scan: an inserted empty row once every original row
      has been examined, the next original row otherwise. */
  lemma RowUnderScan(orig: Grid, rows: Grid, m: int, lines: int, y: int)
    requires ScanInvariant(orig, rows, m, lines, y) && 0 <= y
    ensures |rows| == Height
    ensures m == 0 ==> !IsFull(rows[y])
    ensures m > 0 ==> rows[y] == orig[m - 1]
  {
    assert |orig[m..]| == Height - m;
    if m == 0 {
      assert rows[y] == EmptyRow() && rows[y][0] == 0;
    }
  }

  /** A full row was removed and an empty one inserted on top. */
  lemma RemovedRow(orig: Grid, rows: Grid, m: int, lines: int, y: int)
    requires ScanInvariant(orig, rows, m, lines, y) && 0 <= y
    requires |rows| == Height && IsFull(rows[y]) && (m > 0 ==> rows[y] == orig[m - 1])
    requires m == 0 ==> !IsFull(rows[y])
    ensures 0 < m && ScanInvariant(orig, [EmptyRow()] + (rows[..y] + rows[y + 1..]), m - 1, lines + 1, y)
  {
    ExamineRow(orig, m);
    RemovedRowLayout(orig, rows, m, lines, y);
  }

  /** The rows after the removal, in the layout of the scan invariant. */
  lemma RemovedRowLayout(orig: Grid, rows: Grid, m: int, lines: nat, y: int)
    requires 0 < m <= |orig| && y == lines + m - 1 && IsFull(orig[m - 1])
    requires rows == Zeros(lines) + orig[..m] + KeepNonFull(orig[m..])
    ensures [EmptyRow()] + (rows[..y] + rows[y + 1..]) ==
              Zeros(lines + 1) + orig[..m - 1] + KeepNonFull(orig[m - 1..])
  {
    var z, a, k := Zeros(lines), orig[..m], KeepNonFull(orig[m..]);
    var e := EmptyRow();
    RemoveAndPush(z, a, k, e, rows, y);
    ZerosGrow(lines);
    assert a[..m - 1] == orig[..m - 1];
    ExamineRow(orig, m);
    assert [e] + (rows[..y] + rows[y + 1..]) == ([e] + z) + a[..m - 1] + k;
  }

  /** A row that is not full stays where it is and joins the examined part. */
  lemma KeptRow(orig: Grid, rows: Grid, m: int, lines: int, y: int)
    requires ScanInvariant(orig, rows, m, lines, y) && 0 <= y
    requires |rows| == Height && !IsFull(rows[y]) && (m > 0 ==> rows[y] == orig[m - 1])
    ensures ScanInvariant(orig, rows, if m > 0 then m - 1 else 0, lines, y - 1)
  {
    if m > 0 {
      ExamineRow(orig, m);
      KeptRowLayout(orig, rows, m, lines);
    }
  }

  /** The same rows, with the boundary of the examined part moved up by one. */
  lemma KeptRowLayout(orig: Grid, rows: Grid, m: int, lines: nat)
    requires 0 < m <= |orig| && !IsFull(orig[m - 1])
    requires rows == Zeros(lines) + orig[..m] + KeepNonFull(orig[m..])
    ensures rows == Zeros(lines) + orig[..m - 1] + KeepNonFull(orig[m - 1..])
  {
    var z, p, r, k := Zeros(lines), orig[..m - 1], orig[m - 1], KeepNonFull(orig[m..]);
    assert orig[..m] == p + [r];
    ExamineRow(orig, m);
    MoveBoundary(z, p, r, k);
  }

  lemma MoveBoundary<X>(z: seq<X>, p: seq<X>, r: X, k: seq<X>)
    ensures z + (p + [r]) + k == z + p + ([r] + k)
  {
  }

  lemma ZerosGrow(n: nat)
    ensures [EmptyRow()] + Zeros(n) == Zeros(n + 1)
  {
  }

  /** Deleting the last element of the middle part of a three-part sequence
      and pushing `e` on the front. */
  lemma RemoveAndPush<X>(z: seq<X>, a: seq<X>, k: seq<X>, e: X, b: seq<X>, y: int)
    requires |a| > 0 && b == z + a + k && y == |z| + |a| - 1
    ensures [e] + (b[..y] + b[y + 1..]) == ([e] + z) + a[..|a| - 1] + k
  {
    assert b[..y] == z + a[..|a| - 1];
    assert b[y + 1..] == k;
  }
}
