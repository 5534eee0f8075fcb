/** The playing field: a grid of Height rows of Width cells, row 0 at the
    top. A cell holds 0 when empty and a piece colour otherwise. This module
    holds the queries over the grid (collision, the piece's visible cells)
    and the two ways the grid changes (stamping a piece, clearing rows). */
module Board {
  import opened Pieces

  const Width: int := 40
  const Height: int := 9
  /** Points per cleared row, flat: no bonus for clearing several at once. */
  const LineBonus: nat := 100
  /** Pivot column of a freshly spawned piece (integer division). */
  const SpawnX: int := Width / 2

  type Row = seq<int>
  type Grid = seq<Row>

  datatype Cell = Cell(x: int, y: int)

  predicate RowsOfWidth(b: Grid) {
    forall y :: 0 <= y < |b| ==> |b[y]| == Width
  }

  /** The grid's shape never changes: Height rows of Width cells. */
  predicate WellFormed(b: Grid) {
    |b| == Height && RowsOfWidth(b)
  }

  function EmptyRow(): (r: Row) {
    seq(Width, _ => 0)
  }

  function EmptyBoard(): (b: Grid)
    ensures WellFormed(b)
    ensures forall y, x :: 0 <= y < Height && 0 <= x < Width ==> b[y][x] == 0
  {
    seq(Height, _ => EmptyRow())
  }

  // ---------------------------------------------------------------------
  // Collision
  // ---------------------------------------------------------------------

  /** A single absolute cell is unusable: it is left of the left wall, right
      of the right wall, below the floor, or it is a visible cell that is
      occupied. Cells above the top row are subject to the wall checks only. */
  predicate Blocked(b: Grid, x: int, y: int)
    requires WellFormed(b)
  {
    x < 0 || x >= Width || y >= Height || (y >= 0 && b[y][x] != 0)
  }

  /** The collision test as a property: some offset cell, taken from pivot
      (x, y), is blocked. */
  predicate SomeCellBlocked(b: Grid, offs: seq<Offset>, x: int, y: int)
    requires WellFormed(b)
  {
    exists i :: 0 <= i < |offs| && Blocked(b, x + offs[i].dx, y + offs[i].dy)
  }

  /** The collision scan as written: the offsets in table order, stopping
      at the first blocked cell. */
  function ShapeCollides(b: Grid, offs: seq<Offset>, x: int, y: int): bool
    requires WellFormed(b)
    decreases |offs|
  {
    if offs == [] then false
    else if Blocked(b, x + offs[0].dx, y + offs[0].dy) then true
    else ShapeCollides(b, offs[1..], x, y)
  }

  /** The scan reports a collision exactly when some offset cell is blocked;
      stopping early changes nothing, as the scan has no other effect. */
  lemma {:induction false} ShapeCollidesIff(b: Grid, offs: seq<Offset>, x: int, y: int)
    requires WellFormed(b)
    ensures ShapeCollides(b, offs, x, y) <==>
              exists i :: 0 <= i < |offs| && Blocked(b, x + offs[i].dx, y + offs[i].dy)
    decreases |offs|
  {
    if offs != [] {
      var tail := offs[1..];
      ShapeCollidesIff(b, tail, x, y);
      if exists j :: 0 <= j < |tail| && Blocked(b, x + tail[j].dx, y + tail[j].dy) {
        var j :| 0 <= j < |tail| && Blocked(b, x + tail[j].dx, y + tail[j].dy);
        assert offs[j + 1] == tail[j];
      }
      if exists i :: 0 <= i < |offs| && Blocked(b, x + offs[i].dx, y + offs[i].dy) {
        var i :| 0 <= i < |offs| && Blocked(b, x + offs[i].dx, y + offs[i].dy);
        if i > 0 {
          assert offs[i] == tail[i - 1];
        }
      }
    }
  }

  /** A piece at a given rotation always fits on an empty board when spawned
      at the top centre: every offset keeps it within columns 19..22 and
      rows -1..1. */
  lemma {:induction false} SpawnFitsOnEmptyBoard(t: Tag, rot: nat)
    ensures !SomeCellBlocked(EmptyBoard(), Shape(t, rot), SpawnX, 0)
  {
    var b, offs := EmptyBoard(), Shape(t, rot);
    forall i | 0 <= i < |offs|
      ensures !Blocked(b, SpawnX + offs[i].dx, 0 + offs[i].dy)
    {
      var cx, cy := SpawnX + offs[i].dx, offs[i].dy;
      assert 0 <= cx < Width && cy < Height;
      if cy >= 0 {
        assert b[cy][cx] == 0;
      }
    }
  }

  // ---------------------------------------------------------------------
  // The piece's visible cells
  // ---------------------------------------------------------------------

  /** The absolute cells of the offsets, in table order, keeping only those
      whose row is on the board (0 <= y < Height); columns are not filtered. */
  function VisibleCells(offs: seq<Offset>, x: int, y: int): (r: seq<Cell>)
    ensures |r| <= |offs|
    ensures forall k :: 0 <= k < |r| ==> 0 <= r[k].y < Height
    decreases |offs|
  {
    if offs == [] then []
    else
      var c := Cell(x + offs[0].dx, y + offs[0].dy);
      if 0 <= c.y < Height then [c] + VisibleCells(offs[1..], x, y)
      else VisibleCells(offs[1..], x, y)
  }

  /** A cell is reported exactly when it is one of the offset cells and its
      row is on the board. */
  lemma {:induction false} VisibleCellsMembers(offs: seq<Offset>, x: int, y: int, c: Cell)
    ensures c in VisibleCells(offs, x, y) <==>
              0 <= c.y < Height &&
              exists i :: 0 <= i < |offs| && c == Cell(x + offs[i].dx, y + offs[i].dy)
    decreases |offs|
  {
    if offs != [] {
      var tail := offs[1..];
      VisibleCellsMembers(tail, x, y, c);
      if exists j :: 0 <= j < |tail| && c == Cell(x + tail[j].dx, y + tail[j].dy) {
        var j :| 0 <= j < |tail| && c == Cell(x + tail[j].dx, y + tail[j].dy);
        assert offs[j + 1] == tail[j];
      }
      if exists i :: 0 <= i < |offs| && c == Cell(x + offs[i].dx, y + offs[i].dy) {
        var i :| 0 <= i < |offs| && c == Cell(x + offs[i].dx, y + offs[i].dy);
        if i > 0 {
          assert offs[i] == tail[i - 1];
        }
      }
    }
  }

  /** When the offsets fit at (x, y), every visible cell is inside the walls
      and empty on the board. */
  lemma {:induction false} FittingCellsAreEmpty(b: Grid, offs: seq<Offset>, x: int, y: int)
    requires WellFormed(b)
    requires !SomeCellBlocked(b, offs, x, y)
    ensures forall c :: c in VisibleCells(offs, x, y) ==>
              0 <= c.x < Width && 0 <= c.y < Height && b[c.y][c.x] == 0
  {
    var cells := VisibleCells(offs, x, y);
    forall c | c in cells
      ensures 0 <= c.x < Width && 0 <= c.y < Height && b[c.y][c.x] == 0
    {
      VisibleCellsMembers(offs, x, y, c);
      var i :| 0 <= i < |offs| && c == Cell(x + offs[i].dx, y + offs[i].dy);
      assert !Blocked(b, x + offs[i].dx, y + offs[i].dy);
    }
  }

  // ---------------------------------------------------------------------
  // Locking: writing a colour into cells
  // ---------------------------------------------------------------------

  /** Writes `color` into the listed cells one after another, skipping any
      cell outside the grid. Exactly the listed in-grid cells take the
      colour; every other cell keeps its value. */
  function Stamp(b: Grid, cells: seq<Cell>, color: int): (r: Grid)
    requires WellFormed(b)
    ensures WellFormed(r)
    ensures forall y, x :: 0 <= y < Height && 0 <= x < Width ==>
              r[y][x] == (if Cell(x, y) in cells then color else b[y][x])
    decreases |cells|
  {
    if cells == [] then b
    else
      var last := cells[|cells| - 1];
      var front := cells[..|cells| - 1];
      var r := Stamp(b, front, color);
      assert cells == front + [last];
      if 0 <= last.y < Height && 0 <= last.x < Width then
        r[last.y := r[last.y][last.x := color]]
      else r
  }

  // ---------------------------------------------------------------------
  // Line clearing
  // ---------------------------------------------------------------------

  /** Every cell of the row is occupied. Rows are always Width wide, so
      this is the scan over all columns. */
  predicate IsFull(row: Row) {
    forall x :: 0 <= x < |row| ==> row[x] != 0
  }

  function CountFull(b: Grid): (n: nat)
    ensures n <= |b|
  {
    if b == [] then 0 else (if IsFull(b[0]) then 1 else 0) + CountFull(b[1..])
  }

  /** The rows that are not full, in their original order. */
  function KeepNonFull(b: Grid): (r: Grid)
    ensures |r| + CountFull(b) == |b|
    ensures forall k :: 0 <= k < |r| ==> !IsFull(r[k])
    ensures RowsOfWidth(b) ==> RowsOfWidth(r)
  {
    if b == [] then []
    else if IsFull(b[0]) then KeepNonFull(b[1..])
    else [b[0]] + KeepNonFull(b[1..])
  }

  /** The kept rows are exactly the rows of `b` that are not full. */
  lemma {:induction false} KeepNonFullMembers(b: Grid, row: Row)
    ensures row in KeepNonFull(b) <==> row in b && !IsFull(row)
  {
    if b != [] {
      KeepNonFullMembers(b[1..], row);
      assert b == [b[0]] + b[1..];
    }
  }

  function Zeros(n: nat): (r: Grid) {
    seq(n, _ => EmptyRow())
  }

  /** The grid after removing every full row: as many empty rows as were
      removed, on top of the surviving rows in their original order. The
      grid keeps its shape and no row of it is full. */
  function Cleared(b: Grid): (r: Grid)
    requires WellFormed(b)
    ensures WellFormed(r)
    ensures forall y :: 0 <= y < |r| ==> !IsFull(r[y])
  {
    var z, rest := Zeros(CountFull(b)), KeepNonFull(b);
    assert forall k :: 0 <= k < |z| ==> !IsFull(z[k]) by {
      forall k | 0 <= k < |z| ensures !IsFull(z[k]) {
        assert z[k][0] == 0;
      }
    }
    z + rest
  }

  /** A grid without full rows is its own filtered form. */
  lemma {:induction false} NoFullRowsKept(b: Grid)
    requires forall y :: 0 <= y < |b| ==> !IsFull(b[y])
    ensures KeepNonFull(b) == b && CountFull(b) == 0
  {
    if b != [] {
      NoFullRowsKept(b[1..]);
    }
  }

  /** Clearing is idempotent: a second pass finds nothing to remove. */
  lemma ClearedIsStable(b: Grid)
    requires WellFormed(b)
    ensures Cleared(Cleared(b)) == Cleared(b)
  {
    var r := Cleared(b);
    NoFullRowsKept(r);
  }
}
