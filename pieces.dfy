/** The constant shape and colour tables of the seven tetrominoes.
    Each piece has an ordered list of rotation states; each state is four
    (dx, dy) offsets from the piece's pivot, with y growing downwards. */
module Pieces {

  datatype Tag = I | O | T | S | Z | J | L

  datatype Offset = Offset(dx: int, dy: int)

  /** The rotation states of a piece, copied entry by entry from the table,
      including its irregularities: I and O have a single state, T's last
      state repeats its first, S and Z alternate between two states, and Z's
      second state is a 2x2 square. */
  function Rotations(t: Tag): (r: seq<seq<Offset>>)
    ensures |r| == RotationCount(t)
    ensures forall k :: 0 <= k < |r| ==> |r[k]| == 4
    ensures forall k, i :: 0 <= k < |r| && 0 <= i < |r[k]| ==>
              -1 <= r[k][i].dx <= 2 && -1 <= r[k][i].dy <= 1
  {
    match t
    case I => [[Offset(-1, 0), Offset(0, 0), Offset(1, 0), Offset(2, 0)]]
    case O => [[Offset(0, 0), Offset(1, 0), Offset(0, 1), Offset(1, 1)]]
    case T => [[Offset(0, -1), Offset(-1, 0), Offset(0, 0), Offset(1, 0)],
               [Offset(0, -1), Offset(0, 0), Offset(0, 1), Offset(1, 0)],
               [Offset(0, -1), Offset(-1, 0), Offset(0, 0), Offset(0, 1)],
               [Offset(0, -1), Offset(-1, 0), Offset(0, 0), Offset(1, 0)]]
    case S => [[Offset(-1, 0), Offset(0, 0), Offset(0, -1), Offset(1, -1)],
               [Offset(0, -1), Offset(0, 0), Offset(1, 0), Offset(1, 1)],
               [Offset(-1, 0), Offset(0, 0), Offset(0, -1), Offset(1, -1)],
               [Offset(0, -1), Offset(0, 0), Offset(1, 0), Offset(1, 1)]]
    case Z => [[Offset(-1, -1), Offset(0, -1), Offset(0, 0), Offset(1, 0)],
               [Offset(0, 0), Offset(1, -1), Offset(0, -1), Offset(1, 0)],
               [Offset(-1, -1), Offset(0, -1), Offset(0, 0), Offset(1, 0)],
               [Offset(0, 0), Offset(1, -1), Offset(0, -1), Offset(1, 0)]]
    case J => [[Offset(-1, -1), Offset(-1, 0), Offset(0, 0), Offset(1, 0)],
               [Offset(0, -1), Offset(1, -1), Offset(0, 0), Offset(0, 1)],
               [Offset(-1, 0), Offset(0, 0), Offset(1, 0), Offset(1, 1)],
               [Offset(0, -1), Offset(0, 0), Offset(-1, 1), Offset(0, 1)]]
    case L => [[Offset(1, -1), Offset(-1, 0), Offset(0, 0), Offset(1, 0)],
               [Offset(0, -1), Offset(0, 0), Offset(0, 1), Offset(1, 1)],
               [Offset(-1, 0), Offset(0, 0), Offset(1, 0), Offset(-1, 1)],
               [Offset(-1, -1), Offset(0, -1), Offset(0, 0), Offset(0, 1)]]
  }

  /** Number of rotation states: the modulus of the rotation index. */
  function RotationCount(t: Tag): (n: nat)
  {
    if t == I || t == O then 1 else 4
  }

  /** The offsets of rotation state `rot`, indexed cyclically. */
  function Shape(t: Tag, rot: nat): (r: seq<Offset>)
    ensures |r| == 4
    ensures forall i :: 0 <= i < |r| ==> -1 <= r[i].dx <= 2 && -1 <= r[i].dy <= 1
  {
    Rotations(t)[rot % RotationCount(t)]
  }

  /** The piece's 24-bit RGB colour; never 0, which the board reserves for
      an empty cell. */
  function Color(t: Tag): (c: int)
    ensures 0 < c <= 0xFF_FFFF
  {
    match t
    case I => 0x00FFFF
    case O => 0xFFFF00
    case T => 0x800080
    case S => 0x00FF00
    case Z => 0xFF0000
    case J => 0x0000FF
    case L => 0xFFA500
  }

  /** The repeated and degenerate states of the table. */
  lemma TableQuirks()
    ensures Rotations(T)[3] == Rotations(T)[0]
    ensures Rotations(S)[2] == Rotations(S)[0] && Rotations(S)[3] == Rotations(S)[1]
    ensures Rotations(Z)[2] == Rotations(Z)[0] && Rotations(Z)[3] == Rotations(Z)[1]
    ensures multiset(Rotations(Z)[1]) == multiset{Offset(0, -1), Offset(1, -1), Offset(0, 0), Offset(1, 0)}
    ensures forall rot: nat :: Shape(I, rot) == Rotations(I)[0] && Shape(O, rot) == Rotations(O)[0]
  {
  }
}
