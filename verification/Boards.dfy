/** The game board derived from the placed ships (`Game.__generate_board`).

    The board is a list of `board_rows` strings of `board_cols` characters.
    Every cell of a ship holds the ship's index as a digit; every empty cell
    orthogonally next to a ship holds a blank, the halo in which no other
    ship may be placed; every other cell holds `-`. */
module Boards {
  import opened Strings
  import opened Forms

  /** A placed ship: its form, the board cell of the form's top-left corner,
      and how many quarter turns the form was given. The placement search
      records its candidates with the same four fields. */
  datatype Ship = Ship(form: string, row: int, col: int, turn: int)

  /** The four orthogonal neighbours, in the order the halo pass visits them. */
  const Deltas: seq<(int, int)> := [(-1, 0), (0, -1), (1, 0), (0, 1)]

  predicate InBoard(rows: int, cols: int, r: int, c: int)
  {
    0 <= r < rows && 0 <= c < cols
  }

  /** The shape a ship occupies: its form turned `turn` times. */
  function Shape(s: Ship): Grid
  {
    TurnedRows(s.form, s.turn)
  }

  /** Ship `s` occupies board cell `(r, c)`: that cell is an `X` of its shape. */
  predicate Covers(s: Ship, r: int, c: int)
  {
    var g := Shape(s);
    0 <= r - s.row < |g| && 0 <= c - s.col < |g[r - s.row]| && g[r - s.row][c - s.col] == 'X'
  }

  /** A ship the board can hold: its form can be turned and every `X` of its
      shape falls on the board. */
  predicate Placed(s: Ship, rows: int, cols: int)
  {
    && (s.turn > 0 ==> Rectangular(Split(s.form, ',')))
    && s.row >= 0 && s.col >= 0
    && forall i, j :: 0 <= i < |Shape(s)| && 0 <= j < |Shape(s)[i]| && Shape(s)[i][j] == 'X' ==>
         s.row + i < rows && s.col + j < cols
  }

  predicate AllPlaced(ships: seq<Ship>, rows: int, cols: int)
  {
    forall i :: 0 <= i < |ships| ==> Placed(ships[i], rows, cols)
  }

  /** `str(idx)` for a ship index of one digit. */
  function Label(idx: nat): (ch: char)
    requires idx < 10
    ensures '0' <= ch <= '9'
  {
    ('0' as int + idx) as char
  }

  /** Painting the ships in order, the index of the ship whose label ends up
      in cell `(r, c)`: the last ship covering it, or -1 when none does. */
  function Owner(ships: seq<Ship>, r: int, c: int): (k: int)
    ensures -1 <= k < |ships|
    ensures k >= 0 ==> Covers(ships[k], r, c)
  {
    if |ships| == 0 then -1
    else if Covers(ships[|ships| - 1], r, c) then |ships| - 1
    else Owner(ships[..|ships| - 1], r, c)
  }

  /** A cell of the board that some ship occupies. */
  predicate IsShipCell(ships: seq<Ship>, rows: int, cols: int, r: int, c: int)
  {
    InBoard(rows, cols, r, c) && Owner(ships, r, c) >= 0
  }

  /** The neighbour of `(r, c)` in direction `k` is a ship cell. */
  predicate ShipNeighbour(ships: seq<Ship>, rows: int, cols: int, r: int, c: int, k: nat)
    requires k < 4
  {
    IsShipCell(ships, rows, cols, r + Deltas[k].0, c + Deltas[k].1)
  }

  /** Some orthogonal neighbour of `(r, c)` is a ship cell. */
  predicate NextToShip(ships: seq<Ship>, rows: int, cols: int, r: int, c: int)
  {
    || ShipNeighbour(ships, rows, cols, r, c, 0)
    || ShipNeighbour(ships, rows, cols, r, c, 1)
    || ShipNeighbour(ships, rows, cols, r, c, 2)
    || ShipNeighbour(ships, rows, cols, r, c, 3)
  }

  /** A cell after the ships are painted and before the halo pass. */
  function PaintedCell(ships: seq<Ship>, r: int, c: int): char
    requires |ships| <= 10
  {
    var k := Owner(ships, r, c);
    if k >= 0 then Label(k) else '-'
  }

  /** A cell of the finished board: the label of its ship, a blank next to a
      ship, `-` elsewhere. */
  function BoardCell(ships: seq<Ship>, rows: int, cols: int, r: int, c: int): char
    requires |ships| <= 10
  {
    var k := Owner(ships, r, c);
    if k >= 0 then Label(k)
    else if NextToShip(ships, rows, cols, r, c) then ' '
    else '-'
  }

  predicate HasShape(board: seq<string>, rows: int, cols: int)
  {
    |board| == rows && forall r :: 0 <= r < |board| ==> |board[r]| == cols
  }

  /** `board` is the board that `__generate_board` derives from `ships`. */
  ghost predicate IsBoardOf(board: seq<string>, rows: int, cols: int, ships: seq<Ship>)
    requires |ships| <= 10
  {
    && HasShape(board, rows, cols)
    && forall r, c :: InBoard(rows, cols, r, c) ==> board[r][c] == BoardCell(ships, rows, cols, r, c)
  }

  /** A board cell with no ship in it: `-` or the halo blank. */
  predicate IsWater(ch: char)
  {
    ch == '-' || ch == ' '
  }

  /** Shape cell `(i, j)` comes before shape cell `(r, c)` in row-major order. */
  predicate Before(i: int, j: int, r: int, c: int)
  {
    i < r || (i == r && j < c)
  }

  /** Cell `(r, c)` of board `p` is on the board and holds a ship label: the
      test `board[r][c] not in ['-', ' ']` of the halo pass. */
  predicate Occupied(p: seq<string>, rows: int, cols: int, r: int, c: int)
  {
    InBoard(rows, cols, r, c) && r < |p| && c < |p[r]| && !IsWater(p[r][c])
  }

  /** Some orthogonal neighbour of `(x, y)` is occupied in `p`. */
  predicate OccupiedNeighbour(p: seq<string>, rows: int, cols: int, x: int, y: int)
  {
    || Occupied(p, rows, cols, x + Deltas[0].0, y + Deltas[0].1)
    || Occupied(p, rows, cols, x + Deltas[1].0, y + Deltas[1].1)
    || Occupied(p, rows, cols, x + Deltas[2].0, y + Deltas[2].1)
    || Occupied(p, rows, cols, x + Deltas[3].0, y + Deltas[3].1)
  }

  /** The halo pass over the painted board `p`, having visited every cell
      before `(r, c)` and the first `d` neighbours of `(r, c)`, has blanked
      `(x, y)` from the occupied cell in direction `-Deltas[k]`. */
  predicate MarkedVia(p: seq<string>, rows: int, cols: int, x: int, y: int, r: int, c: int, d: int, k: nat)
    requires k < 4
  {
    var sx := x - Deltas[k].0;
    var sy := y - Deltas[k].1;
    Occupied(p, rows, cols, sx, sy) && (Before(sx, sy, r, c) || (sx == r && sy == c && k < d))
  }

  predicate Marked(p: seq<string>, rows: int, cols: int, x: int, y: int, r: int, c: int, d: int)
  {
    || MarkedVia(p, rows, cols, x, y, r, c, d, 0)
    || MarkedVia(p, rows, cols, x, y, r, c, d, 1)
    || MarkedVia(p, rows, cols, x, y, r, c, d, 2)
    || MarkedVia(p, rows, cols, x, y, r, c, d, 3)
  }

  /** A cell part way through the halo pass over the painted board `p`. */
  function HaloCell(p: seq<string>, rows: int, cols: int, x: int, y: int, r: int, c: int, d: int): char
  {
    if Occupied(p, rows, cols, x, y) then p[x][y]
    else if Marked(p, rows, cols, x, y, r, c, d) then ' '
    else '-'
  }

  /** `__generate_board`: start from a board of `-`, write each ship's index
      into the cells of its turned form, then blank every `-` cell that is
      orthogonally next to a ship cell. */
  method GenerateBoard(rows: nat, cols: nat, ships: seq<Ship>) returns (board: seq<string>)
    requires |ships| <= 10
    requires AllPlaced(ships, rows, cols)
    ensures IsBoardOf(board, rows, cols, ships)
  {
    board := seq(rows, _ => seq(cols, _ => '-'));
    for idx := 0 to |ships|
      invariant HasShape(board, rows, cols)
      invariant forall x, y :: InBoard(rows, cols, x, y) ==> board[x][y] == PaintedCell(ships[..idx], x, y)
    {
      board := PaintShip(rows, cols, ships, idx, board);
    }
    assert ships[..|ships|] == ships;
    ghost var painted := board;

    for r := 0 to rows
      invariant HasShape(board, rows, cols)
      invariant forall x, y :: InBoard(rows, cols, x, y) ==>
                  board[x][y] == HaloCell(painted, rows, cols, x, y, r, 0, 0)
    {
      for c := 0 to cols
        invariant HasShape(board, rows, cols)
        invariant forall x, y :: InBoard(rows, cols, x, y) ==>
                    board[x][y] == HaloCell(painted, rows, cols, x, y, r, c, 0)
      {
        if board[r][c] != '-' && board[r][c] != ' ' {
          board := BlankNeighbours(rows, cols, painted, r, c, board);
        } else {
          forall x, y | InBoard(rows, cols, x, y)
            ensures HaloCell(painted, rows, cols, x, y, r, c, 0) == HaloCell(painted, rows, cols, x, y, r, c + 1, 0)
          {
            MarkedNextCell(painted, rows, cols, x, y, r, c, 0);
          }
        }
      }
      forall x, y | InBoard(rows, cols, x, y)
        ensures HaloCell(painted, rows, cols, x, y, r, cols, 0) == HaloCell(painted, rows, cols, x, y, r + 1, 0, 0)
      {
        MarkedNextRow(painted, rows, cols, x, y, r);
      }
    }
    forall x, y | InBoard(rows, cols, x, y)
      ensures board[x][y] == BoardCell(ships, rows, cols, x, y)
    {
      MarkedAll(painted, rows, cols, x, y);
      HaloOfPainted(painted, rows, cols, ships, x, y);
    }
  }

  /** The painting loop of `__generate_board` for ship `idx`: write its label
      into every cell under an `X` of its turned form. */
  method PaintShip(rows: nat, cols: nat, ships: seq<Ship>, idx: nat, board: seq<string>)
    returns (painted: seq<string>)
    requires idx < |ships| <= 10
    requires AllPlaced(ships, rows, cols)
    requires HasShape(board, rows, cols)
    requires forall x, y :: InBoard(rows, cols, x, y) ==> board[x][y] == PaintedCell(ships[..idx], x, y)
    ensures HasShape(painted, rows, cols)
    ensures forall x, y :: InBoard(rows, cols, x, y) ==> painted[x][y] == PaintedCell(ships[..idx + 1], x, y)
  {
    painted := board;
    var ship := ships[idx];
    assert Placed(ship, rows, cols);
    var sf := TurnForm(ship.form, ship.turn);
    var sfRows := Split(sf, ',');
    assert sfRows == Shape(ship);
    for r := 0 to |sfRows|
      invariant PaintedUpTo(painted, rows, cols, ships, idx, r, 0)
    {
      for c := 0 to |sfRows[r]|
        invariant PaintedUpTo(painted, rows, cols, ships, idx, r, c)
      {
        ghost var before := painted;
        if sfRows[r][c] == 'X' {
          painted := painted[ship.row + r := ReplaceAt(painted[ship.row + r], ship.col + c, Label(idx))];
        }
        PaintStep(before, painted, rows, cols, ships, idx, r, c);
      }
      PaintRowDone(painted, rows, cols, ships, idx, r);
    }
    PaintNext(ships, idx);
  }

  /** The painting of ship `idx` has reached shape cell `(r, c)`: the cells
      of the ship before it hold its label, every other cell is as the
      earlier ships left it. */
  ghost predicate PaintedUpTo(p: seq<string>, rows: int, cols: int, ships: seq<Ship>, idx: nat, r: int, c: int)
    requires idx < |ships| <= 10
  {
    var s := ships[idx];
    && HasShape(p, rows, cols)
    && forall x, y :: InBoard(rows, cols, x, y) ==>
         p[x][y] == if Covers(s, x, y) && Before(x - s.row, y - s.col, r, c) then Label(idx)
                    else PaintedCell(ships[..idx], x, y)
  }

  /** One shape cell painted: `q` is `p` with the label written under it
      when it is an `X`. */
  lemma PaintStep(p: seq<string>, q: seq<string>, rows: int, cols: int, ships: seq<Ship>, idx: nat, r: int, c: int)
    requires idx < |ships| <= 10
    requires Placed(ships[idx], rows, cols)
    requires 0 <= r < |Shape(ships[idx])| && 0 <= c < |Shape(ships[idx])[r]|
    requires PaintedUpTo(p, rows, cols, ships, idx, r, c)
    requires Shape(ships[idx])[r][c] != 'X' ==> q == p
    requires Shape(ships[idx])[r][c] == 'X' ==>
               q == p[ships[idx].row + r := ReplaceAt(p[ships[idx].row + r], ships[idx].col + c, Label(idx))]
    ensures PaintedUpTo(q, rows, cols, ships, idx, r, c + 1)
  {
    var s := ships[idx];
    if Shape(s)[r][c] == 'X' {
      assert InBoard(rows, cols, s.row + r, s.col + c);
    }
    assert HasShape(q, rows, cols);
    forall x, y | InBoard(rows, cols, x, y)
      ensures q[x][y] == if Covers(s, x, y) && Before(x - s.row, y - s.col, r, c + 1) then Label(idx)
                         else PaintedCell(ships[..idx], x, y)
    {
      PaintStepCell(p, q, rows, cols, ships, idx, r, c, x, y);
    }
  }

  /** `PaintStep` at one board cell `(x, y)`. */
  lemma PaintStepCell(p: seq<string>, q: seq<string>, rows: int, cols: int, ships: seq<Ship>, idx: nat,
                      r: int, c: int, x: int, y: int)
    requires idx < |ships| <= 10
    requires Placed(ships[idx], rows, cols)
    requires 0 <= r < |Shape(ships[idx])| && 0 <= c < |Shape(ships[idx])[r]|
    requires HasShape(p, rows, cols) && InBoard(rows, cols, x, y)
    requires p[x][y] == if Covers(ships[idx], x, y) && Before(x - ships[idx].row, y - ships[idx].col, r, c)
                        then Label(idx) else PaintedCell(ships[..idx], x, y)
    requires Shape(ships[idx])[r][c] != 'X' ==> q == p
    requires Shape(ships[idx])[r][c] == 'X' ==>
               q == p[ships[idx].row + r := ReplaceAt(p[ships[idx].row + r], ships[idx].col + c, Label(idx))]
    ensures q[x][y] == if Covers(ships[idx], x, y) && Before(x - ships[idx].row, y - ships[idx].col, r, c + 1)
                       then Label(idx) else PaintedCell(ships[..idx], x, y)
  {
    var s := ships[idx];
    if Shape(s)[r][c] == 'X' {
      assert InBoard(rows, cols, s.row + r, s.col + c);
    }
    if x == s.row + r && y == s.col + c {
      if Shape(s)[r][c] == 'X' {
        assert q[x] == ReplaceAt(p[x], y, Label(idx));
        assert Covers(s, x, y);
      }
    } else {
      assert Before(x - s.row, y - s.col, r, c + 1) == Before(x - s.row, y - s.col, r, c);
      if Shape(s)[r][c] == 'X' && x == s.row + r {
        assert q[x] == ReplaceAt(p[x], s.col + c, Label(idx));
      }
    }
  }

  /** A row of the shape finished: painting moves to the next row. */
  lemma PaintRowDone(p: seq<string>, rows: int, cols: int, ships: seq<Ship>, idx: nat, r: int)
    requires idx < |ships| <= 10
    requires 0 <= r < |Shape(ships[idx])|
    requires PaintedUpTo(p, rows, cols, ships, idx, r, |Shape(ships[idx])[r]|)
    ensures PaintedUpTo(p, rows, cols, ships, idx, r + 1, 0)
  {
  }

  /** The `for dr, dc in DELTAS` loop of `__generate_board` at an occupied
      cell `(r, c)`: every neighbour on the board that still holds `-`
      becomes a blank. */
  method BlankNeighbours(rows: nat, cols: nat, ghost p: seq<string>, r: int, c: int, board: seq<string>)
    returns (blanked: seq<string>)
    requires InBoard(rows, cols, r, c)
    requires HasShape(board, rows, cols) && HasShape(p, rows, cols)
    requires forall x, y :: InBoard(rows, cols, x, y) ==> board[x][y] == HaloCell(p, rows, cols, x, y, r, c, 0)
    requires !IsWater(board[r][c])
    ensures HasShape(blanked, rows, cols)
    ensures forall x, y :: InBoard(rows, cols, x, y) ==> blanked[x][y] == HaloCell(p, rows, cols, x, y, r, c + 1, 0)
  {
    blanked := board;
    assert Occupied(p, rows, cols, r, c);
    for d := 0 to |Deltas|
      invariant HaloUpTo(blanked, p, rows, cols, r, c, d)
    {
      var (dr, dc) := Deltas[d];
      ghost var before := blanked;
      if 0 <= r + dr < rows && 0 <= c + dc < cols && blanked[r + dr][c + dc] == '-' {
        blanked := blanked[r + dr := ReplaceAt(blanked[r + dr], c + dc, ' ')];
      }
      BlankStep(p, rows, cols, r, c, d, before, blanked);
    }
    forall x, y | InBoard(rows, cols, x, y)
      ensures HaloCell(p, rows, cols, x, y, r, c, 4) == HaloCell(p, rows, cols, x, y, r, c + 1, 0)
    {
      MarkedNextCell(p, rows, cols, x, y, r, c, 4);
    }
  }

  /** The halo pass has visited every cell before `(r, c)` and the first `d`
      neighbours of `(r, c)`, and `b` is the board it has made of `p` so far. */
  ghost predicate HaloUpTo(b: seq<string>, p: seq<string>, rows: int, cols: int, r: int, c: int, d: int)
  {
    && HasShape(b, rows, cols)
    && forall x, y :: InBoard(rows, cols, x, y) ==> b[x][y] == HaloCell(p, rows, cols, x, y, r, c, d)
  }

  /** One neighbour of the occupied cell `(r, c)` visited: `q` is `b` with
      that neighbour blanked when it is on the board and still holds `-`. */
  lemma BlankStep(p: seq<string>, rows: int, cols: int, r: int, c: int, d: nat, b: seq<string>, q: seq<string>)
    requires InBoard(rows, cols, r, c) && Occupied(p, rows, cols, r, c) && d < 4
    requires HaloUpTo(b, p, rows, cols, r, c, d)
    requires q == if 0 <= r + Deltas[d].0 < rows && 0 <= c + Deltas[d].1 < cols
                     && b[r + Deltas[d].0][c + Deltas[d].1] == '-'
                  then b[r + Deltas[d].0 := ReplaceAt(b[r + Deltas[d].0], c + Deltas[d].1, ' ')]
                  else b
    ensures HaloUpTo(q, p, rows, cols, r, c, d + 1)
  {
    forall x, y | InBoard(rows, cols, x, y)
      ensures q[x][y] == HaloCell(p, rows, cols, x, y, r, c, d + 1)
    {
      BlankStepCell(p, rows, cols, r, c, d, b, q, x, y);
    }
  }

  /** `BlankStep` at one board cell `(x, y)`. */
  lemma BlankStepCell(p: seq<string>, rows: int, cols: int, r: int, c: int, d: nat, b: seq<string>, q: seq<string>,
                      x: int, y: int)
    requires Occupied(p, rows, cols, r, c) && d < 4
    requires HasShape(b, rows, cols) && InBoard(rows, cols, x, y)
    requires b[x][y] == HaloCell(p, rows, cols, x, y, r, c, d)
    requires q == if 0 <= r + Deltas[d].0 < rows && 0 <= c + Deltas[d].1 < cols
                     && b[r + Deltas[d].0][c + Deltas[d].1] == '-'
                  then b[r + Deltas[d].0 := ReplaceAt(b[r + Deltas[d].0], c + Deltas[d].1, ' ')]
                  else b
    ensures q[x][y] == HaloCell(p, rows, cols, x, y, r, c, d + 1)
  {
    MarkedStep(p, rows, cols, x, y, r, c, d);
    var (dr, dc) := Deltas[d];
    if x == r + dr && q != b {
      assert q[x] == ReplaceAt(b[x], c + dc, ' ');
    }
  }

  /** One more neighbour visited: only the cell in direction `d` of an
      occupied cell `(r, c)` can become marked. */
  lemma MarkedStep(p: seq<string>, rows: int, cols: int, x: int, y: int, r: int, c: int, d: nat)
    requires d < 4
    ensures Marked(p, rows, cols, x, y, r, c, d + 1) ==
            (Marked(p, rows, cols, x, y, r, c, d) ||
             (x == r + Deltas[d].0 && y == c + Deltas[d].1 && Occupied(p, rows, cols, r, c)))
  {
  }

  /** All four neighbours visited, or a cell that is not occupied: the pass
      moves on to the next cell of the row. */
  lemma MarkedNextCell(p: seq<string>, rows: int, cols: int, x: int, y: int, r: int, c: int, d: int)
    requires d == 4 || (d == 0 && !Occupied(p, rows, cols, r, c))
    ensures Marked(p, rows, cols, x, y, r, c, d) == Marked(p, rows, cols, x, y, r, c + 1, 0)
  {
  }

  /** The end of a row is the start of the next one. */
  lemma MarkedNextRow(p: seq<string>, rows: int, cols: int, x: int, y: int, r: int)
    ensures Marked(p, rows, cols, x, y, r, cols, 0) == Marked(p, rows, cols, x, y, r + 1, 0, 0)
  {
  }

  /** Once every cell is visited, a cell is marked exactly when one of its
      neighbours is occupied: the deltas come in opposite pairs. */
  lemma MarkedAll(p: seq<string>, rows: int, cols: int, x: int, y: int)
    ensures Marked(p, rows, cols, x, y, rows, 0, 0) == OccupiedNeighbour(p, rows, cols, x, y)
  {
  }

  /** On the board painted from `ships`, the halo pass computes `BoardCell`. */
  lemma HaloOfPainted(p: seq<string>, rows: int, cols: int, ships: seq<Ship>, x: int, y: int)
    requires |ships| <= 10
    requires HasShape(p, rows, cols)
    requires forall x, y :: InBoard(rows, cols, x, y) ==> p[x][y] == PaintedCell(ships, x, y)
    requires InBoard(rows, cols, x, y)
    ensures HaloCell(p, rows, cols, x, y, rows, 0, 0) == BoardCell(ships, rows, cols, x, y)
  {
    OccupiedIsShipCell(p, rows, cols, ships, x, y);
    NeighboursOfPainted(p, rows, cols, ships, x, y);
    MarkedAll(p, rows, cols, x, y);
  }

  /** On the painted board, a cell has an occupied neighbour exactly when it
      is next to a ship cell. */
  lemma NeighboursOfPainted(p: seq<string>, rows: int, cols: int, ships: seq<Ship>, x: int, y: int)
    requires |ships| <= 10
    requires HasShape(p, rows, cols)
    requires forall x, y :: InBoard(rows, cols, x, y) ==> p[x][y] == PaintedCell(ships, x, y)
    ensures OccupiedNeighbour(p, rows, cols, x, y) == NextToShip(ships, rows, cols, x, y)
  {
    NeighbourOfPainted(p, rows, cols, ships, x, y, 0);
    NeighbourOfPainted(p, rows, cols, ships, x, y, 1);
    NeighbourOfPainted(p, rows, cols, ships, x, y, 2);
    NeighbourOfPainted(p, rows, cols, ships, x, y, 3);
  }

  /** The neighbour in direction `k` is occupied on the painted board exactly
      when it is a ship cell. */
  lemma NeighbourOfPainted(p: seq<string>, rows: int, cols: int, ships: seq<Ship>, x: int, y: int, k: nat)
    requires |ships| <= 10
    requires HasShape(p, rows, cols)
    requires forall x, y :: InBoard(rows, cols, x, y) ==> p[x][y] == PaintedCell(ships, x, y)
    requires k < 4
    ensures Occupied(p, rows, cols, x + Deltas[k].0, y + Deltas[k].1) == ShipNeighbour(ships, rows, cols, x, y, k)
  {
    OccupiedIsShipCell(p, rows, cols, ships, x + Deltas[k].0, y + Deltas[k].1);
  }

  /** On the painted board, a cell is occupied exactly when a ship covers it. */
  lemma OccupiedIsShipCell(p: seq<string>, rows: int, cols: int, ships: seq<Ship>, a: int, b: int)
    requires |ships| <= 10
    requires HasShape(p, rows, cols)
    requires forall x, y :: InBoard(rows, cols, x, y) ==> p[x][y] == PaintedCell(ships, x, y)
    ensures Occupied(p, rows, cols, a, b) == IsShipCell(ships, rows, cols, a, b)
  {
    if InBoard(rows, cols, a, b) {
      assert p[a][b] == PaintedCell(ships, a, b);
    }
  }

  /** Painting one more ship: its cells take its label, the others keep theirs. */
  lemma PaintNext(ships: seq<Ship>, idx: nat)
    requires idx < |ships| <= 10
    ensures forall x, y :: PaintedCell(ships[..idx + 1], x, y) ==
              if Covers(ships[idx], x, y) then Label(idx) else PaintedCell(ships[..idx], x, y)
  {
    assert ships[..idx + 1][..idx] == ships[..idx];
  }

  /** `Owner` finds the last covering ship: no later ship covers the cell,
      and it is -1 only when no ship covers the cell at all. */
  lemma {:induction false} OwnerIsLast(ships: seq<Ship>, r: int, c: int)
    ensures forall i :: Owner(ships, r, c) < i < |ships| ==> !Covers(ships[i], r, c)
    ensures Owner(ships, r, c) == -1 <==> forall i :: 0 <= i < |ships| ==> !Covers(ships[i], r, c)
    decreases |ships|
  {
    if |ships| > 0 && !Covers(ships[|ships| - 1], r, c) {
      var init := ships[..|ships| - 1];
      OwnerIsLast(init, r, c);
      assert forall i :: 0 <= i < |init| ==> init[i] == ships[i];
    }
  }

  /** A placed ship covers only cells of the board. */
  lemma CoversInBoard(s: Ship, rows: int, cols: int, r: int, c: int)
    requires Placed(s, rows, cols)
    requires Covers(s, r, c)
    ensures InBoard(rows, cols, r, c)
  {
    assert Shape(s)[r - s.row][c - s.col] == 'X';
  }

  /** A board cell is water (`-` or blank) exactly when no ship covers it;
      otherwise it holds the label of the last ship covering it. */
  lemma WaterIffUncovered(board: seq<string>, rows: int, cols: int, ships: seq<Ship>, r: int, c: int)
    requires |ships| <= 10
    requires IsBoardOf(board, rows, cols, ships)
    requires InBoard(rows, cols, r, c)
    ensures IsWater(board[r][c]) <==> forall i :: 0 <= i < |ships| ==> !Covers(ships[i], r, c)
    ensures !IsWater(board[r][c]) ==> board[r][c] == Label(Owner(ships, r, c))
  {
    OwnerIsLast(ships, r, c);
  }

  /** No two ships share a cell. */
  ghost predicate NoOverlap(ships: seq<Ship>)
  {
    forall i, j, r, c :: 0 <= i < j < |ships| && Covers(ships[i], r, c) ==> !Covers(ships[j], r, c)
  }

  /** When no two ships share a cell, every `X` cell of ship `i` holds the
      digit `i`. */
  lemma ShipCellsHoldIndex(board: seq<string>, rows: int, cols: int, ships: seq<Ship>, i: nat, r: int, c: int)
    requires |ships| <= 10
    requires AllPlaced(ships, rows, cols)
    requires IsBoardOf(board, rows, cols, ships)
    requires NoOverlap(ships)
    requires i < |ships| && Covers(ships[i], r, c)
    ensures InBoard(rows, cols, r, c) && board[r][c] == Label(i)
  {
    CoversInBoard(ships[i], rows, cols, r, c);
    OwnerIsLast(ships, r, c);
  }

  /** The halo pass changes only `-` cells, and only into blanks: every ship
      cell keeps the label painted into it. */
  lemma HaloKeepsShips(ships: seq<Ship>, rows: int, cols: int, r: int, c: int)
    requires |ships| <= 10
    ensures BoardCell(ships, rows, cols, r, c) == PaintedCell(ships, r, c) ||
            (PaintedCell(ships, r, c) == '-' && BoardCell(ships, rows, cols, r, c) == ' ')
  {
  }

  /** After the halo pass no `-` cell is orthogonally next to a ship cell:
      every neighbour of a `-` cell is water and no ship covers it. */
  lemma NoDashNextToShip(board: seq<string>, rows: int, cols: int, ships: seq<Ship>, r: int, c: int, k: nat)
    requires |ships| <= 10
    requires AllPlaced(ships, rows, cols)
    requires IsBoardOf(board, rows, cols, ships)
    requires InBoard(rows, cols, r, c) && board[r][c] == '-'
    requires k < 4
    ensures forall i :: 0 <= i < |ships| ==> !Covers(ships[i], r + Deltas[k].0, c + Deltas[k].1)
    ensures InBoard(rows, cols, r + Deltas[k].0, c + Deltas[k].1) ==>
              IsWater(board[r + Deltas[k].0][c + Deltas[k].1])
  {
    var nr, nc := r + Deltas[k].0, c + Deltas[k].1;
    assert !ShipNeighbour(ships, rows, cols, r, c, k);
    forall i | 0 <= i < |ships|
      ensures !Covers(ships[i], nr, nc)
    {
      CoveredIsShipCell(ships, rows, cols, i, nr, nc);
    }
  }

  /** A cell that a placed ship covers is a ship cell. */
  lemma CoveredIsShipCell(ships: seq<Ship>, rows: int, cols: int, i: nat, r: int, c: int)
    requires AllPlaced(ships, rows, cols)
    requires i < |ships|
    ensures Covers(ships[i], r, c) ==> IsShipCell(ships, rows, cols, r, c)
  {
    if Covers(ships[i], r, c) {
      CoversInBoard(ships[i], rows, cols, r, c);
      OwnerIsLast(ships, r, c);
    }
  }
}
