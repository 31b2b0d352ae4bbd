/** Random ship placement with backtracking (`Game.__add_next_ship` and
    `Game.__validate_position`).

    The source draws its random numbers from `random.randint`. Here they come
    from `roll`, an arbitrary infinite stream of draws, read from position
    `draw` on; every sequence of outcomes of `randint` is some `roll`, so what
    is proved for every `roll` holds for every run. */
module Placement {
  import opened Strings
  import opened Forms
  import opened Boards

  /** The outcome of `__add_next_ship`: the list of ships it returns, `None`,
      the `ValueError` that `random.randint` raises on an empty range, or a
      list grown past ten entries, from which `__generate_board` would write
      two-digit indices (outside this model). */
  datatype Outcome = Found(ships: seq<Ship>) | NoneFound | EmptyRange | Overflow

  /** `random.randint(lo, hi)` when the draw at position `draw` is `roll(draw)`. */
  function RandInt(roll: nat -> nat, draw: nat, lo: int, hi: int): (n: int)
    requires lo <= hi
    ensures lo <= n <= hi
  {
    lo + roll(draw) % (hi - lo + 1)
  }

  /** Every `X` of grid `g` placed at `(row, col)` falls on a cell of `board`. */
  predicate FitsOn(board: seq<string>, row: int, col: int, g: Grid)
  {
    forall i, j :: 0 <= i < |g| && 0 <= j < |g[i]| && g[i][j] == 'X' ==>
      0 <= row + i < |board| && 0 <= col + j < |board[row + i]|
  }

  /** Every `X` of grid `g` placed at `(row, col)` falls on a `-` cell of
      `board`: not on a ship, not on the halo around one. */
  predicate FreeAt(board: seq<string>, row: int, col: int, g: Grid)
  {
    forall i, j :: 0 <= i < |g| && 0 <= j < |g[i]| && g[i][j] == 'X' ==>
      0 <= row + i < |board| && 0 <= col + j < |board[row + i]| && board[row + i][col + j] == '-'
  }

  /** `__validate_position`: scan the form row by row and reject it at the
      first `X` whose board cell is not `-`. */
  function ValidatePosition(board: seq<string>, row: int, col: int, shipForm: string): (ok: bool)
    requires FitsOn(board, row, col, Split(shipForm, ','))
    ensures ok <==> FreeAt(board, row, col, Split(shipForm, ','))
  {
    ScanFrom(board, row, col, Split(shipForm, ','), 0, 0)
  }

  /** The scan of `__validate_position` from shape cell `(i, j)` on. */
  function ScanFrom(board: seq<string>, row: int, col: int, g: Grid, i: nat, j: nat): (ok: bool)
    requires FitsOn(board, row, col, g)
    requires i <= |g| && (i < |g| ==> j <= |g[i]|)
    ensures ok <==> forall a, b :: 0 <= a < |g| && 0 <= b < |g[a]| && g[a][b] == 'X' && !Before(a, b, i, j) ==>
                                   board[row + a][col + b] == '-'
    decreases |g| - i, if i < |g| then |g[i]| - j else 0
  {
    if i == |g| then true
    else if j == |g[i]| then ScanFrom(board, row, col, g, i + 1, 0)
    else if g[i][j] == 'X' && board[row + i][col + j] != '-' then false
    else ScanFrom(board, row, col, g, i, j + 1)
  }

  /** Ship `s` neither shares a cell with ship `t` nor touches it side by side. */
  ghost predicate Apart(s: Ship, t: Ship)
  {
    forall x, y :: Covers(s, x, y) ==>
      && !Covers(t, x, y)
      && !Covers(t, x - 1, y) && !Covers(t, x + 1, y)
      && !Covers(t, x, y - 1) && !Covers(t, x, y + 1)
  }

  /** No ship of `ships` covers cell `(x, y)` or any of its four neighbours. */
  ghost predicate Clear(ships: seq<Ship>, x: int, y: int)
  {
    forall m :: 0 <= m < |ships| ==>
      && !Covers(ships[m], x, y)
      && !Covers(ships[m], x - 1, y) && !Covers(ships[m], x + 1, y)
      && !Covers(ships[m], x, y - 1) && !Covers(ships[m], x, y + 1)
  }

  /** A `-` cell of the board derived from `ships` is clear of every ship. */
  lemma DashCellIsClear(board: seq<string>, rows: int, cols: int, ships: seq<Ship>, x: int, y: int)
    requires |ships| <= 10
    requires AllPlaced(ships, rows, cols)
    requires IsBoardOf(board, rows, cols, ships)
    requires InBoard(rows, cols, x, y) && board[x][y] == '-'
    ensures Clear(ships, x, y)
  {
    assert board[x][y] == BoardCell(ships, rows, cols, x, y);
    UncoveredAndApartIsClear(ships, rows, cols, x, y);
  }

  /** A cell no ship covers and with no ship cell next to it is clear. */
  lemma UncoveredAndApartIsClear(ships: seq<Ship>, rows: int, cols: int, x: int, y: int)
    requires AllPlaced(ships, rows, cols)
    requires Owner(ships, x, y) < 0 && !NextToShip(ships, rows, cols, x, y)
    ensures Clear(ships, x, y)
  {
    NeighboursAreNotShipCells(ships, rows, cols, x, y);
    OwnerIsLast(ships, x, y);
    forall m | 0 <= m < |ships|
      ensures !Covers(ships[m], x, y)
      ensures !Covers(ships[m], x - 1, y) && !Covers(ships[m], x + 1, y)
      ensures !Covers(ships[m], x, y - 1) && !Covers(ships[m], x, y + 1)
    {
      CoveredIsShipCell(ships, rows, cols, m, x - 1, y);
      CoveredIsShipCell(ships, rows, cols, m, x, y - 1);
      CoveredIsShipCell(ships, rows, cols, m, x + 1, y);
      CoveredIsShipCell(ships, rows, cols, m, x, y + 1);
    }
  }

  /** Away from every ship cell: none of the four neighbours is one. */
  lemma NeighboursAreNotShipCells(ships: seq<Ship>, rows: int, cols: int, x: int, y: int)
    requires !NextToShip(ships, rows, cols, x, y)
    ensures !IsShipCell(ships, rows, cols, x - 1, y) && !IsShipCell(ships, rows, cols, x, y - 1)
    ensures !IsShipCell(ships, rows, cols, x + 1, y) && !IsShipCell(ships, rows, cols, x, y + 1)
  {
    assert Deltas[0] == (-1, 0) && Deltas[1] == (0, -1) && Deltas[2] == (1, 0) && Deltas[3] == (0, 1);
    assert !ShipNeighbour(ships, rows, cols, x, y, 0) && !ShipNeighbour(ships, rows, cols, x, y, 1);
    assert !ShipNeighbour(ships, rows, cols, x, y, 2) && !ShipNeighbour(ships, rows, cols, x, y, 3);
  }

  /** A position accepted on the board derived from `ships` puts the new ship
      apart from every one of them: it neither overlaps nor touches any. */
  lemma AcceptedShipIsApart(board: seq<string>, rows: int, cols: int, ships: seq<Ship>, s: Ship)
    requires |ships| <= 10
    requires AllPlaced(ships, rows, cols)
    requires IsBoardOf(board, rows, cols, ships)
    requires FreeAt(board, s.row, s.col, Shape(s))
    ensures forall m :: 0 <= m < |ships| ==> Apart(s, ships[m])
  {
    forall m, x, y | 0 <= m < |ships| && Covers(s, x, y)
      ensures !Covers(ships[m], x, y)
      ensures !Covers(ships[m], x - 1, y) && !Covers(ships[m], x + 1, y)
      ensures !Covers(ships[m], x, y - 1) && !Covers(ships[m], x, y + 1)
    {
      AcceptedCellIsClear(board, rows, cols, ships, s, x, y);
    }
  }

  /** A cell of a ship at an accepted position is clear of every ship. */
  lemma AcceptedCellIsClear(board: seq<string>, rows: int, cols: int, ships: seq<Ship>, s: Ship, x: int, y: int)
    requires |ships| <= 10
    requires AllPlaced(ships, rows, cols)
    requires IsBoardOf(board, rows, cols, ships)
    requires FreeAt(board, s.row, s.col, Shape(s))
    requires Covers(s, x, y)
    ensures Clear(ships, x, y)
  {
    var g := Shape(s);
    var i, j := x - s.row, y - s.col;
    assert 0 <= i < |g| && 0 <= j < |g[i]| && g[i][j] == 'X';
    assert board[x][y] == '-' && InBoard(rows, cols, x, y);
    DashCellIsClear(board, rows, cols, ships, x, y);
  }

  /** How many origins the scan visits along a side with `slack` cells to
      spare: the source's `range(slack)`, or `range(slack + 1)` when the scan
      reaches the last origin where the shape still fits. */
  function Reach(slack: int, inclusive: bool): int
  {
    if inclusive then slack + 1 else slack
  }

  /** An entry that the search may append for ships `idx` onwards: one of
      their forms, a turn in 0..3, and an origin inside the scanned range. */
  predicate IsCandidate(e: Ship, rows: int, cols: int, shipsForm: seq<string>, idx: nat, inclusive: bool)
  {
    && (exists k :: idx <= k < |shipsForm| && shipsForm[k] == e.form)
    && 0 <= e.turn < 4
    && |Shape(e)| > 0
    && 0 <= e.row < Reach(rows - |Shape(e)|, inclusive)
    && 0 <= e.col < Reach(cols - |Shape(e)[0]|, inclusive)
  }

  /** Grid `g` fits on a free stretch of `board` at no origin the scan visits. */
  ghost predicate TurnNoFit(board: seq<string>, rows: int, cols: int, g: Grid, inclusive: bool)
  {
    |g| > 0 ==>
      forall r, c :: 0 <= r < Reach(rows - |g|, inclusive) && 0 <= c < Reach(cols - |g[0]|, inclusive) ==>
        !FreeAt(board, r, c, g)
  }

  /** No turn of `form` fits on a free stretch of `board` at any origin the
      scan visits. */
  ghost predicate NoFit(board: seq<string>, rows: int, cols: int, form: string, inclusive: bool)
  {
    forall t :: 0 <= t < 4 ==> TurnNoFit(board, rows, cols, TurnedRows(form, t), inclusive)
  }

  /** Some turn of some form from `idx` on is taller or wider than the board. */
  ghost predicate TooBig(rows: int, cols: int, shipsForm: seq<string>, idx: nat)
  {
    exists k, t :: idx <= k < |shipsForm| && 0 <= t < 4 && |TurnedRows(shipsForm[k], t)| > 0 &&
                   (|TurnedRows(shipsForm[k], t)| > rows || |TurnedRows(shipsForm[k], t)[0]| > cols)
  }

  predicate RectangularForms(shipsForm: seq<string>)
  {
    forall k :: 0 <= k < |shipsForm| ==> Rectangular(Split(shipsForm[k], ','))
  }

  /** `__add_next_ship` exactly as written: the origin scan is `range(slack)`
      with `% slack`. See `PlaceShips` for what is proved. */
  method AddNextShip(rows: nat, cols: nat, shipsDict: seq<Ship>, shipsForm: seq<string>, shipIdx: nat,
                     roll: nat -> nat, draw: nat)
    returns (result: Outcome, shared: seq<Ship>, next: nat)
    requires AllPlaced(shipsDict, rows, cols)
    requires RectangularForms(shipsForm)
    ensures shipIdx >= |shipsForm| ==> result == Found(shipsDict) && shared == shipsDict && next == draw
    ensures shipsDict <= shared && AllPlaced(shared, rows, cols)
    ensures forall i :: |shipsDict| <= i < |shared| ==> IsCandidate(shared[i], rows, cols, shipsForm, shipIdx, false)
    ensures result.Found? ==> result.ships == shared && |shared| >= |shipsDict| + (|shipsForm| - shipIdx)
    ensures result.Found? && shipIdx < |shipsForm| ==>
              && shared[|shipsDict|].form == shipsForm[shipIdx]
              && forall m :: 0 <= m < |shipsDict| ==> Apart(shared[|shipsDict|], shipsDict[m])
    ensures shipIdx < |shipsForm| && |shipsDict| <= 10 ==>
              && (NoFit(BoardOf(rows, cols, shipsDict), rows, cols, shipsForm[shipIdx], false) ==>
                    shared == shipsDict && (result == NoneFound || result == EmptyRange))
              && (result == NoneFound && shared == shipsDict ==>
                    NoFit(BoardOf(rows, cols, shipsDict), rows, cols, shipsForm[shipIdx], false))
    ensures result == EmptyRange ==> TooBig(rows, cols, shipsForm, shipIdx)
    ensures result == Overflow ==> |shared| > 10
    ensures shipIdx < |shipsForm| && |shipsDict| > 10 ==> result == Overflow && shared == shipsDict
  {
    result, shared, next := PlaceShips(rows, cols, shipsDict, shipsForm, shipIdx, roll, draw, false);
  }

  /** `__add_next_ship` with the origin scan corrected to `range(slack + 1)`
      and `% (slack + 1)`, so that the last row and the last column can hold
      a ship. With it the search skips a ship, appending nothing, exactly when
      no turn of its form fits anywhere on the board. */
  method AddNextShipInclusive(rows: nat, cols: nat, shipsDict: seq<Ship>, shipsForm: seq<string>, shipIdx: nat,
                              roll: nat -> nat, draw: nat)
    returns (result: Outcome, shared: seq<Ship>, next: nat)
    requires AllPlaced(shipsDict, rows, cols)
    requires RectangularForms(shipsForm)
    ensures shipIdx >= |shipsForm| ==> result == Found(shipsDict) && shared == shipsDict && next == draw
    ensures shipsDict <= shared && AllPlaced(shared, rows, cols)
    ensures forall i :: |shipsDict| <= i < |shared| ==> IsCandidate(shared[i], rows, cols, shipsForm, shipIdx, true)
    ensures result.Found? ==> result.ships == shared && |shared| >= |shipsDict| + (|shipsForm| - shipIdx)
    ensures result.Found? && shipIdx < |shipsForm| ==>
              && shared[|shipsDict|].form == shipsForm[shipIdx]
              && forall m :: 0 <= m < |shipsDict| ==> Apart(shared[|shipsDict|], shipsDict[m])
    ensures shipIdx < |shipsForm| && |shipsDict| <= 10 ==>
              && (NoFit(BoardOf(rows, cols, shipsDict), rows, cols, shipsForm[shipIdx], true) ==>
                    shared == shipsDict && (result == NoneFound || result == EmptyRange))
              && (result == NoneFound && shared == shipsDict ==>
                    NoFit(BoardOf(rows, cols, shipsDict), rows, cols, shipsForm[shipIdx], true))
    ensures result == EmptyRange ==> TooBig(rows, cols, shipsForm, shipIdx)
    ensures result == Overflow ==> |shared| > 10
    ensures shipIdx < |shipsForm| && |shipsDict| > 10 ==> result == Overflow && shared == shipsDict
  {
    result, shared, next := PlaceShips(rows, cols, shipsDict, shipsForm, shipIdx, roll, draw, true);
  }

  /** The search of `__add_next_ship`: place ship `shipIdx` and, recursively,
      the ones after it. `shipsDict` is the list shared by the whole search;
      `shared` is that list after the call (the source appends to it in place
      and never removes an entry), and `next` is the position of the first
      unused draw. `inclusive` selects the corrected origin scan.

      Proved: past the last form the list comes back unchanged; the list only
      grows; every entry appended is a candidate (one of the remaining forms,
      a turn in 0..3, an origin in the scanned range) and lies on the board;
      the first entry appended is ship `shipIdx` at a position accepted on the
      board of the ships already placed, so apart from each of them; a found
      list holds at least one entry per remaining form; when no turn fits at
      any scanned origin nothing is appended and the result is `None` or the
      `ValueError`, and conversely a `None` with nothing appended means that
      no turn fits; the `ValueError` comes only from a form too big for the
      board. */
  method PlaceShips(rows: nat, cols: nat, shipsDict: seq<Ship>, shipsForm: seq<string>, shipIdx: nat,
                    roll: nat -> nat, draw: nat, inclusive: bool)
    returns (result: Outcome, shared: seq<Ship>, next: nat)
    requires AllPlaced(shipsDict, rows, cols)
    requires RectangularForms(shipsForm)
    ensures shipIdx >= |shipsForm| ==> result == Found(shipsDict) && shared == shipsDict && next == draw
    ensures shipsDict <= shared && AllPlaced(shared, rows, cols)
    ensures forall i :: |shipsDict| <= i < |shared| ==> IsCandidate(shared[i], rows, cols, shipsForm, shipIdx, inclusive)
    ensures result.Found? ==> result.ships == shared && |shared| >= |shipsDict| + (|shipsForm| - shipIdx)
    ensures result.Found? && shipIdx < |shipsForm| ==>
              && shared[|shipsDict|].form == shipsForm[shipIdx]
              && forall m :: 0 <= m < |shipsDict| ==> Apart(shared[|shipsDict|], shipsDict[m])
    ensures shipIdx < |shipsForm| && |shipsDict| <= 10 ==>
              && (NoFit(BoardOf(rows, cols, shipsDict), rows, cols, shipsForm[shipIdx], inclusive) ==>
                    shared == shipsDict && (result == NoneFound || result == EmptyRange))
              && (result == NoneFound && shared == shipsDict ==>
                    NoFit(BoardOf(rows, cols, shipsDict), rows, cols, shipsForm[shipIdx], inclusive))
    ensures result == EmptyRange ==> TooBig(rows, cols, shipsForm, shipIdx)
    ensures result == Overflow ==> |shared| > 10
    ensures shipIdx < |shipsForm| && |shipsDict| > 10 ==> result == Overflow && shared == shipsDict
    decreases |shipsForm| - shipIdx, 2
  {
    if shipIdx >= |shipsForm| {
      return Found(shipsDict), shipsDict, draw;
    }
    shared, next := shipsDict, draw;
    var initialTurn := RandInt(roll, next, 0, 3);
    next := next + 1;
    var shipForm := shipsForm[shipIdx];
    if |shipsDict| > 10 {
      return Overflow, shared, next;
    }
    var currentBoard := GenerateBoard(rows, cols, shipsDict);
    BoardOfIsBoard(rows, cols, shipsDict, currentBoard);
    ghost var noFit := NoFit(currentBoard, rows, cols, shipForm, inclusive);

    for dt := 0 to 4
      invariant Grown(rows, cols, shipsDict, shared, shipsForm, shipIdx, currentBoard, inclusive)
      invariant noFit ==> shared == shipsDict
      invariant |shared| == |shipsDict| ==> TurnsTried(currentBoard, rows, cols, shipForm, initialTurn, dt, inclusive)
    {
      var shipTurn := (initialTurn + dt) % 4;
      var sf := TurnForm(shipForm, shipTurn);
      var sfRows := Split(sf, ',');
      TurnedRowsShape(shipForm, shipTurn);
      assert Rectangular(sfRows) by {
        if shipTurn == 0 {
          assert sfRows == Split(shipForm, ',');
        }
      }
      if rows - |sfRows| < 0 {
        assert TooBig(rows, cols, shipsForm, shipIdx) by {
          assert |TurnedRows(shipsForm[shipIdx], shipTurn)| > rows;
        }
        return EmptyRange, shared, next;
      }
      var initialRow := RandInt(roll, next, 0, rows - |sfRows|);
      next := next + 1;
      if cols - |sfRows[0]| < 0 {
        assert TooBig(rows, cols, shipsForm, shipIdx) by {
          assert |TurnedRows(shipsForm[shipIdx], shipTurn)[0]| > cols;
        }
        return EmptyRange, shared, next;
      }
      var initialCol := RandInt(roll, next, 0, cols - |sfRows[0]|);
      next := next + 1;
      result, shared, next := ScanOrigins(rows, cols, shipsDict, shipsForm, shipIdx, roll, next,
                                          currentBoard, shipTurn, sf, initialRow, initialCol, shared, inclusive);
      if result != NoneFound {
        if result.Found? {
          AcceptedShipIsApart(currentBoard, rows, cols, shipsDict, shared[|shipsDict|]);
        }
        return;
      }
      if |shared| == |shipsDict| {
        TurnsTriedStep(currentBoard, rows, cols, shipForm, initialTurn, dt, inclusive);
      }
    }
    if |shared| == |shipsDict| {
      TurnsTriedAll(currentBoard, rows, cols, shipForm, initialTurn, inclusive);
    }
    return NoneFound, shared, next;
  }

  /** The turns visited before step `dt`, from `initialTurn` on and wrapping
      round, fit at no scanned origin. */
  ghost predicate TurnsTried(board: seq<string>, rows: int, cols: int, form: string, initialTurn: int, dt: int,
                             inclusive: bool)
  {
    forall t :: 0 <= t < 4 && Offset(t, initialTurn, 4) < dt ==> TurnNoFit(board, rows, cols, TurnedRows(form, t), inclusive)
  }

  /** The turn visited at step `dt` fits nowhere: one more turn tried. */
  lemma TurnsTriedStep(board: seq<string>, rows: int, cols: int, form: string, initialTurn: int, dt: int,
                       inclusive: bool)
    requires 0 <= initialTurn < 4 && 0 <= dt < 4
    requires TurnsTried(board, rows, cols, form, initialTurn, dt, inclusive)
    requires TurnNoFit(board, rows, cols, TurnedRows(form, (initialTurn + dt) % 4), inclusive)
    ensures TurnsTried(board, rows, cols, form, initialTurn, dt + 1, inclusive)
  {
    VisitOffset(initialTurn, dt, 4);
  }

  /** All four turns tried: the form fits at no scanned origin. */
  lemma TurnsTriedAll(board: seq<string>, rows: int, cols: int, form: string, initialTurn: int, inclusive: bool)
    requires 0 <= initialTurn < 4
    requires TurnsTried(board, rows, cols, form, initialTurn, 4, inclusive)
    ensures NoFit(board, rows, cols, form, inclusive)
  {
  }

  /** Position `d` of a scan over `0 .. n - 1` that starts at `start` and
      wraps round visits `(start + d) % n`; `Offset` inverts that. */
  function Offset(x: int, start: int, n: int): int
  {
    if x >= start then x - start else x - start + n
  }

  /** Step `d` of the wrap-around scan visits a cell of the range, and the
      cell it visits has offset `d`: the scan visits every cell once. */
  lemma VisitOffset(start: int, d: int, n: int)
    requires 0 <= start <= n && 0 <= d < n
    ensures 0 <= (start + d) % n < n
    ensures Offset((start + d) % n, start, n) == d
  {
    if start + d < n {
      assert (start + d) % n == start + d;
    } else {
      assert (start + d) % n == start + d - n;
    }
  }

  /** What a search for ship `idx` has done to the shared list so far: only
      appended, placed ships and candidates, the first of them ship `idx`
      at a position accepted on `board`. */
  ghost predicate Grown(rows: int, cols: int, shipsDict: seq<Ship>, shared: seq<Ship>, shipsForm: seq<string>,
                        idx: nat, board: seq<string>, inclusive: bool)
  {
    && idx < |shipsForm|
    && shipsDict <= shared
    && AllPlaced(shared, rows, cols)
    && (forall i :: |shipsDict| <= i < |shared| ==> IsCandidate(shared[i], rows, cols, shipsForm, idx, inclusive))
    && (|shared| > |shipsDict| ==> FirstEntry(shared[|shipsDict|], board, shipsForm[idx]))
  }

  /** The `for dr` and `for dc` loops of `__add_next_ship` for one turn of
      the form: visit the origins from the drawn one on, wrapping round, and
      recurse at every accepted one until a recursion returns a result. When
      nothing is appended, the turn fits at no scanned origin, and when it
      fits at none, nothing is appended. */
  method ScanOrigins(rows: nat, cols: nat, shipsDict: seq<Ship>, shipsForm: seq<string>, shipIdx: nat,
                     roll: nat -> nat, draw: nat, board: seq<string>, shipTurn: int, sf: string,
                     initialRow: int, initialCol: int, start: seq<Ship>, inclusive: bool)
    returns (result: Outcome, shared: seq<Ship>, next: nat)
    requires RectangularForms(shipsForm)
    requires |shipsDict| <= 10 && IsBoardOf(board, rows, cols, shipsDict)
    requires Grown(rows, cols, shipsDict, start, shipsForm, shipIdx, board, inclusive)
    requires 0 <= shipTurn < 4 && Split(sf, ',') == TurnedRows(shipsForm[shipIdx], shipTurn)
    requires Rectangular(Split(sf, ','))
    requires 0 <= initialRow <= rows - |Split(sf, ',')| && 0 <= initialCol <= cols - |Split(sf, ',')[0]|
    ensures Grown(rows, cols, shipsDict, shared, shipsForm, shipIdx, board, inclusive)
    ensures start <= shared
    ensures |shared| == |start| ==> result == NoneFound
    ensures TurnNoFit(board, rows, cols, Split(sf, ','), inclusive) ==> shared == start
    ensures |shared| == |start| ==> TurnNoFit(board, rows, cols, Split(sf, ','), inclusive)
    ensures |shared| == |shipsDict| ==> TurnNoFit(board, rows, cols, Split(sf, ','), inclusive)
    ensures result.Found? ==> result.ships == shared && |shared| >= |shipsDict| + (|shipsForm| - shipIdx)
    ensures result == EmptyRange ==> TooBig(rows, cols, shipsForm, shipIdx)
    ensures result == Overflow ==> |shared| > 10
    decreases |shipsForm| - shipIdx, 1
  {
    shared, next := start, draw;
    var sfRows := Split(sf, ',');
    var shipForm := shipsForm[shipIdx];
    var rowSpan := Reach(rows - |sfRows|, inclusive);
    var colSpan := Reach(cols - |sfRows[0]|, inclusive);
    for dr := 0 to rowSpan
      invariant Grown(rows, cols, shipsDict, shared, shipsForm, shipIdx, board, inclusive)
      invariant start <= shared
      invariant TurnNoFit(board, rows, cols, sfRows, inclusive) ==> shared == start
      invariant |shared| == |start| ==> Tried(board, sfRows, rowSpan, colSpan, initialRow, initialCol, dr, 0)
    {
      for dc := 0 to colSpan
        invariant Grown(rows, cols, shipsDict, shared, shipsForm, shipIdx, board, inclusive)
        invariant start <= shared
        invariant TurnNoFit(board, rows, cols, sfRows, inclusive) ==> shared == start
        invariant |shared| == |start| ==> Tried(board, sfRows, rowSpan, colSpan, initialRow, initialCol, dr, dc)
      {
        var shipRow := (initialRow + dr) % rowSpan;
        var shipCol := (initialCol + dc) % colSpan;
        VisitOffset(initialRow, dr, rowSpan);
        VisitOffset(initialCol, dc, colSpan);
        var entry := Ship(shipForm, shipRow, shipCol, shipTurn);
        assert Shape(entry) == sfRows;
        assert FitsOn(board, shipRow, shipCol, sfRows);
        if !ValidatePosition(board, shipRow, shipCol, sf) {
          if |shared| == |start| {
            TriedStep(board, sfRows, rowSpan, colSpan, initialRow, initialCol, dr, dc);
          }
        } else {
          assert IsCandidate(entry, rows, cols, shipsForm, shipIdx, inclusive);
          var found;
          found, shared, next := TryOrigin(rows, cols, shipsDict, shipsForm, shipIdx, roll, next, board, entry,
                                           shared, inclusive);
          if found != NoneFound {
            return found, shared, next;
          }
        }
      }
      if |shared| == |start| {
        TriedNextRow(board, sfRows, rowSpan, colSpan, initialRow, initialCol, dr);
      }
    }
    if |shared| == |start| {
      TriedAll(board, rows, cols, sfRows, initialRow, initialCol, inclusive);
    }
    return NoneFound, shared, next;
  }

  /** Lines 120-123 of `__add_next_ship` at an accepted origin: append the
      entry to the shared list and search for the remaining ships. */
  method TryOrigin(rows: nat, cols: nat, shipsDict: seq<Ship>, shipsForm: seq<string>, shipIdx: nat,
                   roll: nat -> nat, draw: nat, board: seq<string>, entry: Ship, start: seq<Ship>, inclusive: bool)
    returns (result: Outcome, shared: seq<Ship>, next: nat)
    requires RectangularForms(shipsForm)
    requires |shipsDict| <= 10 && IsBoardOf(board, rows, cols, shipsDict)
    requires Grown(rows, cols, shipsDict, start, shipsForm, shipIdx, board, inclusive)
    requires IsCandidate(entry, rows, cols, shipsForm, shipIdx, inclusive)
    requires FirstEntry(entry, board, shipsForm[shipIdx])
    ensures Grown(rows, cols, shipsDict, shared, shipsForm, shipIdx, board, inclusive)
    ensures start + [entry] <= shared
    ensures result.Found? ==> result.ships == shared && |shared| >= |shipsDict| + (|shipsForm| - shipIdx)
    ensures result == EmptyRange ==> TooBig(rows, cols, shipsForm, shipIdx)
    ensures result == Overflow ==> |shared| > 10
    decreases |shipsForm| - shipIdx, 0
  {
    shared := start + [entry];
    assert Grown(rows, cols, shipsDict, shared, shipsForm, shipIdx, board, inclusive) by {
      if |start| > |shipsDict| {
        assert shared[|shipsDict|] == start[|shipsDict|];
      }
    }
    var grown;
    result, grown, next := PlaceShips(rows, cols, shared, shipsForm, shipIdx + 1, roll, draw, inclusive);
    CandidatesCarryOver(rows, cols, shipsForm, shipIdx, shipsDict, shared, grown, inclusive);
    assert grown[|shipsDict|] == shared[|shipsDict|];
    shared := grown;
    if result == EmptyRange {
      TooBigEarlier(rows, cols, shipsForm, shipIdx);
    }
  }

  /** The scan over origins `rowSpan` by `colSpan`, from `(iR, iC)` on and
      wrapping round, has found no free origin before step `(dr, dc)`. */
  ghost predicate Tried(board: seq<string>, g: Grid, rowSpan: int, colSpan: int, iR: int, iC: int, dr: int, dc: int)
  {
    forall r, c :: 0 <= r < rowSpan && 0 <= c < colSpan &&
                   (Offset(r, iR, rowSpan) < dr || (Offset(r, iR, rowSpan) == dr && Offset(c, iC, colSpan) < dc)) ==>
                   !FreeAt(board, r, c, g)
  }

  /** The origin visited at step `(dr, dc)` is not free: one more step tried. */
  lemma TriedStep(board: seq<string>, g: Grid, rowSpan: int, colSpan: int, iR: int, iC: int, dr: int, dc: int)
    requires 0 <= iR <= rowSpan && 0 <= dr < rowSpan && 0 <= iC <= colSpan && 0 <= dc < colSpan
    requires Tried(board, g, rowSpan, colSpan, iR, iC, dr, dc)
    requires !FreeAt(board, (iR + dr) % rowSpan, (iC + dc) % colSpan, g)
    ensures Tried(board, g, rowSpan, colSpan, iR, iC, dr, dc + 1)
  {
    VisitOffset(iR, dr, rowSpan);
    VisitOffset(iC, dc, colSpan);
  }

  /** A row of origins finished: the scan moves to the next. */
  lemma TriedNextRow(board: seq<string>, g: Grid, rowSpan: int, colSpan: int, iR: int, iC: int, dr: int)
    requires 0 <= iC <= colSpan
    requires Tried(board, g, rowSpan, colSpan, iR, iC, dr, colSpan)
    ensures Tried(board, g, rowSpan, colSpan, iR, iC, dr + 1, 0)
  {
  }

  /** Every row of origins finished: the grid fits at no scanned origin. */
  lemma TriedAll(board: seq<string>, rows: int, cols: int, g: Grid, iR: int, iC: int, inclusive: bool)
    requires |g| > 0
    requires 0 <= iR <= Reach(rows - |g|, inclusive)
    requires Tried(board, g, Reach(rows - |g|, inclusive), Reach(cols - |g[0]|, inclusive), iR, iC,
                   Reach(rows - |g|, inclusive), 0)
    ensures TurnNoFit(board, rows, cols, g, inclusive)
  {
  }

  /** The board `__generate_board` derives from `ships`, as a value. */
  ghost function BoardOf(rows: nat, cols: nat, ships: seq<Ship>): (board: seq<string>)
    requires |ships| <= 10
    ensures IsBoardOf(board, rows, cols, ships)
  {
    seq(rows, r => seq(cols, c => BoardCell(ships, rows, cols, r, c)))
  }

  /** A derived board is unique. */
  lemma BoardOfIsBoard(rows: nat, cols: nat, ships: seq<Ship>, board: seq<string>)
    requires |ships| <= 10
    requires IsBoardOf(board, rows, cols, ships)
    ensures board == BoardOf(rows, cols, ships)
  {
    var b := BoardOf(rows, cols, ships);
    forall r | 0 <= r < rows
      ensures board[r] == b[r]
    {
      forall c | 0 <= c < cols
        ensures board[r][c] == b[r][c]
      {
        assert InBoard(rows, cols, r, c);
      }
    }
  }

  /** The first entry a call appends: its own form, accepted on its board. */
  ghost predicate FirstEntry(e: Ship, board: seq<string>, form: string)
  {
    e.form == form && FreeAt(board, e.row, e.col, Shape(e))
  }

  /** Entries a deeper call appends are candidates for this call too. */
  lemma CandidatesCarryOver(rows: nat, cols: nat, shipsForm: seq<string>, idx: nat,
                            base: seq<Ship>, mid: seq<Ship>, grown: seq<Ship>, inclusive: bool)
    requires base <= mid <= grown
    requires forall i :: |base| <= i < |mid| ==> IsCandidate(mid[i], rows, cols, shipsForm, idx, inclusive)
    requires forall i :: |mid| <= i < |grown| ==> IsCandidate(grown[i], rows, cols, shipsForm, idx + 1, inclusive)
    ensures forall i :: |base| <= i < |grown| ==> IsCandidate(grown[i], rows, cols, shipsForm, idx, inclusive)
  {
    forall i | |base| <= i < |grown|
      ensures IsCandidate(grown[i], rows, cols, shipsForm, idx, inclusive)
    {
      if i < |mid| {
        assert grown[i] == mid[i];
      } else {
        assert IsCandidate(grown[i], rows, cols, shipsForm, idx + 1, inclusive);
        var k :| idx + 1 <= k < |shipsForm| && shipsForm[k] == grown[i].form;
        assert idx <= k;
      }
    }
  }

  /** A form too big for the board from `idx + 1` on is one from `idx` on. */
  lemma TooBigEarlier(rows: int, cols: int, shipsForm: seq<string>, idx: nat)
    requires TooBig(rows, cols, shipsForm, idx + 1)
    ensures TooBig(rows, cols, shipsForm, idx)
  {
    var k, t :| idx + 1 <= k < |shipsForm| && 0 <= t < 4 && |TurnedRows(shipsForm[k], t)| > 0 &&
                (|TurnedRows(shipsForm[k], t)| > rows || |TurnedRows(shipsForm[k], t)[0]| > cols);
    assert idx <= k;
  }

  /** As written, the scan never places a ship so that it reaches the last
      row or the last column of the board. */
  lemma LastLineNeverUsed(e: Ship, rows: int, cols: int, shipsForm: seq<string>, idx: nat, x: int, y: int)
    requires IsCandidate(e, rows, cols, shipsForm, idx, false)
    requires Rectangular(Shape(e))
    requires Covers(e, x, y)
    ensures x < rows - 1 && y < cols - 1
  {
  }

  /** On an empty 1 by 1 board a one-cell ship fits at the only origin, yet
      the scan as written visits no origin at all, so `AddNextShip` cannot
      place it; the corrected scan visits that origin. */
  lemma OneCellBoard()
    ensures FreeAt(BoardOf(1, 1, []), 0, 0, TurnedRows("X", 0))
    ensures NoFit(BoardOf(1, 1, []), 1, 1, "X", false)
    ensures !NoFit(BoardOf(1, 1, []), 1, 1, "X", true)
  {
    var g := Split("X", ',');
    assert g == ["X"] by {
      SplitOfSepFree("X", ',');
    }
    var board := BoardOf(1, 1, []);
    assert board[0][0] == '-';
    forall t | 0 <= t < 4
      ensures TurnNoFit(board, 1, 1, TurnedRows("X", t), false)
    {
      if t > 0 {
        RotateNShape(g, t);
      }
    }
    assert TurnedRows("X", 0) == g;
    assert FreeAt(board, 0, 0, g);
    assert Reach(1 - |g|, true) == 1 && Reach(1 - |g[0]|, true) == 1;
    assert !TurnNoFit(board, 1, 1, g, true);
  }
}
