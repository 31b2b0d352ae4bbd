/** The game itself: which shots are on the board (`Game.check_play`), how
    many ship cells there are to hit (`Game.ships_spaces`), and the result of
    a shot (`Game.evaluate`): 0 water, 1 hit, 2 hit and sunk, 3 every ship
    cell hit. */
module Games {
  import opened Strings
  import opened Forms
  import opened Boards
  import opened Shots

  /** The fields of a game that the engine reads: the board size and the
      ship forms, separated by `|`. */
  datatype Game = Game(boardRows: int, boardCols: int, shipsForm: string)

  /** `check_play`: the shot aims at a cell of the board, within the same
      bounds as every cell a placed ship covers; on an empty board no shot
      passes. */
  function CheckPlay(game: Game, shotRow: int, shotCol: int): (ok: bool)
    ensures ok <==> InBoard(game.boardRows, game.boardCols, shotRow, shotCol)
    ensures ok ==> game.boardRows > 0 && game.boardCols > 0
  {
    0 <= shotRow < game.boardRows && 0 <= shotCol < game.boardCols
  }

  /** A shot passes `check_play` exactly when it indexes a cell of every
      board of the game's size, so `evaluate` can read and write that cell. */
  lemma CheckPlayIndexesBoard(game: Game, board: seq<string>, shotRow: int, shotCol: int)
    requires HasShape(board, game.boardRows, game.boardCols)
    ensures CheckPlay(game, shotRow, shotCol) <==> 0 <= shotRow < |board| && 0 <= shotCol < |board[shotRow]|
  {
    if 0 <= shotRow < |board| {
      assert |board[shotRow]| == game.boardCols;
    }
  }

  /** `ships_spaces`: the number of `X` in the ship forms, which is the sum of
      the `X` of each form that `put_ships` splits the text into. */
  function ShipsSpaces(game: Game): (n: nat)
    ensures n == SumCount(Split(game.shipsForm, '|'), 'X')
  {
    JoinSplit(game.shipsForm, '|');
    CountCharJoin(Split(game.shipsForm, '|'), '|', 'X');
    CountChar(game.shipsForm, 'X')
  }

  /** Every cell of ship `s` has been aimed at by a resolved play. */
  ghost predicate Sunk(s: Ship, plays: seq<Play>)
  {
    forall x, y :: Covers(s, x, y) ==> ShotCell(plays, x, y) != '-'
  }

  /** The plays after the current shot: the shot counts as a resolved play
      with result 1 on a ship cell and 0 elsewhere. */
  function WithShot(plays: seq<Play>, ships: seq<Ship>, shotRow: int, shotCol: int): seq<Play>
  {
    plays + [Play(shotRow, shotCol, Some(if Owner(ships, shotRow, shotCol) >= 0 then 1 else 0))]
  }

  /** The test of `evaluate` for a finished game: after the shot, the
      player's shots board holds as many `1` cells as the game has ship cells. */
  predicate Finished(game: Game, ships: seq<Ship>, plays: seq<Play>, shotRow: int, shotCol: int)
    requires game.boardRows >= 0 && game.boardCols >= 0
  {
    SumCount(ShotsBoard(game.boardRows, game.boardCols, WithShot(plays, ships, shotRow, shotCol)), '1') == ShipsSpaces(game)
  }

  /** `evaluate`: build the board and the player's shots board, mark the
      shot, check whether the ship hit is sunk, and whether every ship cell
      of the game has now been hit.

      The result is 3 exactly when the shots board after the shot counts as
      many hits as the game has ship cells. Otherwise it is 0 exactly when no
      ship covers the cell, 2 when the ship whose index the board shows there
      has every cell shot, and 1 when it has not. */
  method Evaluate(game: Game, ships: seq<Ship>, plays: seq<Play>, shotRow: int, shotCol: int)
    returns (result: int)
    requires CheckPlay(game, shotRow, shotCol)
    requires |ships| <= 10 && AllPlaced(ships, game.boardRows, game.boardCols)
    requires PlaysInBoard(plays, game.boardRows, game.boardCols)
    ensures 0 <= result <= 3
    ensures result == 3 <==> Finished(game, ships, plays, shotRow, shotCol)
    ensures result == 0 <==> !Finished(game, ships, plays, shotRow, shotCol) && Owner(ships, shotRow, shotCol) == -1
    ensures result == 1 <==> !Finished(game, ships, plays, shotRow, shotCol) && Owner(ships, shotRow, shotCol) >= 0 &&
                             !Sunk(ships[Owner(ships, shotRow, shotCol)], WithShot(plays, ships, shotRow, shotCol))
    ensures result == 2 <==> !Finished(game, ships, plays, shotRow, shotCol) && Owner(ships, shotRow, shotCol) >= 0 &&
                             Sunk(ships[Owner(ships, shotRow, shotCol)], WithShot(plays, ships, shotRow, shotCol))
  {
    var rows: nat := game.boardRows;
    var cols: nat := game.boardCols;
    var board := GenerateBoard(rows, cols, ships);
    var shots := GenerateShotsBoard(rows, cols, plays);
    assert InBoard(rows, cols, shotRow, shotCol);
    var shotResult := if board[shotRow][shotCol] in ['-', ' '] then 0 else 1;
    assert shotResult == 1 <==> Owner(ships, shotRow, shotCol) >= 0;
    var mark := if shotResult == 0 then '0' else '1';
    shots := shots[shotRow := ReplaceAt(shots[shotRow], shotCol, mark)];
    ghost var after := WithShot(plays, ships, shotRow, shotCol);
    ShotNext(plays, after[|plays|]);
    ShotsBoardUnique(rows, cols, after, shots);

    if shotResult == 1 {
      var shipIdx := board[shotRow][shotCol] as int - '0' as int;
      assert shipIdx == Owner(ships, shotRow, shotCol);
      var ship := ships[shipIdx];
      var sunken := ScanSunk(rows, cols, shots, ship);
      SunkFromBoard(rows, cols, shots, ship, after);
      if sunken {
        shotResult := 2;
      }
    }

    var hits := SumCount(shots, '1');
    result := if ShipsSpaces(game) == hits then 3 else shotResult;
  }

  /** The sunk check of `evaluate`: walk the turned form of the ship hit and
      look for an `X` whose cell on the shots board is still `-`. */
  method ScanSunk(rows: nat, cols: nat, shots: seq<string>, ship: Ship) returns (sunken: bool)
    requires Placed(ship, rows, cols)
    requires HasShape(shots, rows, cols)
    ensures sunken <==> ShotBefore(shots, ship, |Shape(ship)|, 0)
  {
    var sf := TurnForm(ship.form, ship.turn);
    var sfRows := Split(sf, ',');
    assert sfRows == Shape(ship);
    sunken := true;
    for r := 0 to |sfRows|
      invariant sunken <==> ShotBefore(shots, ship, r, 0)
    {
      for c := 0 to |sfRows[r]|
        invariant sunken <==> ShotBefore(shots, ship, r, c)
      {
        ShotBeforeStep(rows, cols, shots, ship, r, c);
        if sfRows[r][c] == 'X' {
          if shots[ship.row + r][ship.col + c] == '-' {
            sunken := false;
          }
        }
      }
      ShotBeforeNextRow(shots, ship, r);
    }
  }

  /** One more shape cell scanned. */
  lemma ShotBeforeStep(rows: nat, cols: nat, shots: seq<string>, s: Ship, r: int, c: int)
    requires Placed(s, rows, cols)
    requires HasShape(shots, rows, cols)
    requires 0 <= r < |Shape(s)| && 0 <= c < |Shape(s)[r]|
    ensures Shape(s)[r][c] == 'X' ==> 0 <= s.row + r < |shots| && 0 <= s.col + c < |shots[s.row + r]|
    ensures ShotBefore(shots, s, r, c + 1) <==>
            ShotBefore(shots, s, r, c) && (Shape(s)[r][c] == 'X' ==> shots[s.row + r][s.col + c] != '-')
  {
  }

  /** The end of a shape row is the start of the next. */
  lemma ShotBeforeNextRow(shots: seq<string>, s: Ship, r: int)
    requires 0 <= r < |Shape(s)|
    ensures ShotBefore(shots, s, r, |Shape(s)[r]|) <==> ShotBefore(shots, s, r + 1, 0)
  {
  }

  /** The `X` cells of ship `s`'s shape before shape cell `(i, j)` all hold a
      mark on `shots`. */
  ghost predicate ShotBefore(shots: seq<string>, s: Ship, i: int, j: int)
  {
    var g := Shape(s);
    forall a, b :: 0 <= a < |g| && 0 <= b < |g[a]| && g[a][b] == 'X' && Before(a, b, i, j) ==>
      0 <= s.row + a < |shots| && 0 <= s.col + b < |shots[s.row + a]| && shots[s.row + a][s.col + b] != '-'
  }

  /** The scan over the whole shape decides `Sunk`. */
  lemma SunkFromBoard(rows: nat, cols: nat, shots: seq<string>, s: Ship, plays: seq<Play>)
    requires Placed(s, rows, cols)
    requires shots == ShotsBoard(rows, cols, plays)
    ensures ShotBefore(shots, s, |Shape(s)|, 0) <==> Sunk(s, plays)
  {
    var g := Shape(s);
    if ShotBefore(shots, s, |g|, 0) {
      forall x, y | Covers(s, x, y)
        ensures ShotCell(plays, x, y) != '-'
      {
        assert g[x - s.row][y - s.col] == 'X';
        assert shots[x][y] == ShotCell(plays, x, y);
      }
    }
    if Sunk(s, plays) {
      forall a, b | 0 <= a < |g| && 0 <= b < |g[a]| && g[a][b] == 'X'
        ensures 0 <= s.row + a < |shots| && 0 <= s.col + b < |shots[s.row + a]|
        ensures shots[s.row + a][s.col + b] != '-'
      {
        assert Covers(s, s.row + a, s.col + b);
      }
    }
  }

  /** A sunk ship has had a resolved play aimed at each of its cells. */
  lemma SunkMeansEveryCellShot(s: Ship, plays: seq<Play>, x: int, y: int)
    requires Sunk(s, plays)
    requires Covers(s, x, y)
    ensures exists i :: 0 <= i < |plays| && ShotAt(plays[i], x, y)
  {
    ShotCellMeaning(plays, x, y);
  }

  /** The board cells ship `s` occupies. */
  ghost function Footprint(s: Ship): set<(int, int)>
  {
    var g := Shape(s);
    set a, b | 0 <= a < |g| && 0 <= b < |g[a]| && g[a][b] == 'X' :: (s.row + a, s.col + b)
  }

  /** A cell is in a ship's footprint exactly when the ship covers it. */
  lemma FootprintIsCovered(s: Ship, x: int, y: int)
    ensures (x, y) in Footprint(s) <==> Covers(s, x, y)
  {
    if Covers(s, x, y) {
      assert Shape(s)[x - s.row][y - s.col] == 'X';
    }
  }

  /** The board cells the ships occupy. */
  ghost function Fleet(ships: seq<Ship>): set<(int, int)>
  {
    if |ships| == 0 then {} else Fleet(ships[..|ships| - 1]) + Footprint(ships[|ships| - 1])
  }

  /** A cell belongs to the fleet exactly when some ship covers it. */
  lemma {:induction false} FleetIsCovered(ships: seq<Ship>, x: int, y: int)
    ensures (x, y) in Fleet(ships) <==> Owner(ships, x, y) >= 0
    decreases |ships|
  {
    if |ships| > 0 {
      var s := ships[|ships| - 1];
      FleetIsCovered(ships[..|ships| - 1], x, y);
      FootprintIsCovered(s, x, y);
    }
  }

  /** The cells `cells` moved by `(dr, dc)`. */
  ghost function Shift(cells: set<(int, int)>, dr: int, dc: int): set<(int, int)>
  {
    set p | p in cells :: (p.0 + dr, p.1 + dc)
  }

  /** A cell is in the moved set exactly when the cell it came from is in `cells`. */
  lemma ShiftMember(cells: set<(int, int)>, dr: int, dc: int, v: (int, int))
    ensures v in Shift(cells, dr, dc) <==> (v.0 - dr, v.1 - dc) in cells
  {
    if (v.0 - dr, v.1 - dc) in cells {
      var p := (v.0 - dr, v.1 - dc);
      assert v == (p.0 + dr, p.1 + dc);
    }
  }

  /** Moving a set of cells by `(dr, dc)` keeps its size. */
  lemma {:induction false} ShiftedSize(cells: set<(int, int)>, dr: int, dc: int)
    ensures |Shift(cells, dr, dc)| == |cells|
    decreases |cells|
  {
    if cells != {} {
      var q :| q in cells;
      var rest := cells - {q};
      ShiftedSize(rest, dr, dc);
      var moved := (q.0 + dr, q.1 + dc);
      assert Shift(cells, dr, dc) == Shift(rest, dr, dc) + {moved} by {
        forall v
          ensures v in Shift(cells, dr, dc) <==> v in Shift(rest, dr, dc) + {moved}
        {
          ShiftMember(cells, dr, dc, v);
          ShiftMember(rest, dr, dc, v);
        }
      }
      ShiftMember(rest, dr, dc, moved);
      assert |Shift(rest, dr, dc) + {moved}| == |Shift(rest, dr, dc)| + 1;
      assert |cells| == |rest| + 1;
    } else {
      assert Shift(cells, dr, dc) == {};
    }
  }

  /** A ship occupies as many cells as its form has `X`. */
  lemma FootprintSize(s: Ship)
    requires s.turn > 0 ==> Rectangular(Split(s.form, ','))
    ensures |Footprint(s)| == CountChar(s.form, 'X')
  {
    var g := Shape(s);
    var shifted := Shift(Cells(g, 'X'), s.row, s.col);
    forall q | q in Footprint(s)
      ensures q in shifted
    {
      var a, b := q.0 - s.row, q.1 - s.col;
      assert (a, b) in Cells(g, 'X');
    }
    assert Footprint(s) == shifted;
    ShiftedSize(Cells(g, 'X'), s.row, s.col);
    SumCountCells(g, 'X');
    TurnedRowsCount(s.form, s.turn);
    FormCount(s.form);
  }

  /** Ships that share no cell and carry the forms `forms`, one each, occupy
      as many cells as the forms have `X`. */
  lemma {:induction false} FleetSize(ships: seq<Ship>, forms: seq<string>)
    requires |ships| == |forms|
    requires forall i :: 0 <= i < |ships| ==> ships[i].form == forms[i]
    requires forall i :: 0 <= i < |ships| ==> ships[i].turn > 0 ==> Rectangular(Split(ships[i].form, ','))
    requires NoOverlap(ships)
    ensures |Fleet(ships)| == SumCount(forms, 'X')
    decreases |ships|
  {
    if |ships| > 0 {
      var n := |ships| - 1;
      var init := ships[..n];
      assert forall i :: 0 <= i < n ==> init[i] == ships[i];
      FleetSize(init, forms[..n]);
      FootprintSize(ships[n]);
      forall q | q in Fleet(init)
        ensures q !in Footprint(ships[n])
      {
        FleetIsCovered(init, q.0, q.1);
        var k := Owner(init, q.0, q.1);
        assert Covers(ships[k], q.0, q.1);
        FootprintIsCovered(ships[n], q.0, q.1);
      }
      assert Fleet(init) * Footprint(ships[n]) == {};
    }
  }

  /** The ships of a game as `put_ships` means them: one ship per form of
      `ships_form`, in order, on the board, sharing no cell. */
  ghost predicate OneShipPerForm(game: Game, ships: seq<Ship>)
  {
    var forms := Split(game.shipsForm, '|');
    && |ships| == |forms|
    && (forall i :: 0 <= i < |ships| ==> ships[i].form == forms[i])
    && AllPlaced(ships, game.boardRows, game.boardCols)
    && NoOverlap(ships)
  }

  /** `ships_spaces` is the number of board cells the game's ships occupy. */
  lemma SpacesAreShipCells(game: Game, ships: seq<Ship>)
    requires OneShipPerForm(game, ships)
    ensures ShipsSpaces(game) == |Fleet(ships)|
  {
    FleetSize(ships, Split(game.shipsForm, '|'));
  }

  /** Every resolved play was judged against the same ships: its result is 0
      exactly when no ship covers the cell it aimed at. */
  ghost predicate Consistent(plays: seq<Play>, ships: seq<Ship>)
  {
    forall i :: 0 <= i < |plays| && plays[i].result.Some? ==>
      (plays[i].result.value == 0 <==> Owner(ships, plays[i].shotRow, plays[i].shotCol) == -1)
  }

  /** The cells of the fleet that some resolved play aimed at. */
  ghost function HitCells(ships: seq<Ship>, plays: seq<Play>): set<(int, int)>
  {
    set p | p in Fleet(ships) && exists i :: 0 <= i < |plays| && ShotAt(plays[i], p.0, p.1)
  }

  /** With a consistent history, the `1` cells of the shots board are the
      fleet cells that have been shot. */
  lemma OnesAreHitCells(rows: nat, cols: nat, ships: seq<Ship>, plays: seq<Play>)
    requires AllPlaced(ships, rows, cols)
    requires Consistent(plays, ships)
    ensures Cells(ShotsBoard(rows, cols, plays), '1') == HitCells(ships, plays)
  {
    var b := ShotsBoard(rows, cols, plays);
    forall q | q in Cells(b, '1')
      ensures q in HitCells(ships, plays)
    {
      var k := LastShot(plays, q.0, q.1);
      assert b[q.0][q.1] == ShotCell(plays, q.0, q.1);
      FleetIsCovered(ships, q.0, q.1);
      assert ShotAt(plays[k], q.0, q.1);
    }
    forall q | q in HitCells(ships, plays)
      ensures q in Cells(b, '1')
    {
      FleetIsCovered(ships, q.0, q.1);
      var k := Owner(ships, q.0, q.1);
      CoversInBoard(ships[k], rows, cols, q.0, q.1);
      LastShotIsLast(plays, q.0, q.1);
      var last := LastShot(plays, q.0, q.1);
      assert plays[last].result.value != 0;
      assert b[q.0][q.1] == '1';
    }
  }

  /** A subset as large as its superset is the whole of it. */
  lemma SubsetOfSameSize<T>(a: set<T>, b: set<T>)
    requires a <= b && |a| == |b|
    ensures a == b
  {
    assert a + b == b && a * b == a && a - b == {};
    assert |b - a| == 0;
    assert b - a == {};
  }

  /** With a consistent history, the count of `1` cells that `evaluate`
      compares with `ships_spaces` is the number of fleet cells shot. */
  lemma HitCount(rows: nat, cols: nat, ships: seq<Ship>, plays: seq<Play>)
    requires AllPlaced(ships, rows, cols)
    requires Consistent(plays, ships)
    ensures SumCount(ShotsBoard(rows, cols, plays), '1') == |HitCells(ships, plays)|
    ensures HitCells(ships, plays) <= Fleet(ships)
  {
    SumCountCells(ShotsBoard(rows, cols, plays), '1');
    OnesAreHitCells(rows, cols, ships, plays);
  }

  /** Every fleet cell shot, stated cell by cell. */
  ghost predicate AllShipCellsShot(ships: seq<Ship>, plays: seq<Play>)
  {
    forall x, y :: Owner(ships, x, y) >= 0 ==> exists i :: 0 <= i < |plays| && ShotAt(plays[i], x, y)
  }

  /** Every fleet cell is shot exactly when the shot fleet cells are the
      whole fleet. */
  lemma AllShotIffHitIsFleet(ships: seq<Ship>, plays: seq<Play>)
    ensures AllShipCellsShot(ships, plays) <==> HitCells(ships, plays) == Fleet(ships)
  {
    var fleet, hit := Fleet(ships), HitCells(ships, plays);
    if hit == fleet {
      forall x, y | Owner(ships, x, y) >= 0
        ensures exists i :: 0 <= i < |plays| && ShotAt(plays[i], x, y)
      {
        FleetIsCovered(ships, x, y);
        assert (x, y) in hit;
      }
    }
    if AllShipCellsShot(ships, plays) {
      forall q | q in fleet
        ensures q in hit
      {
        FleetIsCovered(ships, q.0, q.1);
      }
    }
  }

  /** When the game's ships are one per form and no two share a cell, and
      every earlier play was judged against them, the count that `evaluate`
      compares with `ships_spaces` reaches it exactly when every ship cell
      has been shot: a result of 3 means that every ship is sunk. */
  lemma FinishedIffAllShipCellsShot(game: Game, ships: seq<Ship>, plays: seq<Play>, shotRow: int, shotCol: int)
    requires CheckPlay(game, shotRow, shotCol)
    requires OneShipPerForm(game, ships)
    requires Consistent(plays, ships)
    ensures Finished(game, ships, plays, shotRow, shotCol) <==> AllShipCellsShot(ships, WithShot(plays, ships, shotRow, shotCol))
  {
    var rows: nat, cols: nat := game.boardRows, game.boardCols;
    var after := WithShot(plays, ships, shotRow, shotCol);
    assert Consistent(after, ships);
    SpacesAreShipCells(game, ships);
    HitCount(rows, cols, ships, after);
    AllShotIffHitIsFleet(ships, after);
    if |HitCells(ships, after)| == |Fleet(ships)| {
      SubsetOfSameSize(HitCells(ships, after), Fleet(ships));
    }
  }
}
