# Battleship game engine, modelled in Dafny

This project models the game engine of the `battleship-api` service: the
class `Game` in `battleship_api/models.py`. A game has a board of
`board_rows` by `board_cols` cells and a text `ships_form` holding the ship
forms, separated by `|`. Each form is a comma-separated grid of `X` (ship)
and `-` (empty), such as `XX-,-XX`. The engine does six things, each one a
module here:

- `Strings`: the Python string operations the engine relies on (`split`,
  `join`, `count`, and overwriting one character of a row by slicing).
- `Forms`: `__turn_form`, which turns a form a quarter turn clockwise per
  turn. It is a method with a loop, proved against the rotation function
  `RotateN`. Four turns give a rectangular form back, each turn swaps its
  height and width, and no `X` is lost.
- `Boards`: `__generate_board`, which paints each ship's index into the cells
  of its turned form and then blanks every `-` cell next to a ship (the halo).
  It is a method with nested loops, proved against a cell-by-cell definition
  of the board (`BoardCell`). Lemmas state that ship cells hold their index,
  that the halo touches only `-` cells, and that no `-` cell is left next to
  a ship.
- `Placement`: `__validate_position` and the backtracking search
  `__add_next_ship`. Randomness is a parameter: an arbitrary stream of draws
  `roll`, so every property holds for every outcome of `random.randint`.
- `Shots`: `__generate_shots_board`, which writes `0` or `1` for the last
  resolved play at each cell.
- `Games`: `check_play`, `ships_spaces` and `evaluate`. `Evaluate` is proved
  to return 0, 1, 2 or 3 under exactly the conditions the source checks.
  `FinishedIffAllShipCellsShot` proves that, with one ship per form, no
  overlap and a consistent play history, the count behind result 3 reaches
  `ships_spaces` exactly when every ship cell has been shot.

Ships and plays, which the source reads from the database, are passed in as
sequences of records (`Boards.Ship`, `Shots.Play`). The list `ships_dict`,
which the search appends to in place, is threaded through the search as a
value. Each call returns the outcome, the list as it stands after the call,
and the position of the next unused draw.

## Model

| member | source | states |
|---|---|---|
| Strings.Split | battleship_api/models.py:128 | `str.split` on one character gives at least one piece, and no piece contains the separator |
| Strings.CountChar | battleship_api/models.py:39 | `str.count` of one character is the number of positions that hold it |
| Strings.ReplaceAt | battleship_api/models.py:160 | overwriting a character by slicing keeps the length, sets that character and keeps every other one |
| Strings.JoinSplit | battleship_api/models.py:128-133 | joining the pieces of a split with the same separator gives the string back |
| Strings.SplitJoin | battleship_api/models.py:128-133 | splitting the join of separator-free pieces gives the pieces back |
| Strings.CountCharJoin | battleship_api/models.py:39 | joining adds only separators, so another character is counted piece by piece |
| Strings.JoinSeparators | battleship_api/models.py:133 | `sep.join` of `n` pieces holds the separators of the pieces and exactly `n - 1` more (by the definition of `Join`, one between each two pieces) |
| Forms.TurnForm | battleship_api/models.py:127-133 | the result splits into the form's rows turned `turn` times; a turn of 0 or less, or any multiple of 4, gives the form back; the number of `X` is unchanged |
| Forms.RotateN | battleship_api/models.py:129-131 | a turn of 0 or less leaves the rows as they are, since the `while turn > 0` loop does not run |
| Forms.RotateShape | battleship_api/models.py:130 | one turn of a grid whose first row is its shortest, ragged or not, has a row per column of the first row, each as long as the grid is high, and new cell `(i, j)` is old cell `(h - 1 - j, i)`: longer rows are read only up to the first row's width |
| Forms.RaggedFormLosesCell | battleship_api/models.py:127-133 | the ragged form `X,XX` turned once is `XX`: one `X` is lost, where a rectangular form keeps them all |
| Forms.RotateCells | battleship_api/models.py:130 | one turn of a rectangular grid is rectangular, swaps its height and width, and maps cell `(i, j)` from cell `(h - 1 - j, i)` |
| Forms.RotateNShape | battleship_api/models.py:129-131 | after `n` turns a rectangular grid stays rectangular, with its dimensions swapped when `n` is odd and kept when it is even |
| Forms.RotateTwice | battleship_api/models.py:130 | two turns turn a rectangular grid upside down and back to front |
| Forms.RotateFour | battleship_api/models.py:129-131 | four turns give a rectangular grid back |
| Forms.RotateNPeriod | battleship_api/models.py:129-131 | `n` turns equal `n - 4` turns, and a multiple of 4 turns is the identity |
| Forms.TurnedRowsShape | battleship_api/models.py:133 | turned rows contain no comma, there is at least one of them, and they stay rectangular |
| Forms.RotateKeepsCount | battleship_api/models.py:130 | one turn keeps the number of cells that hold any character |
| Forms.TurnedRowsCount | battleship_api/models.py:129-131 | any number of turns keeps the number of `X` |
| Forms.FormCount | battleship_api/models.py:39 | the `X` of a form string are the `X` of its rows |
| Forms.SumCountCells | battleship_api/models.py:78 | counting a character row by row counts the cells that hold it |
| Boards.Label | battleship_api/models.py:160 | the index written into a ship cell is one digit, for at most ten ships (indices 0 to 9) |
| Boards.Owner | battleship_api/models.py:151-160 | the ship whose index ends up in a cell covers that cell, or no ship does (-1) |
| Boards.OwnerIsLast | battleship_api/models.py:151-160 | painting in order leaves the last covering ship's index; -1 exactly when no ship covers the cell |
| Boards.GenerateBoard | battleship_api/models.py:145-169 | the board has `board_rows` rows of `board_cols` cells, each the index of its last covering ship, a blank when next to a ship cell, `-` otherwise |
| Boards.PaintShip | battleship_api/models.py:151-160 | painting ship `idx` writes its index into exactly the cells its turned form covers |
| Boards.BlankNeighbours | battleship_api/models.py:164-167 | at a ship cell, every neighbour in DELTAS that is on the board and still `-` becomes a blank |
| Boards.PaintNext | battleship_api/models.py:157-160 | painting one more ship changes only the cells it covers |
| Boards.HaloOfPainted | battleship_api/models.py:162-167 | the halo pass over the painted board yields the cell-by-cell board |
| Boards.MarkedAll | battleship_api/models.py:12 | once every cell is visited, a cell is blanked exactly when one of its four neighbours is occupied, because DELTAS come in opposite pairs |
| Boards.WaterIffUncovered | battleship_api/models.py:58 | a cell is `-` or blank exactly when no ship covers it, and otherwise holds the index of its last covering ship |
| Boards.ShipCellsHoldIndex | battleship_api/models.py:157-160 | when no two ships share a cell, every `X` cell of ship `i` holds digit `i` |
| Boards.HaloKeepsShips | battleship_api/models.py:162-167 | the halo pass turns only `-` into blanks and never overwrites a ship cell |
| Boards.NoDashNextToShip | battleship_api/models.py:162-167 | no `-` cell of the finished board has a ship cell as a neighbour, in any of the four DELTAS directions |
| Boards.CoversInBoard | battleship_api/models.py:157-160 | a placed ship covers only cells of the board |
| Placement.RandInt | battleship_api/models.py:102 | `randint(lo, hi)` lies between `lo` and `hi` |
| Placement.ValidatePosition | battleship_api/models.py:135-143 | a position is accepted exactly when every `X` of the form lands on a `-` cell |
| Placement.ScanFrom | battleship_api/models.py:137-141 | the scan from a shape cell on fails exactly when a later `X` lands on a cell other than `-` |
| Placement.DashCellIsClear | battleship_api/models.py:162-167 | no ship covers a `-` cell of the derived board or any of its four neighbours |
| Placement.AcceptedShipIsApart | battleship_api/models.py:119 | a ship at an accepted position neither overlaps nor orthogonally touches any ship already placed |
| Placement.AddNextShip | battleship_api/models.py:98-125 | the search as written: see `Placement.PlaceShips`, with origins restricted to `range(board_rows - height)` by `range(board_cols - width)` |
| Placement.PlaceShips | battleship_api/models.py:98-125 | past the last form the list comes back unchanged; the list only grows; every entry appended is one of the remaining forms, with turn 0..3, at an origin in the scanned range; in a found list, the first entry appended is ship `ship_idx`, apart from every ship already placed, and there is at least one entry per remaining form; when no turn fits at any scanned origin nothing is appended and the result is `None` or the `ValueError`, and a `None` with nothing appended means no turn fits; the `ValueError` comes only from a form too big for the board; with more than ten ships already placed the result is `Overflow` with nothing appended, and `Overflow` comes only once the list holds more than ten entries |
| Placement.ScanOrigins | battleship_api/models.py:114-123 | the list it was given is kept as a prefix; the wrap-around scan of one turn leaves that list unchanged exactly when the turn fits at no scanned origin, and returns a result other than `None` only after appending |
| Placement.TryOrigin | battleship_api/models.py:120-123 | the list it was given, followed by the entry at the accepted origin, is a prefix of the result, whose first appended entry is ship `ship_idx`; a found list holds at least one entry per remaining form, and a `ValueError` from deeper down comes from a form too big for the board |
| Placement.VisitOffset | battleship_api/models.py:116-117 | step `d` of the wrap-around scan from a drawn start visits a cell of the range, and different steps visit different cells |
| Placement.TurnsTriedStep | battleship_api/models.py:106-107 | step `dt` of the loop over turns visits turn `(initial_turn + dt) % 4`, so the four steps visit every turn |
| Placement.TriedAll | battleship_api/models.py:114-115 | when every row of origins has been scanned, the turn fits at no scanned origin |
| Placement.BoardOfIsBoard | battleship_api/models.py:104 | the board `__generate_board` computes from the ships already placed is `BoardOf`, the only board meeting the cell-by-cell definition |
| Placement.CandidatesCarryOver | battleship_api/models.py:121 | entries a deeper call appends are candidates for the calling one too |
| Placement.TooBigEarlier | battleship_api/models.py:111-112 | a `ValueError` passed up from a deeper call comes from a form too big for the board |
| Placement.AddNextShipInclusive | battleship_api/models.py:114-117 | with the corrected origin scan, when no turn of the ship's form fits anywhere on the board nothing is appended and the result is `None` or the `ValueError`; a `None` with nothing appended means no turn fits anywhere; the `ValueError` comes only from a form too big for the board; `Overflow` comes only once the list holds more than ten entries |
| Placement.LastLineNeverUsed | battleship_api/models.py:114-117 | as written, no ship ever covers the last row or the last column of the board |
| Placement.OneCellBoard | battleship_api/models.py:111-117 | on an empty 1 by 1 board a one-cell form fits, yet the scan as written visits no origin; the corrected scan visits one |
| Shots.Mark | battleship_api/models.py:175 | a resolved play leaves `0` or `1`, and `1` exactly when its result is not 0 (a hit, sunk or finish) |
| Shots.LastShot | battleship_api/models.py:174-176 | the play that decides a cell is a resolved play aimed at that cell |
| Shots.GenerateShotsBoard | battleship_api/models.py:171-178 | the shots board has the board's shape, and each cell holds the mark of the last resolved play aimed at it, `-` if none |
| Shots.ShotsBoard | battleship_api/models.py:172 | the shots board has `board_rows` rows of `board_cols` cells |
| Shots.ShotNext | battleship_api/models.py:174-176 | one more resolved play decides the cell it aims at and leaves every other cell alone |
| Shots.LastShotIsLast | battleship_api/models.py:174-176 | no later resolved play aims at the cell; -1 exactly when no resolved play aims at it |
| Shots.ShotCellMeaning | battleship_api/models.py:175 | a shots-board cell is `-`, `0` or `1`; `-` exactly when no resolved play aimed at it; `0` exactly when the last one there had result 0 |
| Games.CheckPlay | battleship_api/models.py:51-52 | a shot passes exactly when it aims at a cell within the board's bounds, the bounds every placed ship lies in; on a board with no rows or no columns no shot passes |
| Games.CheckPlayIndexesBoard | battleship_api/models.py:51-52 | a play passes `check_play` exactly when it indexes a cell of a board of the game's size |
| Games.ShipsSpaces | battleship_api/models.py:37-39 | `ships_spaces` is the sum of the `X` of the forms that `put_ships` splits `ships_form` into |
| Games.Evaluate | battleship_api/models.py:54-83 | the result is 0..3: 3 exactly when the `1` cells after the shot number `ships_spaces`; otherwise 0 exactly when no ship covers the cell, 2 exactly when the ship whose index is there has every cell shot, 1 when it has not |
| Games.ScanSunk | battleship_api/models.py:65-72 | the sunk flag stays true exactly when no `X` of the turned form of the ship hit lands on a `-` cell of the shots board |
| Games.SunkFromBoard | battleship_api/models.py:68-72 | the scan over the turned form decides whether every cell of the ship has been shot |
| Games.SunkMeansEveryCellShot | battleship_api/models.py:74-75 | a sunk ship has had a resolved play aimed at each of its cells |
| Games.FootprintIsCovered | battleship_api/models.py:157-160 | a cell is among a ship's cells exactly when the ship covers it |
| Games.FleetIsCovered | battleship_api/models.py:151-160 | a cell is among the ships' cells exactly when some ship covers it |
| Games.FootprintSize | battleship_api/models.py:37-39 | a ship occupies as many cells as its form has `X` |
| Games.FleetSize | battleship_api/models.py:37-39 | ships that share no cell, one per form, occupy as many cells as the forms have `X` |
| Games.SpacesAreShipCells | battleship_api/models.py:37-39 | with one ship per form and no overlap, `ships_spaces` is the number of ship cells on the board |
| Games.OnesAreHitCells | battleship_api/models.py:78 | with a consistent play history, the `1` cells of the shots board are exactly the ship cells that have been shot |
| Games.HitCount | battleship_api/models.py:78 | the count of `1` that `evaluate` computes is the number of ship cells shot, and those are among the ship cells |
| Games.AllShotIffHitIsFleet | battleship_api/models.py:78-81 | every ship cell has been shot exactly when the ship cells shot are all the ship cells |
| Games.FinishedIffAllShipCellsShot | battleship_api/models.py:78-81 | with one ship per form, no overlap and a consistent play history, the count `evaluate` compares with `ships_spaces` reaches it exactly when every ship cell has been shot |

## Left out

- The database: ships, plays, players and tournaments are read and written through the Django ORM (`put_ships` stores the search result, `Play` rows are queried and saved); here ships and plays are sequences of records passed in, and `put_ships` itself is not modelled.
- The random source: `random.randint` is replaced by the stream `roll` of draws; which stream a run gets is not modelled.
- The HTTP views, the admin pages and the browser script; wall-clock times and the open-game filter.
- Games.ShipsSpaces: the game's `ships_form` is taken as a string; the source's field may be `None` (its default), on which `ships_spaces` and `put_ships` raise `AttributeError`, and that case is not modelled.
- Forms.RotateShape: says nothing about a grid with a later row shorter than the first, on which the rotation of `__turn_form` raises `IndexError`.
- Boards.GenerateBoard: requires at most ten ships, each with non-negative origin and every `X` on the board; ten ships get the one-digit indices 0 to 9, but with eleven or more the source writes the two-digit index `10` and breaks the row length, and a negative origin would index from the end of a Python list.
- Forms.TurnForm: requires a rectangular form of non-empty rows whenever `turn > 0`. On a ragged form, or one with an empty row, the source either raises `IndexError` (a later row shorter than the first) or silently cuts every row to the first row's width and loses its `X` cells beyond it (`X,XX` turned once gives `XX`, see `Forms.RaggedFormLosesCell`); neither outcome is modelled by the method.
- Placement.PlaceShips: requires every form to be rectangular, for the same reason as `Forms.TurnForm`.
- Placement.PlaceShips: an entry appended before a failed recursion is never removed from the shared list, so a found list can hold stale extra entries; the contract therefore bounds the list's length only from below and states placement facts for the first entry appended and candidacy for all of them, not that the entries are one per form and pairwise apart.
- Placement.PlaceShips: more than ten entries in the shared list is reported as the outcome `Overflow` instead of building a board with two-digit indices.
- Placement.AddNextShip: the same stale-entry and overflow limits as `Placement.PlaceShips`.
- Placement.AddNextShipInclusive: the same stale-entry and overflow limits as `Placement.PlaceShips`.
- Placement.AddNextShipInclusive: nothing appended does not by itself mean that no turn fits, because the `ValueError` of a turn too big for the board can end the search before a turn that would fit is tried (form `XXX`, first drawn turn 1, on a 2 by 5 board: the upright turn is 3 rows high and `randint(0, -1)` raises); the contract therefore ties "nothing fits" to a `None` result.
- Shots.GenerateShotsBoard: requires every resolved play to aim at a cell of the board, which `check_play` guarantees before a play is ever resolved; a negative index would wrap round in Python.
- Games.Evaluate: the play being evaluated is passed as its cell; it is not yet resolved, so it is not among the plays that build the shots board, as in the source.
- Games.FinishedIffAllShipCellsShot: holds only for ships one per form that share no cell and a history whose results agree with those ships; the stale entries of the search can break the first condition.

## Findings

| source | as written | input that shows it | evidently intended | confidence | as-written member | corrected member |
|---|---|---|---|---|---|---|
| battleship_api/models.py:114-117 | origins are drawn with `randint(0, board_rows - height)` but scanned with `range(board_rows - height)` and `% (board_rows - height)`, and the same for columns, so the last row and column where the shape still fits are never tried | an empty 1 by 1 board and the form `X`: the only origin is free, but `range(0)` visits none and the search returns `None`; on any board no ship ever reaches the last row or column | scan `range(board_rows - height + 1)` with `% (board_rows - height + 1)`, and the same for columns, so every origin where the shape fits is tried | not executed; high | Placement.AddNextShip, Placement.LastLineNeverUsed, Placement.OneCellBoard | Placement.AddNextShipInclusive |
