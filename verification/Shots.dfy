/** A player's view of the board (`Game.__generate_shots_board`).

    The shots board has the shape of the game board. A cell that a resolved
    play of the player hit holds `1`, a cell it missed holds `0`, a cell no
    resolved play aimed at holds `-`; when several plays aimed at the same
    cell, the last one decides. */
module Shots {
  import opened Strings
  import opened Boards

  datatype Option<T> = None | Some(value: T)

  /** A play of the player in this game: the cell aimed at and, once the play
      has been evaluated, its result (0 water, 1 hit, 2 sunk, 3 finished). */
  datatype Play = Play(shotRow: int, shotCol: int, result: Option<int>)

  /** The mark a resolved play leaves: `0` for a miss, `1` for anything else. */
  function Mark(p: Play): (m: char)
    requires p.result.Some?
    ensures m == '0' || m == '1'
    ensures m == '1' <==> p.result.value != 0
  {
    if p.result.value == 0 then '0' else '1'
  }

  /** A resolved play aimed at cell `(r, c)`. */
  predicate ShotAt(p: Play, r: int, c: int)
  {
    p.result.Some? && p.shotRow == r && p.shotCol == c
  }

  /** The index of the last resolved play aimed at `(r, c)`, or -1. */
  function LastShot(plays: seq<Play>, r: int, c: int): (k: int)
    ensures -1 <= k < |plays|
    ensures k >= 0 ==> ShotAt(plays[k], r, c)
  {
    if |plays| == 0 then -1
    else if ShotAt(plays[|plays| - 1], r, c) then |plays| - 1
    else LastShot(plays[..|plays| - 1], r, c)
  }

  /** A cell of the shots board built from `plays`. */
  function ShotCell(plays: seq<Play>, r: int, c: int): char
  {
    var k := LastShot(plays, r, c);
    if k >= 0 then Mark(plays[k]) else '-'
  }

  /** The shots board built from `plays`, as a value. */
  function ShotsBoard(rows: nat, cols: nat, plays: seq<Play>): (board: seq<string>)
    ensures HasShape(board, rows, cols)
  {
    seq(rows, r => seq(cols, c => ShotCell(plays, r, c)))
  }

  /** Every resolved play aims at a cell of the board: those are the plays
      that passed `check_play`. */
  predicate PlaysInBoard(plays: seq<Play>, rows: int, cols: int)
  {
    forall i :: 0 <= i < |plays| && plays[i].result.Some? ==>
      InBoard(rows, cols, plays[i].shotRow, plays[i].shotCol)
  }

  /** `__generate_shots_board`: start from a board of `-` and write the mark
      of each resolved play, in order, into the cell it aimed at. */
  method GenerateShotsBoard(rows: nat, cols: nat, plays: seq<Play>) returns (shots: seq<string>)
    requires PlaysInBoard(plays, rows, cols)
    ensures shots == ShotsBoard(rows, cols, plays)
  {
    shots := seq(rows, _ => seq(cols, _ => '-'));
    for i := 0 to |plays|
      invariant HasShape(shots, rows, cols)
      invariant forall x, y :: InBoard(rows, cols, x, y) ==> shots[x][y] == ShotCell(plays[..i], x, y)
    {
      var play := plays[i];
      if play.result.Some? {
        var shotResult := if play.result.value == 0 then '0' else '1';
        shots := shots[play.shotRow := ReplaceAt(shots[play.shotRow], play.shotCol, shotResult)];
      }
      ShotNext(plays[..i], play);
      assert plays[..i + 1] == plays[..i] + [play];
    }
    assert plays[..|plays|] == plays;
    ShotsBoardUnique(rows, cols, plays, shots);
  }

  /** One more play: it decides the cell it aimed at if it is resolved, and
      every other cell keeps its mark. */
  lemma ShotNext(plays: seq<Play>, p: Play)
    ensures forall x, y :: ShotCell(plays + [p], x, y) ==
              if ShotAt(p, x, y) then Mark(p) else ShotCell(plays, x, y)
  {
    assert (plays + [p])[..|plays|] == plays;
  }

  /** A board with the cells of the shots board is the shots board. */
  lemma ShotsBoardUnique(rows: nat, cols: nat, plays: seq<Play>, board: seq<string>)
    requires HasShape(board, rows, cols)
    requires forall x, y :: InBoard(rows, cols, x, y) ==> board[x][y] == ShotCell(plays, x, y)
    ensures board == ShotsBoard(rows, cols, plays)
  {
    var b := ShotsBoard(rows, cols, plays);
    forall r | 0 <= r < rows
      ensures board[r] == b[r]
    {
      forall c | 0 <= c < cols
        ensures board[r][c] == b[r][c]
      {
        assert InBoard(rows, cols, r, c);
      }
    }
  }

  /** `LastShot` finds the last resolved play at the cell: no later play
      is one, and it is -1 only when no resolved play aimed at the cell. */
  lemma {:induction false} LastShotIsLast(plays: seq<Play>, r: int, c: int)
    ensures forall i :: LastShot(plays, r, c) < i < |plays| ==> !ShotAt(plays[i], r, c)
    ensures LastShot(plays, r, c) == -1 <==> forall i :: 0 <= i < |plays| ==> !ShotAt(plays[i], r, c)
    decreases |plays|
  {
    if |plays| > 0 && !ShotAt(plays[|plays| - 1], r, c) {
      var init := plays[..|plays| - 1];
      LastShotIsLast(init, r, c);
      assert forall i :: 0 <= i < |init| ==> init[i] == plays[i];
    }
  }

  /** What a cell of the shots board says: `-` exactly when no resolved play
      aimed at it; otherwise `0` or `1` as the last resolved play there missed
      or not. */
  lemma ShotCellMeaning(plays: seq<Play>, r: int, c: int)
    ensures ShotCell(plays, r, c) in {'-', '0', '1'}
    ensures ShotCell(plays, r, c) == '-' <==> forall i :: 0 <= i < |plays| ==> !ShotAt(plays[i], r, c)
    ensures ShotCell(plays, r, c) != '-' ==>
              exists k :: 0 <= k < |plays| && ShotAt(plays[k], r, c) &&
                          (forall i :: k < i < |plays| ==> !ShotAt(plays[i], r, c)) &&
                          (ShotCell(plays, r, c) == '0' <==> plays[k].result.value == 0)
  {
    LastShotIsLast(plays, r, c);
    var k := LastShot(plays, r, c);
    if k >= 0 {
      assert ShotAt(plays[k], r, c);
    }
  }
}
