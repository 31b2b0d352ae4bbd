/** Ship shapes and their rotation (`Game.__turn_form`).

    A ship form is a comma-separated grid of `X` (ship) and `-` (empty)
    characters, such as `"XX-,-XX"`. A turn rotates the grid a quarter turn
    clockwise; a ship stored with turn `t` occupies its form turned `t` times. */
module Forms {
  import opened Strings

  type Grid = seq<string>

  /** A grid whose rows all have the same, non-zero length: the forms that
      `__turn_form` can rotate without running off a row. */
  predicate Rectangular(g: Grid)
  {
    |g| > 0 && |g[0]| > 0 && forall i :: 0 <= i < |g| ==> |g[i]| == |g[0]|
  }

  /** The character at row `i`, column `j`; `-` off the grid (never used on a
      rectangular grid). */
  function At(g: Grid, i: int, j: int): char
  {
    if 0 <= i < |g| && 0 <= j < |g[i]| then g[i][j] else '-'
  }

  /** One quarter turn clockwise: the new row `i` reads column `i` of the old
      grid from its bottom row to its top row. */
  function Rotate(g: Grid): Grid
  {
    if |g| == 0 then [] else seq(|g[0]|, i => seq(|g|, j => At(g, |g| - 1 - j, i)))
  }

  /** The grid after the `while turn > 0` loop of `__turn_form`: a turn of
      zero or less leaves it alone. */
  function RotateN(g: Grid, n: int): (r: Grid)
    ensures n <= 0 ==> r == g
    decreases n
  {
    if n <= 0 then g else Rotate(RotateN(g, n - 1))
  }

  /** The rows of `form` turned `turn` times: the shape a ship occupies. */
  function TurnedRows(form: string, turn: int): Grid
  {
    RotateN(Split(form, ','), turn)
  }

  /** The set of cells of `g` that hold `ch`. */
  ghost function Cells(g: Grid, ch: char): set<(int, int)>
  {
    set i, j | 0 <= i < |g| && 0 <= j < |g[i]| && g[i][j] == ch :: (i, j)
  }

  /** `__turn_form`: split the form into rows, rotate them `turn` times, join
      them again. The result splits into the turned rows, a turn of zero or
      less, or any multiple of four, gives the form back, and no `X` is lost
      or gained. */
  method TurnForm(form: string, turn: int) returns (turned: string)
    requires turn > 0 ==> Rectangular(Split(form, ','))
    ensures Split(turned, ',') == TurnedRows(form, turn)
    ensures turn <= 0 ==> turned == form
    ensures turn > 0 && turn % 4 == 0 ==> turned == form
    ensures CountChar(turned, 'X') == CountChar(form, 'X')
  {
    var rows := Split(form, ',');
    var t := turn;
    while t > 0
      invariant if turn > 0 then 0 <= t <= turn else t == turn
      invariant rows == RotateN(Split(form, ','), turn - t)
    {
      rows := Rotate(rows);
      t := t - 1;
    }
    turned := Join(rows, ',');
    TurnedRowsShape(form, turn);
    SplitJoin(rows, ',');
    JoinSplit(form, ',');
    if turn > 0 && turn % 4 == 0 {
      RotateNPeriod(Split(form, ','), turn);
    }
    CountCharJoin(rows, ',', 'X');
    FormCount(form);
    TurnedRowsCount(form, turn);
  }

  /** The cells of a rectangular grid, turned: cell `(i, j)` of the turned
      grid is cell `(h - 1 - j, i)` of the original, which is `h` rows by `w`
      columns; the turned grid is `w` rows by `h` columns. */
  lemma RotateCells(g: Grid)
    requires Rectangular(g)
    ensures Rectangular(Rotate(g))
    ensures |Rotate(g)| == |g[0]| && |Rotate(g)[0]| == |g|
    ensures forall i, j :: 0 <= i < |g[0]| && 0 <= j < |g| ==>
              Rotate(g)[i][j] == g[|g| - 1 - j][i]
  {
    forall i, j | 0 <= i < |g[0]| && 0 <= j < |g|
      ensures Rotate(g)[i][j] == g[|g| - 1 - j][i]
    {
      assert |g[|g| - 1 - j]| == |g[0]|;
      assert Rotate(g)[i] == seq(|g|, j' => At(g, |g| - 1 - j', i));
    }
  }

  /** One turn of a grid whose first row is its shortest, ragged or not, has
      a row for each column of the first row, every one as long as the grid
      is high and read from the grid's own cells: the longer rows are read
      only as far as the first row's width. (A later row shorter than the
      first makes the comprehension index past its end.) */
  lemma RotateShape(g: Grid)
    requires |g| > 0
    requires forall i :: 0 <= i < |g| ==> |g[0]| <= |g[i]|
    ensures |Rotate(g)| == |g[0]|
    ensures forall i :: 0 <= i < |Rotate(g)| ==> |Rotate(g)[i]| == |g|
    ensures forall i, j :: 0 <= i < |g[0]| && 0 <= j < |g| ==> Rotate(g)[i][j] == g[|g| - 1 - j][i]
  {
    forall i, j | 0 <= i < |g[0]| && 0 <= j < |g|
      ensures Rotate(g)[i][j] == g[|g| - 1 - j][i]
    {
      assert |g[0]| <= |g[|g| - 1 - j]|;
      assert Rotate(g)[i] == seq(|g|, j' => At(g, |g| - 1 - j', i));
    }
  }

  /** A ragged form loses ship cells when turned: `"X,XX"` turned once is
      `"XX"`, one `X` short. */
  lemma RaggedFormLosesCell()
    ensures TurnedRows("X,XX", 1) == ["XX"]
    ensures CountChar(Join(TurnedRows("X,XX", 1), ','), 'X') == CountChar("X,XX", 'X') - 1
  {
    var g := Split("X,XX", ',');
    SplitRaggedForm();
    assert Rotate(g)[0] == [At(g, 1, 0), At(g, 0, 0)];
    assert Rotate(g) == ["XX"];
    assert Join(["XX"], ',') == "XX";
    CountRaggedForm();
  }

  /** The rows of the form `"X,XX"`. */
  lemma SplitRaggedForm()
    ensures Split("X,XX", ',') == ["X", "XX"]
  {
    assert "X,XX" == "X" + [','] + "XX";
    SplitAfterSep("X", ',', "XX");
    SplitOfSepFree("X", ',');
  }

  /** The `X` of `"X,XX"` and of `"XX"`. */
  lemma CountRaggedForm()
    ensures CountChar("X,XX", 'X') == 3 && CountChar("XX", 'X') == 2
  {
    assert "X"[..0] == [] && "XX"[..1] == "X";
    assert "X,"[..1] == "X" && "X,X"[..2] == "X," && "X,XX"[..3] == "X,X";
    assert CountChar("X", 'X') == 1;
    assert CountChar("X,", 'X') == 1;
    assert CountChar("X,X", 'X') == 2;
  }

  /** Each turn of a rectangular grid swaps its height and width. */
  lemma {:induction false} RotateNShape(g: Grid, n: int)
    requires Rectangular(g)
    ensures Rectangular(RotateN(g, n))
    ensures n <= 0 || n % 2 == 0 ==> |RotateN(g, n)| == |g| && |RotateN(g, n)[0]| == |g[0]|
    ensures n > 0 && n % 2 == 1 ==> |RotateN(g, n)| == |g[0]| && |RotateN(g, n)[0]| == |g|
    decreases n
  {
    if n > 0 {
      RotateNShape(g, n - 1);
      RotateCells(RotateN(g, n - 1));
    }
  }

  /** Two turns of a rectangular grid turn it upside down and back to front. */
  lemma RotateTwice(g: Grid)
    requires Rectangular(g)
    ensures |Rotate(Rotate(g))| == |g|
    ensures forall i :: 0 <= i < |g| ==> |Rotate(Rotate(g))[i]| == |g[0]|
    ensures forall i, j :: 0 <= i < |g| && 0 <= j < |g[0]| ==>
              Rotate(Rotate(g))[i][j] == g[|g| - 1 - i][|g[0]| - 1 - j]
  {
    RotateCells(g);
    RotateCells(Rotate(g));
  }

  /** Four turns give a rectangular grid back. */
  lemma RotateFour(g: Grid)
    requires Rectangular(g)
    ensures Rotate(Rotate(Rotate(Rotate(g)))) == g
  {
    var g2 := Rotate(Rotate(g));
    RotateTwice(g);
    RotateCells(g);
    RotateCells(Rotate(g));
    assert Rectangular(g2);
    RotateTwice(g2);
    var g4 := Rotate(Rotate(g2));
    assert |g4| == |g|;
    forall i | 0 <= i < |g|
      ensures g4[i] == g[i]
    {
      assert |g4[i]| == |g[i]|;
      forall j | 0 <= j < |g[i]|
        ensures g4[i][j] == g[i][j]
      {
        assert g4[i][j] == g2[|g| - 1 - i][|g[0]| - 1 - j];
      }
    }
  }

  /** Turning a rectangular grid `n` times is the same as turning it
      `n - 4` times: the turns form a group of order four. */
  lemma {:induction false} RotateNPeriod(g: Grid, n: int)
    requires Rectangular(g)
    requires n >= 4
    ensures RotateN(g, n) == RotateN(g, n - 4)
    ensures n % 4 == 0 ==> RotateN(g, n) == g
    decreases n
  {
    if n == 4 {
      RotateFour(g);
    } else {
      RotateNPeriod(g, n - 1);
      if n % 4 == 0 {
        RotateNPeriod(g, n - 4);
      }
    }
  }

  /** The rows of a turned form contain no comma, so splitting the joined
      rows gives them back. */
  lemma {:induction false} TurnedRowsShape(form: string, turn: int)
    ensures |TurnedRows(form, turn)| >= 1 || (turn > 0 && !Rectangular(Split(form, ',')))
    ensures forall i :: 0 <= i < |TurnedRows(form, turn)| ==> ',' !in TurnedRows(form, turn)[i]
    ensures turn > 0 && Rectangular(Split(form, ',')) ==> Rectangular(TurnedRows(form, turn))
    decreases turn
  {
    if turn > 0 {
      TurnedRowsShape(form, turn - 1);
      var g := TurnedRows(form, turn - 1);
      var t := Rotate(g);
      forall i | 0 <= i < |t|
        ensures ',' !in t[i]
      {
        forall j | 0 <= j < |t[i]|
          ensures t[i][j] != ','
        {
          assert t[i][j] == At(g, |g| - 1 - j, i);
          if 0 <= |g| - 1 - j < |g| && 0 <= i < |g[|g| - 1 - j]| {
            assert g[|g| - 1 - j][i] in g[|g| - 1 - j];
          }
        }
      }
      if Rectangular(Split(form, ',')) {
        RotateNShape(Split(form, ','), turn);
      }
    }
  }

  /** Mapping `(i, j)` to `(j, h - 1 - i)` is one-to-one, so a set of cells
      and its turned image have the same size. */
  lemma {:induction false} TurnedImageSize(s: set<(int, int)>, h: int)
    ensures |set p | p in s :: (p.1, h - 1 - p.0)| == |s|
    decreases |s|
  {
    if s != {} {
      var x :| x in s;
      var rest := s - {x};
      TurnedImageSize(rest, h);
      var image := set p | p in s :: (p.1, h - 1 - p.0);
      var restImage := set p | p in rest :: (p.1, h - 1 - p.0);
      assert image == restImage + {(x.1, h - 1 - x.0)};
      assert (x.1, h - 1 - x.0) !in restImage;
    }
  }

  /** The cells of one row `n` that hold `ch` are as many as `CountChar`
      counts in that row. */
  lemma {:induction false} RowCellsCount(n: int, r: string, ch: char)
    ensures |set j | 0 <= j < |r| && r[j] == ch :: (n, j)| == CountChar(r, ch)
    decreases |r|
  {
    if r != [] {
      var t := r[..|r| - 1];
      RowCellsCount(n, t, ch);
      var all := set j | 0 <= j < |r| && r[j] == ch :: (n, j);
      var init := set j | 0 <= j < |t| && t[j] == ch :: (n, j);
      assert all == init + (if r[|r| - 1] == ch then {(n, |r| - 1)} else {});
      assert (n, |r| - 1) !in init;
    }
  }

  /** Counting `ch` row by row counts the cells holding `ch`. */
  lemma {:induction false} SumCountCells(g: Grid, ch: char)
    ensures SumCount(g, ch) == |Cells(g, ch)|
    decreases |g|
  {
    if |g| > 0 {
      var n := |g| - 1;
      var init := g[..n];
      SumCountCells(init, ch);
      var row := set j | 0 <= j < |g[n]| && g[n][j] == ch :: (n, j);
      RowCellsCount(n, g[n], ch);
      assert Cells(g, ch) == Cells(init, ch) + row;
      assert Cells(init, ch) * row == {};
    }
  }

  /** A quarter turn of a rectangular grid keeps the number of cells that
      hold any given character. */
  lemma RotateKeepsCount(g: Grid, ch: char)
    requires Rectangular(g)
    ensures SumCount(Rotate(g), ch) == SumCount(g, ch)
  {
    var h := |g|;
    var t := Rotate(g);
    RotateCells(g);
    var image := set p | p in Cells(g, ch) :: (p.1, h - 1 - p.0);
    forall q | q in Cells(t, ch)
      ensures q in image
    {
      var p := (h - 1 - q.1, q.0);
      assert p in Cells(g, ch);
    }
    assert Cells(t, ch) == image;
    TurnedImageSize(Cells(g, ch), h);
    SumCountCells(g, ch);
    SumCountCells(t, ch);
  }

  /** However many times a rectangular form is turned, it keeps its `X`s. */
  lemma {:induction false} TurnedRowsCount(form: string, turn: int)
    requires turn > 0 ==> Rectangular(Split(form, ','))
    ensures SumCount(TurnedRows(form, turn), 'X') == SumCount(Split(form, ','), 'X')
    decreases turn
  {
    if turn > 0 {
      TurnedRowsCount(form, turn - 1);
      if turn - 1 > 0 {
        RotateNShape(Split(form, ','), turn - 1);
      }
      RotateKeepsCount(TurnedRows(form, turn - 1), 'X');
    }
  }

  /** Counting the `X`s of a form string counts those of its rows. */
  lemma FormCount(form: string)
    ensures CountChar(form, 'X') == SumCount(Split(form, ','), 'X')
  {
    JoinSplit(form, ',');
    CountCharJoin(Split(form, ','), ',', 'X');
  }
}
