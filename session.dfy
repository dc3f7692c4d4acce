/**
  The playing session: a 9x9 grid of cells the player edits, the clues fixed
  at the start, the answer key, the selected cell, and a mirror of the cell
  values kept in the generator's board, on which the completed grid is
  checked.
 */
module Session {
  import opened SudokuGrid
  import opened Options
  import opened Generator

  /** One square of the grid: its digit, its pencil mark and whether it is highlighted. */
  class Cell {
    var value: int
    var sketchedValue: int
    const row: int
    const col: int
    var selected: bool
    /** The value the cell was created with: nonzero exactly for a clue. */
    const originalValue: int

    constructor (value: int, row: int, col: int)
      ensures this.value == value && originalValue == value && sketchedValue == 0
      ensures this.row == row && this.col == col && !selected
    {
      this.value := value;
      sketchedValue := 0;
      this.row := row;
      this.col := col;
      selected := false;
      originalValue := value;
    }

    method SetCellValue(value: int)
      modifies this
      ensures this.value == value
      ensures sketchedValue == old(sketchedValue) && selected == old(selected)
    {
      this.value := value;
    }

    method SetSketchedValue(value: int)
      modifies this
      ensures sketchedValue == value
      ensures this.value == old(this.value) && selected == old(selected)
    {
      sketchedValue := value;
    }
  }

  /** The number of cells the difficulty level asks to blank; unknown levels count as easy. */
  function RemovedCells(difficulty: string): (n: int)
    ensures difficulty == "medium" ==> n == 40
    ensures difficulty == "hard" ==> n == 50
    ensures difficulty != "medium" && difficulty != "hard" ==> n == 30
  {
    if difficulty == "easy" then 30
    else if difficulty == "medium" then 40
    else if difficulty == "hard" then 50
    else 30
  }

  /** Strictly before (r, c) in row-major order. */
  predicate Earlier(i: int, j: int, r: int, c: int)
  {
    i < r || (i == r && j < c)
  }

  /** The cell (i, j) holds a digit that no other cell of its row, column or box repeats. */
  ghost predicate Passes(g: Grid, i: int, j: int)
    requires IsGrid(g) && InGrid(i, j)
  {
    g[i][j] != 0 && UniqueAmongPeers(g, i, j)
  }

  /** Every cell strictly before (r, c) passes. */
  ghost predicate PassesBefore(g: Grid, r: int, c: int)
    requires IsGrid(g)
  {
    forall i, j :: InGrid(i, j) && Earlier(i, j, r, c) ==> Passes(g, i, j)
  }

  /** (r, c) is the first cell in row-major order that does not pass. */
  ghost predicate FirstFailure(g: Grid, r: int, c: int)
    requires IsGrid(g) && InGrid(r, c)
  {
    !Passes(g, r, c) && PassesBefore(g, r, c)
  }

  /** Every cell passes exactly when the grid is full and has no repeated digit. */
  lemma AllPassIffComplete(g: Grid)
    requires IsGrid(g)
    ensures PassesBefore(g, N, 0) <==> Full(g) && NoDuplicates(g)
  {
    if PassesBefore(g, N, 0) {
      assert forall i, j :: InGrid(i, j) ==> Passes(g, i, j) by {
        forall i, j | InGrid(i, j)
          ensures Passes(g, i, j)
        {
          assert Earlier(i, j, N, 0);
        }
      }
    }
  }

  /**
    The test `check_victory` runs on each cell: `is_valid` on the cell's own
    digit while the cell still holds it.
   */
  ghost predicate OwnDigitAccepted(g: Grid)
    requires IsGrid(g)
  {
    forall i, j :: InGrid(i, j) ==> Safe(g, i, j, g[i][j])
  }

  /** A digit is always found in its own row, so the test fails at (0, 0) on every grid. */
  lemma OwnDigitNeverAccepted(g: Grid)
    requires IsGrid(g)
    ensures !OwnDigitAccepted(g)
  {
    assert !NotInRow(g, 0, g[0][0]) by {
      assert g[0][0] == g[0][0];
    }
  }

  /** With bands `w` pixels wide, pixel `p` lies in band p / w; bands 0..8 end at pixel 9 * w. */
  lemma Band(p: int, w: int)
    requires 0 <= p && 0 < w
    ensures 0 <= p / w && p / w * w <= p < (p / w + 1) * w
    ensures p / w < N <==> p < N * w
  {
    var k := p / w;
    assert p == k * w + p % w && 0 <= p % w < w;
    assert (k + 1) * w == k * w + w;
    if k < N {
      ScaleMonotone(k + 1, N, w);
    } else {
      ScaleMonotone(N, k, w);
    }
  }

  lemma ScaleMonotone(a: int, b: int, w: int)
    requires a <= b && 0 <= w
    ensures a * w <= b * w
  {
    assert b * w - a * w == (b - a) * w;
  }

  /**
    Where `move_selection` puts the highlight from (row, col): one step in the
    named direction, clamped at the edges of the grid.
   */
  function Moved(direction: string, row: int, col: int): (p: (int, int))
    requires InGrid(row, col)
    ensures InGrid(p.0, p.1)
    ensures direction == "up" ==> p == (if row == 0 then 0 else row - 1, col)
    ensures direction == "down" ==> p == (if row == N - 1 then N - 1 else row + 1, col)
    ensures direction == "left" ==> p == (row, if col == 0 then 0 else col - 1)
    ensures direction == "right" ==> p == (row, if col == N - 1 then N - 1 else col + 1)
    ensures direction != "up" && direction != "down" && direction != "left" && direction != "right" ==>
      p == (row, col)
  {
    if direction == "up" && row > 0 then (row - 1, col)
    else if direction == "down" && row < N - 1 then (row + 1, col)
    else if direction == "left" && col > 0 then (row, col - 1)
    else if direction == "right" && col < N - 1 then (row, col + 1)
    else (row, col)
  }

  /**
    Creates one cell per square of `b`, row by row, each holding the value of
    its square.
   */
  method MakeCells(b: array2<int>) returns (cells: seq<seq<Cell>>, ghost all: set<Cell>)
    requires b.Length0 == N && b.Length1 == N
    ensures |cells| == N && forall i :: 0 <= i < N ==> |cells[i]| == N
    ensures forall i, j :: InGrid(i, j) ==>
      cells[i][j] in all && fresh(cells[i][j]) && cells[i][j].row == i && cells[i][j].col == j
    ensures forall i, j :: InGrid(i, j) ==>
      cells[i][j].value == b[i, j] && cells[i][j].originalValue == b[i, j] &&
      cells[i][j].sketchedValue == 0 && !cells[i][j].selected
    ensures forall c :: c in all ==> InGrid(c.row, c.col) && cells[c.row][c.col] == c
  {
    cells := [];
    all := {};
    for i := 0 to N
      invariant |cells| == i && forall k :: 0 <= k < i ==> |cells[k]| == N
      invariant forall k, l :: 0 <= k < i && 0 <= l < N ==>
        cells[k][l] in all && fresh(cells[k][l]) && cells[k][l].row == k && cells[k][l].col == l
      invariant forall k, l :: 0 <= k < i && 0 <= l < N ==>
        cells[k][l].value == b[k, l] && cells[k][l].originalValue == b[k, l] &&
        cells[k][l].sketchedValue == 0 && !cells[k][l].selected
      invariant forall c :: c in all ==> 0 <= c.row < i && 0 <= c.col < N && cells[c.row][c.col] == c
    {
      var line: seq<Cell> := [];
      for j := 0 to N
        invariant |line| == j
        invariant forall l :: 0 <= l < j ==>
          line[l] in all && fresh(line[l]) && line[l].row == i && line[l].col == l
        invariant forall l :: 0 <= l < j ==>
          line[l].value == b[i, l] && line[l].originalValue == b[i, l] &&
          line[l].sketchedValue == 0 && !line[l].selected
        invariant forall k, l :: 0 <= k < i && 0 <= l < N ==>
          cells[k][l] in all && fresh(cells[k][l]) && cells[k][l].row == k && cells[k][l].col == l
        invariant forall k, l :: 0 <= k < i && 0 <= l < N ==>
          cells[k][l].value == b[k, l] && cells[k][l].originalValue == b[k, l] &&
          cells[k][l].sketchedValue == 0 && !cells[k][l].selected
        invariant forall c :: c in all ==>
          (0 <= c.row < i && 0 <= c.col < N && cells[c.row][c.col] == c) ||
          (c.row == i && 0 <= c.col < j && line[c.col] == c)
      {
        var cell := new Cell(b[i, j], i, j);
        line := line + [cell];
        all := all + {cell};
      }
      cells := cells + [line];
    }
  }

  class Board {
    const width: int
    const height: int
    const difficulty: string
    /** The source's `self.board`: the generator, whose own board mirrors the cell values. */
    const generator: SudokuGenerator
    const cells: seq<seq<Cell>>
    ghost const cellSet: set<Cell>
    /** The puzzle as dealt: clues and blanks. */
    const originalBoard: Grid
    /** The answer key. */
    const solution: Grid
    /** Whether the backtracking fill completed the answer key. */
    ghost const filled: bool
    /** How many blanks the finite list of picks still owed. */
    ghost const owed: int
    var selectedCell: Cell?
    var solved: bool

    /** The fixed shape of a session, true from creation on. */
    ghost predicate Layout()
    {
      generator.Valid() && IsGrid(originalBoard) && IsGrid(solution) &&
      |cells| == N && (forall i :: 0 <= i < N ==> |cells[i]| == N) &&
      (forall i, j :: InGrid(i, j) ==>
        cells[i][j] in cellSet && cells[i][j].row == i && cells[i][j].col == j &&
        cells[i][j].originalValue == originalBoard[i][j]) &&
      (forall c :: c in cellSet ==> InGrid(c.row, c.col) && cells[c.row][c.col] == c) &&
      (forall i, j :: InGrid(i, j) && originalBoard[i][j] != 0 ==> originalBoard[i][j] == solution[i][j]) &&
      (filled ==> Solved(solution))
    }

    /**
      The session invariant: at most one cell is highlighted, the one
      `selectedCell` names, and every clue still shows its digit.
     */
    ghost predicate Valid()
      reads this`selectedCell, cellSet
    {
      Layout() &&
      (selectedCell == null || selectedCell in cellSet) &&
      (forall c :: c in cellSet ==> (c.selected <==> c == selectedCell)) &&
      (forall c :: c in cellSet && c.originalValue != 0 ==> c.value == c.originalValue)
    }

    /** The values the cells show, as a grid. */
    ghost function Values(): (g: Grid)
      reads cellSet
      requires Layout()
      ensures IsGrid(g) && forall i, j :: InGrid(i, j) ==> g[i][j] == cells[i][j].value
    {
      seq(N, i requires 0 <= i < N reads cellSet => seq(N, j requires 0 <= j < N reads cellSet => cells[i][j].value))
    }

    /**
      Deals a puzzle: the generator is asked for one blank more than the
      difficulty names, fills and blanks its board, and each square becomes a
      cell whose starting value is a clue when nonzero.
     */
    constructor (width: int, height: int, difficulty: string, shuffles: seq<seq<int>>, picks: seq<(int, int)>)
      requires |shuffles| == BoxLength && forall k :: 0 <= k < BoxLength ==> IsDigitPermutation(shuffles[k])
      requires forall k :: 0 <= k < |picks| ==> InGrid(picks[k].0, picks[k].1)
      ensures Valid()
      ensures this.width == width && this.height == height && this.difficulty == difficulty
      ensures generator.removedCells == RemovedCells(difficulty) + 1
      ensures selectedCell == null && !solved
      ensures forall i, j :: InGrid(i, j) ==>
        cells[i][j].value == originalBoard[i][j] && cells[i][j].sketchedValue == 0
      ensures forall i, j :: InGrid(i, j) ==> generator.board[i, j] == originalBoard[i][j]
      ensures filled && owed == 0 ==> |ZeroCells(originalBoard)| == RemovedCells(difficulty) + 1
      ensures !filled ==> forall h :: IsGrid(h) ==> !SeededSolution(shuffles, h)
    {
      var gen, key, ok, left := Deal(RemovedCells(difficulty) + 1, shuffles, picks);
      var made, all := MakeCells(gen.board);
      this.width := width;
      this.height := height;
      this.difficulty := difficulty;
      generator := gen;
      cells := made;
      cellSet := all;
      originalBoard := CopyGrid(gen.board);
      solution := key;
      filled := ok;
      owed := left;
      selectedCell := null;
      solved := false;
    }

    /** Moves the highlight to (row, col). */
    method Select(row: int, col: int)
      requires Valid() && InGrid(row, col)
      modifies this`selectedCell, cellSet
      ensures Valid() && selectedCell == cells[row][col] && solved == old(solved)
      ensures cells[row][col].selected && forall c :: c in cellSet && c != cells[row][col] ==> !c.selected
      ensures forall c :: c in cellSet ==> c.value == old(c.value) && c.sketchedValue == old(c.sketchedValue)
    {
      if selectedCell != null {
        selectedCell.selected := false;
      }
      selectedCell := cells[row][col];
      selectedCell.selected := true;
    }

    /**
      The (row, column) under pixel (x, y), or `None` off the board.  Both
      edges count as on the board, so x == width or y == height gives an
      index past 8.
     */
    function Click(x: int, y: int): (r: Option<(int, int)>)
      requires 0 <= x <= width && 0 <= y <= height ==> N <= width && N <= height
      ensures r.Some? <==> 0 <= x <= width && 0 <= y <= height
      ensures r.Some? ==>
        0 <= r.value.0 && r.value.0 * (height / N) <= y < (r.value.0 + 1) * (height / N) &&
        0 <= r.value.1 && r.value.1 * (width / N) <= x < (r.value.1 + 1) * (width / N)
      ensures r.Some? ==> (InGrid(r.value.0, r.value.1) <==> x < N * (width / N) && y < N * (height / N))
    {
      if 0 <= x <= width && 0 <= y <= height then
        Band(x, width / N);
        Band(y, height / N);
        Some((y / (height / N), x / (width / N)))
      else None
    }

    /** Blanks the selected cell, value and pencil mark, unless it is a clue. */
    method Clear()
      requires Valid()
      modifies cellSet
      ensures Valid()
      ensures forall c :: c in cellSet ==> c.selected == old(c.selected)
      ensures forall c :: c in cellSet ==>
        if c == selectedCell && originalBoard[c.row][c.col] == 0 then c.value == 0 && c.sketchedValue == 0
        else c.value == old(c.value) && c.sketchedValue == old(c.sketchedValue)
      ensures forall c :: c in cellSet && c.originalValue != 0 ==> c.value == old(c.value)
    {
      if selectedCell != null && originalBoard[selectedCell.row][selectedCell.col] == 0 {
        selectedCell.SetCellValue(0);
        selectedCell.SetSketchedValue(0);
      }
    }

    /** Pencils `value` into the selected cell when that cell is blank. */
    method Sketch(value: int)
      requires Valid()
      modifies cellSet
      ensures Valid()
      ensures forall c :: c in cellSet ==> c.selected == old(c.selected) && c.value == old(c.value)
      ensures forall c :: c in cellSet ==>
        c.sketchedValue == if c == selectedCell && old(c.value) == 0 then value else old(c.sketchedValue)
    {
      if selectedCell != null && selectedCell.value == 0 {
        selectedCell.SetSketchedValue(value);
      }
    }

    /** Writes `value` into the selected cell, unless it is a clue, and refreshes the mirror. */
    method PlaceNumber(value: int)
      requires Valid()
      modifies cellSet, generator.board
      ensures Valid()
      ensures forall c :: c in cellSet ==> c.selected == old(c.selected) && c.sketchedValue == old(c.sketchedValue)
      ensures forall c :: c in cellSet ==>
        c.value == if c == selectedCell && originalBoard[c.row][c.col] == 0 then value else old(c.value)
      ensures forall c :: c in cellSet && c.originalValue != 0 ==> c.value == old(c.value)
      ensures selectedCell != null && originalBoard[selectedCell.row][selectedCell.col] == 0 ==>
        forall i, j :: InGrid(i, j) ==> generator.board[i, j] == cells[i][j].value
      ensures !(selectedCell != null && originalBoard[selectedCell.row][selectedCell.col] == 0) ==>
        forall i, j :: InGrid(i, j) ==> generator.board[i, j] == old(generator.board[i, j])
    {
      if selectedCell != null && originalBoard[selectedCell.row][selectedCell.col] == 0 {
        selectedCell.SetCellValue(value);
        UpdateBoard();
      }
    }

    /** Blanks value and pencil mark of every cell that is not a clue; the grid is the dealt puzzle again. */
    method ResetToOriginal()
      requires Valid()
      modifies cellSet
      ensures Valid()
      ensures forall i, j :: InGrid(i, j) ==> cells[i][j].value == originalBoard[i][j]
      ensures forall i, j :: InGrid(i, j) ==>
        cells[i][j].sketchedValue == if originalBoard[i][j] == 0 then 0 else old(cells[i][j].sketchedValue)
      ensures forall c :: c in cellSet ==> c.selected == old(c.selected)
    {
      for i := 0 to N
        invariant forall k, l :: InGrid(k, l) ==>
          cells[k][l].value == if k < i && originalBoard[k][l] == 0 then 0 else old(cells[k][l].value)
        invariant forall k, l :: InGrid(k, l) ==>
          cells[k][l].sketchedValue == if k < i && originalBoard[k][l] == 0 then 0 else old(cells[k][l].sketchedValue)
        invariant forall c :: c in cellSet ==> c.selected == old(c.selected)
      {
        for j := 0 to N
          invariant forall k, l :: InGrid(k, l) ==>
            cells[k][l].value == if Earlier(k, l, i, j) && originalBoard[k][l] == 0 then 0 else old(cells[k][l].value)
          invariant forall k, l :: InGrid(k, l) ==>
            cells[k][l].sketchedValue ==
              if Earlier(k, l, i, j) && originalBoard[k][l] == 0 then 0 else old(cells[k][l].sketchedValue)
          invariant forall c :: c in cellSet ==> c.selected == old(c.selected)
        {
          if originalBoard[i][j] == 0 {
            cells[i][j].SetCellValue(0);
            cells[i][j].SetSketchedValue(0);
          }
        }
      }
    }

    /** Whether no cell is blank. */
    method IsFull() returns (full: bool)
      requires Valid()
      ensures full <==> Full(Values())
    {
      for i := 0 to N
        invariant forall k, l :: InGrid(k, l) && k < i ==> cells[k][l].value != 0
      {
        for j := 0 to N
          invariant forall k, l :: InGrid(k, l) && Earlier(k, l, i, j) ==> cells[k][l].value != 0
        {
          if cells[i][j].value == 0 {
            return false;
          }
        }
      }
      return true;
    }

    /** Copies every cell value into the generator's board. */
    method UpdateBoard()
      requires Layout()
      modifies generator.board
      ensures forall i, j :: InGrid(i, j) ==> generator.board[i, j] == cells[i][j].value
    {
      for i := 0 to N
        invariant forall k, l :: InGrid(k, l) && k < i ==> generator.board[k, l] == cells[k][l].value
      {
        for j := 0 to N
          invariant forall k, l :: InGrid(k, l) && Earlier(k, l, i, j) ==> generator.board[k, l] == cells[k][l].value
        {
          generator.board[i, j] := cells[i][j].value;
        }
      }
    }

    /** The first blank cell in row-major order, or `None` when the grid is full. */
    method FindEmpty() returns (r: Option<(int, int)>)
      requires Valid()
      ensures r.None? <==> Full(Values())
      ensures r.Some? ==> InGrid(r.value.0, r.value.1) && cells[r.value.0][r.value.1].value == 0
      ensures r.Some? ==> forall k, l :: InGrid(k, l) && Earlier(k, l, r.value.0, r.value.1) ==> cells[k][l].value != 0
    {
      for i := 0 to N
        invariant forall k, l :: InGrid(k, l) && k < i ==> cells[k][l].value != 0
      {
        for j := 0 to N
          invariant forall k, l :: InGrid(k, l) && Earlier(k, l, i, j) ==> cells[k][l].value != 0
        {
          if cells[i][j].value == 0 {
            return Some((i, j));
          }
        }
      }
      return None;
    }

    /** The mirror holds the grid `v`. */
    ghost predicate MirrorHolds(v: Grid)
      reads generator.board
      requires generator.Valid() && IsGrid(v)
    {
      forall i, j :: InGrid(i, j) ==> generator.board[i, j] == v[i][j]
    }

    /** The mirror holds the grid `v` except at (r, c), which is blank. */
    ghost predicate MirrorBlankedAt(v: Grid, r: int, c: int)
      reads generator.board
      requires generator.Valid() && IsGrid(v) && InGrid(r, c)
    {
      generator.board[r, c] == 0 &&
      forall i, j :: InGrid(i, j) && (i != r || j != c) ==> generator.board[i, j] == v[i][j]
    }

    /**
      Refreshes the mirror, then blanks each square in turn, asks `is_valid`
      whether its digit may go back, and restores it.  The grid is accepted
      exactly when it is full and repeats no digit.  A rejected square, the
      first failing one, is left blank in the mirror.  (The cells themselves
      are not modified, so `old(Values())` is also their final value.)
     */
    method CheckBoard() returns (ok: bool)
      requires Layout()
      modifies generator.board
      ensures ok <==> Full(old(Values())) && NoDuplicates(old(Values()))
      ensures ok ==> MirrorHolds(old(Values()))
      ensures !ok ==>
        exists r, c :: InGrid(r, c) && FirstFailure(old(Values()), r, c) && MirrorBlankedAt(old(Values()), r, c)
    {
      ghost var v := Values();
      UpdateBoard();
      for i := 0 to N
        invariant MirrorHolds(v)
        invariant PassesBefore(v, i, 0)
      {
        for j := 0 to N
          invariant MirrorHolds(v)
          invariant PassesBefore(v, i, j)
        {
          var num := generator.board[i, j];
          generator.board[i, j] := 0;
          var valid := generator.IsValid(i, j, num);
          ClearedCellTest(v, CopyGrid(generator.board), i, j);
          if !valid {
            assert FirstFailure(v, i, j) && MirrorBlankedAt(v, i, j);
            return false;
          }
          generator.board[i, j] := num;
        }
      }
      AllPassIffComplete(v);
      return true;
    }

    /**
      The victory test as written: it refreshes the mirror and asks `is_valid`
      about each square's digit while the square still holds it, setting
      `solved` only if every square is accepted.  By `OwnDigitNeverAccepted`
      that never happens.
     */
    method CheckVictory() returns (ok: bool)
      requires Valid()
      modifies this`solved, generator.board
      ensures Valid() && MirrorHolds(old(Values()))
      ensures ok <==> OwnDigitAccepted(old(Values()))
      ensures solved == (old(solved) || ok)
    {
      ghost var v := Values();
      UpdateBoard();
      for i := 0 to N
        invariant MirrorHolds(v) && solved == old(solved)
        invariant forall k, l :: InGrid(k, l) && k < i ==> Safe(v, k, l, v[k][l])
      {
        for j := 0 to N
          invariant MirrorHolds(v) && solved == old(solved)
          invariant forall k, l :: InGrid(k, l) && Earlier(k, l, i, j) ==> Safe(v, k, l, v[k][l])
        {
          var num := generator.board[i, j];
          var valid := generator.IsValid(i, j, num);
          if !valid {
            return false;
          }
        }
      }
      solved := true;
      return true;
    }

    /** The victory test as evidently intended: the `check_board` test, recording a win. */
    method CheckVictoryIntended() returns (ok: bool)
      requires Valid()
      modifies this`solved, generator.board
      ensures Valid()
      ensures ok <==> Full(old(Values())) && NoDuplicates(old(Values()))
      ensures ok ==> MirrorHolds(old(Values()))
      ensures !ok ==>
        exists r, c :: InGrid(r, c) && FirstFailure(old(Values()), r, c) && MirrorBlankedAt(old(Values()), r, c)
      ensures solved == (old(solved) || ok)
    {
      ok := CheckBoard();
      if ok {
        solved := true;
      }
    }

    /** Shows the answer key: every value from the solution, every pencil mark cleared. */
    method Solve()
      requires Valid()
      modifies this`solved, cellSet, generator.board
      ensures Valid() && selectedCell == old(selectedCell) && solved
      ensures forall i, j :: InGrid(i, j) ==> cells[i][j].value == solution[i][j] && cells[i][j].sketchedValue == 0
      ensures forall i, j :: InGrid(i, j) ==> generator.board[i, j] == solution[i][j]
      ensures filled ==> Solved(Values())
    {
      for i := 0 to N
        invariant selectedCell == old(selectedCell)
        invariant forall k, l :: InGrid(k, l) ==>
          if k < i then cells[k][l].value == solution[k][l] && cells[k][l].sketchedValue == 0
          else cells[k][l].value == old(cells[k][l].value) && cells[k][l].sketchedValue == old(cells[k][l].sketchedValue)
        invariant forall c :: c in cellSet ==> c.selected == old(c.selected)
      {
        for j := 0 to N
          invariant selectedCell == old(selectedCell)
          invariant forall k, l :: InGrid(k, l) ==>
            if Earlier(k, l, i, j) then cells[k][l].value == solution[k][l] && cells[k][l].sketchedValue == 0
            else cells[k][l].value == old(cells[k][l].value) && cells[k][l].sketchedValue == old(cells[k][l].sketchedValue)
          invariant forall c :: c in cellSet ==> c.selected == old(c.selected)
        {
          cells[i][j].SetCellValue(solution[i][j]);
          cells[i][j].SetSketchedValue(0);
        }
      }
      UpdateBoard();
      solved := true;
    }

    /** Moves the highlight one step in `direction` when there is a highlight and room to move. */
    method MoveSelection(direction: string)
      requires Valid()
      modifies this`selectedCell, cellSet
      ensures Valid() && solved == old(solved)
      ensures forall c :: c in cellSet ==> c.value == old(c.value) && c.sketchedValue == old(c.sketchedValue)
      ensures old(selectedCell) == null ==> selectedCell == null
      ensures old(selectedCell) != null ==>
        var p := Moved(direction, old(selectedCell).row, old(selectedCell).col);
        selectedCell == cells[p.0][p.1]
    {
      if selectedCell != null {
        var row, col := selectedCell.row, selectedCell.col;
        if direction == "up" && row > 0 {
          Select(row - 1, col);
        } else if direction == "down" && row < N - 1 {
          Select(row + 1, col);
        } else if direction == "left" && col > 0 {
          Select(row, col - 1);
        } else if direction == "right" && col < N - 1 {
          Select(row, col + 1);
        }
      }
    }
  }
}
