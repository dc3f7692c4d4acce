/**
  Puzzle generation: seed the three diagonal boxes with shuffled digits,
  complete the rest by backtracking, keep a copy as the answer key and blank
  a number of cells.  The shuffles and the random cell picks of the source
  are parameters here.
 */
module Generator {
  import opened SudokuGrid
  import opened Options

  /** Whether (row, col) lies in one of the boxes at (0, 0), (3, 3) and (6, 6). */
  ghost predicate OnDiagonalBox(row: int, col: int)
    requires InGrid(row, col)
  {
    (row < 3 && col < 3) || (3 <= row < 6 && 3 <= col < 6) || (6 <= row && 6 <= col)
  }

  /** A cell that the backtracking phase must fill: one outside the diagonal boxes. */
  ghost predicate Pending(row: int, col: int)
  {
    InGrid(row, col) && !OnDiagonalBox(row, col)
  }

  /** Row-major position; (row, 9) is the same position as (row + 1, 0). */
  function Index(row: int, col: int): (p: int)
  {
    row * N + col
  }

  lemma IndexInjective(i: int, j: int, r: int, c: int)
    requires InGrid(i, j) && InGrid(r, c) && Index(i, j) == Index(r, c)
    ensures i == r && j == c
  {
  }

  /** Where `fill_remaining` goes next: finished, or the cell it tries digits in. */
  datatype Step = Done | Visit(row: int, col: int)

  /**
    The wrap to the next row and the band arithmetic that skip the diagonal
    boxes (top band: columns 0..2; middle band: columns 3..5; bottom band:
    columns 6..8, then on to the next row).  Whenever the result is a cell
    outside the diagonal boxes it is the first such cell at or after the
    position (row, col), and `Done` means no such cell is left.
   */
  function NextCell(row: int, col: int): (s: Step)
    requires 0 <= row < N && 0 <= col <= N
    ensures s.Done? ==> forall i, j :: Pending(i, j) ==> Index(i, j) < Index(row, col)
    ensures s.Visit? && Pending(s.row, s.col) ==>
      Index(row, col) <= Index(s.row, s.col) &&
      forall i, j :: Pending(i, j) && Index(row, col) <= Index(i, j) ==> Index(s.row, s.col) <= Index(i, j)
  {
    var r := if col >= N && row < N - 1 then row + 1 else row;
    var c := if col >= N && row < N - 1 then 0 else col;
    if r >= N && c >= N then Done
    else if r < BoxLength then
      (if c < BoxLength then Visit(r, BoxLength) else Visit(r, c))
    else if r < N - BoxLength then
      (if c == r / BoxLength * BoxLength then Visit(r, c + BoxLength) else Visit(r, c))
    else if c == N - BoxLength then
      (if r + 1 >= N then Done else Visit(r + 1, 0))
    else Visit(r, c)
  }

  /**
    A position `fill_remaining` handles as intended: its band arithmetic lands
    on a cell outside the diagonal boxes or finishes.  (From other positions
    the source overwrites diagonal cells, or indexes column 9 at (8, 9).)
   */
  ghost predicate Entry(row: int, col: int)
  {
    0 <= row < N && 0 <= col <= N &&
    match NextCell(row, col)
    case Done => true
    case Visit(r, c) => Pending(r, c)
  }

  /** The traversal starts at an entry position and every step leads to the next one. */
  lemma EntryChain(r: int, c: int)
    requires Pending(r, c)
    ensures Entry(0, 0) && Entry(r, c + 1)
  {
  }

  /** Every cell still to be filled from position `p` on is blank. */
  ghost predicate BlankFrom(g: Grid, p: int)
    requires IsGrid(g)
  {
    forall i, j :: Pending(i, j) && p <= Index(i, j) ==> g[i][j] == 0
  }

  /** Every cell to be filled from position `p` on holds a digit. */
  ghost predicate FilledFrom(g: Grid, p: int)
    requires IsGrid(g)
  {
    forall i, j :: Pending(i, j) && p <= Index(i, j) ==> g[i][j] != 0
  }

  /** `h` agrees with `g` on every cell that is not to be filled from position `p` on. */
  ghost predicate KeptOutside(g: Grid, h: Grid, p: int)
    requires IsGrid(g) && IsGrid(h)
  {
    forall i, j :: InGrid(i, j) && !(Pending(i, j) && p <= Index(i, j)) ==> h[i][j] == g[i][j]
  }

  /**
    Writing a digit that `is_valid` accepted in a blank pending cell keeps the
    grid free of duplicates and every later pending cell blank, so the
    recursive call from the following position may start.
   */
  lemma PlacementStep(g: Grid, before: Grid, h: Grid, r: int, c: int, num: int)
    requires IsGrid(g) && IsGrid(before) && IsGrid(h) && Pending(r, c)
    requires Digits(g) && NoDuplicates(g) && BlankFrom(g, Index(r, c))
    requires forall i, j :: InGrid(i, j) ==> before[i][j] == g[i][j]
    requires 1 <= num <= N && Safe(before, r, c, num)
    requires AgreeExcept(before, h, r, c) && h[r][c] == num
    ensures Digits(h) && NoDuplicates(h) && BlankFrom(h, Index(r, c + 1))
    ensures AgreeExcept(g, h, r, c)
  {
    PlacementKeepsNoDuplicates(before, h, r, c, num);
    forall i, j | Pending(i, j) && Index(r, c + 1) <= Index(i, j)
      ensures h[i][j] == 0
    {
      assert (i, j) != (r, c);
    }
  }

  /**
    Once the recursive call from the following position has filled its part,
    the part from (r, c) on is filled and nothing before it moved.
   */
  lemma CompletedStep(g: Grid, h: Grid, f: Grid, r: int, c: int)
    requires IsGrid(g) && IsGrid(h) && IsGrid(f) && Pending(r, c)
    requires AgreeExcept(g, h, r, c) && h[r][c] != 0
    requires KeptOutside(h, f, Index(r, c + 1)) && FilledFrom(f, Index(r, c + 1))
    ensures KeptOutside(g, f, Index(r, c)) && FilledFrom(f, Index(r, c))
  {
    forall i, j | Pending(i, j) && Index(r, c) <= Index(i, j)
      ensures f[i][j] != 0
    {
      if Index(i, j) == Index(r, c) {
        IndexInjective(i, j, r, c);
      }
    }
  }

  /**
    `h` completes `g` from position `p` on: it keeps every cell not to be
    filled from `p`, fills every one that is, holds digits only and repeats
    none.  `fill_remaining` answers False only when no such `h` exists.
   */
  ghost predicate Completion(g: Grid, h: Grid, p: int)
  {
    IsGrid(g) && IsGrid(h) && KeptOutside(g, h, p) && FilledFrom(h, p) && Digits(h) && NoDuplicates(h)
  }

  /** A digit that `is_valid` rejects at a blank pending cell is in no completion at that cell. */
  lemma RejectedDigitExcluded(g: Grid, before: Grid, h: Grid, r: int, c: int, num: int)
    requires IsGrid(g) && IsGrid(before) && Pending(r, c) && BlankFrom(g, Index(r, c))
    requires forall i, j :: InGrid(i, j) ==> before[i][j] == g[i][j]
    requires !Safe(before, r, c, num)
    requires Completion(g, h, Index(r, c))
    ensures h[r][c] != num
  {
    if num != 0 {
      SafeIffAbsentFromPeers(before, r, c, num);
      assert before[r][c] == 0;
      var k, l :| InGrid(k, l) && Peer(r, c, k, l) && before[k][l] == num;
      assert h[k][l] == num;
      assert UniqueAmongPeers(h, r, c);
    }
  }

  /**
    A completion from (r, c) holding the placed digit at (r, c) is a
    completion of the placed board from the following position.
   */
  lemma PlacedCompletion(g: Grid, placed: Grid, h: Grid, r: int, c: int)
    requires IsGrid(g) && IsGrid(placed) && Pending(r, c)
    requires AgreeExcept(g, placed, r, c)
    requires Completion(g, h, Index(r, c)) && h[r][c] == placed[r][c]
    ensures Completion(placed, h, Index(r, c + 1))
  {
    forall i, j | InGrid(i, j) && !(Pending(i, j) && Index(r, c + 1) <= Index(i, j))
      ensures h[i][j] == placed[i][j]
    {
      if Index(i, j) == Index(r, c) {
        IndexInjective(i, j, r, c);
      }
    }
  }

  /** A grid of digits holds at most 9 in any cell. */
  lemma DigitBound(h: Grid, r: int, c: int)
    requires IsGrid(h) && InGrid(r, c)
    ensures Digits(h) ==> h[r][c] <= N
  {
  }

  /** No completion from (r, c) holds a digit below `num` at (r, c). */
  ghost predicate TriedBelow(g: Grid, r: int, c: int, num: int)
    requires InGrid(r, c)
  {
    forall h :: IsGrid(h) && Completion(g, h, Index(r, c)) ==> num <= h[r][c]
  }

  /** A digit `is_valid` rejects is ruled out at (r, c). */
  lemma RejectedStep(g: Grid, before: Grid, r: int, c: int, num: int)
    requires IsGrid(g) && IsGrid(before) && Pending(r, c) && BlankFrom(g, Index(r, c))
    requires forall i, j :: InGrid(i, j) ==> before[i][j] == g[i][j]
    requires !Safe(before, r, c, num) && TriedBelow(g, r, c, num)
    ensures TriedBelow(g, r, c, num + 1)
  {
    forall h | IsGrid(h) && Completion(g, h, Index(r, c))
      ensures num + 1 <= h[r][c]
    {
      RejectedDigitExcluded(g, before, h, r, c, num);
    }
  }

  /** A digit whose recursive completion failed is ruled out at (r, c). */
  lemma FailedStep(g: Grid, placed: Grid, r: int, c: int, num: int)
    requires IsGrid(g) && IsGrid(placed) && Pending(r, c)
    requires AgreeExcept(g, placed, r, c) && placed[r][c] == num && TriedBelow(g, r, c, num)
    requires forall h :: IsGrid(h) ==> !Completion(placed, h, Index(r, c + 1))
    ensures TriedBelow(g, r, c, num + 1)
  {
    forall h | IsGrid(h) && Completion(g, h, Index(r, c))
      ensures num + 1 <= h[r][c]
    {
      if h[r][c] == num {
        PlacedCompletion(g, placed, h, r, c);
      }
    }
  }

  /** Once every digit is ruled out, (r, c) has no completion at all. */
  lemma NoDigitLeft(g: Grid, r: int, c: int)
    requires InGrid(r, c) && TriedBelow(g, r, c, N + 1)
    ensures forall h :: IsGrid(h) ==> !Completion(g, h, Index(r, c))
  {
    forall h | IsGrid(h)
      ensures !Completion(g, h, Index(r, c))
    {
      DigitBound(h, r, c);
    }
  }

  /** The cells to be filled from (row, col) on are those from the cell `NextCell` visits on. */
  lemma NextCompletion(g: Grid, h: Grid, row: int, col: int, r: int, c: int)
    requires 0 <= row < N && 0 <= col <= N && NextCell(row, col) == Visit(r, c) && Pending(r, c)
    requires Completion(g, h, Index(row, col))
    ensures Completion(g, h, Index(r, c))
  {
  }

  /** A solved grid whose diagonal boxes hold the seeds. */
  ghost predicate SeededSolution(shuffles: seq<seq<int>>, h: Grid)
    requires |shuffles| == BoxLength && forall k :: 0 <= k < BoxLength ==> IsDigitPermutation(shuffles[k])
  {
    Solved(h) && forall i, j :: InGrid(i, j) && OnDiagonalBox(i, j) ==> h[i][j] == DiagonalSeed(shuffles, i, j)
  }

  /** Every solution extending the seeded diagonal completes the seeded board from (0, 0). */
  lemma SeededSolutionIsCompletion(g: Grid, shuffles: seq<seq<int>>, h: Grid)
    requires IsGrid(g)
    requires |shuffles| == BoxLength && forall k :: 0 <= k < BoxLength ==> IsDigitPermutation(shuffles[k])
    requires forall i, j :: InGrid(i, j) ==> g[i][j] == if OnDiagonalBox(i, j) then DiagonalSeed(shuffles, i, j) else 0
    requires SeededSolution(shuffles, h)
    ensures Completion(g, h, Index(0, 0))
  {
  }

  class SudokuGenerator {
    const removedCells: int
    const board: array2<int>
    var solutionBoard: Option<Grid>

    ghost predicate Valid()
    {
      board.Length0 == N && board.Length1 == N
    }

    /** A blank 9x9 board (`row_length` is always 9) and no solution yet. */
    constructor (removedCells: int)
      ensures Valid() && fresh(board)
      ensures this.removedCells == removedCells && solutionBoard == None
      ensures forall i, j :: InGrid(i, j) ==> board[i, j] == 0
    {
      this.removedCells := removedCells;
      board := new int[N, N]((i, j) => 0);
      solutionBoard := None;
    }

    /** `num not in self.board[row]`. */
    function ValidInRow(row: int, num: int): (ok: bool)
      reads board
      requires Valid() && 0 <= row < N
      ensures ok <==> NotInRow(CopyGrid(board), row, num)
    {
      num !in CopyGrid(board)[row]
    }

    method ValidInCol(col: int, num: int) returns (ok: bool)
      requires Valid() && 0 <= col < N
      ensures ok <==> NotInCol(CopyGrid(board), col, num)
    {
      for row := 0 to N
        invariant forall i :: 0 <= i < row ==> board[i, col] != num
      {
        if board[row, col] == num {
          return false;
        }
      }
      return true;
    }

    method ValidInBox(rowStart: int, colStart: int, num: int) returns (ok: bool)
      requires Valid()
      requires 0 <= rowStart <= N - BoxLength && 0 <= colStart <= N - BoxLength
      ensures ok <==> NotInBox(CopyGrid(board), rowStart, colStart, num)
    {
      for row := 0 to BoxLength
        invariant forall i, j :: rowStart <= i < rowStart + row && colStart <= j < colStart + BoxLength ==>
          board[i, j] != num
      {
        var r := rowStart + row;
        for col := 0 to BoxLength
          invariant forall j :: colStart <= j < colStart + col ==> board[r, j] != num
          invariant forall i, j :: rowStart <= i < rowStart + row && colStart <= j < colStart + BoxLength ==>
            board[i, j] != num
        {
          if board[r, colStart + col] == num {
            return false;
          }
        }
      }
      return true;
    }

    /** Row, then column, then the box at (row - row % 3, col - col % 3), each only if the previous passed. */
    method IsValid(row: int, col: int, num: int) returns (ok: bool)
      requires Valid() && InGrid(row, col)
      ensures ok <==> Safe(CopyGrid(board), row, col, num)
    {
      ok := ValidInRow(row, num);
      if ok {
        ok := ValidInCol(col, num);
      }
      if ok {
        ok := ValidInBox(row - row % BoxLength, col - col % BoxLength, num);
      }
    }

    /**
      Writes the shuffled digits into the box at (rowStart, colStart) row by
      row, taking each from the end of the list as `nums.pop()` does.
     */
    method FillBox(rowStart: int, colStart: int, shuffled: seq<int>)
      requires Valid()
      requires 0 <= rowStart <= N - BoxLength && 0 <= colStart <= N - BoxLength
      requires IsDigitPermutation(shuffled)
      modifies board
      ensures forall i, j :: InGrid(i, j) ==>
        board[i, j] == if rowStart <= i < rowStart + BoxLength && colStart <= j < colStart + BoxLength
                       then shuffled[N - 1 - (BoxLength * (i - rowStart) + (j - colStart))]
                       else old(board[i, j])
    {
      var nums := shuffled;
      for i := 0 to BoxLength
        invariant |nums| == N - BoxLength * i && nums == shuffled[..|nums|]
        invariant forall r, c :: InGrid(r, c) ==>
          board[r, c] == if rowStart <= r < rowStart + i && colStart <= c < colStart + BoxLength
                         then shuffled[N - 1 - (BoxLength * (r - rowStart) + (c - colStart))]
                         else old(board[r, c])
      {
        for j := 0 to BoxLength
          invariant |nums| == N - BoxLength * i - j && nums == shuffled[..|nums|]
          invariant forall r, c :: InGrid(r, c) ==>
            board[r, c] == if (rowStart <= r < rowStart + i && colStart <= c < colStart + BoxLength) ||
                              (r == rowStart + i && colStart <= c < colStart + j)
                           then shuffled[N - 1 - (BoxLength * (r - rowStart) + (c - colStart))]
                           else old(board[r, c])
        {
          board[rowStart + i, colStart + j] := nums[|nums| - 1];
          nums := nums[..|nums| - 1];
        }
      }
    }

    /** Fills the boxes at (0, 0), (3, 3) and (6, 6) from the three shuffles, in that order. */
    method FillDiagonal(shuffles: seq<seq<int>>)
      requires Valid()
      requires |shuffles| == BoxLength && forall k :: 0 <= k < BoxLength ==> IsDigitPermutation(shuffles[k])
      modifies board
      ensures forall i, j :: InGrid(i, j) ==>
        board[i, j] == if OnDiagonalBox(i, j) then DiagonalSeed(shuffles, i, j) else old(board[i, j])
    {
      var i := 0;
      while i < N
        invariant 0 <= i <= N && i % BoxLength == 0
        invariant forall r, c :: InGrid(r, c) ==>
          board[r, c] == if OnDiagonalBox(r, c) && r < i then DiagonalSeed(shuffles, r, c) else old(board[r, c])
      {
        FillBox(i, i, shuffles[i / BoxLength]);
        i := i + BoxLength;
      }
    }

    /**
      Backtracking completion from position (row, col): move on to the next
      cell outside the diagonal boxes, or report success when none is left,
      and try digits there.
     */
    method FillRemaining(row: int, col: int) returns (filled: bool)
      requires Valid() && Entry(row, col)
      requires Digits(CopyGrid(board)) && NoDuplicates(CopyGrid(board))
      requires BlankFrom(CopyGrid(board), Index(row, col))
      modifies board
      decreases N * N - Index(row, col), 2
      ensures Digits(CopyGrid(board)) && NoDuplicates(CopyGrid(board))
      ensures KeptOutside(old(CopyGrid(board)), CopyGrid(board), Index(row, col))
      ensures filled ==> FilledFrom(CopyGrid(board), Index(row, col))
      ensures !filled ==> forall i, j :: InGrid(i, j) ==> board[i, j] == old(board[i, j])
      ensures !filled ==> forall h :: IsGrid(h) ==> !Completion(old(CopyGrid(board)), h, Index(row, col))
    {
      ghost var start := CopyGrid(board);
      match NextCell(row, col)
      case Done =>
        return true;
      case Visit(r, c) =>
        filled := TryDigits(r, c);
        if !filled {
          forall h | IsGrid(h)
            ensures !Completion(start, h, Index(row, col))
          {
            if Completion(start, h, Index(row, col)) {
              NextCompletion(start, h, row, col, r, c);
            }
          }
        }
    }

    /**
      The digit loop of `fill_remaining` at cell (r, c): try 1..9 in order
      until one leads to a completed board.
     */
    method TryDigits(r: int, c: int) returns (filled: bool)
      requires Valid() && Pending(r, c)
      requires Digits(CopyGrid(board)) && NoDuplicates(CopyGrid(board))
      requires BlankFrom(CopyGrid(board), Index(r, c))
      modifies board
      decreases N * N - Index(r, c), 1
      ensures Digits(CopyGrid(board)) && NoDuplicates(CopyGrid(board))
      ensures KeptOutside(old(CopyGrid(board)), CopyGrid(board), Index(r, c))
      ensures filled ==> FilledFrom(CopyGrid(board), Index(r, c))
      ensures !filled ==> forall i, j :: InGrid(i, j) ==> board[i, j] == old(board[i, j])
      ensures !filled ==> forall h :: IsGrid(h) ==> !Completion(old(CopyGrid(board)), h, Index(r, c))
    {
      ghost var start := CopyGrid(board);
      for num := 1 to N + 1
        invariant forall i, j :: InGrid(i, j) ==> board[i, j] == start[i][j]
        invariant TriedBelow(start, r, c, num)
      {
        filled := TryDigit(r, c, num, start);
        if filled {
          return;
        }
      }
      NoDigitLeft(start, r, c);
      return false;
    }

    /**
      One round of the digit loop: when `is_valid` accepts `num` at (r, c),
      place it and recurse on the following position, and reset the cell to 0
      when the recursion fails.  `start` is the board the loop began with.
     */
    method TryDigit(r: int, c: int, num: int, ghost start: Grid) returns (filled: bool)
      requires Valid() && Pending(r, c) && 1 <= num <= N
      requires IsGrid(start) && Digits(start) && NoDuplicates(start) && BlankFrom(start, Index(r, c))
      requires forall i, j :: InGrid(i, j) ==> board[i, j] == start[i][j]
      requires TriedBelow(start, r, c, num)
      modifies board
      decreases N * N - Index(r, c), 0
      ensures filled ==> Digits(CopyGrid(board)) && NoDuplicates(CopyGrid(board))
      ensures filled ==> KeptOutside(start, CopyGrid(board), Index(r, c)) && FilledFrom(CopyGrid(board), Index(r, c))
      ensures !filled ==> forall i, j :: InGrid(i, j) ==> board[i, j] == start[i][j]
      ensures !filled ==> TriedBelow(start, r, c, num + 1)
    {
      ghost var before := CopyGrid(board);
      var ok := IsValid(r, c, num);
      if ok {
        board[r, c] := num;
        ghost var placed := CopyGrid(board);
        PlacementStep(start, before, placed, r, c, num);
        EntryChain(r, c);
        filled := FillRemaining(r, c + 1);
        if filled {
          CompletedStep(start, placed, CopyGrid(board), r, c);
          return;
        }
        board[r, c] := 0;
        FailedStep(start, placed, r, c, num);
      } else {
        RejectedStep(start, before, r, c, num);
        filled := false;
      }
    }

    /**
      Seeds the diagonal, completes the board from (0, 0) and stores a copy of
      it as the solution.  `filled` is what the source prints.
     */
    method FillValues(shuffles: seq<seq<int>>) returns (filled: bool)
      requires Valid()
      requires |shuffles| == BoxLength && forall k :: 0 <= k < BoxLength ==> IsDigitPermutation(shuffles[k])
      requires forall i, j :: InGrid(i, j) ==> board[i, j] == 0
      modifies this, board
      ensures Valid() && solutionBoard == Some(CopyGrid(board))
      ensures forall i, j :: InGrid(i, j) && OnDiagonalBox(i, j) ==> board[i, j] == DiagonalSeed(shuffles, i, j)
      ensures filled ==> Solved(CopyGrid(board))
      ensures !filled ==> forall i, j :: InGrid(i, j) && !OnDiagonalBox(i, j) ==> board[i, j] == 0
      ensures !filled ==> forall h :: IsGrid(h) ==> !SeededSolution(shuffles, h)
    {
      FillDiagonal(shuffles);
      ghost var seeded := CopyGrid(board);
      DiagonalSeedingIsConsistent(seeded, shuffles);
      EntryChain(0, 3);
      filled := FillRemaining(0, 0);
      solutionBoard := Some(CopyGrid(board));
      if !filled {
        forall h | IsGrid(h)
          ensures !SeededSolution(shuffles, h)
        {
          if SeededSolution(shuffles, h) {
            SeededSolutionIsCompletion(seeded, shuffles, h);
          }
        }
      }
    }

    /**
      Blanks cells, drawing (row, col) picks in order and zeroing a drawn cell
      only when it is nonzero, until `removedCells` cells are blank.  The
      source draws without limit until the count is met; here the draws are
      a finite list, and `remaining` is the count still owed when the list
      runs out.
     */
    method RemoveCells(picks: seq<(int, int)>) returns (remaining: int, ghost removed: set<(int, int)>)
      requires Valid()
      requires forall k :: 0 <= k < |picks| ==> InGrid(picks[k].0, picks[k].1)
      modifies board
      ensures solutionBoard == old(solutionBoard)
      ensures removed <= NonzeroCells(old(CopyGrid(board)))
      ensures forall i, j :: InGrid(i, j) ==> board[i, j] == if (i, j) in removed then 0 else old(board[i, j])
      ensures forall p :: p in removed ==> p in picks
      ensures |removed| == removedCells - remaining
      ensures removedCells - remaining <= |NonzeroCells(old(CopyGrid(board)))|
      ensures removedCells <= 0 ==> remaining == removedCells
      ensures removedCells > 0 ==> 0 <= remaining
      ensures remaining > 0 ==> forall k :: 0 <= k < |picks| ==> board[picks[k].0, picks[k].1] == 0
    {
      remaining := removedCells;
      removed := {};
      var k := 0;
      while remaining > 0 && k < |picks|
        invariant 0 <= k <= |picks|
        invariant removedCells <= 0 ==> remaining == removedCells
        invariant removedCells > 0 ==> 0 <= remaining
        invariant |removed| == removedCells - remaining
        invariant forall p :: p in removed ==> p in picks[..k]
        invariant removed <= NonzeroCells(old(CopyGrid(board)))
        invariant forall i, j :: InGrid(i, j) ==> board[i, j] == if (i, j) in removed then 0 else old(board[i, j])
        invariant forall m :: 0 <= m < k ==> board[picks[m].0, picks[m].1] == 0
      {
        var (r, c) := picks[k];
        if board[r, c] != 0 {
          board[r, c] := 0;
          removed := removed + {(r, c)};
          remaining := remaining - 1;
        }
        k := k + 1;
      }
      SubsetCardinality(removed, NonzeroCells(old(CopyGrid(board))));
    }
  }

  /** The digit `fill_box` puts at (i, j) of a diagonal box: shuffle i / 3, read from its end. */
  ghost function DiagonalSeed(shuffles: seq<seq<int>>, i: int, j: int): (d: int)
    requires |shuffles| == BoxLength && forall k :: 0 <= k < BoxLength ==> IsDigitPermutation(shuffles[k])
    requires InGrid(i, j)
    ensures 1 <= d <= N
  {
    var s := shuffles[i / BoxLength];
    assert IsDigitPermutation(s);
    s[N - 1 - (BoxLength * (i % BoxLength) + j % BoxLength)]
  }

  /** A board that is blank except for three seeded diagonal boxes has digits only and no repeats. */
  lemma DiagonalSeedingIsConsistent(g: Grid, shuffles: seq<seq<int>>)
    requires IsGrid(g)
    requires |shuffles| == BoxLength && forall k :: 0 <= k < BoxLength ==> IsDigitPermutation(shuffles[k])
    requires forall i, j :: InGrid(i, j) ==> g[i][j] == if OnDiagonalBox(i, j) then DiagonalSeed(shuffles, i, j) else 0
    ensures Digits(g) && NoDuplicates(g)
    ensures forall i, j :: InGrid(i, j) && OnDiagonalBox(i, j) ==> g[i][j] != 0
  {
    forall i, j | InGrid(i, j) && g[i][j] != 0
      ensures UniqueAmongPeers(g, i, j)
    {
      forall k, l | InGrid(k, l) && Peer(i, j, k, l)
        ensures g[k][l] != g[i][j]
      {
        if g[k][l] != 0 {
          var s := shuffles[i / BoxLength];
          assert k / BoxLength == i / BoxLength && l / BoxLength == j / BoxLength;
          var a := BoxLength * (i % BoxLength) + j % BoxLength;
          var b := BoxLength * (k % BoxLength) + l % BoxLength;
          assert a != b;
          assert 0 <= N - 1 - a < N && 0 <= N - 1 - b < N;
        }
      }
    }
  }

  /**
    The steps `generate_sudoku` and the session's constructor share: a
    generator asked for `removed` blanks fills its board, keeps the solution
    and blanks cells.  When the fill fails, no solved grid extends the
    seeded diagonal boxes.
   */
  method Deal(removed: int, shuffles: seq<seq<int>>, picks: seq<(int, int)>)
    returns (gen: SudokuGenerator, key: Grid, ghost ok: bool, ghost left: int)
    requires |shuffles| == BoxLength && forall k :: 0 <= k < BoxLength ==> IsDigitPermutation(shuffles[k])
    requires forall k :: 0 <= k < |picks| ==> InGrid(picks[k].0, picks[k].1)
    ensures fresh(gen) && fresh(gen.board) && gen.Valid() && gen.removedCells == removed
    ensures gen.solutionBoard == Some(key) && IsGrid(key) && (ok ==> Solved(key))
    ensures !ok ==> forall h :: IsGrid(h) ==> !SeededSolution(shuffles, h)
    ensures forall i, j :: InGrid(i, j) ==> gen.board[i, j] == 0 || gen.board[i, j] == key[i][j]
    ensures ok && left == 0 ==> |ZeroCells(CopyGrid(gen.board))| == removed
  {
    gen := new SudokuGenerator(removed);
    ok := gen.FillValues(shuffles);
    key := gen.solutionBoard.value;
    ghost var gone;
    left, gone := gen.RemoveCells(picks);
    RemovalAddsBlanks(key, CopyGrid(gen.board), gone);
    if ok {
      assert ZeroCells(key) == {};
    }
  }

  /**
    `generate_sudoku(9, removed)`: the returned board is the generator's own
    board, taken before `remove_cells` runs and so blanked by it afterwards.
    Every nonzero cell agrees with the solution; when the fill succeeded and
    the picks sufficed, exactly `removed` cells are blank; when the fill
    failed, the seeded diagonal has no solution at all.
   */
  method GenerateSudoku(removed: int, shuffles: seq<seq<int>>, picks: seq<(int, int)>)
    returns (board: array2<int>, ghost solution: Grid, ghost filled: bool, ghost remaining: int)
    requires |shuffles| == BoxLength && forall k :: 0 <= k < BoxLength ==> IsDigitPermutation(shuffles[k])
    requires forall k :: 0 <= k < |picks| ==> InGrid(picks[k].0, picks[k].1)
    ensures fresh(board) && board.Length0 == N && board.Length1 == N
    ensures IsGrid(solution) && (filled ==> Solved(solution))
    ensures !filled ==> forall h :: IsGrid(h) ==> !SeededSolution(shuffles, h)
    ensures forall i, j :: InGrid(i, j) ==> board[i, j] == 0 || board[i, j] == solution[i][j]
    ensures filled && remaining == 0 ==> |ZeroCells(CopyGrid(board))| == removed
  {
    var sudoku, key;
    sudoku, key, filled, remaining := Deal(removed, shuffles, picks);
    board := sudoku.board;
    solution := key;
  }
}
