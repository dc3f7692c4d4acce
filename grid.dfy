/**
  The 9x9 Sudoku grid as a value, and the row, column and box constraints
  that generation and play both check.  A cell holds 0 when it is empty.
 */
module SudokuGrid {

  /** `row_length` of the generator: the board is always 9x9. */
  const N: int := 9
  /** `box_length`, the square root of `row_length`. */
  const BoxLength: int := 3

  /** A board as a list of rows. */
  type Grid = seq<seq<int>>

  predicate IsGrid(g: Grid)
  {
    |g| == N && forall i :: 0 <= i < N ==> |g[i]| == N
  }

  predicate InGrid(i: int, j: int)
  {
    0 <= i < N && 0 <= j < N
  }

  /** The first row (or column) of the box holding row (or column) `x`. */
  function BoxStart(x: int): (s: int)
    requires 0 <= x < N
    ensures s % BoxLength == 0 && s <= x < s + BoxLength && s + BoxLength <= N
  {
    x - x % BoxLength
  }

  /** Two rows (or columns) lie in the same band of boxes exactly when their box starts agree. */
  lemma SameBand(x: int, y: int)
    requires 0 <= x < N && 0 <= y < N
    ensures BoxStart(x) <= y < BoxStart(x) + BoxLength <==> BoxStart(y) == BoxStart(x)
  {
  }

  /** The board as a list of rows: a copy that later writes to `b` do not reach. */
  function CopyGrid(b: array2<int>): (g: Grid)
    reads b
    requires b.Length0 == N && b.Length1 == N
    ensures IsGrid(g)
    ensures forall i, j :: InGrid(i, j) ==> g[i][j] == b[i, j]
  {
    seq(N, i requires 0 <= i < N reads b =>
      seq(N, j requires 0 <= j < N reads b => b[i, j]))
  }

  ghost predicate NotInRow(g: Grid, row: int, num: int)
    requires IsGrid(g) && 0 <= row < N
  {
    forall j :: 0 <= j < N ==> g[row][j] != num
  }

  ghost predicate NotInCol(g: Grid, col: int, num: int)
    requires IsGrid(g) && 0 <= col < N
  {
    forall i :: 0 <= i < N ==> g[i][col] != num
  }

  /** `num` is absent from the 3x3 box whose top-left cell is (rowStart, colStart). */
  ghost predicate NotInBox(g: Grid, rowStart: int, colStart: int, num: int)
    requires IsGrid(g)
    requires 0 <= rowStart <= N - BoxLength && 0 <= colStart <= N - BoxLength
  {
    forall i, j :: rowStart <= i < rowStart + BoxLength && colStart <= j < colStart + BoxLength ==> g[i][j] != num
  }

  /** What `is_valid(row, col, num)` tests: `num` is in none of the three units of (row, col). */
  ghost predicate Safe(g: Grid, row: int, col: int, num: int)
    requires IsGrid(g) && InGrid(row, col)
  {
    NotInRow(g, row, num) && NotInCol(g, col, num) && NotInBox(g, BoxStart(row), BoxStart(col), num)
  }

  /** (k, l) is another cell sharing a row, a column or a box with (i, j). */
  ghost predicate Peer(i: int, j: int, k: int, l: int)
    requires InGrid(i, j) && InGrid(k, l)
  {
    (i != k || j != l) &&
    (i == k || j == l || (BoxStart(i) == BoxStart(k) && BoxStart(j) == BoxStart(l)))
  }

  /** No peer of (i, j) holds the value of (i, j). */
  ghost predicate UniqueAmongPeers(g: Grid, i: int, j: int)
    requires IsGrid(g) && InGrid(i, j)
  {
    forall k, l :: InGrid(k, l) && Peer(i, j, k, l) ==> g[k][l] != g[i][j]
  }

  /** No nonzero value repeats in any row, column or box. */
  ghost predicate NoDuplicates(g: Grid)
    requires IsGrid(g)
  {
    forall i, j :: InGrid(i, j) && g[i][j] != 0 ==> UniqueAmongPeers(g, i, j)
  }

  ghost predicate Full(g: Grid)
    requires IsGrid(g)
  {
    forall i, j :: InGrid(i, j) ==> g[i][j] != 0
  }

  /** Every cell holds 0 (empty) or a digit 1..9. */
  ghost predicate Digits(g: Grid)
    requires IsGrid(g)
  {
    forall i, j :: InGrid(i, j) ==> 0 <= g[i][j] <= N
  }

  /** A completed, rule-valid Sudoku. */
  ghost predicate Solved(g: Grid)
  {
    IsGrid(g) && Digits(g) && Full(g) && NoDuplicates(g)
  }

  /** h is g with cell (r, c) possibly changed and every other cell kept. */
  ghost predicate AgreeExcept(g: Grid, h: Grid, r: int, c: int)
    requires IsGrid(g) && IsGrid(h)
  {
    forall i, j :: InGrid(i, j) && (i != r || j != c) ==> h[i][j] == g[i][j]
  }

  /**
    The row, column and box scans of `is_valid` together look at exactly the
    cell itself and its peers.
   */
  lemma SafeIffAbsentFromPeers(g: Grid, row: int, col: int, num: int)
    requires IsGrid(g) && InGrid(row, col)
    ensures Safe(g, row, col, num) <==>
      g[row][col] != num && forall k, l :: InGrid(k, l) && Peer(row, col, k, l) ==> g[k][l] != num
  {
    var r0, c0 := BoxStart(row), BoxStart(col);
    if g[row][col] != num && forall k, l :: InGrid(k, l) && Peer(row, col, k, l) ==> g[k][l] != num {
      forall i, j | r0 <= i < r0 + BoxLength && c0 <= j < c0 + BoxLength
        ensures g[i][j] != num
      {
        SameBand(row, i);
        SameBand(col, j);
      }
    }
    if Safe(g, row, col, num) {
      forall k, l | InGrid(k, l) && Peer(row, col, k, l)
        ensures g[k][l] != num
      {
        if k != row && l != col {
          SameBand(k, row);
          SameBand(l, col);
        }
      }
    }
  }

  /**
    Writing a digit that `is_valid` accepted into an empty cell keeps every
    row, column and box free of repeats.
   */
  lemma PlacementKeepsNoDuplicates(g: Grid, h: Grid, r: int, c: int, num: int)
    requires IsGrid(g) && IsGrid(h) && InGrid(r, c)
    requires Digits(g) && NoDuplicates(g) && g[r][c] == 0
    requires 1 <= num <= N && Safe(g, r, c, num)
    requires AgreeExcept(g, h, r, c) && h[r][c] == num
    ensures Digits(h) && NoDuplicates(h)
  {
    SafeIffAbsentFromPeers(g, r, c, num);
    forall i, j | InGrid(i, j) && h[i][j] != 0
      ensures UniqueAmongPeers(h, i, j)
    {
      forall k, l | InGrid(k, l) && Peer(i, j, k, l)
        ensures h[k][l] != h[i][j]
      {
        if i == r && j == c {
          assert h[k][l] == g[k][l];
        } else if k == r && l == c {
          assert Peer(k, l, i, j);
          assert h[i][j] == g[i][j];
        } else {
          assert g[i][j] != 0 && UniqueAmongPeers(g, i, j);
        }
      }
    }
  }

  /**
    `check_board` blanks a cell and asks `is_valid` whether its old value fits:
    that holds exactly when the value is nonzero and no peer repeats it.
   */
  lemma ClearedCellTest(g: Grid, h: Grid, r: int, c: int)
    requires IsGrid(g) && IsGrid(h) && InGrid(r, c)
    requires AgreeExcept(g, h, r, c) && h[r][c] == 0
    ensures Safe(h, r, c, g[r][c]) <==> g[r][c] != 0 && UniqueAmongPeers(g, r, c)
  {
    SafeIffAbsentFromPeers(h, r, c, g[r][c]);
    assert forall k, l :: InGrid(k, l) && Peer(r, c, k, l) ==> h[k][l] == g[k][l];
  }

  /** The cells of row `r` as a list of 9 values. */
  ghost function RowOf(g: Grid, r: int): (s: seq<int>)
    requires IsGrid(g) && 0 <= r < N
    ensures |s| == N && forall j :: 0 <= j < N ==> s[j] == g[r][j]
  {
    g[r]
  }

  /** The cells of column `c` as a list of 9 values, top to bottom. */
  ghost function ColumnOf(g: Grid, c: int): (s: seq<int>)
    requires IsGrid(g) && 0 <= c < N
    ensures |s| == N && forall i :: 0 <= i < N ==> s[i] == g[i][c]
  {
    seq(N, i requires 0 <= i < N => g[i][c])
  }

  /** The cells of the box at (r0, c0) as a list of 9 values, row by row. */
  ghost function BoxOf(g: Grid, r0: int, c0: int): (s: seq<int>)
    requires IsGrid(g) && 0 <= r0 <= N - BoxLength && 0 <= c0 <= N - BoxLength
    ensures |s| == N
    ensures forall k :: 0 <= k < N ==> s[k] == g[r0 + k / BoxLength][c0 + k % BoxLength]
  {
    seq(N, k requires 0 <= k < N => g[r0 + k / BoxLength][c0 + k % BoxLength])
  }

  /** A list of nine distinct digits 1..9: what `random.shuffle(list(range(1, 10)))` yields. */
  ghost predicate IsDigitPermutation(s: seq<int>)
  {
    |s| == N &&
    (forall k :: 0 <= k < N ==> 1 <= s[k] <= N) &&
    (forall k, m :: 0 <= k < m < N ==> s[k] != s[m])
  }

  lemma {:induction false} DistinctCardinality(s: seq<int>)
    requires forall k, m :: 0 <= k < m < |s| ==> s[k] != s[m]
    ensures |set x | x in s| == |s|
  {
    if s != [] {
      var t := s[1..];
      DistinctCardinality(t);
      assert (set x | x in s) == (set x | x in t) + {s[0]};
      assert s[0] !in (set x | x in t);
    }
  }

  /** Nine distinct digits use every digit: each of 1..9 occurs, exactly once. */
  lemma DigitPermutationHasEveryDigit(s: seq<int>)
    requires IsDigitPermutation(s)
    ensures forall d :: 1 <= d <= N ==> d in s
  {
    DistinctCardinality(s);
    var used := set x | x in s;
    var digits := {1, 2, 3, 4, 5, 6, 7, 8, 9};
    UsedDigits(s);
    NineDigits();
    SameSizeSubset(used, digits);
    forall d | 1 <= d <= N
      ensures d in s
    {
      assert d in digits;
    }
  }

  lemma UsedDigits(s: seq<int>)
    requires IsDigitPermutation(s)
    ensures (set x | x in s) <= {1, 2, 3, 4, 5, 6, 7, 8, 9}
  {
  }

  lemma NineDigits()
    ensures |{1, 2, 3, 4, 5, 6, 7, 8, 9}| == N
  {
  }

  /** A subset as large as its superset is the whole superset. */
  lemma SameSizeSubset<T>(a: set<T>, b: set<T>)
    requires a <= b && |a| == |b|
    ensures a == b
  {
    assert b == a + (b - a);
    assert |b - a| == 0;
  }

  lemma SubsetCardinality<T>(a: set<T>, b: set<T>)
    requires a <= b
    ensures |a| <= |b|
  {
    assert b == a + (b - a);
  }

  /** In a solved grid every row holds a permutation of 1..9. */
  lemma SolvedRowsArePermutations(g: Grid, r: int)
    requires Solved(g) && 0 <= r < N
    ensures IsDigitPermutation(RowOf(g, r))
    ensures forall d :: 1 <= d <= N ==> d in RowOf(g, r)
  {
    forall k, m | 0 <= k < m < N
      ensures g[r][k] != g[r][m]
    {
      assert UniqueAmongPeers(g, r, k) && Peer(r, k, r, m);
    }
    DigitPermutationHasEveryDigit(RowOf(g, r));
  }

  /** In a solved grid every column holds a permutation of 1..9. */
  lemma SolvedColumnsArePermutations(g: Grid, c: int)
    requires Solved(g) && 0 <= c < N
    ensures IsDigitPermutation(ColumnOf(g, c))
    ensures forall d :: 1 <= d <= N ==> d in ColumnOf(g, c)
  {
    var s := ColumnOf(g, c);
    forall k, m | 0 <= k < m < N
      ensures s[k] != s[m]
    {
      assert UniqueAmongPeers(g, k, c) && Peer(k, c, m, c);
    }
    DigitPermutationHasEveryDigit(s);
  }

  /** Position k = 0..8 of a box, read row by row, is row k / 3 and column k % 3 of the box. */
  lemma BoxOffset(k: int)
    requires 0 <= k < N
    ensures 0 <= k / BoxLength < BoxLength && 0 <= k % BoxLength < BoxLength
    ensures k == BoxLength * (k / BoxLength) + k % BoxLength
  {
  }

  lemma BoxStartOfOffset(s: int, a: int)
    requires 0 <= s < N && s % BoxLength == 0 && 0 <= a < BoxLength
    ensures BoxStart(s + a) == s
  {
  }

  /** In a solved grid every box holds a permutation of 1..9. */
  lemma SolvedBoxesArePermutations(g: Grid, r0: int, c0: int)
    requires Solved(g) && 0 <= r0 < N && 0 <= c0 < N && r0 % BoxLength == 0 && c0 % BoxLength == 0
    ensures IsDigitPermutation(BoxOf(g, r0, c0))
    ensures forall d :: 1 <= d <= N ==> d in BoxOf(g, r0, c0)
  {
    var s := BoxOf(g, r0, c0);
    forall k, m | 0 <= k < m < N
      ensures s[k] != s[m]
    {
      BoxCellsDiffer(g, r0, c0, k, m);
    }
    DigitPermutationHasEveryDigit(s);
  }

  /** Two different positions of a box of a solved grid hold different digits. */
  lemma BoxCellsDiffer(g: Grid, r0: int, c0: int, k: int, m: int)
    requires Solved(g) && 0 <= r0 < N && 0 <= c0 < N && r0 % BoxLength == 0 && c0 % BoxLength == 0
    requires 0 <= k < m < N
    ensures g[r0 + k / BoxLength][c0 + k % BoxLength] != g[r0 + m / BoxLength][c0 + m % BoxLength]
  {
    BoxOffset(k);
    BoxOffset(m);
    var a, b := k / BoxLength, k % BoxLength;
    var a', b' := m / BoxLength, m % BoxLength;
    BoxStartOfOffset(r0, a);
    BoxStartOfOffset(r0, a');
    BoxStartOfOffset(c0, b);
    BoxStartOfOffset(c0, b');
    assert (a, b) != (a', b');
    assert UniqueAmongPeers(g, r0 + a, c0 + b) && Peer(r0 + a, c0 + b, r0 + a', c0 + b');
  }

  /** The positions of the cells that hold 0. */
  ghost function ZeroCells(g: Grid): set<(int, int)>
    requires IsGrid(g)
  {
    set i, j | 0 <= i < N && 0 <= j < N && g[i][j] == 0 :: (i, j)
  }

  ghost function NonzeroCells(g: Grid): set<(int, int)>
    requires IsGrid(g)
  {
    set i, j | 0 <= i < N && 0 <= j < N && g[i][j] != 0 :: (i, j)
  }

  /**
    Zeroing the cells of `removed`, all nonzero before, adds exactly those
    cells to the empty ones: the puzzle has |removed| more blanks.
   */
  lemma RemovalAddsBlanks(g: Grid, h: Grid, removed: set<(int, int)>)
    requires IsGrid(g) && IsGrid(h)
    requires removed <= NonzeroCells(g)
    requires forall i, j :: InGrid(i, j) ==> h[i][j] == if (i, j) in removed then 0 else g[i][j]
    ensures ZeroCells(h) == ZeroCells(g) + removed
    ensures |ZeroCells(h)| == |ZeroCells(g)| + |removed|
    ensures |removed| <= |NonzeroCells(g)|
  {
    assert ZeroCells(g) !! removed;
    SubsetCardinality(removed, NonzeroCells(g));
  }
}
