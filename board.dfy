/// The board kept by the four-in-a-row bot, as a value: the grid of owners,
/// the landing row of every column and the read-only queries over the grid.
module Board {

  /** A cell address. The column comes first, as in the bot's lines of four. */
  datatype Loc = Loc(col: int, row: int)

  /** A line of cells, in the order the bot builds it. */
  type Line = seq<Loc>

  /** The grid `g[row][col]`: row 0 is the top row and discs fall toward the
      highest row index; 0 is an empty cell, 1 and 2 are the players' discs. */
  type Grid = seq<seq<int>>

  /** The result of a query that throws `IllegalArgumentException` on bad input. */
  datatype Outcome<T> = Ok(value: T) | IllegalArgument

  /** A reference that may be null. */
  datatype Option<T> = None | Some(value: T)

  /** A rectangular grid with at least one row (the bot reads `field[0]`). */
  predicate WellFormed(g: Grid) {
    |g| >= 1 && forall r :: 0 <= r < |g| ==> |g[r]| == |g[0]|
  }

  function Cols(g: Grid): nat {
    if |g| == 0 then 0 else |g[0]|
  }

  /** The ids the bot accepts as players. */
  predicate IsPlayer(id: int) {
    id == 1 || id == 2
  }

  /** validLocation: the cell lies on the board, so the grid can be read there. */
  predicate ValidLocation(g: Grid, row: int, col: int)
    requires WellFormed(g)
    ensures ValidLocation(g, row, col) ==> 0 <= row < |g| && 0 <= col < |g[row]|
  {
    0 <= row < |g| && 0 <= col < Cols(g)
  }

  predicate ValidLoc(g: Grid, l: Loc)
    requires WellFormed(g)
  {
    ValidLocation(g, l.row, l.col)
  }

  /** The owner of a cell: 0, or the id of the disc in it. */
  function Owner(g: Grid, l: Loc): int
    requires WellFormed(g) && ValidLoc(g, l)
  {
    g[l.row][l.col]
  }

  /** Every cell of the line lies on the board. */
  predicate InBounds(g: Grid, line: Line)
    requires WellFormed(g)
  {
    forall k :: 0 <= k < |line| ==> ValidLoc(g, line[k])
  }

  /** The largest row index below `n` whose cell in column `col` is empty, or -1. */
  function LandingRow(g: Grid, col: int, n: nat): (j: int)
    requires WellFormed(g) && 0 <= col < Cols(g) && n <= |g|
    ensures -1 <= j < n
    ensures j >= 0 ==> g[j][col] == 0 && forall i :: j < i < n ==> g[i][col] != 0
    ensures j == -1 ==> forall i :: 0 <= i < n ==> g[i][col] != 0
    decreases n
  {
    if n == 0 then -1
    else if g[n - 1][col] == 0 then n - 1
    else LandingRow(g, col, n - 1)
  }

  /** The map setAvailableMoves builds: every column holding an empty cell,
      mapped to the lowest empty cell of that column (its largest row index). */
  function Landing(g: Grid): (m: map<int, int>)
    requires WellFormed(g)
    ensures forall c :: c in m <==> 0 <= c < Cols(g) && exists j :: 0 <= j < |g| && g[j][c] == 0
    ensures forall c :: c in m ==>
              ValidLocation(g, m[c], c) && g[m[c]][c] == 0 && forall i :: m[c] < i < |g| ==> g[i][c] != 0
  {
    LandingBefore(g, Cols(g))
  }

  /** The landing map restricted to the columns below `n`. */
  function LandingBefore(g: Grid, n: nat): (m: map<int, int>)
    requires WellFormed(g) && n <= Cols(g)
  {
    map c | 0 <= c < n && LandingRow(g, c, |g|) >= 0 :: LandingRow(g, c, |g|)
  }

  /** Adding column `n` to the landing map of the columns before it. */
  lemma LandingBeforeStep(g: Grid, n: nat)
    requires WellFormed(g) && n < Cols(g)
    ensures LandingBefore(g, n + 1) ==
      if LandingRow(g, n, |g|) >= 0 then LandingBefore(g, n)[n := LandingRow(g, n, |g|)]
      else LandingBefore(g, n)
  {
  }

  /** `sub` keeps some of the keys of `m`, with their values. */
  predicate SubMap(sub: map<int, int>, m: map<int, int>) {
    forall c :: c in sub ==> c in m && sub[c] == m[c]
  }

  /** A candidate map: part of the landing map of the grid. */
  predicate Candidates(g: Grid, m: map<int, int>)
    requires WellFormed(g)
  {
    SubMap(m, Landing(g))
  }

  /** A candidate column's landing cell is an empty cell on the board. */
  lemma CandidateCell(g: Grid, m: map<int, int>, c: int)
    requires WellFormed(g) && Candidates(g, m) && c in m
    ensures ValidLocation(g, m[c], c) && g[m[c]][c] == 0
  {
  }

  /** The columns below `n` whose cell in `row` is empty, in increasing order. */
  function FreeCols(g: Grid, row: int, n: nat): (cs: seq<int>)
    requires WellFormed(g) && 0 <= row < |g| && n <= Cols(g)
    ensures forall c :: c in cs <==> 0 <= c < n && g[row][c] == 0
    ensures forall i :: 0 <= i < |cs| ==> 0 <= cs[i] < n
    ensures forall a, b :: 0 <= a < b < |cs| ==> cs[a] < cs[b]
    decreases n
  {
    if n == 0 then []
    else
      var before := FreeCols(g, row, n - 1);
      assert forall a :: 0 <= a < |before| ==> before[a] in before;
      before + (if g[row][n - 1] == 0 then [n - 1] else [])
  }

  /** Every entry of the list is a column of the board. */
  predicate ColumnsOf(g: Grid, cols: seq<int>) {
    forall i :: 0 <= i < |cols| ==> 0 <= cols[i] < Cols(g)
  }

  /** getFreeLocations: for every row, the columns where that row is empty. */
  function FreeLocations(g: Grid): (free: seq<seq<int>>)
    requires WellFormed(g)
    ensures |free| == |g|
    ensures forall row, c :: 0 <= row < |g| ==>
              (c in free[row] <==> 0 <= c < Cols(g) && g[row][c] == 0)
    ensures forall row :: 0 <= row < |g| ==>
              forall a, b :: 0 <= a < b < |free[row]| ==> free[row][a] < free[row][b]
    ensures forall row :: 0 <= row < |g| ==> ColumnsOf(g, free[row])
  {
    seq(|g|, row requires 0 <= row < |g| => FreeCols(g, row, Cols(g)))
  }

  /** The rows below `n` of column `col` that hold `id`, in increasing order. */
  function RowsHolding(g: Grid, col: int, id: int, n: nat): (rs: seq<int>)
    requires WellFormed(g) && 0 <= col < Cols(g) && n <= |g|
    ensures forall j :: j in rs <==> 0 <= j < n && g[j][col] == id
    ensures forall a, b :: 0 <= a < b < |rs| ==> rs[a] < rs[b]
    decreases n
  {
    if n == 0 then []
    else
      var before := RowsHolding(g, col, id, n - 1);
      assert forall a :: 0 <= a < |before| ==> before[a] in before;
      before + (if g[n - 1][col] == id then [n - 1] else [])
  }

  /** getLocations: every column holding `id` somewhere, mapped to those rows
      (with id 0, the empty cells). */
  function Locations(g: Grid, id: int): (locs: map<int, seq<int>>)
    requires WellFormed(g)
    ensures forall c :: c in locs <==> 0 <= c < Cols(g) && exists j :: 0 <= j < |g| && g[j][c] == id
    ensures forall c, j :: c in locs ==> (j in locs[c] <==> ValidLocation(g, j, c) && g[j][c] == id)
    ensures forall c :: c in locs ==> forall a, b :: 0 <= a < b < |locs[c]| ==> locs[c][a] < locs[c][b]
  {
    assert forall c :: 0 <= c < Cols(g) && |RowsHolding(g, c, id, |g|)| > 0 ==>
      RowsHolding(g, c, id, |g|)[0] in RowsHolding(g, c, id, |g|);
    var locs := map c | 0 <= c < Cols(g) && |RowsHolding(g, c, id, |g|)| > 0 :: RowsHolding(g, c, id, |g|);
    assert forall c :: c in locs ==> locs[c] == RowsHolding(g, c, id, |g|);
    locs
  }

  /** Element-by-element comparison of two rows of equal length. */
  function EqualRows(x: seq<int>, y: seq<int>): (eq: bool)
    requires |x| == |y|
    ensures eq <==> x == y
  {
    if |x| == 0 then true
    else
      assert x == [x[0]] + x[1..] && y == [y[0]] + y[1..];
      x[0] == y[0] && EqualRows(x[1..], y[1..])
  }

  /** equal2DArrays: for two arrays of the same dimensions, every entry agrees. */
  function Equal2DArrays(a: seq<seq<int>>, b: seq<seq<int>>): (eq: bool)
    requires |a| == |b|
    requires forall i :: 0 <= i < |a| ==> |a[i]| == |a[0]| && |b[i]| == |a[0]|
    ensures eq <==> a == b
  {
    if |a| == 0 then true
    else
      assert a == [a[0]] + a[1..] && b == [b[0]] + b[1..];
      EqualRows(a[0], b[0]) && Equal2DArrays(a[1..], b[1..])
  }
}
