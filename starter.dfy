/// BotStarter.java: the state every bot keeps (the grid and the map of
/// available moves) and the queries that walk the grid in loops.
module Starter {
  import opened Board
  import opened Lines

  class BotStarter {
    /** Who owns each cell, `field[row, col]`. */
    const field: array2<int>
    /** Column -> landing row. Filled by setAvailableMoves; the trap bot's
        filters shrink it to the columns still worth playing. */
    var availableMoves: map<int, int>
    /** The id of the player this bot moves for, set by the game protocol. */
    var myID: int

    /** The grid as a value. */
    function Cells(): (g: Grid)
      reads field
      ensures |g| == field.Length0 && forall r :: 0 <= r < |g| ==> |g[r]| == field.Length1
      ensures forall r, c :: 0 <= r < field.Length0 && 0 <= c < field.Length1 ==> g[r][c] == field[r, c]
      ensures field.Length0 >= 1 ==> WellFormed(g) && Cols(g) == field.Length1
    {
      seq(field.Length0, r requires 0 <= r < field.Length0 reads field =>
        seq(field.Length1, c requires 0 <= c < field.Length1 reads field => field[r, c]))
    }

    /** The grid has a first row, and the candidate map is part of the
        landing map of the grid. */
    ghost predicate Valid()
      reads this, field
    {
      field.Length0 >= 1 && Candidates(Cells(), availableMoves)
    }

    /** A bot with an empty grid and no available moves yet. */
    constructor (rows: nat, columns: nat)
      requires rows >= 1
      ensures Valid() && fresh(field)
      ensures field.Length0 == rows && field.Length1 == columns
      ensures forall r, c :: 0 <= r < rows && 0 <= c < columns ==> field[r, c] == 0
      ensures availableMoves == map[]
    {
      field := new int[rows, columns]((r, c) => 0);
      availableMoves := map[];
    }

    /** parse, from the rows of already-split cell values: copies them into
        the grid and rebuilds the available moves. */
    method Parse(tokens: seq<seq<int>>)
      requires Valid()
      requires |tokens| <= field.Length0
      requires forall r :: 0 <= r < |tokens| ==> |tokens[r]| <= field.Length1
      modifies field, this`availableMoves
      ensures Valid()
      ensures forall r, c :: 0 <= r < field.Length0 && 0 <= c < field.Length1 ==>
        field[r, c] == if r < |tokens| && c < |tokens[r]| then tokens[r][c] else old(field[r, c])
      ensures availableMoves == Landing(Cells())
    {
      for row := 0 to |tokens|
        invariant forall r, c :: 0 <= r < field.Length0 && 0 <= c < field.Length1 ==>
          field[r, c] == if r < row && c < |tokens[r]| then tokens[r][c] else old(field[r, c])
      {
        for col := 0 to |tokens[row]|
          invariant forall r, c :: 0 <= r < field.Length0 && 0 <= c < field.Length1 ==>
            field[r, c] == if (r < row && c < |tokens[r]|) || (r == row && c < col) then tokens[r][c]
                           else old(field[r, c])
        {
          field[row, col] := tokens[row][col];
        }
      }
      SetAvailableMoves();
    }

    /** setAvailableMoves: clears the map, then maps every column with an
        empty cell to the lowest empty cell in it. */
    method SetAvailableMoves()
      requires field.Length0 >= 1
      modifies this`availableMoves
      ensures availableMoves == Landing(Cells())
    {
      ghost var g := Cells();
      assert WellFormed(g) && Cols(g) == field.Length1;
      availableMoves := map[];
      for i := 0 to field.Length1
        invariant availableMoves == LandingBefore(g, i)
      {
        PutEmptyCells(i);
        LandingBeforeStep(g, i);
      }
    }

    /** The inner loop of setAvailableMoves: every empty cell of column `i`,
        from the top row down, overwrites the entry of `i`, so the lowest one
        stays. */
    method PutEmptyCells(i: int)
      requires field.Length0 >= 1 && 0 <= i < field.Length1
      modifies this`availableMoves
      ensures WellFormed(Cells())
      ensures availableMoves ==
        if LandingRow(Cells(), i, field.Length0) >= 0 then old(availableMoves)[i := LandingRow(Cells(), i, field.Length0)]
        else old(availableMoves)
    {
      ghost var g := Cells();
      for j := 0 to field.Length0
        invariant availableMoves == if LandingRow(g, i, j) >= 0 then old(availableMoves)[i := LandingRow(g, i, j)] else old(availableMoves)
      {
        assert g[j][i] == field[j, i];
        if field[j, i] == 0 {
          availableMoves := availableMoves[i := j];
        }
      }
    }

    /** findMaxDistance: walks from (row, col) in direction (rowDiff, colDiff)
        while the next cell is on the board and empty or the tracked owner's;
        an empty origin adopts the owner of the disc that first blocks it. */
    method FindMaxDistance(rowDiff: int, colDiff: int, row: int, col: int) returns (location: Loc)
      requires field.Length0 >= 1 && ValidLocation(Cells(), row, col)
      ensures location == End(Cells(), row, col, rowDiff, colDiff)
    {
      ghost var g := Cells();
      var counter := 0;
      location := Loc(col, row);
      var id := field[row, col];
      ghost var w := 0;
      while counter < 4 && Matching(Cells(), StepLoc(row, col, rowDiff, colDiff, counter), id)
        invariant 0 <= counter <= 4
        invariant location == StepLoc(row, col, rowDiff, colDiff, if counter == 0 then 0 else counter - 1)
        invariant id == g[row][col]
        invariant forall t :: 0 <= t < counter ==> Matching(g, StepLoc(row, col, rowDiff, colDiff, t), id)
      {
        location := StepLoc(row, col, rowDiff, colDiff, counter);
        counter := counter + 1;
      }
      assert StepLoc(row, col, rowDiff, colDiff, 0) == Loc(col, row);
      assert counter >= 1;
      if id == 0 && ValidLoc(Cells(), StepLoc(row, col, rowDiff, colDiff, counter)) {
        var next := StepLoc(row, col, rowDiff, colDiff, counter);
        id := field[next.row, next.col];
        w := counter;
        while counter < 4 && Matching(Cells(), StepLoc(row, col, rowDiff, colDiff, counter), id)
          invariant w <= counter <= 4
          invariant counter >= 1
          invariant location == StepLoc(row, col, rowDiff, colDiff, counter - 1)
          invariant w < 4 ==> ValidLoc(g, StepLoc(row, col, rowDiff, colDiff, w))
                              && Owner(g, StepLoc(row, col, rowDiff, colDiff, w)) == id && id != 0
          invariant forall t :: 0 <= t < counter ==> Matching(g, StepLoc(row, col, rowDiff, colDiff, t), id)
        {
          location := StepLoc(row, col, rowDiff, colDiff, counter);
          counter := counter + 1;
        }
      }
      RunOfMatches(g, row, col, rowDiff, colDiff, id, counter);
      if counter < 4 {
        RunBlocked(g, row, col, rowDiff, colDiff, counter - 1, w);
      }
      ReachUnique(g, row, col, rowDiff, colDiff, counter - 1);
    }

    /** findWinningLines: the far ends of the runs in the eight directions,
        paired into the horizontal, vertical and two diagonal lines. */
    method FindWinningLines(row: int, col: int) returns (lines: seq<Loc>)
      requires field.Length0 >= 1 && ValidLocation(Cells(), row, col)
      ensures |lines| == 8
      ensures lines[0] == End(Cells(), row, col, 0, -1) && lines[1] == End(Cells(), row, col, 0, 1)
      ensures lines[2] == End(Cells(), row, col, 1, 0) && lines[3] == End(Cells(), row, col, -1, 0)
      ensures lines[4] == End(Cells(), row, col, -1, -1) && lines[5] == End(Cells(), row, col, 1, 1)
      ensures lines[6] == End(Cells(), row, col, 1, -1) && lines[7] == End(Cells(), row, col, -1, 1)
    {
      var l0 := FindMaxDistance(0, -1, row, col);
      var l1 := FindMaxDistance(0, 1, row, col);
      var l2 := FindMaxDistance(1, 0, row, col);
      var l3 := FindMaxDistance(-1, 0, row, col);
      var l4 := FindMaxDistance(-1, -1, row, col);
      var l5 := FindMaxDistance(1, 1, row, col);
      var l6 := FindMaxDistance(1, -1, row, col);
      var l7 := FindMaxDistance(-1, 1, row, col);
      lines := [l0, l1, l2, l3, l4, l5, l6, l7];
    }

    /** addPossibleWins: appends the `increment` lines of four that start
        `i` steps from (row, col) along (rowDiff, colDiff), for i = 0, 1, ... */
    static method AddPossibleWins(wins: seq<Line>, row: int, col: int, rowDiff: int, colDiff: int, increment: int)
      returns (added: seq<Line>)
      ensures added == wins + Windows(Loc(col, row), rowDiff, colDiff, if increment > 0 then increment else 0)
    {
      added := wins;
      var i := 0;
      while i < increment
        invariant 0 <= i <= (if increment > 0 then increment else 0)
        invariant added == wins + Windows(Loc(col, row), rowDiff, colDiff, i)
      {
        var four := new Loc[4];
        for j := 0 to 4
          invariant forall k :: 0 <= k < j ==> four[k] == Window(Loc(col, row), rowDiff, colDiff, i)[k]
        {
          four[j] := Loc(col + colDiff * (i + j), row + rowDiff * (i + j));
        }
        assert four[..] == Window(Loc(col, row), rowDiff, colDiff, i);
        added := added + [four[..]];
        i := i + 1;
      }
    }

    /** getPossibleWins(row, col): the lines of four along each axis whose
        span between the two far ends is long enough. */
    method GetPossibleWins(row: int, col: int) returns (wins: seq<Line>)
      requires field.Length0 >= 1 && ValidLocation(Cells(), row, col)
      ensures wins == PossibleWins(Cells(), row, col)
    {
      ghost var g := Cells();
      var lines := FindWinningLines(row, col);
      wins := [];
      var horizontalLineLength := lines[1].col - lines[0].col;
      wins := AddAxisWins(wins, lines[0], lines[1], horizontalLineLength, g, row, col, 0, 1);
      var verticalLineLength := lines[2].row - lines[3].row;
      wins := AddAxisWins(wins, lines[3], lines[2], verticalLineLength, g, row, col, 1, 0);
      var leftDiagonalLine := lines[5].col - lines[4].col;
      wins := AddAxisWins(wins, lines[4], lines[5], leftDiagonalLine, g, row, col, 1, 1);
      var rightDiagonalLine := lines[7].col - lines[6].col;
      wins := AddAxisWins(wins, lines[6], lines[7], rightDiagonalLine, g, row, col, -1, 1);
    }

    /** One axis of getPossibleWins(row, col): the span between the two far
        ends, measured in columns (in rows for the vertical axis); when it is
        at least 3 the lines of four inside it are appended. */
    static method AddAxisWins(wins: seq<Line>, first: Loc, last: Loc, span: int,
                              ghost g: Grid, ghost row: int, ghost col: int, dr: int, dc: int)
      returns (added: seq<Line>)
      requires WellFormed(g) && ValidLocation(g, row, col) && IsAxis(dr, dc)
      requires first == End(g, row, col, -dr, -dc) && last == End(g, row, col, dr, dc)
      requires span == if dc == 0 then last.row - first.row else last.col - first.col
      ensures added == wins + AxisWins(g, row, col, dr, dc)
    {
      assert span == Reach(g, row, col, -dr, -dc) + Reach(g, row, col, dr, dc);
      added := wins;
      if span >= 3 {
        added := AddPossibleWins(wins, first.row, first.col, dr, dc, span - 2);
      }
    }

    /** getPossibleWins(row, col, id): rejects an off-board cell or an id that
        is not a player, and otherwise drops the lines holding a disc of the
        other player. */
    method GetPossibleWinsFor(row: int, col: int, id: int) returns (res: Outcome<seq<Line>>)
      requires field.Length0 >= 1
      ensures !ValidLocation(Cells(), row, col) || !IsPlayer(id) <==> res == IllegalArgument
      ensures res.Ok? ==> ValidLocation(Cells(), row, col) && res.value == PossibleWinsFor(Cells(), row, col, id)
    {
      var g := Cells();
      if !ValidLocation(g, row, col) || (id != 1 && id != 2) {
        return IllegalArgument;
      }
      var wins := GetPossibleWins(row, col);
      PossibleWinsInBounds(g, row, col);
      var kept := KeepBelonging(wins, id);
      return Ok(kept);
    }

    /** The iterator loop of getPossibleWins(row, col, id): removes every
        line holding a disc that is neither `id`'s nor empty. */
    method KeepBelonging(wins: seq<Line>, id: int) returns (kept: seq<Line>)
      requires field.Length0 >= 1 && forall w :: w in wins ==> InBounds(Cells(), w)
      ensures kept == FilterBelongs(Cells(), wins, id)
    {
      var g := Cells();
      kept := [];
      for i := 0 to |wins|
        invariant kept == FilterBelongs(g, wins[..i], id)
      {
        assert wins[..i + 1] == wins[..i] + [wins[i]];
        if LineBelongsTo(g, wins[i], id) {
          kept := kept + [wins[i]];
        }
      }
      assert wins[..|wins|] == wins;
    }

    /** positionToWin: rejects an off-board cell (and, through getPossibleWins,
        an id that is not a player); otherwise reports whether some line of
        the player's through the cell already holds three of its discs. */
    method PositionToWin(row: int, col: int, id: int) returns (res: Outcome<bool>)
      requires field.Length0 >= 1
      ensures !ValidLocation(Cells(), row, col) || !IsPlayer(id) <==> res == IllegalArgument
      ensures res.Ok? ==> ValidLocation(Cells(), row, col) && res.value == Wins(Cells(), row, col, id)
    {
      var g := Cells();
      if !ValidLocation(g, row, col) {
        return IllegalArgument;
      }
      var wins := GetPossibleWinsFor(row, col, id);
      if wins.IllegalArgument? {
        return IllegalArgument;
      }
      res := AnyThreeOf(wins.value, id);
    }

    /** The loop of positionToWin: stops at the first line holding three of
        `id`'s discs. */
    method AnyThreeOf(lines: seq<Line>, id: int) returns (res: Outcome<bool>)
      requires field.Length0 >= 1 && forall w :: w in lines ==> InBounds(Cells(), w)
      ensures res == Ok(exists w :: w in lines && NumTokens(Cells(), w, id) == 3)
    {
      var g := Cells();
      for i := 0 to |lines|
        invariant forall k :: 0 <= k < i ==> NumTokens(g, lines[k], id) != 3
      {
        if NumTokens(g, lines[i], id) == 3 {
          assert lines[i] in lines;
          return Ok(true);
        }
      }
      return Ok(false);
    }

    /** belowAPositionToWin: false when there is no cell above; otherwise
        whatever positionToWin says about the cell above. */
    method BelowAPositionToWin(row: int, col: int, id: int) returns (res: Outcome<bool>)
      requires field.Length0 >= 1
      ensures row == 0 ==> res == Ok(false)
      ensures !ValidLocation(Cells(), row - 1, col) ==> res == Ok(false)
      ensures ValidLocation(Cells(), row - 1, col) && !IsPlayer(id) ==> res == IllegalArgument
      ensures IsPlayer(id) ==> res == Ok(BelowWin(Cells(), row, col, id))
    {
      var aboveRow := row - 1;
      if !ValidLocation(Cells(), aboveRow, col) {
        return Ok(false);
      }
      res := PositionToWin(aboveRow, col, id);
    }

    /** findAvailableLocation: scans the line for the other landing cells,
        giving up at the first other empty cell that is not one. */
    method FindAvailableLocation(line: Line, row: int, col: int) returns (res: Option<Loc>)
      requires field.Length0 >= 1 && InBounds(Cells(), line)
      ensures res == AvailableLocation(Cells(), availableMoves, line, row, col)
    {
      ghost var g := Cells();
      var indices, gapAt := ScanLine(line, row, col);
      assert Cells() == g;
      if gapAt >= 0 {
        AvailableLocationGap(g, availableMoves, line, row, col, gapAt);
        return None;
      }
      AvailableLocationScan(g, availableMoves, line, row, col);
      if |indices| == 1 {
        return Some(line[indices[0]]);
      }
      return None;
    }

    /** The loop of findAvailableLocation: collects the indices of the other
        landing cells, stopping at the first other empty cell that is not one. */
    method ScanLine(line: Line, row: int, col: int) returns (indices: seq<int>, gapAt: int)
      requires field.Length0 >= 1 && InBounds(Cells(), line)
      ensures -1 <= gapAt < |line|
      ensures gapAt >= 0 ==> OtherGap(Cells(), availableMoves, line, row, col, gapAt)
      ensures gapAt < 0 ==>
        && (forall k :: 0 <= k < |line| ==> !OtherGap(Cells(), availableMoves, line, row, col, k))
        && indices == LandingIndices(availableMoves, line, row, col, |line|)
    {
      ghost var g := Cells();
      var moves := availableMoves;
      indices := [];
      for i := 0 to |line|
        invariant indices == LandingIndices(moves, line, row, col, i)
        invariant forall k :: 0 <= k < i ==> !OtherGap(g, moves, line, row, col, k)
      {
        var lineCol, lineRow := line[i].col, line[i].row;
        assert ValidLoc(g, line[i]) && Owner(g, line[i]) == field[lineRow, lineCol];
        if lineRow != row || lineCol != col {
          if lineCol in moves && moves[lineCol] == lineRow {
            indices := indices + [i];
          } else if field[lineRow, lineCol] == 0 {
            return indices, i;
          }
        }
      }
      gapAt := -1;
    }
  }
}
