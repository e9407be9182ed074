/// TrapBot.java: the bot that plays a win, blocks a loss and otherwise
/// narrows its map of available moves filter by filter before choosing.
/// Every filter shrinks that map in place, and each method is proved to
/// leave exactly the map the functions of TrapSpec describe.
module TrapBot {
  import opened Board
  import opened Lines
  import opened TrapSpec
  import opened Starter

  class TrapBot {
    /** The board, the candidate map and the player id this bot inherits
        from BotStarter. */
    const bot: BotStarter

    /** The inherited invariant: the candidate map is part of the landing map. */
    ghost predicate Valid()
      reads this, bot, bot.field
    {
      bot.Valid()
    }

    /** A bot with an empty grid and no available moves yet. */
    constructor (rows: nat, columns: nat)
      requires rows >= 1
      ensures Valid() && fresh(bot) && fresh(bot.field)
      ensures bot.field.Length0 == rows && bot.field.Length1 == columns
      ensures bot.availableMoves == map[]
    {
      bot := new BotStarter(rows, columns);
    }

    /** scrapeLocations: removes, one key at a time, every candidate outside
        a non-empty `columns`; an empty `columns` leaves the map alone. */
    method ScrapeLocations(columns: set<int>)
      requires Valid()
      modifies bot`availableMoves
      ensures Valid()
      ensures bot.availableMoves == Scrape(old(bot.availableMoves), columns)
    {
      ScrapeCandidates(bot.Cells(), bot.availableMoves, columns);
      if columns != {} {
        var moves := RemoveOutside(bot.availableMoves, columns);
        bot.availableMoves := moves;
      }
    }

    /** The removal loop of scrapeLocations, on a copy of the map. */
    static method RemoveOutside(m: map<int, int>, columns: set<int>) returns (moves: map<int, int>)
      requires columns != {}
      ensures moves == Scrape(m, columns)
    {
      moves := m;
      var keys := m.Keys;
      while keys != {}
        invariant keys <= m.Keys
        invariant forall c :: c in moves <==> c in m && (c in keys || c in columns)
        invariant forall c :: c in moves ==> moves[c] == m[c]
        decreases |keys|
      {
        assert (forall k :: k !in keys) ==> keys == {};
        var column :| column in keys;
        if column !in columns {
          moves := moves - {column};
        }
        keys := keys - {column};
      }
      assert forall c :: c in moves.Keys <==> c in Scrape(m, columns).Keys;
      assert moves.Keys == Scrape(m, columns).Keys;
      assert forall c :: c in moves ==> moves[c] == Scrape(m, columns)[c];
    }

    /** scrapeToWin: the first candidate column, in column order, whose
        landing cell is in the position to win for `id`; NoWin if none is. */
    method ScrapeToWin(id: int) returns (column: int)
      requires Valid() && IsPlayer(id)
      ensures column == WinColumn(bot.Cells(), bot.availableMoves, id)
    {
      ghost var g := bot.Cells();
      ghost var wins := WinsAtFn(g, bot.availableMoves, id);
      ghost var target := WinColumn(g, bot.availableMoves, id);
      var columns := bot.field.Length1;
      for c := 0 to columns
        invariant bot.availableMoves == old(bot.availableMoves)
        invariant FirstWinFrom(wins, c, columns) == target
      {
        if c in bot.availableMoves {
          CandidateKey(g, bot.availableMoves, c);
          var win := bot.PositionToWin(bot.availableMoves[c], c, id);
          if win == Ok(true) {
            return c;
          }
        }
      }
      return NoWin;
    }

    /** scrapeAgainstAlmostWins: gathers the candidates whose landing cell is
        not right below a winning cell for `id`, and scrapes by them. */
    method ScrapeAgainstAlmostWins(id: int)
      requires Valid() && IsPlayer(id)
      modifies bot`availableMoves
      ensures Valid()
      ensures bot.availableMoves == Scrape(old(bot.availableMoves), AlmostSet(bot.Cells(), old(bot.availableMoves), id))
    {
      var moves := bot.availableMoves;
      forall x | x in moves
        ensures 0 <= x < bot.field.Length1
      {
        CandidateKey(bot.Cells(), moves, x);
      }
      var almostWinningColumns := AlmostWinningColumns(moves, id);
      ScrapeLocations(almostWinningColumns);
    }

    /** The gathering loop of scrapeAgainstAlmostWins, over the columns in order. */
    method AlmostWinningColumns(moves: map<int, int>, id: int) returns (columns: set<int>)
      requires bot.field.Length0 >= 1 && IsPlayer(id)
      requires forall x :: x in moves ==> 0 <= x < bot.field.Length1
      ensures columns == AlmostSet(bot.Cells(), moves, id)
    {
      ghost var g := bot.Cells();
      columns := {};
      for c := 0 to bot.field.Length1
        invariant forall x :: x in columns <==> x in moves && x < c && !BelowWin(g, moves[x], x, id)
      {
        if c in moves {
          var below := bot.BelowAPositionToWin(moves[c], c, id);
          if below == Ok(false) {
            columns := columns + {c};
          }
        }
      }
      assert forall x :: x in columns <==> x in AlmostSet(g, moves, id);
    }

    /** getAvailableLocs: for each of the player's lines through (row, column),
        the column of the single other playable cell it leaves, if any. */
    method GetAvailableLocs(row: int, column: int, id: int) returns (availableLocs: seq<int>)
      requires bot.field.Length0 >= 1 && ValidLocation(bot.Cells(), row, column) && IsPlayer(id)
      ensures availableLocs == AvailableLocs(bot.Cells(), bot.availableMoves, row, column, id)
    {
      var possibleWins := bot.GetPossibleWinsFor(row, column, id);
      availableLocs := LocsOfLines(possibleWins.value, row, column);
    }

    /** The loop of getAvailableLocs over the lines. */
    method LocsOfLines(lines: seq<Line>, row: int, column: int) returns (availableLocs: seq<int>)
      requires bot.field.Length0 >= 1 && forall w :: w in lines ==> InBounds(bot.Cells(), w)
      ensures availableLocs == LocsOf(bot.Cells(), bot.availableMoves, lines, row, column)
    {
      ghost var g := bot.Cells();
      availableLocs := [];
      for i := 0 to |lines|
        invariant availableLocs == LocsOf(g, bot.availableMoves, lines[..i], row, column)
      {
        assert lines[..i + 1][..i] == lines[..i];
        var freeLoc := bot.FindAvailableLocation(lines[i], row, column);
        if freeLoc.Some? {
          availableLocs := availableLocs + [freeLoc.value.col];
        }
      }
      assert lines[..|lines|] == lines;
    }

    /** scrapeMiddleTraps: keeps the candidates whose landing cell leaves
        more than one other playable cell across the player's lines. */
    method ScrapeMiddleTraps(id: int)
      requires Valid() && IsPlayer(id)
      modifies bot`availableMoves
      ensures Valid()
      ensures bot.availableMoves == Scrape(old(bot.availableMoves), MiddleSet(bot.Cells(), old(bot.availableMoves), id))
    {
      var moves := bot.availableMoves;
      forall x | x in moves
        ensures 0 <= x < bot.field.Length1 && ValidLocation(bot.Cells(), moves[x], x)
      {
        CandidateKey(bot.Cells(), moves, x);
      }
      var middleTrapColumns := MiddleTrapColumns(id);
      ScrapeLocations(middleTrapColumns);
    }

    /** The gathering loop of scrapeMiddleTraps, over the columns in order. */
    method MiddleTrapColumns(id: int) returns (columns: set<int>)
      requires bot.field.Length0 >= 1 && IsPlayer(id)
      requires forall x :: x in bot.availableMoves ==>
                 0 <= x < bot.field.Length1 && ValidLocation(bot.Cells(), bot.availableMoves[x], x)
      ensures columns == MiddleSet(bot.Cells(), bot.availableMoves, id)
    {
      ghost var g := bot.Cells();
      var moves := bot.availableMoves;
      ghost var trapFn := MiddleTrapFn(g, moves, id);
      columns := {};
      for c := 0 to bot.field.Length1
        invariant columns == KeysBelow(moves, trapFn, c)
      {
        KeysBelowStep(moves, trapFn, c);
        if c in moves {
          var trap := IsMiddleTrap(c, id);
          if trap {
            columns := columns + {c};
          }
        }
      }
      MiddleSetBelowAll(g, moves, id, bot.field.Length1);
    }

    /** The test scrapeMiddleTraps applies to one candidate column. */
    method IsMiddleTrap(c: int, id: int) returns (trap: bool)
      requires bot.field.Length0 >= 1 && IsPlayer(id)
      requires c in bot.availableMoves && ValidLocation(bot.Cells(), bot.availableMoves[c], c)
      ensures trap == MiddleTrap(bot.Cells(), bot.availableMoves, c, id)
    {
      var availableLocs := GetAvailableLocs(bot.availableMoves[c], c, id);
      trap := |availableLocs| > 1;
    }
    /** scrapeStackTraps: from the bottom row up to row 1, one pass per row
        over that row's free columns. */
    method ScrapeStackTraps(id: int)
      requires Valid() && IsPlayer(id)
      modifies bot`availableMoves
      ensures Valid()
      ensures bot.availableMoves == StackTraps(bot.Cells(), old(bot.availableMoves), id)
    {
      var g := bot.Cells();
      var freeLocations := FreeLocations(g);
      ghost var m := bot.availableMoves;
      StackPasses(freeLocations, id);
      assert bot.Cells() == g;
    }

    /** The row loop of scrapeStackTraps over the free lists `free`. */
    method StackPasses(free: seq<seq<int>>, id: int)
      requires Valid() && IsPlayer(id) && |free| == bot.field.Length0
      requires forall j :: 0 <= j < |free| ==> ColumnsOf(bot.Cells(), free[j])
      requires forall j, c :: 0 <= j < |free| ==>
                 (c in free[j] <==> 0 <= c < bot.field.Length1 && bot.Cells()[j][c] == 0)
      modifies bot`availableMoves
      ensures Valid()
      ensures bot.availableMoves == StackRows(old(bot.availableMoves), StackPassFn(bot.Cells(), id, free), |free| - 1)
    {
      ghost var g := bot.Cells();
      ghost var pass := StackPassFn(g, id, free);
      ghost var target := StackRows(bot.availableMoves, pass, |g| - 1);
      var row := |free| - 1;
      while row > 0
        invariant row < |g| && g == bot.Cells()
        invariant Valid()
        invariant StackRows(bot.availableMoves, pass, row) == target
        decreases row
      {
        var top := Above(row);
        ghost var before := bot.availableMoves;
        StackRowsStep(g, id, free, before, row);
        StackRowPass(free[row], free[top], row, top, id);
        assert bot.availableMoves == StackRow(g, before, id, row, top, free[row], {});
        row := row - 1;
      }
    }

    /** One pass of scrapeStackTraps over the free columns `free` of `row`,
        `above` being the free columns of the row `top` above it; the
        gathered columns are kept across the pass and scraped by after every
        column. */
    method StackRowPass(free: seq<int>, above: seq<int>, row: int, top: int, id: int)
      requires Valid() && IsPlayer(id) && 0 <= row < bot.field.Length0 && 0 <= top < bot.field.Length0
      requires ColumnsOf(bot.Cells(), free)
      requires forall c :: c in above <==> 0 <= c < bot.field.Length1 && bot.Cells()[top][c] == 0
      modifies bot`availableMoves
      ensures Valid()
      ensures bot.availableMoves == StackRow(bot.Cells(), old(bot.availableMoves), id, row, top, free, {})
    {
      ghost var g := bot.Cells();
      var availableColumns: set<int> := {};
      for i := 0 to |free|
        invariant Valid()
        invariant availableColumns <= bot.availableMoves.Keys
        invariant StackRow(g, bot.availableMoves, id, row, top, free[i..], availableColumns)
               == StackRow(g, old(bot.availableMoves), id, row, top, free, {})
      {
        var column := free[i];
        assert free[i..][1..] == free[i + 1..];
        if column in above {
          availableColumns := StackPairColumns(availableColumns, row, top, column, id);
        }
        ScrapeBySubset(bot.availableMoves, availableColumns);
        ScrapeLocations(availableColumns);
      }
    }

    /** The columns scrapeStackTraps adds for the free cells (row, column)
        and (top, column), added to `acc`. */
    method StackPairColumns(acc: set<int>, row: int, top: int, column: int, id: int) returns (columns: set<int>)
      requires bot.field.Length0 >= 1 && IsPlayer(id)
      requires 0 <= row < bot.field.Length0 && 0 <= top < bot.field.Length0 && 0 <= column < bot.field.Length1
      ensures columns == acc + StackPair(bot.Cells(), bot.availableMoves, id, row, top, column)
    {
      var bRowLocs := GetAvailableLocs(row, column, id);
      var tRowLocs := GetAvailableLocs(top, column, id);
      var bottomWins := bot.PositionToWin(row, column, id);
      if bottomWins.value {
        columns := AddAll(acc, tRowLocs);
      } else {
        var topWins := bot.PositionToWin(top, column, id);
        if topWins.value {
          columns := AddAll(acc, bRowLocs);
        } else {
          columns := AddCommon(acc, bRowLocs, tRowLocs);
        }
      }
    }

    /** Adds every entry of `cols` to `acc`. */
    static method AddAll(acc: set<int>, cols: seq<int>) returns (s: set<int>)
      ensures s == acc + Elems(cols)
    {
      s := acc;
      for k := 0 to |cols|
        invariant forall x :: x in s <==> x in acc || x in cols[..k]
      {
        s := s + {cols[k]};
      }
      assert cols[..|cols|] == cols;
      assert forall x :: x in s <==> x in acc + Elems(cols);
    }

    /** Adds to `acc` every entry of `bs` equal to some entry of `ts`. */
    static method AddCommon(acc: set<int>, bs: seq<int>, ts: seq<int>) returns (s: set<int>)
      ensures s == acc + Elems(bs) * Elems(ts)
    {
      s := acc;
      for i := 0 to |bs|
        invariant forall x :: x in s <==> x in acc || (x in bs[..i] && x in ts)
      {
        for j := 0 to |ts|
          invariant forall x :: x in s <==>
            x in acc || (x in bs[..i] && x in ts) || (x == bs[i] && x in ts[..j])
        {
          if bs[i] == ts[j] {
            s := s + {bs[i]};
          }
        }
        assert ts[..|ts|] == ts;
        assert bs[..i + 1] == bs[..i] + [bs[i]];
      }
      assert bs[..|bs|] == bs;
      assert forall x :: x in s <==> x in acc + Elems(bs) * Elems(ts);
    }
    /** getOddThreats: the free cells of the odd rows in the position to win
        for `id`, each column at its lowest such cell. */
    method GetOddThreats(id: int) returns (oddThreats: map<int, int>)
      requires bot.field.Length0 >= 1 && IsPlayer(id)
      ensures oddThreats == OddThreats(bot.Cells(), id)
    {
      oddThreats := ScanThreats(1, id);
    }

    /** getEvenThreats: the same for the even rows. */
    method GetEvenThreats(id: int) returns (evenThreats: map<int, int>)
      requires bot.field.Length0 >= 1 && IsPlayer(id)
      ensures evenThreats == EvenThreats(bot.Cells(), id)
    {
      evenThreats := ScanThreats(0, id);
    }

    /** The loop getOddThreats and getEvenThreats share: the rows from
        `first` on, in steps of two. */
    method ScanThreats(first: nat, id: int) returns (threats: map<int, int>)
      requires bot.field.Length0 >= 1 && IsPlayer(id)
      ensures threats == ThreatsFrom(bot.Cells(), WinsFn(bot.Cells(), id), first, map[])
    {
      var g := bot.Cells();
      var freeLocs := FreeLocations(g);
      ghost var win := WinsFn(g, id);
      threats := map[];
      var row := first;
      while row < |freeLocs|
        invariant ThreatsFrom(g, win, row, threats) == ThreatsFrom(g, win, first, map[])
        decreases |freeLocs| - row
      {
        threats := RowThreatScan(freeLocs[row], row, id, threats);
        row := row + 2;
      }
    }

    /** One row of the threat scan: every column of `cols` whose cell in
        `row` is in the position to win is recorded with that row. */
    method RowThreatScan(cols: seq<int>, row: int, id: int, acc: map<int, int>) returns (threats: map<int, int>)
      requires bot.field.Length0 >= 1 && IsPlayer(id)
      requires 0 <= row < bot.field.Length0 && ColumnsOf(bot.Cells(), cols)
      ensures threats == RowThreats(WinsFn(bot.Cells(), id), row, cols, acc)
    {
      ghost var win := WinsFn(bot.Cells(), id);
      threats := acc;
      for i := 0 to |cols|
        invariant RowThreats(win, row, cols[i..], threats) == RowThreats(win, row, cols, acc)
      {
        assert cols[i..][1..] == cols[i + 1..];
        var wins := bot.PositionToWin(row, cols[i], id);
        if wins.value {
          threats := threats[cols[i] := row];
        }
      }
    }

    /** scrapeForOtherThreat: throws unless exactly one of the two threat
        maps is empty, and then works toward the other kind of threat. */
    method ScrapeForOtherThreat(oddThreats: map<int, int>, evenThreats: map<int, int>, id: int) returns (res: Outcome<()>)
      requires Valid() && IsPlayer(id)
      modifies bot`availableMoves
      ensures Valid()
      ensures res.IllegalArgument? <==> ForOtherThreat(bot.Cells(), old(bot.availableMoves), oddThreats, evenThreats, id).IllegalArgument?
      ensures res.Ok? ==> bot.availableMoves == ForOtherThreat(bot.Cells(), old(bot.availableMoves), oddThreats, evenThreats, id).value
      ensures res.IllegalArgument? ==> bot.availableMoves == old(bot.availableMoves)
    {
      if (oddThreats == map[] && evenThreats == map[]) || (oddThreats != map[] && evenThreats != map[]) {
        return IllegalArgument;
      }
      if oddThreats == map[] {
        ScrapeToMakeEvenThreat(id);
      } else if evenThreats == map[] {
        ScrapeToMakeOddThreat(id);
      }
      return Ok(());
    }

    /** scrapeToMakeOddThreat: from the bottom row up, every other row. */
    method ScrapeToMakeOddThreat(id: int)
      requires Valid() && IsPlayer(id)
      modifies bot`availableMoves
      ensures Valid()
      ensures bot.availableMoves == MakeOdd(bot.Cells(), old(bot.availableMoves), id)
    {
      ScrapeToMakeThreat(bot.field.Length0 - 1, id);
    }

    /** scrapeToMakeEvenThreat: from the row above the bottom up, every other row. */
    method ScrapeToMakeEvenThreat(id: int)
      requires Valid() && IsPlayer(id)
      modifies bot`availableMoves
      ensures Valid()
      ensures bot.availableMoves == MakeEven(bot.Cells(), old(bot.availableMoves), id)
    {
      ScrapeToMakeThreat(bot.field.Length0 - 2, id);
    }

    /** The loop the two share: from `start` upward in steps of two rows,
        gather the open columns the free cells of the row leave, and scrape
        by them. */
    method ScrapeToMakeThreat(start: int, id: int)
      requires Valid() && IsPlayer(id) && start < bot.field.Length0
      modifies bot`availableMoves
      ensures Valid()
      ensures bot.availableMoves == MakeThreat(bot.Cells(), old(bot.availableMoves), id, start)
    {
      var g := bot.Cells();
      var freeLocs := FreeLocations(g);
      ghost var target := MakeThreat(g, bot.availableMoves, id, start);
      var row := start;
      while row >= 0
        invariant row < |g| && g == bot.Cells()
        invariant Valid()
        invariant MakeThreat(g, bot.availableMoves, id, row) == target
        decreases row + 2
      {
        var columns := RowTargetColumns(freeLocs[row], row, id);
        ScrapeBySubset(bot.availableMoves, columns);
        ScrapeLocations(columns);
        row := row - 2;
      }
    }

    /** The columns the free cells `cols` of `row` leave open. */
    method RowTargetColumns(cols: seq<int>, row: int, id: int) returns (columns: set<int>)
      requires bot.field.Length0 >= 1 && IsPlayer(id)
      requires 0 <= row < bot.field.Length0 && ColumnsOf(bot.Cells(), cols)
      ensures columns == RowTargets(bot.Cells(), bot.availableMoves, id, row, cols)
    {
      ghost var g := bot.Cells();
      ghost var m := bot.availableMoves;
      columns := {};
      for i := 0 to |cols|
        invariant columns + RowTargets(g, m, id, row, cols[i..]) == RowTargets(g, m, id, row, cols)
      {
        RowTargetsStep(g, m, id, row, cols, i);
        var availableLocs := GetAvailableLocs(row, cols[i], id);
        columns := AddAll(columns, availableLocs);
      }
    }
    /** scrapeThreats: compares the threat maps of both players and narrows
        the candidates toward a threat of the parity that helps, following
        the branches of the two player ids. */
    method ScrapeThreats(oppID: int)
      requires Valid() && IsPlayer(bot.myID) && IsPlayer(oppID)
      modifies bot`availableMoves
      ensures Valid()
      ensures bot.availableMoves == Threats(bot.Cells(), old(bot.availableMoves), bot.myID, oppID)
    {
      ghost var g := bot.Cells();
      ghost var m := bot.availableMoves;
      var myOddThreats := GetOddThreats(bot.myID);
      var myEvenThreats := GetEvenThreats(bot.myID);
      var oppOddThreats := GetOddThreats(oppID);
      var oppEvenThreats := GetEvenThreats(oppID);
      ghost var expected := ThreatsWith(g, m, bot.myID, oppID, myOddThreats, myEvenThreats, oppOddThreats, oppEvenThreats);
      ThreatsNeverThrow(g, m, bot.myID, oppID, myOddThreats, myEvenThreats, oppOddThreats, oppEvenThreats);
      var scrapeOkay := true;
      if myOddThreats == map[] && myEvenThreats == map[] && oppOddThreats == map[] && oppEvenThreats == map[] {
        if bot.myID == 1 {
          ScrapeToMakeOddThreat(bot.myID);
          ScrapeToMakeEvenThreat(bot.myID);
          ScrapeToMakeOddThreat(oppID);
          ScrapeToMakeEvenThreat(oppID);
        } else {
          ScrapeToMakeOddThreat(oppID);
          ScrapeToMakeEvenThreat(oppID);
          ScrapeToMakeOddThreat(bot.myID);
          ScrapeToMakeEvenThreat(bot.myID);
        }
        scrapeOkay := false;
      } else if myOddThreats != map[] && myEvenThreats != map[] {
        scrapeOkay := false;
      } else if oppOddThreats != map[] && oppEvenThreats != map[] {
        scrapeOkay := false;
      }
      if scrapeOkay {
        ScrapeOkay(oppID, myOddThreats, myEvenThreats, oppOddThreats, oppEvenThreats);
      }
      assert bot.availableMoves == expected.value;
    }

    /** The branches of scrapeThreats taken when each player has at most one
        kind of threat and some player has one. */
    method ScrapeOkay(oppID: int, myOddThreats: map<int, int>, myEvenThreats: map<int, int>,
                      oppOddThreats: map<int, int>, oppEvenThreats: map<int, int>)
      requires Valid() && IsPlayer(bot.myID) && IsPlayer(oppID)
      requires !(myOddThreats == map[] && myEvenThreats == map[] && oppOddThreats == map[] && oppEvenThreats == map[])
      requires !(myOddThreats != map[] && myEvenThreats != map[])
      requires !(oppOddThreats != map[] && oppEvenThreats != map[])
      modifies bot`availableMoves
      ensures Valid()
      ensures bot.availableMoves == ThreatsWith(bot.Cells(), old(bot.availableMoves), bot.myID, oppID,
                                                myOddThreats, myEvenThreats, oppOddThreats, oppEvenThreats).value
    {
      var myID := bot.myID;
      if oppOddThreats == map[] && oppEvenThreats == map[] {
        var _ := ScrapeForOtherThreat(myOddThreats, myEvenThreats, myID);
      } else if myOddThreats == map[] && myEvenThreats == map[] {
        var _ := ScrapeForOtherThreat(oppOddThreats, oppEvenThreats, oppID);
      } else if myID == 1 {
        if |oppOddThreats| > 0 {
          if myEvenThreats == map[] {
            ScrapeToMakeEvenThreat(myID);
          } else {
            ScrapeAgainstAlmostWins(myID);
          }
        } else if |oppEvenThreats| > 0 {
          if myOddThreats == map[] {
            ScrapeToMakeOddThreat(myID);
          } else {
            ScrapeAgainstAlmostWins(myID);
          }
        }
      } else if myID == 2 {
        if |oppOddThreats| > 0 {
          if myOddThreats == map[] {
            ScrapeToMakeOddThreat(myID);
          } else {
            ScrapeAgainstAlmostWins(myID);
          }
        } else if |oppEvenThreats| > 0 {
          if myEvenThreats == map[] {
            ScrapeToMakeEvenThreat(myID);
          } else {
            ScrapeAgainstAlmostWins(oppID);
          }
        }
      }
    }

    /** bestAvailableLocation: the candidate whose landing cell has the most
        lines of four through it, the first in column order on ties; -1 when
        there is no candidate. */
    method BestAvailableLocation() returns (maxColumn: int)
      requires Valid()
      ensures maxColumn == Best(bot.Cells(), bot.availableMoves)
    {
      ghost var g := bot.Cells();
      var moves := bot.availableMoves;
      ghost var score := ScoreFn(g, moves);
      ghost var target := Best(g, moves);
      var columns := bot.field.Length1;
      assert columns == Cols(g);
      var maxWins := -1;
      maxColumn := -1;
      for column := 0 to columns
        invariant maxColumn < column
        invariant BestFrom(moves, score, column, columns, maxWins, maxColumn) == target
      {
        BestFromStep(moves, score, column, columns, maxWins, maxColumn);
        if column in moves {
          CandidateKey(g, moves, column);
          var wins := CountWins(moves, column);
          assert wins == score(column);
          if wins > maxWins {
            maxWins := wins;
            maxColumn := column;
          }
        }
      }
    }

    /** The number of lines of four through the landing cell of a candidate,
        as bestAvailableLocation counts it. */
    method CountWins(moves: map<int, int>, column: int) returns (wins: int)
      requires bot.field.Length0 >= 1 && column in moves && ValidLocation(bot.Cells(), moves[column], column)
      ensures wins == Score(bot.Cells(), moves, column) && wins >= 0
    {
      var possible := bot.GetPossibleWins(moves[column], column);
      wins := |possible|;
    }

    /** makeTurn: plays a winning column for the bot if there is one, else
        blocks the opponent's, else narrows the candidates filter by filter
        and plays the best of what remains. */
    method MakeTurn() returns (column: int)
      requires Valid() && IsPlayer(bot.myID)
      modifies bot`availableMoves
      ensures Valid()
      ensures column == Turn(bot.Cells(), old(bot.availableMoves), bot.myID)
      ensures bot.availableMoves == TurnMoves(bot.Cells(), old(bot.availableMoves), bot.myID)
    {
      var oppID := 3 - bot.myID;
      assert oppID == Opponent(bot.myID);
      var winColumn := ScrapeToWin(bot.myID);
      if winColumn != NoWin {
        return winColumn;
      }
      winColumn := ScrapeToWin(oppID);
      if winColumn != NoWin {
        return winColumn;
      }
      ApplyFilters(oppID);
      column := BestAvailableLocation();
    }

    /** The filters makeTurn runs, in order, once neither player can win at once. */
    method ApplyFilters(oppID: int)
      requires Valid() && IsPlayer(bot.myID) && oppID == Opponent(bot.myID)
      modifies bot`availableMoves
      ensures Valid()
      ensures bot.availableMoves == Filtered(bot.Cells(), old(bot.availableMoves), bot.myID)
    {
      ScrapeAgainstAlmostWins(oppID);
      ScrapeThreats(oppID);
      ScrapeMiddleTraps(bot.myID);
      ScrapeMiddleTraps(oppID);
      ScrapeStackTraps(bot.myID);
      ScrapeStackTraps(oppID);
    }
  }
}
