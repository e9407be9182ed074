# Connect-Four TrapBot, modelled in Dafny

A model of the move chooser of a four-in-a-row bot. It covers two Java classes.

`BotStarter` holds the board and the line geometry:
- the grid `field` of owners, where 0 is empty, 1 and 2 are the players, and discs fall toward the highest row index;
- the map `availableMoves` from each open column to its landing row;
- the lines of four through a cell, the "position to win" test and the "single other playable gap" of a line.

`TrapBot` narrows `availableMoves` filter by filter:
- play a win, else block the opponent's win;
- avoid cells below a win, weigh odd and even threats, avoid middle traps and stack traps;
- finally pick the column whose landing cell lies on the most lines of four.

The model has five modules:
- `Board` (board.dfy): the grid as a value, with the landing map, the free cells, the owner map and the array comparison.
- `Lines` (lines.dfy): the geometry of lines as functions and lemmas. This covers how far a line reaches in each direction, the windows of four along the four axes, the id filter, the token count, three-of-four, and the specification of `findAvailableLocation`.
- `Starter` (starter.dfy): the class `BotStarter`, with `field: array2<int>` and `availableMoves: map<int, int>`. Its methods carry the Java loops and are each proved equal to the functions of `Lines` and `Board` on the current grid.
- `TrapSpec` (trap_spec.dfy): every filter as a function from (grid, candidate map) to the new candidate map. It also holds the lemmas the pipeline relies on:
  - restriction keeps values and never empties a non-empty map;
  - the exception of `scrapeForOtherThreat` cannot be reached from `scrapeThreats`;
  - the first winning column is found;
  - the best column is the first argmax.
- `TrapBot` (trap_bot.dfy): the class `TrapBot` over a `BotStarter`. Its methods update `availableMoves` in place, as the Java does, and are proved to leave exactly the map the `TrapSpec` functions describe. Each method keeps the invariant that the candidate map is part of the landing map.

Iteration over a `HashMap`'s keys is modelled as ascending column order. Each filter reads the map as the earlier filters left it, so a filter that looks for "available" cells sees fewer of them. The model keeps that coupling.

Code and documentation disagree on `findMaxDistance` (BotStarter.java:455-479); the model follows the code. From an empty origin, the walk adopts the owner of the first disc it meets and goes on. It does this independently in each direction. `Lines.Reach` is therefore the longest run of at most three steps whose cells hold no two different owners. As a result, the unfiltered lines of four from `getPossibleWins(row, col)` can hold discs of both players, although the comment above that method says otherwise.

## Model

| member | source | states |
|---|---|---|
| Board.ValidLocation | BotStarter.java:511-514 | a valid location lies inside the grid, so its cell can be read |
| Board.Landing | BotStarter.java:94-103 | the keys are exactly the columns holding an empty cell; each value is the lowest empty cell of its column, with every cell below it occupied |
| Board.LandingRow | BotStarter.java:97-101 | the top-down scan of one column keeps the last empty row it meets, so the largest empty row index with every cell below it occupied, or -1 when the column is full |
| Board.FreeLocations | BotStarter.java:157-170 | one list per row; it contains exactly the columns where that row is empty, in increasing order |
| Board.Locations | BotStarter.java:187-201 | the keys are the columns holding `id` somewhere; each list holds exactly the rows of that column that hold `id`, each once, in increasing order |
| Board.Equal2DArrays | BotStarter.java:523-532 | for arrays of equal dimensions, true exactly when every entry agrees |
| Board.EqualRows | BotStarter.java:525-529 | the inner comparison of one row, true exactly when the rows are equal |
| Lines.Reach | BotStarter.java:455-479 | the walk goes at most 3 steps and every cell it covers is on the board with no two different owners; when it stops short, one more step would leave the board or meet a second owner |
| Lines.Matching | BotStarter.java:496-501 | a location matches `id` when it is on the board and holds `id` or nothing; Lines.RunOfMatches and Lines.ReachMatchesOrigin state what the walk makes of it |
| Lines.RunOfMatches | BotStarter.java:496-501 | consecutive cells matching one id form a single-owner run |
| Lines.ReachMatchesOrigin | BotStarter.java:455-479 | every cell the walk covers from an occupied cell matches that cell's owner |
| Lines.ReachUnique | BotStarter.java:455-479 | the walk length is the unique maximal single-owner run, so any run with that property is the one the walk finds |
| Lines.Windows | BotStarter.java:391-401 | the loop adds exactly `increment` windows of four, the i-th starting i steps from the far end |
| Lines.AxisWinsShape | BotStarter.java:350-401 | one axis contributes at most 4 windows; each is 4 contiguous on-board cells along that axis through the given cell |
| Lines.PossibleWins | BotStarter.java:350-378 | at most 16 windows in all, each of 4 contiguous collinear cells that contains (row, col) |
| Lines.AxisWinsExactly | BotStarter.java:354-376 | a run of four along one axis is among that axis's windows exactly when it lies inside the span the two walks reach |
| Lines.PossibleWinsExactly | BotStarter.java:350-378 | a line is returned exactly when it is a run of four along one of the four axes that lies inside that axis's reach span, so every such window is returned and nothing else |
| Lines.PossibleWinsNoRepeats | BotStarter.java:350-378 | no window is returned twice |
| Lines.LineBelongsTo | BotStarter.java:310-320 | true exactly when no cell of the line holds anything but `id` or 0 |
| Lines.FilterBelongs | BotStarter.java:287-293 | keeps exactly the windows that belong to `id` |
| Lines.PossibleWinsFor | BotStarter.java:283-295 | exactly the windows through the cell that hold no opponent disc |
| Lines.PossibleWinsForShape | BotStarter.java:283-295 | every window kept goes through the cell and has each of its four cells equal to `id` or 0 |
| Lines.NumTokens | BotStarter.java:251-261 | the count is at most the length of the line |
| Lines.NumTokensOfFour | BotStarter.java:251-261 | on a line of four, the count is the number of its cells holding `id` |
| Lines.NumTokensCounts | BotStarter.java:251-261 | on any line, the count is the number of its cells whose owner is `id` |
| Lines.ThreeOfFour | BotStarter.java:130-145 | on a window that belongs to `id`, three tokens means three cells of `id` and one empty cell |
| Lines.WinsMeansThreeAndGap | BotStarter.java:130-145 | a position is a win exactly when some window through it that belongs to `id` has three discs of `id` and an empty fourth cell |
| Lines.Wins | BotStarter.java:130-145 | some window through the cell that belongs to `id` holds three of its discs; Lines.WinsMeansThreeAndGap and Lines.WinGapIsTheCell say what that means on the board |
| Lines.WinGapIsTheCell | BotStarter.java:137-139 | when the cell itself is empty and wins, the empty cell of the winning window is that cell |
| Lines.BelowWin | BotStarter.java:113-118 | the cell above is on the board and in the position to win; Lines.BelowWinMeans states it in terms of lines |
| Lines.BelowWinMeans | BotStarter.java:113-118 | a cell lies below a win exactly when the cell above is on the board and completes a window of three discs of `id` and one gap |
| Lines.LandingIndices | BotStarter.java:219-232 | lists exactly the other cells of the line that are the landing cell of a key, in order |
| Lines.AvailableLocation | BotStarter.java:218-237 | a cell comes back exactly when no other cell of the line is an empty non-landing cell and exactly one other cell is a landing cell; that cell is the one returned |
| Starter.BotStarter.constructor | BotStarter.java:58-61 | an all-empty grid of the given size and an empty move map |
| Starter.BotStarter.Parse | BotStarter.java:75-84 | each given token lands in its cell, the other cells keep their value, and the move map is the landing map of the new grid |
| Starter.BotStarter.SetAvailableMoves | BotStarter.java:94-103 | the map is cleared and rebuilt as the landing map of the grid, whatever it held before |
| Starter.BotStarter.PutEmptyCells | BotStarter.java:96-102 | one column's scan adds that column's landing row when the column is open, and leaves the map alone otherwise |
| Starter.BotStarter.FindMaxDistance | BotStarter.java:455-479 | the cell reached is the far end of the maximal single-owner run in the given direction |
| Starter.BotStarter.FindWinningLines | BotStarter.java:423-434 | the eight far ends, in the order left, right, down, up and then the two diagonals |
| Starter.BotStarter.AddPossibleWins | BotStarter.java:391-401 | appends exactly the windows `Lines.Windows` describes, and none when the increment is not positive |
| Starter.BotStarter.AddAxisWins | BotStarter.java:354-376 | one axis adds its windows only when its span is at least 3 |
| Starter.BotStarter.GetPossibleWins | BotStarter.java:350-378 | the result is `Lines.PossibleWins` of the current grid |
| Starter.BotStarter.GetPossibleWinsFor | BotStarter.java:283-295 | throws exactly when the location is invalid or the id is not a player; otherwise the windows that belong to `id` |
| Starter.BotStarter.KeepBelonging | BotStarter.java:287-293 | the removal loop leaves exactly the windows that belong to `id` |
| Starter.BotStarter.PositionToWin | BotStarter.java:130-145 | throws exactly when the location is invalid or the id is not a player; otherwise answers whether the cell completes a line of four |
| Starter.BotStarter.AnyThreeOf | BotStarter.java:136-144 | true exactly when some window holds three tokens of `id` |
| Starter.BotStarter.BelowAPositionToWin | BotStarter.java:113-118 | false on row 0 or off the board; otherwise the answer for the cell above, which may throw for a non-player id |
| Starter.BotStarter.FindAvailableLocation | BotStarter.java:218-237 | the result is `Lines.AvailableLocation` for the current move map |
| Starter.BotStarter.ScanLine | BotStarter.java:219-232 | stops at the first empty non-landing cell; otherwise collects every other landing cell |
| TrapSpec.Scrape | TrapBot.java:345-358 | a non-empty set keeps exactly the old keys in the set with their old values; an empty set changes nothing |
| TrapSpec.ScrapeBySubset | TrapBot.java:345-358 | scraping by a subset of the keys leaves exactly that subset, and never empties a non-empty map |
| TrapSpec.ScrapeIdempotent | TrapBot.java:345-358 | scraping twice by the same set is the same as scraping once |
| TrapSpec.ScrapeCandidates | TrapBot.java:345-358 | scraping keeps a candidate map inside the landing map |
| TrapSpec.FirstWinFrom | TrapBot.java:48-55 | the answer is either 7 or a winning column, and no earlier column wins |
| TrapSpec.WinColumnFindsWin | TrapBot.java:48-55 | on boards of at most 7 columns: 7 exactly when no candidate wins; otherwise the first winning candidate |
| TrapSpec.WinColumn | TrapBot.java:48-55 | the first winning candidate, or 7; TrapSpec.WinColumnFindsWin states it |
| TrapSpec.AgainstAlmostWins | TrapBot.java:66-75 | keeps exactly the candidates whose landing cell is not below a win; keeps them all when every one is below a win; never empties the map |
| TrapSpec.AlmostSet | TrapBot.java:67-73 | the candidates whose landing cell is not below a win; TrapSpec.AgainstAlmostWins states what scraping by it leaves |
| TrapSpec.LocsOf | TrapBot.java:105-113 | at most one column per line, each a current candidate; TrapSpec.LocsOfMembers and TrapSpec.LocsOfCount state which columns and how many |
| TrapSpec.AvailableLocsAreCandidates | TrapBot.java:101-115 | the follow-up columns of a cell are candidates, at most 16 of them, one per window |
| TrapSpec.LocsOfMembers | TrapBot.java:105-113 | a column is reported exactly when some line leaves its single other playable cell in that column |
| TrapSpec.LocsOfCount | TrapBot.java:105-113 | exactly one column is reported per line that leaves a single other playable cell |
| TrapSpec.AvailableLocs | TrapBot.java:101-115 | the follow-up columns over the player's windows through the cell; TrapSpec.AvailableLocsMeaning states which and how many |
| TrapSpec.AvailableLocsMeaning | TrapBot.java:101-115 | a column is reported exactly when one of the player's windows through the cell leaves its single other playable cell there, once per such window |
| TrapSpec.MiddleSetBelowAll | TrapBot.java:85-99 | scanning every column collects the whole middle-trap set |
| TrapSpec.MiddleSet | TrapBot.java:85-99 | the candidates with more than one follow-up; TrapSpec.MiddleTraps states what scraping by it leaves |
| TrapSpec.MiddleTraps | TrapBot.java:85-115 | keeps exactly the candidates with more than one follow-up (when any has); never empties the map |
| TrapSpec.StackPair | TrapBot.java:133-153 | a stacked pair only hands over current candidates |
| TrapSpec.StackPairCases | TrapBot.java:137-153 | a winning lower cell gives the upper cell's follow-ups; else a winning upper cell gives the lower cell's; else only the columns both share |
| TrapSpec.StackRow | TrapBot.java:130-156 | one row's pass shrinks the map and never empties it |
| TrapSpec.StackPassShrinks | TrapBot.java:127-158 | every row pass shrinks without emptying |
| TrapSpec.StackRowsShrink | TrapBot.java:127-158 | the passes over all rows shrink the map and never empty it |
| TrapSpec.StackTraps | TrapBot.java:127-158 | the result is part of the old map and is non-empty when the old map was |
| TrapSpec.RowTargets | TrapBot.java:289-295 | the follow-up columns of one row are candidates; TrapSpec.RowTargetsUnion states which |
| TrapSpec.RowTargetsUnion | TrapBot.java:289-295 | a column is gathered exactly when it is a follow-up of one of the row's free cells |
| TrapSpec.MakeThreat | TrapBot.java:286-312 | the map shrinks and a non-empty map stays non-empty |
| TrapSpec.MakeOdd | TrapBot.java:286-298 | TrapSpec.MakeThreat from the bottom row, so it shrinks the map without emptying it |
| TrapSpec.MakeEven | TrapBot.java:300-312 | TrapSpec.MakeThreat from one row above the bottom, so it shrinks the map without emptying it |
| TrapSpec.RowThreats | TrapBot.java:243-247 | records exactly the free winning cells of the row, and overwrites any earlier row of the same column |
| TrapSpec.RowThreatsStep | TrapBot.java:239-263 | one scanned row keeps the threat invariant for the rows below it |
| TrapSpec.ThreatsStart | TrapBot.java:239-263 | the empty map is the threat map of no rows |
| TrapSpec.ThreatsFromStep | TrapBot.java:239-263 | the scan moves in steps of two rows and keeps the threat invariant |
| TrapSpec.ThreatsDone | TrapBot.java:239-263 | when the scan leaves the grid, its map is the full threat map |
| TrapSpec.ThreatsFromShape | TrapBot.java:239-263 | from any row of the right parity, the scan ends with the full threat map |
| TrapSpec.OddThreats | TrapBot.java:239-250 | the winning free cells of the odd rows; TrapSpec.OddThreatsShape states it |
| TrapSpec.EvenThreats | TrapBot.java:252-263 | the winning free cells of the even rows; TrapSpec.EvenThreatsShape states it |
| TrapSpec.OddThreatsShape | TrapBot.java:239-250 | only odd rows; each entry is an empty winning cell; for each column, the largest such odd row |
| TrapSpec.EvenThreatsShape | TrapBot.java:252-263 | only even rows; each entry is an empty winning cell; for each column, the largest such even row |
| TrapSpec.ForOtherThreat | TrapBot.java:273-284 | throws exactly when both maps are empty or both are non-empty; otherwise shrinks without emptying |
| TrapSpec.ThreatsWith | TrapBot.java:172-237 | the decision table of scrapeThreats on the four threat maps; TrapSpec.ThreatsNeverThrow and TrapSpec.ThreatsShrink state that it never throws and shrinks without emptying |
| TrapSpec.ThreatsNeverThrow | TrapBot.java:172-237 | the exception of scrapeForOtherThreat cannot be reached from scrapeThreats |
| TrapSpec.ThreatsShrink | TrapBot.java:172-237 | the threat phase shrinks the map and never empties a non-empty one |
| TrapSpec.AlmostShrinks | TrapBot.java:66-75 | avoiding cells below a win shrinks without emptying |
| TrapSpec.Threats | TrapBot.java:172-237 | the threat phase is a shrinking, non-emptying filter |
| TrapSpec.BestFromArgmax | TrapBot.java:321-333 | the loop ends on the first column with the largest count, or on its start value when none beats it |
| TrapSpec.Best | TrapBot.java:321-333 | the first candidate with the most windows through its landing cell, or -1; TrapSpec.BestIsFirstArgmax states it |
| TrapSpec.BestIsFirstArgmax | TrapBot.java:321-333 | -1 for an empty map; otherwise a candidate of maximal count, and earlier candidates have strictly smaller counts |
| TrapSpec.Filtered | TrapBot.java:33-38 | the filters shrink the map |
| TrapSpec.FilteredNotEmpty | TrapBot.java:33-38 | the filters never empty a non-empty candidate map and keep it inside the landing map |
| TrapSpec.Turn | TrapBot.java:23-40 | win, else block, else the best filtered candidate; TrapSpec.TurnIsCandidate and TrapSpec.TurnWinsThenBlocks state it |
| TrapSpec.TurnMoves | TrapBot.java:23-40 | the map is left alone when a player can win at once, and is otherwise the filtered map, which TrapSpec.FilteredNotEmpty shows is non-empty |
| TrapSpec.TurnIsCandidate | TrapBot.java:23-40 | on boards of at most 7 columns, the move is a candidate column, or -1 when there is none |
| TrapSpec.TurnWinsThenBlocks | TrapBot.java:23-32 | on boards of at most 7 columns: the move is the first winning column if one exists; else the first column where the opponent would win, if one exists |
| TrapBot.TrapBot.constructor | TrapBot.java:18-20 | a bot with an empty grid of the given size and no moves |
| TrapBot.TrapBot.MakeTurn | TrapBot.java:23-40 | returns `TrapSpec.Turn` and leaves `TrapSpec.TurnMoves` as the move map |
| TrapBot.TrapBot.ApplyFilters | TrapBot.java:33-38 | runs the six filters in order, leaving `TrapSpec.Filtered` |
| TrapBot.TrapBot.ScrapeToWin | TrapBot.java:48-55 | returns `TrapSpec.WinColumn`: the first winning candidate, or 7 |
| TrapBot.TrapBot.ScrapeAgainstAlmostWins | TrapBot.java:66-75 | scrapes by exactly the candidates not below a win |
| TrapBot.TrapBot.AlmostWinningColumns | TrapBot.java:67-73 | collects exactly the candidates not below a win |
| TrapBot.TrapBot.ScrapeMiddleTraps | TrapBot.java:85-99 | scrapes by exactly the middle-trap set |
| TrapBot.TrapBot.MiddleTrapColumns | TrapBot.java:86-97 | collects exactly the candidates with more than one follow-up |
| TrapBot.TrapBot.IsMiddleTrap | TrapBot.java:90-96 | decides whether a candidate has more than one follow-up |
| TrapBot.TrapBot.GetAvailableLocs | TrapBot.java:101-115 | the follow-up columns over the cell's windows for `id`, as `TrapSpec.AvailableLocs` |
| TrapBot.TrapBot.LocsOfLines | TrapBot.java:105-113 | one follow-up column per line that has one, counted per line |
| TrapBot.TrapBot.ScrapeStackTraps | TrapBot.java:127-158 | leaves `TrapSpec.StackTraps` |
| TrapBot.TrapBot.StackPasses | TrapBot.java:129-157 | the row loop leaves the composition of the row passes |
| TrapBot.TrapBot.StackRowPass | TrapBot.java:130-156 | one row: collect the pairs and scrape after every column |
| TrapBot.TrapBot.StackPairColumns | TrapBot.java:132-154 | adds exactly the columns of one stacked pair |
| TrapBot.TrapBot.AddAll | TrapBot.java:138-144 | adds every listed column |
| TrapBot.TrapBot.AddCommon | TrapBot.java:146-152 | adds exactly the columns in both lists |
| TrapBot.TrapBot.GetOddThreats | TrapBot.java:239-250 | returns `TrapSpec.OddThreats` |
| TrapBot.TrapBot.GetEvenThreats | TrapBot.java:252-263 | returns `TrapSpec.EvenThreats` |
| TrapBot.TrapBot.ScanThreats | TrapBot.java:241-248 | the row loop in steps of two returns the threat scan |
| TrapBot.TrapBot.RowThreatScan | TrapBot.java:243-247 | one row records its free winning cells |
| TrapBot.TrapBot.ScrapeThreats | TrapBot.java:172-237 | leaves `TrapSpec.Threats` as the move map |
| TrapBot.TrapBot.ScrapeOkay | TrapBot.java:199-236 | each branch with exactly one side holding threats leaves the map `TrapSpec.ThreatsWith` gives |
| TrapBot.TrapBot.ScrapeForOtherThreat | TrapBot.java:273-284 | throws exactly as `TrapSpec.ForOtherThreat` does and then leaves the map unchanged; otherwise leaves its result |
| TrapBot.TrapBot.ScrapeToMakeOddThreat | TrapBot.java:286-298 | starts from the bottom row |
| TrapBot.TrapBot.ScrapeToMakeEvenThreat | TrapBot.java:300-312 | starts one row above the bottom |
| TrapBot.TrapBot.ScrapeToMakeThreat | TrapBot.java:286-312 | scrapes by the follow-ups of every other row from the start row up |
| TrapBot.TrapBot.RowTargetColumns | TrapBot.java:289-295 | collects the follow-ups of one row's free cells |
| TrapBot.TrapBot.BestAvailableLocation | TrapBot.java:321-333 | returns `TrapSpec.Best`, the first candidate with the most windows, or -1 |
| TrapBot.TrapBot.CountWins | TrapBot.java:325-326 | the number of windows through a candidate's landing cell |
| TrapBot.TrapBot.ScrapeLocations | TrapBot.java:345-358 | the move map becomes `TrapSpec.Scrape` of the old map |
| TrapBot.TrapBot.RemoveOutside | TrapBot.java:349-357 | the removal loop leaves `TrapSpec.Scrape` |

## Left out

- Parsing text: `parse` splits a string and calls `Integer.parseInt` (BotStarter.java:76-80). Starter.BotStarter.Parse takes the tokens as a `seq<seq<int>>` already split into rows and cells. It requires the tokens to fit the grid, where the Java would throw an `ArrayIndexOutOfBoundsException`.
- The protocol loop that feeds the bot, and the abstract `makeTurn` of BotStarter (BotStarter.java:67). These are not part of this model.
- `HashMap`/`HashSet` iteration order: keys are visited in ascending column order. Ties in `scrapeToWin` and `bestAvailableLocation` are stated relative to that order.
- Lines are kept as a `seq` in insertion order, not as a `HashSet<Integer[][]>`. Java compares arrays by identity, so that set never merges two windows, and the line count of `bestAvailableLocation` is the same.
- Boxed `Integer` comparisons (TrapBot.java:148, BotStarter.java:526) are modelled as value equality. Java gives that only inside the `Integer` cache range.
- `scrapeLocations(null)` and the `IllegalArgumentException` it throws (TrapBot.java:346-348) are not modelled. Dafny sets are values, and every caller passes a set it has just built.
- The removal of keys through `keySet().iterator()` is modelled as a loop over a copy of the map, with the result assigned back; aliasing through the key-set view is not modelled.
- TrapBot.TrapBot.MakeTurn: requires `myID` to be 1 or 2. With any other id the Java throws from `positionToWin` whenever a column is open (on a full board it returns -1); that path is not modelled.
- TrapSpec.WinColumnFindsWin: proved only for boards of at most 7 columns. The sentinel 7 is kept as written and clashes with column 7 on wider boards.
- TrapSpec.TurnIsCandidate: proved only for boards of at most 7 columns, for the same reason.
- TrapSpec.TurnWinsThenBlocks: proved only for boards of at most 7 columns, for the same reason.
- Boards have at least one row: `setAvailableMoves` (BotStarter.java:96) and `getLocations` (BotStarter.java:189) read `field[0]` before any row check.
- TrapSpec.StackChoice: its own contract only bounds the result by the two sets. The three cases are stated about the board by TrapSpec.StackPairCases.
- `getOddThreats`, `getEvenThreats`, `scrapeToMakeOddThreat` and `scrapeToMakeEvenThreat` repeat each other's code with a different start row. Each pair shares one scanning method (ScanThreats, ScrapeToMakeThreat).
- The read-only loops `getFreeLocations`, `getLocations`, `numTokensInLine`, `lineBelongsTo` and `equal2DArrays` are modelled as functions, not as methods.
