/// TrapBot.java as functions of the grid and the candidate map: each filter
/// of the move pipeline says which columns survive it, and the lemmas say
/// that the pipeline only ever shrinks the map and never empties it.
module TrapSpec {
  import opened Board
  import opened Lines

  /** The other player's id. */
  function Opponent(id: int): int {
    3 - id
  }

  /** The column scrapeToWin answers when no candidate wins. */
  const NoWin := 7

  /** The elements of a list, as a set. */
  function Elems(s: seq<int>): set<int> {
    set x | x in s
  }

  /** scrapeLocations: with a non-empty set, keeps exactly the candidates in
      it, with their landing rows; with an empty set, changes nothing. */
  function Scrape(m: map<int, int>, columns: set<int>): (r: map<int, int>)
    ensures columns != {} ==> forall c :: c in r <==> c in m && c in columns
    ensures columns == {} ==> r == m
    ensures SubMap(r, m)
  {
    if |columns| > 0 then map c | c in m && c in columns :: m[c] else m
  }

  /** A set drawn from the candidates themselves: scraping by it keeps
      exactly that set when it is non-empty, and never empties a non-empty map. */
  lemma ScrapeBySubset(m: map<int, int>, columns: set<int>)
    requires columns <= m.Keys
    ensures columns != {} ==> Scrape(m, columns).Keys == columns
    ensures m != map[] ==> Scrape(m, columns) != map[]
  {
    if columns != {} {
      assert Scrape(m, columns).Keys == columns;
    }
  }

  /** Scraping twice by the same set is scraping once. */
  lemma ScrapeIdempotent(m: map<int, int>, columns: set<int>)
    ensures Scrape(Scrape(m, columns), columns) == Scrape(m, columns)
  {
  }

  /** A restricted map is still part of the landing map. */
  lemma ScrapeCandidates(g: Grid, m: map<int, int>, columns: set<int>)
    requires WellFormed(g) && Candidates(g, m)
    ensures Candidates(g, Scrape(m, columns))
  {
  }

  /** Column `c` is a candidate whose landing cell is in the position to win for `id`. */
  predicate WinsAt(g: Grid, m: map<int, int>, c: int, id: int)
    requires WellFormed(g)
  {
    c in m && ValidLocation(g, m[c], c) && Wins(g, m[c], c, id)
  }

  /** WinsAt, as the predicate the loop of scrapeToWin tests column by column. */
  function WinsAtFn(g: Grid, m: map<int, int>, id: int): int -> bool
    requires WellFormed(g)
  {
    c => WinsAt(g, m, c, id)
  }

  /** The loop of scrapeToWin over the columns from `c` up to `n`, in
      increasing order: the first one that wins, or NoWin. */
  function FirstWinFrom(wins: int -> bool, c: nat, n: nat): (w: int)
    ensures w != NoWin ==> c <= w < n && wins(w)
    ensures forall c' :: c <= c' < w && c' < n ==> !wins(c')
    decreases n - c
  {
    if c >= n then NoWin
    else if wins(c) then c
    else FirstWinFrom(wins, c + 1, n)
  }

  /** scrapeToWin: the first candidate column whose landing cell wins for `id`, or NoWin. */
  function WinColumn(g: Grid, m: map<int, int>, id: int): int
    requires WellFormed(g)
  {
    FirstWinFrom(WinsAtFn(g, m, id), 0, Cols(g))
  }

  /** On a board of at most NoWin columns the sentinel cannot be a column, so
      scrapeToWin finds a winning candidate exactly when there is one, and
      then the first. */
  lemma WinColumnFindsWin(g: Grid, m: map<int, int>, id: int)
    requires WellFormed(g) && Candidates(g, m) && Cols(g) <= NoWin
    ensures WinColumn(g, m, id) != NoWin <==> exists c :: WinsAt(g, m, c, id)
    ensures WinColumn(g, m, id) != NoWin ==>
      WinsAt(g, m, WinColumn(g, m, id), id) && forall c :: c < WinColumn(g, m, id) ==> !WinsAt(g, m, c, id)
  {
    var wins := WinsAtFn(g, m, id);
    var w := FirstWinFrom(wins, 0, Cols(g));
    assert w == WinColumn(g, m, id);
    if exists c :: WinsAt(g, m, c, id) {
      var c :| WinsAt(g, m, c, id);
      CandidateKey(g, m, c);
      assert wins(c);
    }
    if w != NoWin {
      assert wins(w);
      forall c | c < w
        ensures !WinsAt(g, m, c, id)
      {
        if c in m {
          CandidateKey(g, m, c);
          assert !wins(c);
        }
      }
    }
  }

  /** A candidate column is a column of the board. */
  lemma CandidateKey(g: Grid, m: map<int, int>, c: int)
    requires WellFormed(g) && Candidates(g, m) && c in m
    ensures 0 <= c < Cols(g) && ValidLocation(g, m[c], c)
  {
  }

  /** The columns scrapeAgainstAlmostWins keeps: the candidates whose landing
      cell is not right below a cell in the position to win for `id`. */
  function AlmostSet(g: Grid, m: map<int, int>, id: int): set<int>
    requires WellFormed(g)
  {
    set c | c in m && !BelowWin(g, m[c], c, id)
  }

  /** scrapeAgainstAlmostWins keeps exactly the candidates that do not hand
      `id` a win on the cell above, unless that would keep none; then it
      changes nothing. */
  lemma AgainstAlmostWins(g: Grid, m: map<int, int>, id: int)
    requires WellFormed(g)
    ensures var r := Scrape(m, AlmostSet(g, m, id));
      && ((exists c :: c in m && !BelowWin(g, m[c], c, id)) ==>
            forall c :: c in r <==> c in m && !BelowWin(g, m[c], c, id))
      && ((forall c :: c in m ==> BelowWin(g, m[c], c, id)) ==> r == m)
      && SubMap(r, m) && (m != map[] ==> r != map[])
  {
    var s := AlmostSet(g, m, id);
    ScrapeBySubset(m, s);
    if exists c :: c in m && !BelowWin(g, m[c], c, id) {
      var c :| c in m && !BelowWin(g, m[c], c, id);
      assert c in s;
    }
  }

  /** The columns of the single other playable cells the lines leave, one
      entry per line that leaves one (so a column may repeat). */
  function LocsOf(g: Grid, m: map<int, int>, lines: seq<Line>, r: int, c: int): (cols: seq<int>)
    requires WellFormed(g) && forall w :: w in lines ==> InBounds(g, w)
    ensures |cols| <= |lines|
    ensures forall x :: x in cols ==> x in m
    decreases |lines|
  {
    if |lines| == 0 then []
    else
      var last := lines[|lines| - 1];
      var before := lines[..|lines| - 1];
      assert lines == before + [last];
      var rest := LocsOf(g, m, before, r, c);
      match AvailableLocation(g, m, last, r, c)
      case Some(l) => rest + [l.col]
      case None => rest
  }

  /** The line leaves a single other playable cell, and it is in column `x`. */
  predicate LeavesColumn(g: Grid, m: map<int, int>, line: Line, r: int, c: int, x: int)
    requires WellFormed(g) && InBounds(g, line)
  {
    var l := AvailableLocation(g, m, line, r, c);
    l.Some? && l.value.col == x
  }

  /** The line leaves a single other playable cell. */
  predicate LeavesOne(g: Grid, m: map<int, int>, line: Line, r: int, c: int)
    requires WellFormed(g) && InBounds(g, line)
  {
    AvailableLocation(g, m, line, r, c).Some?
  }

  /** The indices of the lines that leave a single other playable cell. */
  function LinesLeaving(g: Grid, m: map<int, int>, lines: seq<Line>, r: int, c: int): set<int>
    requires WellFormed(g) && forall w :: w in lines ==> InBounds(g, w)
  {
    set k | 0 <= k < |lines| && LeavesOne(g, m, lines[k], r, c)
  }

  /** Adding a line at the end adds its column when it leaves a cell there. */
  lemma LocsOfSnocMembers(g: Grid, m: map<int, int>, lines: seq<Line>, r: int, c: int, x: int)
    requires WellFormed(g) && |lines| > 0 && forall w :: w in lines ==> InBounds(g, w)
    ensures var n := |lines| - 1;
      x in LocsOf(g, m, lines, r, c) <==>
        x in LocsOf(g, m, lines[..n], r, c) || LeavesColumn(g, m, lines[n], r, c, x)
  {
  }

  /** A column is reported exactly when some line leaves its single other
      playable cell in that column. */
  lemma {:induction false} LocsOfMembers(g: Grid, m: map<int, int>, lines: seq<Line>, r: int, c: int, x: int)
    requires WellFormed(g) && forall w :: w in lines ==> InBounds(g, w)
    ensures x in LocsOf(g, m, lines, r, c) <==>
      exists w :: w in lines && LeavesColumn(g, m, w, r, c, x)
    decreases |lines|
  {
    if |lines| > 0 {
      var last := lines[|lines| - 1];
      var before := lines[..|lines| - 1];
      assert lines == before + [last];
      LocsOfMembers(g, m, before, r, c, x);
      LocsOfSnocMembers(g, m, lines, r, c, x);
      if exists w :: w in lines && LeavesColumn(g, m, w, r, c, x) {
        var w :| w in lines && LeavesColumn(g, m, w, r, c, x);
        assert w in before || w == last;
      }
    }
  }

  /** Index `k` leaves a cell among all the lines exactly when it does among
      all but the last, or it is the last and that line leaves one. */
  lemma LinesLeavingSnocAt(g: Grid, m: map<int, int>, lines: seq<Line>, r: int, c: int, k: int)
    requires WellFormed(g) && |lines| > 0 && forall w :: w in lines ==> InBounds(g, w)
    ensures var n := |lines| - 1;
      k in LinesLeaving(g, m, lines, r, c) <==>
        k in LinesLeaving(g, m, lines[..n], r, c) || (k == n && LeavesOne(g, m, lines[n], r, c))
  {
    var n := |lines| - 1;
    if 0 <= k < n {
      assert lines[..n][k] == lines[k];
    }
  }

  /** Adding a line at the end adds its index when it leaves a cell. */
  lemma LinesLeavingSnoc(g: Grid, m: map<int, int>, lines: seq<Line>, r: int, c: int)
    requires WellFormed(g) && |lines| > 0 && forall w :: w in lines ==> InBounds(g, w)
    ensures var n := |lines| - 1;
      LinesLeaving(g, m, lines, r, c)
        == LinesLeaving(g, m, lines[..n], r, c) + (if LeavesOne(g, m, lines[n], r, c) then {n} else {})
  {
    forall k {
      LinesLeavingSnocAt(g, m, lines, r, c, k);
    }
  }

  /** Adding a line at the end adds one index when it leaves a cell. */
  lemma LinesLeavingSnocCount(g: Grid, m: map<int, int>, lines: seq<Line>, r: int, c: int)
    requires WellFormed(g) && |lines| > 0 && forall w :: w in lines ==> InBounds(g, w)
    ensures var n := |lines| - 1;
      |LinesLeaving(g, m, lines, r, c)|
        == |LinesLeaving(g, m, lines[..n], r, c)| + (if LeavesOne(g, m, lines[n], r, c) then 1 else 0)
  {
    var n := |lines| - 1;
    LinesLeavingSnoc(g, m, lines, r, c);
    LinesLeavingSnocAt(g, m, lines, r, c, n);
    assert n !in LinesLeaving(g, m, lines[..n], r, c);
  }

  /** Adding a line at the end adds one column when it leaves a cell. */
  lemma LocsOfSnoc(g: Grid, m: map<int, int>, lines: seq<Line>, r: int, c: int)
    requires WellFormed(g) && |lines| > 0 && forall w :: w in lines ==> InBounds(g, w)
    ensures var n := |lines| - 1;
      |LocsOf(g, m, lines, r, c)|
        == |LocsOf(g, m, lines[..n], r, c)| + (if LeavesOne(g, m, lines[n], r, c) then 1 else 0)
  {
  }

  /** One column is reported per line that leaves a single other playable cell. */
  lemma {:induction false} LocsOfCount(g: Grid, m: map<int, int>, lines: seq<Line>, r: int, c: int)
    requires WellFormed(g) && forall w :: w in lines ==> InBounds(g, w)
    ensures |LocsOf(g, m, lines, r, c)| == |LinesLeaving(g, m, lines, r, c)|
    decreases |lines|
  {
    if |lines| == 0 {
      assert LinesLeaving(g, m, lines, r, c) == {};
    } else {
      var n := |lines| - 1;
      var before := lines[..n];
      assert forall w :: w in before ==> w in lines;
      LocsOfCount(g, m, before, r, c);
      LinesLeavingSnocCount(g, m, lines, r, c);
      LocsOfSnoc(g, m, lines, r, c);
    }
  }

  /** getAvailableLocs: the other playable columns the player's lines through
      (r, c) leave open. */
  function AvailableLocs(g: Grid, m: map<int, int>, r: int, c: int, id: int): (cols: seq<int>)
    requires WellFormed(g) && ValidLocation(g, r, c)
  {
    LocsOf(g, m, PossibleWinsFor(g, r, c, id), r, c)
  }

  /** Every column getAvailableLocs reports is a candidate. */
  lemma AvailableLocsAreCandidates(g: Grid, m: map<int, int>, r: int, c: int, id: int)
    requires WellFormed(g) && ValidLocation(g, r, c)
    ensures Elems(AvailableLocs(g, m, r, c, id)) <= m.Keys
    ensures |AvailableLocs(g, m, r, c, id)| <= 16
  {
  }

  /** getAvailableLocs reports a column exactly when one of the player's
      lines through (r, c) leaves its single other playable cell there, and
      reports one column per such line. */
  lemma AvailableLocsMeaning(g: Grid, m: map<int, int>, r: int, c: int, id: int, x: int)
    requires WellFormed(g) && ValidLocation(g, r, c)
    ensures var lines := PossibleWinsFor(g, r, c, id);
      && (x in AvailableLocs(g, m, r, c, id) <==>
            exists w :: w in lines && LeavesColumn(g, m, w, r, c, x))
      && |AvailableLocs(g, m, r, c, id)| == |LinesLeaving(g, m, lines, r, c)|
  {
    var lines := PossibleWinsFor(g, r, c, id);
    LocsOfMembers(g, m, lines, r, c, x);
    LocsOfCount(g, m, lines, r, c);
  }

  /** The columns scrapeMiddleTraps keeps: candidates whose landing cell
      leaves more than one other playable cell across the player's lines. */
  function MiddleSet(g: Grid, m: map<int, int>, id: int): set<int>
    requires WellFormed(g)
  {
    set c | c in m && MiddleTrap(g, m, c, id)
  }

  /** The candidates below column `n` that pass the test `p`. */
  function KeysBelow(m: map<int, int>, p: int -> bool, n: int): (s: set<int>)
    ensures forall c :: c in s <==> c in m && c < n && p(c)
  {
    set c | c in m && c < n && p(c)
  }

  /** Testing column `n` extends the candidates below it that pass. */
  lemma KeysBelowStep(m: map<int, int>, p: int -> bool, n: int)
    ensures KeysBelow(m, p, n + 1) == KeysBelow(m, p, n) + (if n in m && p(n) then {n} else {})
  {
  }

  /** MiddleTrap, as the test the loop of scrapeMiddleTraps is written against. */
  function MiddleTrapFn(g: Grid, m: map<int, int>, id: int): int -> bool
    requires WellFormed(g)
  {
    c => MiddleTrap(g, m, c, id)
  }

  /** Past the last candidate column, the middle traps below it are all of them. */
  lemma MiddleSetBelowAll(g: Grid, m: map<int, int>, id: int, n: int)
    requires WellFormed(g) && forall x :: x in m ==> x < n
    ensures KeysBelow(m, MiddleTrapFn(g, m, id), n) == MiddleSet(g, m, id)
  {
    assert forall x :: x in KeysBelow(m, MiddleTrapFn(g, m, id), n) <==> x in MiddleSet(g, m, id);
  }

  /** Candidate `c`'s landing cell leaves more than one other playable cell. */
  predicate MiddleTrap(g: Grid, m: map<int, int>, c: int, id: int)
    requires WellFormed(g)
  {
    c in m && ValidLocation(g, m[c], c) && |AvailableLocs(g, m, m[c], c, id)| > 1
  }

  /** scrapeMiddleTraps keeps exactly the candidates that set up a middle
      trap for `id`, unless there are none; it never empties the map. */
  lemma MiddleTraps(g: Grid, m: map<int, int>, id: int)
    requires WellFormed(g) && Candidates(g, m)
    ensures var r := Scrape(m, MiddleSet(g, m, id));
      && ((exists c :: c in m && |AvailableLocs(g, m, m[c], c, id)| > 1) ==>
            forall c :: c in r <==> c in m && |AvailableLocs(g, m, m[c], c, id)| > 1)
      && SubMap(r, m) && (m != map[] ==> r != map[])
  {
    var s := MiddleSet(g, m, id);
    ScrapeBySubset(m, s);
    if exists c :: c in m && |AvailableLocs(g, m, m[c], c, id)| > 1 {
      var c :| c in m && |AvailableLocs(g, m, m[c], c, id)| > 1;
      assert c in s;
    }
  }

  /** What scrapeStackTraps adds for the free cells (row, c) and (top, c),
      `top` being the row above: if the lower one wins, the upper one's open
      columns; else if the upper one wins, the lower one's; otherwise the
      columns both leave open. */
  function StackPair(g: Grid, m: map<int, int>, id: int, row: int, top: int, c: int): (s: set<int>)
    requires WellFormed(g) && 0 <= row < |g| && 0 <= top < |g| && 0 <= c < Cols(g)
    ensures s <= m.Keys
  {
    AvailableLocsAreCandidates(g, m, row, c, id);
    AvailableLocsAreCandidates(g, m, top, c, id);
    StackChoice(Wins(g, row, c, id), Wins(g, top, c, id),
                Elems(AvailableLocs(g, m, row, c, id)), Elems(AvailableLocs(g, m, top, c, id)))
  }

  /** The choice scrapeStackTraps makes between the open columns `b` of the
      lower cell and `t` of the upper cell, given which of the two wins. */
  function StackChoice(bottomWins: bool, topWins: bool, b: set<int>, t: set<int>): (s: set<int>)
    ensures s <= b + t
  {
    if bottomWins then t
    else if topWins then b
    else b * t
  }

  /** The stacked pair in column `c`: a winning lower cell hands over the upper
      cell's follow-up columns, otherwise a winning upper cell hands over the
      lower cell's, and when neither wins only the columns both share remain. */
  lemma StackPairCases(g: Grid, m: map<int, int>, id: int, row: int, top: int, c: int, x: int)
    requires WellFormed(g) && 0 <= row < |g| && 0 <= top < |g| && 0 <= c < Cols(g)
    ensures Wins(g, row, c, id) ==>
      (x in StackPair(g, m, id, row, top, c) <==> x in AvailableLocs(g, m, top, c, id))
    ensures !Wins(g, row, c, id) && Wins(g, top, c, id) ==>
      (x in StackPair(g, m, id, row, top, c) <==> x in AvailableLocs(g, m, row, c, id))
    ensures !Wins(g, row, c, id) && !Wins(g, top, c, id) ==>
      (x in StackPair(g, m, id, row, top, c) <==>
         x in AvailableLocs(g, m, row, c, id) && x in AvailableLocs(g, m, top, c, id))
  {
  }

  /** The free columns of `row` still to visit in one pass of scrapeStackTraps:
      each adds its pair's columns to `acc` when the cell above it, in row
      `top`, is free too,
      and the map is scraped by `acc` after every column. */
  function StackRow(g: Grid, m: map<int, int>, id: int, row: int, top: int, cols: seq<int>, acc: set<int>): (r: map<int, int>)
    requires WellFormed(g) && 0 <= row < |g| && 0 <= top < |g| && ColumnsOf(g, cols) && acc <= m.Keys
    ensures SubMap(r, m)
    ensures m != map[] ==> r != map[]
    decreases |cols|
  {
    if |cols| == 0 then m
    else
      var c := cols[0];
      assert |g[top]| == Cols(g);
      var acc' := if g[top][c] == 0 then acc + StackPair(g, m, id, row, top, c) else acc;
      ScrapeBySubset(m, acc');
      var m' := Scrape(m, acc');
      StackRow(g, m', id, row, top, cols[1..], acc')
  }

  /** The row above `row`. */
  function Above(row: int): int {
    row - 1
  }

  /** One pass of scrapeStackTraps: row `row` of the free lists `free`,
      as the function the row loop is written against. */
  function StackPassFn(g: Grid, id: int, free: seq<seq<int>>): (map<int, int>, int) -> map<int, int>
    requires WellFormed(g) && |free| == |g|
    requires forall j :: 0 <= j < |free| ==> ColumnsOf(g, free[j])
  {
    (m: map<int, int>, row: int) => if 1 <= row < |g| then StackRow(g, m, id, row, Above(row), free[row], {}) else m
  }

  /** A pass keeps part of the map, and some of it. */
  ghost predicate Shrinks(pass: (map<int, int>, int) -> map<int, int>) {
    forall m, row :: SubMap(pass(m, row), m) && (m != map[] ==> pass(m, row) != map[])
  }

  /** Every pass of scrapeStackTraps shrinks the map without emptying it. */
  lemma StackPassShrinks(g: Grid, id: int, free: seq<seq<int>>)
    requires WellFormed(g) && |free| == |g|
    requires forall j :: 0 <= j < |free| ==> ColumnsOf(g, free[j])
    ensures Shrinks(StackPassFn(g, id, free))
  {
  }

  /** scrapeStackTraps from `row` up to row 1, one pass per row. */
  function StackRows(m: map<int, int>, pass: (map<int, int>, int) -> map<int, int>, row: int): map<int, int>
    decreases row
  {
    if row <= 0 then m
    else StackRows(pass(m, row), pass, row - 1)
  }

  /** Passes that shrink the map, run one after another, shrink it and
      leave some of it. */
  lemma {:induction false} StackRowsShrink(m: map<int, int>, pass: (map<int, int>, int) -> map<int, int>, row: int)
    requires Shrinks(pass)
    ensures SubMap(StackRows(m, pass, row), m)
    ensures m != map[] ==> StackRows(m, pass, row) != map[]
    decreases row
  {
    if row > 0 {
      var next := pass(m, row);
      assert SubMap(next, m) && (m != map[] ==> next != map[]);
      StackRowsShrink(next, pass, row - 1);
      SubMapTransitive(StackRows(next, pass, row - 1), next, m);
    }
  }

  /** One row loop step of scrapeStackTraps: the pass over `row`, then the rest. */
  lemma StackRowsStep(g: Grid, id: int, free: seq<seq<int>>, m: map<int, int>, row: int)
    requires WellFormed(g) && |free| == |g| && 1 <= row < |g|
    requires forall j :: 0 <= j < |free| ==> ColumnsOf(g, free[j])
    ensures StackRows(m, StackPassFn(g, id, free), row)
         == StackRows(StackRow(g, m, id, row, Above(row), free[row], {}), StackPassFn(g, id, free), row - 1)
  {
  }

  /** scrapeStackTraps: the passes from the bottom row up, over the free
      columns of every row. */
  function StackTraps(g: Grid, m: map<int, int>, id: int): (r: map<int, int>)
    requires WellFormed(g)
    ensures SubMap(r, m)
    ensures m != map[] ==> r != map[]
  {
    var free := FreeLocations(g);
    var pass := StackPassFn(g, id, free);
    StackPassShrinks(g, id, free);
    StackRowsShrink(m, pass, |free| - 1);
    StackRows(m, pass, |free| - 1)
  }

  /** The columns the free cells `cols` of `row` leave open, gathered before
      scrapeToMakeOddThreat or scrapeToMakeEvenThreat scrapes that row. */
  function RowTargets(g: Grid, m: map<int, int>, id: int, row: int, cols: seq<int>): (s: set<int>)
    requires WellFormed(g) && 0 <= row < |g| && ColumnsOf(g, cols)
    ensures s <= m.Keys
    decreases |cols|
  {
    if |cols| == 0 then {}
    else
      AvailableLocsAreCandidates(g, m, row, cols[0], id);
      Elems(AvailableLocs(g, m, row, cols[0], id)) + RowTargets(g, m, id, row, cols[1..])
  }

  /** Some free cell leaves `x` open exactly when the first does or one of
      the rest does. */
  lemma FollowUpShift(g: Grid, m: map<int, int>, id: int, row: int, cols: seq<int>, x: int)
    requires WellFormed(g) && 0 <= row < |g| && ColumnsOf(g, cols) && |cols| > 0
    ensures (exists i :: 0 <= i < |cols| && x in AvailableLocs(g, m, row, cols[i], id)) <==>
      x in AvailableLocs(g, m, row, cols[0], id) ||
      exists i :: 0 <= i < |cols| - 1 && x in AvailableLocs(g, m, row, cols[1..][i], id)
  {
    if exists i :: 0 <= i < |cols| && x in AvailableLocs(g, m, row, cols[i], id) {
      var i :| 0 <= i < |cols| && x in AvailableLocs(g, m, row, cols[i], id);
      if i > 0 {
        assert cols[1..][i - 1] == cols[i];
      }
    }
    if exists i :: 0 <= i < |cols| - 1 && x in AvailableLocs(g, m, row, cols[1..][i], id) {
      var i :| 0 <= i < |cols| - 1 && x in AvailableLocs(g, m, row, cols[1..][i], id);
      assert cols[i + 1] == cols[1..][i];
    }
  }

  /** A column is gathered exactly when the lines through one of the row's
      free cells leave it open. */
  lemma {:induction false} RowTargetsUnion(g: Grid, m: map<int, int>, id: int, row: int, cols: seq<int>, x: int)
    requires WellFormed(g) && 0 <= row < |g| && ColumnsOf(g, cols)
    ensures x in RowTargets(g, m, id, row, cols) <==>
      exists i :: 0 <= i < |cols| && x in AvailableLocs(g, m, row, cols[i], id)
    decreases |cols|
  {
    if |cols| > 0 {
      RowTargetsUnion(g, m, id, row, cols[1..], x);
      FollowUpShift(g, m, id, row, cols, x);
    }
  }

  /** The open columns of the cells from the `i`-th on: the `i`-th cell's, then the rest. */
  lemma RowTargetsStep(g: Grid, m: map<int, int>, id: int, row: int, cols: seq<int>, i: int)
    requires WellFormed(g) && 0 <= row < |g| && ColumnsOf(g, cols) && 0 <= i < |cols|
    ensures RowTargets(g, m, id, row, cols[i..])
         == Elems(AvailableLocs(g, m, row, cols[i], id)) + RowTargets(g, m, id, row, cols[i + 1..])
  {
    assert cols[i..][1..] == cols[i + 1..];
  }

  /** scrapeToMakeOddThreat / scrapeToMakeEvenThreat from `row` upward in
      steps of two rows, scraping once per row. */
  function MakeThreat(g: Grid, m: map<int, int>, id: int, row: int): (r: map<int, int>)
    requires WellFormed(g) && row < |g|
    ensures SubMap(r, m)
    ensures m != map[] ==> r != map[]
    decreases row + 2
  {
    if row < 0 then m
    else
      var targets := RowTargets(g, m, id, row, FreeLocations(g)[row]);
      ScrapeBySubset(m, targets);
      MakeThreat(g, Scrape(m, targets), id, row - 2)
  }

  /** scrapeToMakeOddThreat starts from the bottom row. */
  function MakeOdd(g: Grid, m: map<int, int>, id: int): map<int, int>
    requires WellFormed(g)
  {
    MakeThreat(g, m, id, |g| - 1)
  }

  /** scrapeToMakeEvenThreat starts one row above the bottom. */
  function MakeEven(g: Grid, m: map<int, int>, id: int): map<int, int>
    requires WellFormed(g)
  {
    MakeThreat(g, m, id, |g| - 2)
  }

  /** Whether the cell (r, c) is on the board and in the position to win for
      `id`, as a function the threat scans below are written against. */
  function WinsFn(g: Grid, id: int): (win: (int, int) -> bool)
    requires WellFormed(g)
  {
    (r: int, c: int) => ValidLocation(g, r, c) && Wins(g, r, c, id)
  }

  /** One row of getOddThreats / getEvenThreats: every free column whose cell
      in `row` wins is recorded with that row. */
  function RowThreats(win: (int, int) -> bool, row: int, cols: seq<int>, acc: map<int, int>): (r: map<int, int>)
    ensures forall c :: c in r <==> c in acc || (c in cols && win(row, c))
    ensures forall c :: c in r ==> r[c] == if c in cols && win(row, c) then row else acc[c]
    decreases |cols|
  {
    if |cols| == 0 then acc
    else
      var c := cols[0];
      assert forall x :: x in cols <==> x == c || x in cols[1..];
      RowThreats(win, row, cols[1..], if win(row, c) then acc[c := row] else acc)
  }

  /** The rows from `row` on, in steps of two. */
  function ThreatsFrom(g: Grid, win: (int, int) -> bool, row: nat, acc: map<int, int>): map<int, int>
    requires WellFormed(g)
    decreases |g| - row
  {
    if row >= |g| then acc
    else ThreatsFrom(g, win, row + 2, RowThreats(win, row, FreeLocations(g)[row], acc))
  }

  /** getOddThreats: the odd rows. */
  function OddThreats(g: Grid, id: int): map<int, int>
    requires WellFormed(g)
  {
    ThreatsFrom(g, WinsFn(g, id), 1, map[])
  }

  /** getEvenThreats: the even rows. */
  function EvenThreats(g: Grid, id: int): map<int, int>
    requires WellFormed(g)
  {
    ThreatsFrom(g, WinsFn(g, id), 0, map[])
  }

  /** A free cell in a row of the given parity that wins. */
  predicate ThreatCell(g: Grid, win: (int, int) -> bool, parity: nat, r: int, c: int)
    requires WellFormed(g)
  {
    0 <= r < |g| && r % 2 == parity && 0 <= c < Cols(g) && g[r][c] == 0 && win(r, c)
  }

  /** The threat map of a parity: its columns are those holding a threat
      cell of that parity, each mapped to the lowest such cell (the largest row). */
  ghost predicate ThreatMapOf(g: Grid, win: (int, int) -> bool, parity: nat, t: map<int, int>)
    requires WellFormed(g)
  {
    && (forall c :: c in t ==> ThreatCell(g, win, parity, t[c], c))
    && (forall r, c :: ThreatCell(g, win, parity, r, c) ==> c in t && r <= t[c])
  }

  /** The invariant of the scan: `acc` holds the threat cells of the rows
      before `row`, each column at its largest such row. */
  ghost predicate ThreatsBefore(g: Grid, win: (int, int) -> bool, parity: nat, row: int, acc: map<int, int>)
    requires WellFormed(g)
  {
    && (forall c :: c in acc ==> ThreatCell(g, win, parity, acc[c], c) && acc[c] < row)
    && (forall r, c :: r < row && ThreatCell(g, win, parity, r, c) ==> c in acc && r <= acc[c])
  }

  /** Scanning one more row of the parity keeps the invariant. */
  lemma RowThreatsStep(g: Grid, win: (int, int) -> bool, parity: nat, row: nat, acc: map<int, int>)
    requires WellFormed(g) && parity < 2 && row % 2 == parity && row < |g|
    requires ThreatsBefore(g, win, parity, row, acc)
    ensures ThreatsBefore(g, win, parity, row + 2, RowThreats(win, row, FreeLocations(g)[row], acc))
  {
    var free := FreeLocations(g)[row];
    var acc' := RowThreats(win, row, free, acc);
    forall r, c | r < row + 2 && ThreatCell(g, win, parity, r, c)
      ensures c in acc' && r <= acc'[c]
    {
      if r == row {
        assert c in free;
      }
    }
  }

  /** Nothing is scanned before the first row of the parity. */
  lemma ThreatsStart(g: Grid, win: (int, int) -> bool, parity: nat)
    requires WellFormed(g) && parity < 2
    ensures ThreatsBefore(g, win, parity, parity, map[])
  {
  }

  /** One row of the scan: the map after it keeps the invariant two rows on. */
  lemma ThreatsFromStep(g: Grid, win: (int, int) -> bool, parity: nat, row: nat, acc: map<int, int>)
    returns (next: map<int, int>)
    requires WellFormed(g) && parity < 2 && row % 2 == parity && row < |g|
    requires ThreatsBefore(g, win, parity, row, acc)
    ensures ThreatsFrom(g, win, row, acc) == ThreatsFrom(g, win, row + 2, next)
    ensures ThreatsBefore(g, win, parity, row + 2, next)
  {
    next := RowThreats(win, row, FreeLocations(g)[row], acc);
    RowThreatsStep(g, win, parity, row, acc);
  }

  /** Once every row has been scanned, the invariant is the threat map itself. */
  lemma ThreatsDone(g: Grid, win: (int, int) -> bool, parity: nat, row: nat, acc: map<int, int>)
    requires WellFormed(g) && row >= |g|
    requires ThreatsBefore(g, win, parity, row, acc)
    ensures ThreatMapOf(g, win, parity, ThreatsFrom(g, win, row, acc))
  {
    assert ThreatsFrom(g, win, row, acc) == acc;
  }

  /** The scan from `row` on, started from a map that keeps the invariant,
      ends with the threat map of the parity. */
  lemma {:induction false} ThreatsFromShape(g: Grid, win: (int, int) -> bool, parity: nat, row: nat, acc: map<int, int>)
    requires WellFormed(g) && parity < 2 && row % 2 == parity
    requires ThreatsBefore(g, win, parity, row, acc)
    ensures ThreatMapOf(g, win, parity, ThreatsFrom(g, win, row, acc))
    decreases |g| - row
  {
    if row < |g| {
      var next := ThreatsFromStep(g, win, parity, row, acc);
      ThreatsFromShape(g, win, parity, row + 2, next);
    } else {
      ThreatsDone(g, win, parity, row, acc);
    }
  }

  /** getOddThreats holds exactly the columns with a free odd-row cell in the
      position to win for `id`, each at the largest such row. */
  lemma OddThreatsShape(g: Grid, id: int)
    requires WellFormed(g)
    ensures ThreatMapOf(g, WinsFn(g, id), 1, OddThreats(g, id))
  {
    ThreatsStart(g, WinsFn(g, id), 1);
    ThreatsFromShape(g, WinsFn(g, id), 1, 1, map[]);
  }

  /** getEvenThreats holds exactly the columns with a free even-row cell in
      the position to win for `id`, each at the largest such row. */
  lemma EvenThreatsShape(g: Grid, id: int)
    requires WellFormed(g)
    ensures ThreatMapOf(g, WinsFn(g, id), 0, EvenThreats(g, id))
  {
    ThreatsStart(g, WinsFn(g, id), 0);
    ThreatsFromShape(g, WinsFn(g, id), 0, 0, map[]);
  }

  /** scrapeForOtherThreat: with exactly one of the two threat maps
      non-empty, works toward the other kind of threat; otherwise throws. */
  function ForOtherThreat(g: Grid, m: map<int, int>, odd: map<int, int>, even: map<int, int>, id: int): (r: Outcome<map<int, int>>)
    requires WellFormed(g)
    ensures r == IllegalArgument <==> (odd == map[] && even == map[]) || (odd != map[] && even != map[])
    ensures r.Ok? ==> SubMap(r.value, m) && (m != map[] ==> r.value != map[])
  {
    if (odd == map[] && even == map[]) || (odd != map[] && even != map[]) then IllegalArgument
    else if odd == map[] then Ok(MakeEven(g, m, id))
    else Ok(MakeOdd(g, m, id))
  }

  /** scrapeThreats, with the four threat maps as parameters. */
  function ThreatsWith(g: Grid, m: map<int, int>, myID: int, oppID: int,
                       myOdd: map<int, int>, myEven: map<int, int>, oppOdd: map<int, int>, oppEven: map<int, int>): (r: Outcome<map<int, int>>)
    requires WellFormed(g)
  {
    var noneAtAll := myOdd == map[] && myEven == map[] && oppOdd == map[] && oppEven == map[];
    var scrapeOkay := !noneAtAll && !(myOdd != map[] && myEven != map[]) && !(oppOdd != map[] && oppEven != map[]);
    if noneAtAll then
      if myID == 1 then Ok(MakeEven(g, MakeOdd(g, MakeEven(g, MakeOdd(g, m, myID), myID), oppID), oppID))
      else Ok(MakeEven(g, MakeOdd(g, MakeEven(g, MakeOdd(g, m, oppID), oppID), myID), myID))
    else if !scrapeOkay then Ok(m)
    else if oppOdd == map[] && oppEven == map[] then ForOtherThreat(g, m, myOdd, myEven, myID)
    else if myOdd == map[] && myEven == map[] then ForOtherThreat(g, m, oppOdd, oppEven, oppID)
    else if myID == 1 then
      if oppOdd != map[] then
        if myEven == map[] then Ok(MakeEven(g, m, myID)) else Ok(Scrape(m, AlmostSet(g, m, myID)))
      else if oppEven != map[] then
        if myOdd == map[] then Ok(MakeOdd(g, m, myID)) else Ok(Scrape(m, AlmostSet(g, m, myID)))
      else Ok(m)
    else if myID == 2 then
      if oppOdd != map[] then
        if myOdd == map[] then Ok(MakeOdd(g, m, myID)) else Ok(Scrape(m, AlmostSet(g, m, myID)))
      else if oppEven != map[] then
        if myEven == map[] then Ok(MakeEven(g, m, myID)) else Ok(Scrape(m, AlmostSet(g, m, oppID)))
      else Ok(m)
    else Ok(m)
  }

  /** scrapeThreats only hands scrapeForOtherThreat a pair of threat maps
      exactly one of which is empty, so its exception cannot be reached;
      and the map it leaves is part of the old one and not empty. */
  lemma ThreatsNeverThrow(g: Grid, m: map<int, int>, myID: int, oppID: int,
                          myOdd: map<int, int>, myEven: map<int, int>, oppOdd: map<int, int>, oppEven: map<int, int>)
    requires WellFormed(g)
    ensures ThreatsWith(g, m, myID, oppID, myOdd, myEven, oppOdd, oppEven).Ok?
  {
  }

  /** The map scrapeThreats leaves is part of the old one, and not empty if
      the old one was not. */
  lemma ThreatsShrink(g: Grid, m: map<int, int>, myID: int, oppID: int,
                      myOdd: map<int, int>, myEven: map<int, int>, oppOdd: map<int, int>, oppEven: map<int, int>)
    requires WellFormed(g)
    requires ThreatsWith(g, m, myID, oppID, myOdd, myEven, oppOdd, oppEven).Ok?
    ensures var r := ThreatsWith(g, m, myID, oppID, myOdd, myEven, oppOdd, oppEven).value;
      SubMap(r, m) && (m != map[] ==> r != map[])
  {
    var r := ThreatsWith(g, m, myID, oppID, myOdd, myEven, oppOdd, oppEven).value;
    if myOdd == map[] && myEven == map[] && oppOdd == map[] && oppEven == map[] {
      var first, second := if myID == 1 then myID else oppID, if myID == 1 then oppID else myID;
      var m1 := MakeOdd(g, m, first);
      var m2 := MakeEven(g, m1, first);
      var m3 := MakeOdd(g, m2, second);
      assert r == MakeEven(g, m3, second);
      SubMapTransitive(r, m3, m2);
      SubMapTransitive(r, m2, m1);
      SubMapTransitive(r, m1, m);
    } else {
      AlmostShrinks(g, m, myID);
      AlmostShrinks(g, m, oppID);
    }
  }

  /** Part of a part of `m` is part of `m`. */
  lemma SubMapTransitive(a: map<int, int>, b: map<int, int>, c: map<int, int>)
    requires SubMap(a, b) && SubMap(b, c)
    ensures SubMap(a, c)
  {
  }

  /** Scraping by the almost-win set keeps part of the map, and some of it. */
  lemma AlmostShrinks(g: Grid, m: map<int, int>, id: int)
    requires WellFormed(g)
    ensures SubMap(Scrape(m, AlmostSet(g, m, id)), m)
    ensures m != map[] ==> Scrape(m, AlmostSet(g, m, id)) != map[]
  {
    ScrapeBySubset(m, AlmostSet(g, m, id));
  }

  /** scrapeThreats(oppID) on the grid's own threat maps. */
  function Threats(g: Grid, m: map<int, int>, myID: int, oppID: int): (r: map<int, int>)
    requires WellFormed(g)
    ensures SubMap(r, m) && (m != map[] ==> r != map[])
  {
    var myOdd, myEven := OddThreats(g, myID), EvenThreats(g, myID);
    var oppOdd, oppEven := OddThreats(g, oppID), EvenThreats(g, oppID);
    ThreatsNeverThrow(g, m, myID, oppID, myOdd, myEven, oppOdd, oppEven);
    ThreatsShrink(g, m, myID, oppID, myOdd, myEven, oppOdd, oppEven);
    ThreatsWith(g, m, myID, oppID, myOdd, myEven, oppOdd, oppEven).value
  }

  /** How many lines of four pass through a candidate's landing cell; -1 for
      a column that is not a candidate. */
  function Score(g: Grid, m: map<int, int>, c: int): int
    requires WellFormed(g)
  {
    if c in m && ValidLocation(g, m[c], c) then |PossibleWins(g, m[c], c)| else -1
  }

  /** The loop of bestAvailableLocation over the columns from `c` up to `n`,
      with the best count and column so far; only a strictly larger count
      replaces them. */
  function BestFrom(m: map<int, int>, score: int -> int, c: int, n: int, maxWins: int, maxColumn: int): int
    decreases n - c
  {
    if c >= n then maxColumn
    else if c in m && score(c) > maxWins then BestFrom(m, score, c + 1, n, score(c), c)
    else BestFrom(m, score, c + 1, n, maxWins, maxColumn)
  }

  /** One column of the loop of bestAvailableLocation. */
  lemma BestFromStep(m: map<int, int>, score: int -> int, c: int, n: int, maxWins: int, maxColumn: int)
    requires c < n
    ensures BestFrom(m, score, c, n, maxWins, maxColumn) ==
      if c in m && score(c) > maxWins then BestFrom(m, score, c + 1, n, score(c), c)
      else BestFrom(m, score, c + 1, n, maxWins, maxColumn)
  {
  }

  /** The loop keeps the best column so far unless a later candidate scores
      strictly more; the one it ends on scores at least as much as every
      candidate it visited, and strictly more than those before it. */
  lemma {:induction false} BestFromArgmax(m: map<int, int>, score: int -> int, c: int, n: int, maxWins: int, maxColumn: int)
    requires maxColumn < c
    ensures var best := BestFrom(m, score, c, n, maxWins, maxColumn);
      && (best == maxColumn || (c <= best < n && best in m && score(best) > maxWins))
      && (best == maxColumn ==> forall c' :: c <= c' < n && c' in m ==> score(c') <= maxWins)
      && (best != maxColumn ==>
           && (forall c' :: c <= c' < n && c' in m ==> score(c') <= score(best))
           && (forall c' :: c <= c' < best && c' in m ==> score(c') < score(best)))
    decreases n - c
  {
    if c < n {
      if c in m && score(c) > maxWins {
        BestFromArgmax(m, score, c + 1, n, score(c), c);
      } else {
        BestFromArgmax(m, score, c + 1, n, maxWins, maxColumn);
      }
    }
  }

  /** bestAvailableLocation: the candidate with the most lines of four
      through its landing cell, the first such in column order; -1 when
      there is no candidate. */
  function Best(g: Grid, m: map<int, int>): int
    requires WellFormed(g)
  {
    BestFrom(m, ScoreFn(g, m), 0, Cols(g), -1, -1)
  }

  /** Score, as the function the loop of bestAvailableLocation is written against. */
  function ScoreFn(g: Grid, m: map<int, int>): int -> int
    requires WellFormed(g)
  {
    c => Score(g, m, c)
  }

  /** bestAvailableLocation picks a candidate of maximal count, the earliest
      on ties, and answers -1 exactly when there is no candidate. */
  lemma BestIsFirstArgmax(g: Grid, m: map<int, int>)
    requires WellFormed(g) && Candidates(g, m)
    ensures m == map[] ==> Best(g, m) == -1
    ensures m != map[] ==>
      && Best(g, m) in m
      && (forall c :: c in m ==> Score(g, m, c) <= Score(g, m, Best(g, m)))
      && (forall c :: c in m && c < Best(g, m) ==> Score(g, m, c) < Score(g, m, Best(g, m)))
  {
    var score := ScoreFn(g, m);
    var best := Best(g, m);
    BestFromArgmax(m, score, 0, Cols(g), -1, -1);
    if m != map[] {
      var c :| c in m;
      CandidateKey(g, m, c);
      assert score(c) >= 0;
      assert best != -1;
      forall c' | c' in m
        ensures score(c') <= score(best) && (c' < best ==> score(c') < score(best))
      {
        CandidateKey(g, m, c');
      }
    }
  }

  /** The filters makeTurn applies when neither player can win at once. */
  function Filtered(g: Grid, m: map<int, int>, myID: int): (r: map<int, int>)
    requires WellFormed(g)
    ensures SubMap(r, m)
  {
    var oppID := Opponent(myID);
    var m1 := Scrape(m, AlmostSet(g, m, oppID));
    var m2 := Threats(g, m1, myID, oppID);
    var m3 := Scrape(m2, MiddleSet(g, m2, myID));
    var m4 := Scrape(m3, MiddleSet(g, m3, oppID));
    var m5 := StackTraps(g, m4, myID);
    StackTraps(g, m5, oppID)
  }

  /** The filters never empty a non-empty candidate map. */
  lemma FilteredNotEmpty(g: Grid, m: map<int, int>, myID: int)
    requires WellFormed(g) && Candidates(g, m) && m != map[]
    ensures Filtered(g, m, myID) != map[]
    ensures Candidates(g, Filtered(g, m, myID))
  {
    var oppID := Opponent(myID);
    AgainstAlmostWins(g, m, oppID);
    var m1 := Scrape(m, AlmostSet(g, m, oppID));
    var m2 := Threats(g, m1, myID, oppID);
    MiddleTraps(g, m2, myID);
    var m3 := Scrape(m2, MiddleSet(g, m2, myID));
    MiddleTraps(g, m3, oppID);
  }

  /** makeTurn: win, else block, else the best column among the filtered candidates. */
  function Turn(g: Grid, m: map<int, int>, myID: int): int
    requires WellFormed(g)
  {
    var mine := WinColumn(g, m, myID);
    var theirs := WinColumn(g, m, Opponent(myID));
    if mine != NoWin then mine
    else if theirs != NoWin then theirs
    else Best(g, Filtered(g, m, myID))
  }

  /** The candidate map makeTurn leaves behind. */
  function TurnMoves(g: Grid, m: map<int, int>, myID: int): map<int, int>
    requires WellFormed(g)
  {
    if WinColumn(g, m, myID) != NoWin || WinColumn(g, m, Opponent(myID)) != NoWin then m
    else Filtered(g, m, myID)
  }

  /** On a board of at most seven columns, makeTurn plays a candidate column
      whenever there is one, and -1 only on a full board. */
  lemma TurnIsCandidate(g: Grid, m: map<int, int>, myID: int)
    requires WellFormed(g) && Candidates(g, m) && Cols(g) <= NoWin
    ensures m != map[] ==> Turn(g, m, myID) in m
    ensures m == map[] ==> Turn(g, m, myID) == -1
  {
    WinColumnFindsWin(g, m, myID);
    WinColumnFindsWin(g, m, Opponent(myID));
    if m != map[] {
      FilteredNotEmpty(g, m, myID);
      BestIsFirstArgmax(g, Filtered(g, m, myID));
    } else {
      BestIsFirstArgmax(g, Filtered(g, m, myID));
    }
  }

  /** On a board of at most seven columns, makeTurn takes its own first
      winning column if it has one, and otherwise blocks the opponent's
      first winning column if the opponent has one. */
  lemma TurnWinsThenBlocks(g: Grid, m: map<int, int>, myID: int)
    requires WellFormed(g) && Candidates(g, m) && Cols(g) <= NoWin
    ensures (exists c :: WinsAt(g, m, c, myID)) ==>
      WinsAt(g, m, Turn(g, m, myID), myID) && forall c :: c < Turn(g, m, myID) ==> !WinsAt(g, m, c, myID)
    ensures (forall c :: !WinsAt(g, m, c, myID)) && (exists c :: WinsAt(g, m, c, Opponent(myID))) ==>
      WinsAt(g, m, Turn(g, m, myID), Opponent(myID)) && forall c :: c < Turn(g, m, myID) ==> !WinsAt(g, m, c, Opponent(myID))
  {
    WinColumnFindsWin(g, m, myID);
    WinColumnFindsWin(g, m, Opponent(myID));
  }
}
