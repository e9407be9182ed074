/// Lines of four through a cell, as BotStarter.java enumerates them, and the
/// questions the bot asks about them (who owns a line, how many discs it holds,
/// whether a cell completes three of four, which single gap a line leaves open).
module Lines {
  import opened Board

  /** The cell `t` steps from (r, c) in direction (dr, dc). */
  function StepLoc(r: int, c: int, dr: int, dc: int, t: int): Loc {
    Loc(c + dc * t, r + dr * t)
  }

  /** Cells `t1` and `t2` of the ray from (r, c) lie on the board and do not
      hold discs of two different owners. */
  predicate Agree(g: Grid, r: int, c: int, dr: int, dc: int, t1: int, t2: int)
    requires WellFormed(g)
  {
    var a, b := StepLoc(r, c, dr, dc, t1), StepLoc(r, c, dr, dc, t2);
    ValidLoc(g, a) && ValidLoc(g, b) && (Owner(g, a) == 0 || Owner(g, b) == 0 || Owner(g, a) == Owner(g, b))
  }

  /** The first `s + 1` cells of the ray (the origin included) lie on the board
      and hold discs of at most one owner. */
  predicate OneOwnerRun(g: Grid, r: int, c: int, dr: int, dc: int, s: int)
    requires WellFormed(g)
  {
    forall t1, t2 :: 0 <= t1 <= s && 0 <= t2 <= s ==> Agree(g, r, c, dr, dc, t1, t2)
  }

  /** How many steps findMaxDistance walks from (r, c): the longest run of at
      most three steps that stays on the board and meets discs of one owner only. */
  function Reach(g: Grid, r: int, c: int, dr: int, dc: int): (s: nat)
    requires WellFormed(g) && ValidLocation(g, r, c)
    ensures s <= 3 && OneOwnerRun(g, r, c, dr, dc, s)
    ensures s < 3 ==> !OneOwnerRun(g, r, c, dr, dc, s + 1)
  {
    assert Agree(g, r, c, dr, dc, 0, 0);
    if OneOwnerRun(g, r, c, dr, dc, 3) then 3
    else if OneOwnerRun(g, r, c, dr, dc, 2) then 2
    else if OneOwnerRun(g, r, c, dr, dc, 1) then 1
    else 0
  }

  /** matchingLocation: the cell lies on the board and is empty or holds `id`. */
  predicate Matching(g: Grid, l: Loc, id: int)
    requires WellFormed(g)
  {
    ValidLoc(g, l) && (Owner(g, l) == id || Owner(g, l) == 0)
  }

  /** Cells that all match one id form a run of one owner. */
  lemma RunOfMatches(g: Grid, r: int, c: int, dr: int, dc: int, id: int, n: int)
    requires WellFormed(g) && n >= 1
    requires forall t :: 0 <= t < n ==> Matching(g, StepLoc(r, c, dr, dc, t), id)
    ensures OneOwnerRun(g, r, c, dr, dc, n - 1)
  {
    forall t1, t2 | 0 <= t1 <= n - 1 && 0 <= t2 <= n - 1
      ensures Agree(g, r, c, dr, dc, t1, t2)
    {
      assert Matching(g, StepLoc(r, c, dr, dc, t1), id);
      assert Matching(g, StepLoc(r, c, dr, dc, t2), id);
    }
  }

  /** From a cell that holds a disc, every cell the walk of findMaxDistance
      covers is a matching location for that disc's owner. */
  lemma ReachMatchesOrigin(g: Grid, r: int, c: int, dr: int, dc: int, t: int)
    requires WellFormed(g) && ValidLocation(g, r, c) && g[r][c] != 0
    requires 0 <= t <= Reach(g, r, c, dr, dc)
    ensures Matching(g, StepLoc(r, c, dr, dc, t), g[r][c])
  {
    assert Agree(g, r, c, dr, dc, 0, t);
    assert StepLoc(r, c, dr, dc, 0) == Loc(c, r);
  }

  /** A run cannot be extended over a cell off the board, nor over a disc
      whose owner differs from a disc already in the run. */
  lemma RunBlocked(g: Grid, r: int, c: int, dr: int, dc: int, s: int, w: int)
    requires WellFormed(g) && 0 <= w <= s
    requires || !ValidLoc(g, StepLoc(r, c, dr, dc, s + 1))
             || (&& ValidLoc(g, StepLoc(r, c, dr, dc, w)) && ValidLoc(g, StepLoc(r, c, dr, dc, s + 1))
                 && Owner(g, StepLoc(r, c, dr, dc, w)) != 0 && Owner(g, StepLoc(r, c, dr, dc, s + 1)) != 0
                 && Owner(g, StepLoc(r, c, dr, dc, w)) != Owner(g, StepLoc(r, c, dr, dc, s + 1)))
    ensures !OneOwnerRun(g, r, c, dr, dc, s + 1)
  {
    assert !Agree(g, r, c, dr, dc, w, s + 1);
  }

  /** A run that cannot be extended by one step has exactly the length of `Reach`. */
  lemma ReachUnique(g: Grid, r: int, c: int, dr: int, dc: int, s: int)
    requires WellFormed(g) && ValidLocation(g, r, c) && 0 <= s <= 3
    requires OneOwnerRun(g, r, c, dr, dc, s)
    requires s < 3 ==> !OneOwnerRun(g, r, c, dr, dc, s + 1)
    ensures Reach(g, r, c, dr, dc) == s
  {
  }

  /** The cell findMaxDistance returns for direction (dr, dc). */
  function End(g: Grid, r: int, c: int, dr: int, dc: int): Loc
    requires WellFormed(g) && ValidLocation(g, r, c)
  {
    StepLoc(r, c, dr, dc, Reach(g, r, c, dr, dc))
  }

  /** The four directions along which lines are built: horizontal, vertical,
      the diagonal down to the right and the diagonal up to the right. */
  predicate IsAxis(dr: int, dc: int) {
    (dr == 0 && dc == 1) || (dr == 1 && dc == 0) || (dr == 1 && dc == 1) || (dr == -1 && dc == 1)
  }

  /** The `i`-th line of four from `start` in direction (dr, dc), as addPossibleWins builds it. */
  function Window(start: Loc, dr: int, dc: int, i: int): Line {
    [Loc(start.col + dc * i, start.row + dr * i),
     Loc(start.col + dc * (i + 1), start.row + dr * (i + 1)),
     Loc(start.col + dc * (i + 2), start.row + dr * (i + 2)),
     Loc(start.col + dc * (i + 3), start.row + dr * (i + 3))]
  }

  /** The first `n` lines of four from `start`, in the order they are added. */
  function Windows(start: Loc, dr: int, dc: int, n: nat): (ws: seq<Line>)
    ensures |ws| == n && forall i :: 0 <= i < n ==> ws[i] == Window(start, dr, dc, i)
  {
    if n == 0 then [] else Windows(start, dr, dc, n - 1) + [Window(start, dr, dc, n - 1)]
  }

  /** Consecutive cells of the line differ by one step of (dr, dc). */
  predicate Along(w: Line, dr: int, dc: int)
    requires |w| == 4
  {
    && w[1] == Loc(w[0].col + dc, w[0].row + dr)
    && w[2] == Loc(w[1].col + dc, w[1].row + dr)
    && w[3] == Loc(w[2].col + dc, w[2].row + dr)
  }

  /** A line of four cells on the board, contiguous along one of the four
      axes, and passing through (r, c). */
  predicate WindowThrough(g: Grid, w: Line, r: int, c: int)
    requires WellFormed(g)
  {
    && |w| == 4
    && InBounds(g, w)
    && Loc(c, r) in w
    && (Along(w, 0, 1) || Along(w, 1, 0) || Along(w, 1, 1) || Along(w, -1, 1))
  }

  /** The lines one axis contributes: every window of four inside the span
      from the backward end to the forward end. */
  function AxisWins(g: Grid, r: int, c: int, dr: int, dc: int): seq<Line>
    requires WellFormed(g) && ValidLocation(g, r, c)
  {
    var back := Reach(g, r, c, -dr, -dc);
    var fwd := Reach(g, r, c, dr, dc);
    if back + fwd >= 3 then Windows(End(g, r, c, -dr, -dc), dr, dc, back + fwd - 2) else []
  }

  /** A cell between the two ends of an axis lies on the board. */
  lemma SpanValid(g: Grid, r: int, c: int, dr: int, dc: int, t: int)
    requires WellFormed(g) && ValidLocation(g, r, c) && IsAxis(dr, dc)
    requires 0 <= t + Reach(g, r, c, -dr, -dc) && t <= Reach(g, r, c, dr, dc)
    ensures ValidLoc(g, StepLoc(r, c, dr, dc, t))
  {
    if t >= 0 {
      assert Agree(g, r, c, dr, dc, t, t);
    } else {
      assert Agree(g, r, c, -dr, -dc, -t, -t);
      assert StepLoc(r, c, -dr, -dc, -t) == StepLoc(r, c, dr, dc, t);
    }
  }

  /** The window at index `i` from the backward end, written as steps from (r, c). */
  lemma WindowCells(r: int, c: int, dr: int, dc: int, back: int, i: int)
    requires IsAxis(dr, dc)
    ensures var w := Window(StepLoc(r, c, -dr, -dc, back), dr, dc, i);
      && w[0] == StepLoc(r, c, dr, dc, i - back)
      && w[1] == StepLoc(r, c, dr, dc, i + 1 - back)
      && w[2] == StepLoc(r, c, dr, dc, i + 2 - back)
      && w[3] == StepLoc(r, c, dr, dc, i + 3 - back)
      && Along(w, dr, dc)
  {
  }

  /** One window inside a span of cells that lie on the board is a line of
      four through (r, c). */
  lemma WindowInSpan(g: Grid, r: int, c: int, dr: int, dc: int, back: nat, fwd: nat, i: int)
    requires WellFormed(g) && IsAxis(dr, dc) && back <= 3 && fwd <= 3
    requires 0 <= i && i + 3 <= back + fwd
    requires forall t: int :: 0 <= t + back && t <= fwd ==> ValidLoc(g, StepLoc(r, c, dr, dc, t))
    ensures WindowThrough(g, Window(StepLoc(r, c, -dr, -dc, back), dr, dc, i), r, c)
    ensures Along(Window(StepLoc(r, c, -dr, -dc, back), dr, dc, i), dr, dc)
  {
    var w := Window(StepLoc(r, c, -dr, -dc, back), dr, dc, i);
    WindowCells(r, c, dr, dc, back, i);
    assert StepLoc(r, c, dr, dc, 0) == Loc(c, r);
    assert w[back - i] == Loc(c, r);
  }

  /** Every line of one axis is a line of four through (r, c) on the board,
      and an axis contributes at most four lines. */
  lemma AxisWinsShape(g: Grid, r: int, c: int, dr: int, dc: int)
    requires WellFormed(g) && ValidLocation(g, r, c) && IsAxis(dr, dc)
    ensures |AxisWins(g, r, c, dr, dc)| <= 4
    ensures forall w :: w in AxisWins(g, r, c, dr, dc) ==> WindowThrough(g, w, r, c) && Along(w, dr, dc)
  {
    var back := Reach(g, r, c, -dr, -dc);
    var fwd := Reach(g, r, c, dr, dc);
    if back + fwd >= 3 {
      var start := End(g, r, c, -dr, -dc);
      var ws := Windows(start, dr, dc, back + fwd - 2);
      forall t: int | 0 <= t + back && t <= fwd
        ensures ValidLoc(g, StepLoc(r, c, dr, dc, t))
      {
        SpanValid(g, r, c, dr, dc, t);
      }
      forall w | w in ws
        ensures WindowThrough(g, w, r, c) && Along(w, dr, dc)
      {
        var i :| 0 <= i < |ws| && ws[i] == w;
        WindowInSpan(g, r, c, dr, dc, back, fwd, i);
      }
    }
  }

  /** getPossibleWins(row, col): the lines of four along the four axes. Every
      one lies on the board, is contiguous along an axis and passes through
      (r, c); each axis adds at most four, so there are at most sixteen. */
  function PossibleWins(g: Grid, r: int, c: int): (ws: seq<Line>)
    requires WellFormed(g) && ValidLocation(g, r, c)
    ensures |ws| <= 16
    ensures forall w :: w in ws ==> WindowThrough(g, w, r, c)
  {
    AxisWinsShape(g, r, c, 0, 1);
    AxisWinsShape(g, r, c, 1, 0);
    AxisWinsShape(g, r, c, 1, 1);
    AxisWinsShape(g, r, c, -1, 1);
    AxisWins(g, r, c, 0, 1) + AxisWins(g, r, c, 1, 0) + AxisWins(g, r, c, 1, 1) + AxisWins(g, r, c, -1, 1)
  }

  /** Every line through (r, c) lies on the board. */
  lemma PossibleWinsInBounds(g: Grid, r: int, c: int)
    requires WellFormed(g) && ValidLocation(g, r, c)
    ensures forall w :: w in PossibleWins(g, r, c) ==> InBounds(g, w)
  {
  }

  /** The four cells `t` to `t + 3` steps from (r, c) in direction (dr, dc). */
  function Run4(r: int, c: int, dr: int, dc: int, t: int): Line {
    [StepLoc(r, c, dr, dc, t), StepLoc(r, c, dr, dc, t + 1),
     StepLoc(r, c, dr, dc, t + 2), StepLoc(r, c, dr, dc, t + 3)]
  }

  /** The run of four starting `t` steps from (r, c) lies between the far end
      `Reach(g, r, c, -dr, -dc)` steps back and the far end
      `Reach(g, r, c, dr, dc)` steps on. */
  predicate InSpan(g: Grid, r: int, c: int, dr: int, dc: int, t: int)
    requires WellFormed(g) && ValidLocation(g, r, c)
  {
    0 <= t + Reach(g, r, c, -dr, -dc) && t + 3 <= Reach(g, r, c, dr, dc)
  }

  /** The window at index `i` from the cell `back` steps behind (r, c) is the
      run of four starting `i - back` steps from (r, c). */
  lemma WindowIsRun(r: int, c: int, dr: int, dc: int, back: int, i: int)
    requires IsAxis(dr, dc)
    ensures Window(StepLoc(r, c, -dr, -dc, back), dr, dc, i) == Run4(r, c, dr, dc, i - back)
  {
    WindowCells(r, c, dr, dc, back, i);
  }

  /** The first `n` windows from the cell `back` steps behind (r, c) are the
      runs of four starting between `back` steps behind and `n - back - 1`
      steps on; the one at index `i` starts `i - back` steps from (r, c). */
  lemma WindowsExactly(r: int, c: int, dr: int, dc: int, back: int, n: nat, t: int)
    requires IsAxis(dr, dc)
    ensures Run4(r, c, dr, dc, t) in Windows(StepLoc(r, c, -dr, -dc, back), dr, dc, n) <==> 0 <= t + back < n
  {
    var ws := Windows(StepLoc(r, c, -dr, -dc, back), dr, dc, n);
    if 0 <= t + back < n {
      WindowIsRun(r, c, dr, dc, back, t + back);
      assert ws[t + back] == Run4(r, c, dr, dc, t);
    }
    if Run4(r, c, dr, dc, t) in ws {
      var i :| 0 <= i < n && ws[i] == Run4(r, c, dr, dc, t);
      WindowIsRun(r, c, dr, dc, back, i);
      assert Run4(r, c, dr, dc, i - back)[0] == Run4(r, c, dr, dc, t)[0];
    }
  }

  /** Every window among the first `n` from the cell `back` steps behind
      (r, c) is the run of four starting some `t` steps from (r, c), with
      `t + back` its index. */
  lemma WindowsAreRuns(r: int, c: int, dr: int, dc: int, back: int, n: nat, w: Line) returns (t: int)
    requires IsAxis(dr, dc) && w in Windows(StepLoc(r, c, -dr, -dc, back), dr, dc, n)
    ensures w == Run4(r, c, dr, dc, t) && 0 <= t + back < n
  {
    var ws := Windows(StepLoc(r, c, -dr, -dc, back), dr, dc, n);
    var i :| 0 <= i < n && ws[i] == w;
    WindowIsRun(r, c, dr, dc, back, i);
    t := i - back;
  }

  /** The lines of a span `back` steps behind and `fwd` steps on are exactly
      the runs of four inside it. */
  lemma SpanWindows(r: int, c: int, dr: int, dc: int, back: nat, fwd: nat, t: int)
    requires IsAxis(dr, dc)
    ensures Run4(r, c, dr, dc, t) in
              (if back + fwd >= 3 then Windows(StepLoc(r, c, -dr, -dc, back), dr, dc, back + fwd - 2) else [])
            <==> 0 <= t + back && t + 3 <= fwd
  {
    if back + fwd >= 3 {
      WindowsExactly(r, c, dr, dc, back, back + fwd - 2, t);
    }
  }

  /** An axis contributes exactly the runs of four cells between its two far
      ends: the run starting `t` steps from (r, c) is among its lines if and
      only if it lies in the span. */
  lemma AxisWinsExactly(g: Grid, r: int, c: int, dr: int, dc: int, t: int)
    requires WellFormed(g) && ValidLocation(g, r, c) && IsAxis(dr, dc)
    ensures Run4(r, c, dr, dc, t) in AxisWins(g, r, c, dr, dc) <==> InSpan(g, r, c, dr, dc, t)
  {
    var back := Reach(g, r, c, -dr, -dc);
    var fwd := Reach(g, r, c, dr, dc);
    assert End(g, r, c, -dr, -dc) == StepLoc(r, c, -dr, -dc, back);
    SpanWindows(r, c, dr, dc, back, fwd, t);
  }

  /** Every line of one axis is the run of four starting some `t` steps from
      (r, c), inside the span. */
  lemma AxisWinIsRun(g: Grid, r: int, c: int, dr: int, dc: int, w: Line) returns (t: int)
    requires WellFormed(g) && ValidLocation(g, r, c) && IsAxis(dr, dc)
    requires w in AxisWins(g, r, c, dr, dc)
    ensures w == Run4(r, c, dr, dc, t) && InSpan(g, r, c, dr, dc, t)
  {
    var back := Reach(g, r, c, -dr, -dc);
    var fwd := Reach(g, r, c, dr, dc);
    assert End(g, r, c, -dr, -dc) == StepLoc(r, c, -dr, -dc, back);
    t := WindowsAreRuns(r, c, dr, dc, back, back + fwd - 2, w);
  }

  /** getPossibleWins(row, col) is complete and sound: a line is returned if
      and only if it is a run of four cells along one of the four axes that
      lies between the two far ends findMaxDistance finds on that axis. */
  lemma PossibleWinsExactly(g: Grid, r: int, c: int, w: Line)
    requires WellFormed(g) && ValidLocation(g, r, c)
    ensures w in PossibleWins(g, r, c) <==>
      exists dr, dc, t :: IsAxis(dr, dc) && InSpan(g, r, c, dr, dc, t) && w == Run4(r, c, dr, dc, t)
  {
    if w in PossibleWins(g, r, c) {
      var d :=
        if w in AxisWins(g, r, c, 0, 1) then (0, 1)
        else if w in AxisWins(g, r, c, 1, 0) then (1, 0)
        else if w in AxisWins(g, r, c, 1, 1) then (1, 1)
        else (-1, 1);
      var t := AxisWinIsRun(g, r, c, d.0, d.1, w);
      assert IsAxis(d.0, d.1) && InSpan(g, r, c, d.0, d.1, t) && w == Run4(r, c, d.0, d.1, t);
    }
    if exists dr, dc, t :: IsAxis(dr, dc) && InSpan(g, r, c, dr, dc, t) && w == Run4(r, c, dr, dc, t) {
      var dr, dc, t :| IsAxis(dr, dc) && InSpan(g, r, c, dr, dc, t) && w == Run4(r, c, dr, dc, t);
      AxisWinsExactly(g, r, c, dr, dc, t);
      assert w in AxisWins(g, r, c, dr, dc);
    }
  }

  /** No line occurs twice in the sequence. */
  predicate NoRepeats(ws: seq<Line>) {
    forall i, j :: 0 <= i < j < |ws| ==> ws[i] != ws[j]
  }

  /** One axis never adds the same line twice: its windows start at
      different cells. */
  lemma AxisWinsNoRepeats(g: Grid, r: int, c: int, dr: int, dc: int)
    requires WellFormed(g) && ValidLocation(g, r, c) && IsAxis(dr, dc)
    ensures NoRepeats(AxisWins(g, r, c, dr, dc))
  {
    var ws := AxisWins(g, r, c, dr, dc);
    forall i, j | 0 <= i < j < |ws|
      ensures ws[i] != ws[j]
    {
      assert ws[i][0] != ws[j][0];
    }
  }

  /** Two sequences without repeats and without a common line concatenate to
      a sequence without repeats. */
  lemma ConcatNoRepeats(a: seq<Line>, b: seq<Line>)
    requires NoRepeats(a) && NoRepeats(b)
    requires forall w :: w in a ==> w !in b
    ensures NoRepeats(a + b)
  {
    var ab := a + b;
    forall i, j | 0 <= i < j < |ab|
      ensures ab[i] != ab[j]
    {
      if j < |a| {
        assert ab[i] == a[i] && ab[j] == a[j];
      } else if i >= |a| {
        assert ab[i] == b[i - |a|] && ab[j] == b[j - |a|];
      } else {
        assert ab[i] in a && ab[j] in b;
      }
    }
  }

  /** getPossibleWins(row, col) never holds the same line twice, so its
      `HashSet` and this sequence hold the same number of lines. */
  lemma PossibleWinsNoRepeats(g: Grid, r: int, c: int)
    requires WellFormed(g) && ValidLocation(g, r, c)
    ensures NoRepeats(PossibleWins(g, r, c))
  {
    var h, v := AxisWins(g, r, c, 0, 1), AxisWins(g, r, c, 1, 0);
    var d, e := AxisWins(g, r, c, 1, 1), AxisWins(g, r, c, -1, 1);
    AxisWinsShape(g, r, c, 0, 1);
    AxisWinsShape(g, r, c, 1, 0);
    AxisWinsShape(g, r, c, 1, 1);
    AxisWinsShape(g, r, c, -1, 1);
    AxisWinsNoRepeats(g, r, c, 0, 1);
    AxisWinsNoRepeats(g, r, c, 1, 0);
    AxisWinsNoRepeats(g, r, c, 1, 1);
    AxisWinsNoRepeats(g, r, c, -1, 1);
    ConcatNoRepeats(h, v);
    ConcatNoRepeats(h + v, d);
    ConcatNoRepeats(h + v + d, e);
  }

  /** lineBelongsTo: no cell of the line holds a disc other than `id`'s. */
  function LineBelongsTo(g: Grid, line: Line, id: int): (b: bool)
    requires WellFormed(g) && InBounds(g, line)
    ensures b <==> forall k :: 0 <= k < |line| ==> Owner(g, line[k]) == id || Owner(g, line[k]) == 0
  {
    if |line| == 0 then true
    else
      (Owner(g, line[0]) == id || Owner(g, line[0]) == 0)
      && LineBelongsTo(g, line[1..], id)
  }

  /** The lines of `ws` that belong to `id`, in their original order. */
  function FilterBelongs(g: Grid, ws: seq<Line>, id: int): (kept: seq<Line>)
    requires WellFormed(g) && forall w :: w in ws ==> InBounds(g, w)
    ensures forall w :: w in kept <==> w in ws && LineBelongsTo(g, w, id)
    ensures |kept| <= |ws|
    decreases |ws|
  {
    if |ws| == 0 then []
    else
      var last := ws[|ws| - 1];
      var before := ws[..|ws| - 1];
      assert ws == before + [last];
      FilterBelongs(g, before, id) + (if LineBelongsTo(g, last, id) then [last] else [])
  }

  /** getPossibleWins(row, col, id) on a valid location and player: the lines
      through (r, c) that hold no disc of the other player. */
  function PossibleWinsFor(g: Grid, r: int, c: int, id: int): (ws: seq<Line>)
    requires WellFormed(g) && ValidLocation(g, r, c)
    ensures forall w :: w in ws <==> w in PossibleWins(g, r, c) && LineBelongsTo(g, w, id)
    ensures forall w :: w in ws ==> |w| == 4 && InBounds(g, w)
    ensures |ws| <= 16
  {
    FilterBelongs(g, PossibleWins(g, r, c), id)
  }

  /** Every line getPossibleWins(row, col, id) returns is a line of four
      through (r, c) on the board, and none of its cells holds a disc other
      than `id`'s. */
  lemma PossibleWinsForShape(g: Grid, r: int, c: int, id: int)
    requires WellFormed(g) && ValidLocation(g, r, c)
    ensures forall w :: w in PossibleWinsFor(g, r, c, id) ==>
      && WindowThrough(g, w, r, c)
      && forall k :: 0 <= k < 4 ==> Owner(g, w[k]) == id || Owner(g, w[k]) == 0
  {
  }

  /** numTokensInLine: how many cells of the line hold `id` (0 counts empty cells). */
  function NumTokens(g: Grid, line: Line, id: int): (n: nat)
    requires WellFormed(g) && InBounds(g, line)
    ensures n <= |line|
  {
    if |line| == 0 then 0
    else Hit(Owner(g, line[0]) == id) + NumTokens(g, line[1..], id)
  }

  function Hit(b: bool): nat { if b then 1 else 0 }

  /** On a line of four the count is the sum of the four cell tests. */
  lemma NumTokensOfFour(g: Grid, w: Line, id: int)
    requires WellFormed(g) && InBounds(g, w) && |w| == 4
    ensures NumTokens(g, w, id) == Hit(Owner(g, w[0]) == id) + Hit(Owner(g, w[1]) == id)
                                 + Hit(Owner(g, w[2]) == id) + Hit(Owner(g, w[3]) == id)
  {
    var w1, w2, w3 := w[1..], w[2..], w[3..];
    assert w1[0] == w[1] && w1[1..] == w2;
    assert w2[0] == w[2] && w2[1..] == w3;
    assert w3[0] == w[3] && |w3[1..]| == 0;
    assert NumTokens(g, w3, id) == Hit(Owner(g, w[3]) == id);
    assert NumTokens(g, w2, id) == Hit(Owner(g, w[2]) == id) + NumTokens(g, w3, id);
    assert NumTokens(g, w1, id) == Hit(Owner(g, w[1]) == id) + NumTokens(g, w2, id);
  }

  /** The owners of the line's cells, in order. */
  function Owners(g: Grid, line: Line): (o: seq<int>)
    requires WellFormed(g) && InBounds(g, line)
    ensures |o| == |line| && forall k :: 0 <= k < |line| ==> o[k] == Owner(g, line[k])
  {
    if |line| == 0 then [] else [Owner(g, line[0])] + Owners(g, line[1..])
  }

  /** The count is the number of cells of the line that hold `id`. */
  lemma {:induction false} NumTokensCounts(g: Grid, line: Line, id: int)
    requires WellFormed(g) && InBounds(g, line)
    ensures NumTokens(g, line, id) == multiset(Owners(g, line))[id]
  {
    if |line| > 0 {
      NumTokensCounts(g, line[1..], id);
      assert Owners(g, line) == [Owner(g, line[0])] + Owners(g, line[1..]);
    }
  }

  /** Three cells of the line hold `id` and the remaining one is empty. */
  predicate ThreeAndGap(g: Grid, w: Line, id: int)
    requires WellFormed(g) && InBounds(g, w) && |w| == 4
  {
    exists k :: 0 <= k < 4 && Owner(g, w[k]) == 0 &&
      forall k' :: 0 <= k' < 4 && k' != k ==> Owner(g, w[k']) == id
  }

  /** On a line that belongs to a player, holding three of that player's discs
      means the fourth cell is the only empty one. */
  lemma ThreeOfFour(g: Grid, w: Line, id: int)
    requires WellFormed(g) && InBounds(g, w) && |w| == 4 && IsPlayer(id)
    requires LineBelongsTo(g, w, id)
    ensures NumTokens(g, w, id) == 3 <==> ThreeAndGap(g, w, id)
  {
    NumTokensOfFour(g, w, id);
    var o := [Owner(g, w[0]), Owner(g, w[1]), Owner(g, w[2]), Owner(g, w[3])];
    assert forall k :: 0 <= k < 4 ==> o[k] == Owner(g, w[k]) && (o[k] == id || o[k] == 0);
    if NumTokens(g, w, id) == 3 {
      var k := if o[0] != id then 0 else if o[1] != id then 1 else if o[2] != id then 2 else 3;
      assert forall k' :: 0 <= k' < 4 && k' != k ==> o[k'] == id;
      assert Owner(g, w[k]) == 0;
    }
    if ThreeAndGap(g, w, id) {
      var k :| 0 <= k < 4 && Owner(g, w[k]) == 0 &&
        forall k' :: 0 <= k' < 4 && k' != k ==> Owner(g, w[k']) == id;
      assert o[k] == 0 && forall k' :: 0 <= k' < 4 && k' != k ==> o[k'] == id;
    }
  }

  /** positionToWin on a valid location and player: some line through (r, c)
      that belongs to `id` already holds three of `id`'s discs. */
  predicate Wins(g: Grid, r: int, c: int, id: int)
    requires WellFormed(g) && ValidLocation(g, r, c)
  {
    var ws := PossibleWinsFor(g, r, c, id);
    exists w :: w in ws && NumTokens(g, w, id) == 3
  }

  /** A cell is in the position to win exactly when a line of four through it,
      free of the other player's discs, has three of `id`'s discs and one gap. */
  lemma WinsMeansThreeAndGap(g: Grid, r: int, c: int, id: int)
    requires WellFormed(g) && ValidLocation(g, r, c) && IsPlayer(id)
    ensures Wins(g, r, c, id) <==>
      exists w :: w in PossibleWinsFor(g, r, c, id) && |w| == 4 && InBounds(g, w) && ThreeAndGap(g, w, id)
  {
    var ws := PossibleWinsFor(g, r, c, id);
    if Wins(g, r, c, id) {
      var w :| w in ws && NumTokens(g, w, id) == 3;
      ThreeOfFour(g, w, id);
    }
    if exists w :: w in ws && |w| == 4 && InBounds(g, w) && ThreeAndGap(g, w, id) {
      var w :| w in ws && |w| == 4 && InBounds(g, w) && ThreeAndGap(g, w, id);
      ThreeOfFour(g, w, id);
    }
  }

  /** belowAPositionToWin on a player: the cell above is on the board and in
      the position to win. */
  predicate BelowWin(g: Grid, r: int, c: int, id: int)
    requires WellFormed(g)
  {
    ValidLocation(g, r - 1, c) && Wins(g, r - 1, c, id)
  }

  /** When (r, c) is empty and in the position to win, the gap of the
      completing line is (r, c) itself: its other three cells hold `id`. */
  lemma WinGapIsTheCell(g: Grid, r: int, c: int, id: int)
    requires WellFormed(g) && ValidLocation(g, r, c) && IsPlayer(id)
    requires g[r][c] == 0 && Wins(g, r, c, id)
    ensures exists w ::
              && w in PossibleWinsFor(g, r, c, id) && |w| == 4 && InBounds(g, w) && ThreeAndGap(g, w, id)
              && forall k :: 0 <= k < 4 && Owner(g, w[k]) == 0 ==> w[k] == Loc(c, r)
  {
    var w :| w in PossibleWinsFor(g, r, c, id) && NumTokens(g, w, id) == 3;
    ThreeOfFour(g, w, id);
    PossibleWinsForShape(g, r, c, id);
    var j :| 0 <= j < 4 && w[j] == Loc(c, r);
    var gap :| 0 <= gap < 4 && Owner(g, w[gap]) == 0 &&
      forall k' :: 0 <= k' < 4 && k' != gap ==> Owner(g, w[k']) == id;
    assert Owner(g, w[j]) == 0;
    assert j == gap;
  }

  /** Some line through (r, c) that belongs to `id` holds three of its discs
      and one gap. */
  predicate CompletesLine(g: Grid, r: int, c: int, id: int)
    requires WellFormed(g) && ValidLocation(g, r, c)
  {
    exists w :: w in PossibleWinsFor(g, r, c, id) && |w| == 4 && InBounds(g, w) && ThreeAndGap(g, w, id)
  }

  /** belowAPositionToWin in terms of lines: a cell whose upper neighbour is
      (above, c) lies below a win exactly when (above, c) is on the board and
      completes a line of four for `id`, three of whose cells hold `id`'s
      discs and one of which is empty. */
  lemma BelowWinMeans(g: Grid, above: int, c: int, id: int)
    requires WellFormed(g) && IsPlayer(id)
    ensures BelowWin(g, above + 1, c, id) <==> ValidLocation(g, above, c) && CompletesLine(g, above, c, id)
  {
    assert above + 1 - 1 == above;
    if ValidLocation(g, above, c) {
      WinsMeansThreeAndGap(g, above, c, id);
    }
  }

  /** The cell is the current landing cell of its column in the candidate map. */
  predicate IsLanding(m: map<int, int>, l: Loc) {
    l.col in m && m[l.col] == l.row
  }

  /** Cell `k` of the line is not (r, c) and is a landing cell. */
  predicate OtherLanding(m: map<int, int>, line: Line, r: int, c: int, k: int)
    requires 0 <= k < |line|
  {
    line[k] != Loc(c, r) && IsLanding(m, line[k])
  }

  /** Cell `k` of the line is not (r, c), is empty, and is not a landing cell. */
  predicate OtherGap(g: Grid, m: map<int, int>, line: Line, r: int, c: int, k: int)
    requires WellFormed(g) && InBounds(g, line) && 0 <= k < |line|
  {
    line[k] != Loc(c, r) && !IsLanding(m, line[k]) && Owner(g, line[k]) == 0
  }

  /** The indices below `n` of the other landing cells, in increasing order. */
  function LandingIndices(m: map<int, int>, line: Line, r: int, c: int, n: nat): (ix: seq<int>)
    requires n <= |line|
    ensures forall k :: k in ix <==> 0 <= k < n && OtherLanding(m, line, r, c, k)
    ensures forall a :: 0 <= a < |ix| ==> 0 <= ix[a] < n
    ensures forall a, b :: 0 <= a < b < |ix| ==> ix[a] < ix[b]
    decreases n
  {
    if n == 0 then []
    else
      var before := LandingIndices(m, line, r, c, n - 1);
      assert forall a :: 0 <= a < |before| ==> before[a] in before;
      before + (if OtherLanding(m, line, r, c, n - 1) then [n - 1] else [])
  }

  /** findAvailableLocation: the line's single other playable cell. It is
      returned when no other cell of the line is an empty cell outside the
      candidate map and exactly one other cell is a landing cell in it. */
  function AvailableLocation(g: Grid, m: map<int, int>, line: Line, r: int, c: int): (res: Option<Loc>)
    requires WellFormed(g) && InBounds(g, line)
    ensures res.Some? <==>
      && (forall k :: 0 <= k < |line| ==> !OtherGap(g, m, line, r, c, k))
      && (exists k :: 0 <= k < |line| && OtherLanding(m, line, r, c, k) &&
            forall k' :: 0 <= k' < |line| && OtherLanding(m, line, r, c, k') ==> k' == k)
    ensures res.Some? ==>
      exists k :: 0 <= k < |line| && OtherLanding(m, line, r, c, k) && res.value == line[k]
  {
    var ix := LandingIndices(m, line, r, c, |line|);
    if exists k :: 0 <= k < |line| && OtherGap(g, m, line, r, c, k) then None
    else if |ix| == 1 then
      assert ix[0] in ix;
      Some(line[ix[0]])
    else
      assert |ix| > 1 ==> ix[0] in ix && ix[1] in ix;
      None
  }

  /** An other empty cell outside the candidate map rules the line out. */
  lemma AvailableLocationGap(g: Grid, m: map<int, int>, line: Line, r: int, c: int, k: int)
    requires WellFormed(g) && InBounds(g, line) && 0 <= k < |line| && OtherGap(g, m, line, r, c, k)
    ensures AvailableLocation(g, m, line, r, c) == None
  {
  }

  /** Without such a cell, the line's answer is its only other landing cell, if any. */
  lemma AvailableLocationScan(g: Grid, m: map<int, int>, line: Line, r: int, c: int)
    requires WellFormed(g) && InBounds(g, line)
    requires forall k :: 0 <= k < |line| ==> !OtherGap(g, m, line, r, c, k)
    ensures var ix := LandingIndices(m, line, r, c, |line|);
      AvailableLocation(g, m, line, r, c) == if |ix| == 1 then Some(line[ix[0]]) else None
  {
  }
}
