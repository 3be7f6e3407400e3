/**
 * selectionne_sommet: the vertices the solver is started from, in order
 * (slitherlink.py:714-742). The loop over the clue levels 3, 2, 1, 0 keeps
 * rebinding its loop variable before every cell, so what the cells are
 * compared with is worked out here as the source computes it.
 */
module Selection {
  import opened Wrappers
  import opened Lattice
  import opened Store
  import opened Evaluator
  import opened Loop
  import opened Solver
  import Helpers

  /** Every row of the grid has the width of the first one. */
  predicate Rectangular(clues: Clues)
  {
    forall i :: 0 <= i < |clues| ==> |clues[i]| == |clues[0]|
  }

  /**
   * What the variable `indice` of selectionne_sommet holds: the level of the
   * outer loop, None, or a string.
   */
  datatype Probe = Level(n: int) | NoneProbe | Text(s: string)

  /** The levels the outer loop counts through are single digits. */
  predicate ProbeOk(p: Probe)
  {
    p.Level? ==> 0 <= p.n <= 9
  }

  /**
   * The rebinding done before each cell: `None` when `indice == 0`, else
   * `str(indice)`. A string is never equal to 0 and str(None) is "None", so
   * after level 0 has met its first cell the probe is the string "None".
   */
  function Rebind(p: Probe): (r: Probe)
    requires ProbeOk(p)
    ensures !r.Level?
  {
    match p
    case Level(n) => if n == 0 then NoneProbe else Text([Helpers.DigitChar(n)])
    case NoneProbe => Text("None")
    case Text(s) => Text(s)
  }

  /**
   * `indices[i][j] == indice`: a clue is the one-character string of its
   * digit (or None), so it equals only the same string (or None).
   */
  predicate Matches(clue: Option<int>, p: Probe)
  {
    match clue
    case None => p == NoneProbe
    case Some(c) => 0 <= c <= 9 && p == Text([Helpers.DigitChar(c)])
  }

  // ---------------------------------------------------------------------
  // The scan as the source performs it.

  /** Scanning the cells (i, 0) .. (i, j - 1) from probe p: the vertices tried, and the probe after. */
  function RowScan(clues: Clues, i: nat, j: nat, p: Probe): (r: (seq<Point>, Probe))
    requires i < |clues| && j <= |clues[i]| && ProbeOk(p)
    ensures ProbeOk(r.1)
  {
    if j == 0 then ([], p)
    else
      var before := RowScan(clues, i, j - 1, p);
      var q := Rebind(before.1);
      (before.0 + (if Matches(clues[i][j - 1], q) then Corners(i, j - 1) else []), q)
  }

  /** Scanning the rows 0 .. i - 1 from probe p. */
  function GridScan(clues: Clues, i: nat, p: Probe): (r: (seq<Point>, Probe))
    requires i <= |clues| && ProbeOk(p)
    ensures ProbeOk(r.1)
  {
    if i == 0 then ([], p)
    else
      var above := GridScan(clues, i - 1, p);
      var row := RowScan(clues, i - 1, |clues[i - 1]|, above.1);
      (above.0 + row.0, row.1)
  }

  /** The vertices one pass of the outer loop tries, in order. */
  function LevelSeeds(clues: Clues, level: int): seq<Point>
    requires 0 <= level <= 3
  {
    GridScan(clues, |clues|, Level(level)).0
  }

  /** The vertices tried by the passes for the levels 3 down to level + 1. */
  function SeedsAbove(clues: Clues, level: int): seq<Point>
    requires -1 <= level <= 3
    decreases 3 - level
  {
    if level == 3 then [] else SeedsAbove(clues, level + 1) + LevelSeeds(clues, level + 1)
  }

  /** Every vertex selectionne_sommet starts the solver from, in order, when none succeeds. */
  function Seeds(clues: Clues): seq<Point>
  {
    SeedsAbove(clues, -1)
  }

  // ---------------------------------------------------------------------
  // The order the documentation promises.

  /** The corners of the cells (i, 0) .. (i, j - 1) whose clue is c, cell by cell. */
  function RowCorners(clues: Clues, i: nat, j: nat, c: Option<int>): seq<Point>
    requires i < |clues| && j <= |clues[i]|
  {
    if j == 0 then []
    else RowCorners(clues, i, j - 1, c) + (if clues[i][j - 1] == c then Corners(i, j - 1) else [])
  }

  /** The corners of the cells of rows 0 .. i - 1 whose clue is c, row by row. */
  function GridCorners(clues: Clues, i: nat, c: Option<int>): seq<Point>
    requires i <= |clues|
  {
    if i == 0 then []
    else GridCorners(clues, i - 1, c) + RowCorners(clues, i - 1, |clues[i - 1]|, c)
  }

  /** The corners of the top-left cell when it has no clue. */
  function FirstBlank(clues: Clues): seq<Point>
  {
    if |clues| > 0 && |clues[0]| > 0 && clues[0][0] == None then Corners(0, 0) else []
  }

  lemma DigitMatches(level: int)
    requires 0 <= level <= 9
    ensures forall x :: Matches(x, Text([Helpers.DigitChar(level)])) <==> x == Some(level)
  {
    forall x | Matches(x, Text([Helpers.DigitChar(level)]))
      ensures x == Some(level)
    {
      assert [Helpers.DigitChar(x.value)] == [Helpers.DigitChar(level)];
    }
  }

  /**
   * Once the rebinding has reached a fixed point that matches exactly the
   * clue c, a row scan tries the corners of the cells clued c.
   */
  lemma {:induction false} RowScanSteady(clues: Clues, i: nat, j: nat, p: Probe, c: Option<int>)
    requires i < |clues| && j <= |clues[i]| && ProbeOk(p) && Rebind(Rebind(p)) == Rebind(p)
    requires forall x :: Matches(x, Rebind(p)) <==> x == c
    ensures RowScan(clues, i, j, p).0 == RowCorners(clues, i, j, c)
    ensures RowScan(clues, i, j, p).1 == p || RowScan(clues, i, j, p).1 == Rebind(p)
  {
    if j > 0 {
      RowScanSteady(clues, i, j - 1, p, c);
    }
  }

  lemma {:induction false} GridScanSteady(clues: Clues, i: nat, p: Probe, c: Option<int>)
    requires i <= |clues| && ProbeOk(p) && Rebind(Rebind(p)) == Rebind(p)
    requires forall x :: Matches(x, Rebind(p)) <==> x == c
    ensures GridScan(clues, i, p).0 == GridCorners(clues, i, c)
    ensures GridScan(clues, i, p).1 == p || GridScan(clues, i, p).1 == Rebind(p)
  {
    if i > 0 {
      GridScanSteady(clues, i - 1, p, c);
      var q := GridScan(clues, i - 1, p).1;
      RowScanSteady(clues, i - 1, |clues[i - 1]|, q, c);
    }
  }

  /** The passes for 3, 2 and 1 try the corners of the cells with that clue, cell by cell. */
  lemma CluedLevel(clues: Clues, level: int)
    requires 1 <= level <= 3
    ensures LevelSeeds(clues, level) == GridCorners(clues, |clues|, Some(level))
  {
    DigitMatches(level);
    GridScanSteady(clues, |clues|, Level(level), Some(level));
  }

  /** From None or "None", a row scan matches nothing and ends on None or "None". */
  lemma {:induction false} RowScanSilent(clues: Clues, i: nat, j: nat, p: Probe)
    requires i < |clues| && j <= |clues[i]| && (p == NoneProbe || p == Text("None"))
    ensures RowScan(clues, i, j, p).0 == []
    ensures RowScan(clues, i, j, p).1 == NoneProbe || RowScan(clues, i, j, p).1 == Text("None")
  {
    if j > 0 {
      RowScanSilent(clues, i, j - 1, p);
      assert !Matches(clues[i][j - 1], Text("None"));
    }
  }

  /** The first row of the pass for 0: only the top-left cell can match, and only when it has no clue. */
  lemma {:induction false} FirstRowZero(clues: Clues, j: nat)
    requires 0 < |clues| && 0 < j <= |clues[0]|
    ensures RowScan(clues, 0, j, Level(0)).0 == FirstBlank(clues)
    ensures RowScan(clues, 0, j, Level(0)).1 == NoneProbe || RowScan(clues, 0, j, Level(0)).1 == Text("None")
  {
    if j > 1 {
      FirstRowZero(clues, j - 1);
      assert !Matches(clues[0][j - 1], Text("None"));
    }
  }

  lemma {:induction false} GridScanZero(clues: Clues, i: nat)
    requires Rectangular(clues) && 0 < i <= |clues| && 0 < |clues[0]|
    ensures GridScan(clues, i, Level(0)).0 == FirstBlank(clues)
    ensures GridScan(clues, i, Level(0)).1 == NoneProbe || GridScan(clues, i, Level(0)).1 == Text("None")
  {
    if i == 1 {
      FirstRowZero(clues, |clues[0]|);
    } else {
      GridScanZero(clues, i - 1);
      RowScanSilent(clues, i - 1, |clues[i - 1]|, GridScan(clues, i - 1, Level(0)).1);
    }
  }

  /** A grid without cells is scanned without a single rebinding. */
  lemma {:induction false} GridScanEmptyRows(clues: Clues, i: nat, p: Probe)
    requires Rectangular(clues) && i <= |clues| && ProbeOk(p) && (|clues| == 0 || |clues[0]| == 0)
    ensures GridScan(clues, i, p) == ([], p)
  {
    if i > 0 {
      GridScanEmptyRows(clues, i - 1, p);
      assert |clues[i - 1]| == 0;
      assert RowScan(clues, i - 1, 0, p) == ([], p);
      assert GridScan(clues, i, p).0 == GridScan(clues, i - 1, p).0 + RowScan(clues, i - 1, 0, p).0;
    }
  }

  /** The pass for 0 tries at most the top-left cell, and only when it has no clue. */
  lemma ZeroLevel(clues: Clues)
    requires Rectangular(clues)
    ensures LevelSeeds(clues, 0) == FirstBlank(clues)
  {
    if |clues| == 0 || |clues[0]| == 0 {
      GridScanEmptyRows(clues, |clues|, Level(0));
    } else {
      GridScanZero(clues, |clues|);
    }
  }

  lemma SeedsByLevel(clues: Clues)
    ensures Seeds(clues) == LevelSeeds(clues, 3) + LevelSeeds(clues, 2) + LevelSeeds(clues, 1) + LevelSeeds(clues, 0)
  {
    assert SeedsAbove(clues, 2) == LevelSeeds(clues, 3);
  }

  /**
   * The order of the start vertices: the corners of the cells clued 3, then
   * of those clued 2, then of those clued 1, then the corners of the
   * top-left cell if it has no clue. Cells clued 0 and every other cell
   * without a clue are never tried.
   */
  lemma SeedsOrder(clues: Clues)
    requires Rectangular(clues)
    ensures Seeds(clues) == GridCorners(clues, |clues|, Some(3)) + GridCorners(clues, |clues|, Some(2))
                            + GridCorners(clues, |clues|, Some(1)) + FirstBlank(clues)
  {
    SeedsByLevel(clues);
    CluedLevel(clues, 3);
    CluedLevel(clues, 2);
    CluedLevel(clues, 1);
    ZeroLevel(clues);
  }

  // ---------------------------------------------------------------------
  // Prefixes of the scan, for the loop of selectionne_sommet.

  lemma {:induction false} RowScanGrows(clues: Clues, i: nat, j: nat, k: nat, p: Probe)
    requires i < |clues| && j <= k <= |clues[i]| && ProbeOk(p)
    ensures RowScan(clues, i, j, p).0 <= RowScan(clues, i, k, p).0
    decreases k - j
  {
    if j < k {
      RowScanGrows(clues, i, j, k - 1, p);
    }
  }

  lemma {:induction false} GridScanGrows(clues: Clues, i: nat, k: nat, p: Probe)
    requires i <= k <= |clues| && ProbeOk(p)
    ensures GridScan(clues, i, p).0 <= GridScan(clues, k, p).0
    decreases k - i
  {
    if i < k {
      GridScanGrows(clues, i, k - 1, p);
    }
  }

  lemma {:induction false} SeedsAboveGrows(clues: Clues, level: int, k: int)
    requires -1 <= k <= level <= 3
    ensures SeedsAbove(clues, level) <= SeedsAbove(clues, k)
    decreases level - k
  {
    if k < level {
      SeedsAboveGrows(clues, level, k + 1);
    }
  }

  lemma PrefixAppend(a: seq<Point>, b: seq<Point>, c: seq<Point>)
    requires b <= c
    ensures a + b <= a + c
  {
    assert (a + c)[..|a + b|] == a + b;
  }

  /** Within a row: the corners of the matching cell (i, j) come next. */
  lemma RowPrefix(clues: Clues, i: nat, j: nat, k: nat, q: Probe)
    requires i < |clues| && j < |clues[i]| && k <= 4 && ProbeOk(q)
    requires Matches(clues[i][j], Rebind(RowScan(clues, i, j, q).1))
    ensures RowScan(clues, i, j, q).0 + Corners(i, j)[..k] <= RowScan(clues, i, |clues[i]|, q).0
  {
    var row := RowScan(clues, i, j, q).0;
    assert RowScan(clues, i, j + 1, q).0 == row + Corners(i, j);
    PrefixAppend(row, Corners(i, j)[..k], Corners(i, j));
    RowScanGrows(clues, i, j + 1, |clues[i]|, q);
  }

  /** The row stops at corner k of cell (i, j): what it tried, then that corner, come in scan order. */
  lemma RowStop(clues: Clues, i: nat, j: nat, k: nat, q: Probe)
    requires i < |clues| && j < |clues[i]| && k < 4 && ProbeOk(q)
    requires Matches(clues[i][j], Rebind(RowScan(clues, i, j, q).1))
    ensures RowScan(clues, i, j, q).0 + Corners(i, j)[..k] + [Corners(i, j)[k]] <= RowScan(clues, i, |clues[i]|, q).0
  {
    RowPrefix(clues, i, j, k + 1, q);
    assert Corners(i, j)[..k + 1] == Corners(i, j)[..k] + [Corners(i, j)[k]];
    assert RowScan(clues, i, j, q).0 + Corners(i, j)[..k + 1]
        == RowScan(clues, i, j, q).0 + Corners(i, j)[..k] + [Corners(i, j)[k]];
  }

  /** Within a pass: what row i tries comes after the rows above it. */
  lemma GridPrefix(clues: Clues, i: nat, x: seq<Point>, p: Probe)
    requires i < |clues| && ProbeOk(p)
    requires x <= RowScan(clues, i, |clues[i]|, GridScan(clues, i, p).1).0
    ensures GridScan(clues, i, p).0 + x <= GridScan(clues, |clues|, p).0
  {
    var g := GridScan(clues, i, p);
    PrefixAppend(g.0, x, RowScan(clues, i, |clues[i]|, g.1).0);
    assert GridScan(clues, i + 1, p).0 == g.0 + RowScan(clues, i, |clues[i]|, g.1).0;
    GridScanGrows(clues, i + 1, |clues|, p);
  }

  /** Across passes: what the pass for level tries comes after the passes above it. */
  lemma LevelPrefix(clues: Clues, level: int, x: seq<Point>)
    requires 0 <= level <= 3 && x <= LevelSeeds(clues, level)
    ensures SeedsAbove(clues, level) + x <= Seeds(clues)
  {
    PrefixAppend(SeedsAbove(clues, level), x, LevelSeeds(clues, level));
    assert SeedsAbove(clues, level - 1) == SeedsAbove(clues, level) + LevelSeeds(clues, level);
    SeedsAboveGrows(clues, level - 1, -1);
  }

  // ---------------------------------------------------------------------
  // The selection.

  /**
   * The inner loop of selectionne_sommet over the four corners of cell
   * (i, j): the solver is started from each in turn until one finds a
   * solution or is stopped; k corners were exhausted before that.
   */
  method TryCell(e: Etat, clues: Clues, i: nat, j: nat, abort: nat -> bool,
                 ghost start: Dict, ghost polls0: nat, polls: nat)
    returns (r: Outcome, polls': nat, k: nat)
    requires Valid(start) && Valid(e.Value()) && Rolled(start, e.Value())
    requires Polled(abort, polls0, polls, Exhausted)
    requires i < |clues| && j < |clues[0]|
    modifies e
    ensures Valid(e.Value()) && k <= 4
    ensures r == Exhausted ==> k == 4 && Rolled(start, e.Value())
    ensures r != Exhausted ==> k < 4 && Kept(start, e.Value(), |clues|, |clues[0]|)
    ensures r == Found ==> AllSatisfied(clues, e.status) && exists w :: Degree(e.Value(), w) == 2
    ensures r == Found && DrawnSet(start.status) == {} ==> SingleLoop(e.Value())
    ensures Polled(abort, polls0, polls', r)
  {
    var sommets := Corners(i, j);
    r, polls', k := Exhausted, polls, 0;
    while k < 4
      invariant k <= 4 && Valid(e.Value()) && Rolled(start, e.Value())
      invariant r == Exhausted && Polled(abort, polls0, polls', Exhausted)
    {
      ghost var before := e.Value();
      RolledSameDrawn(start, before);
      ghost var polls1 := polls';
      r, polls' := Solveur(e, clues, sommets[k], abort, polls', [sommets[k]], []);
      PolledThen(abort, polls0, polls1, polls', r);
      if r != Exhausted {
        RolledKept(start, before, |clues|, |clues[0]|);
        KeptThen(start, before, e.Value(), |clues|, |clues[0]|);
        return;
      }
      RolledThen(start, before, e.Value());
      k := k + 1;
    }
  }

  /**
   * The loop over the cells of row i, starting from the probe q: the probe is
   * rebound at every cell and the corners of every cell that matches are
   * tried; `seen` are the vertices exhausted in this row, and `next` the one
   * whose search found a solution or was stopped.
   */
  method RowPass(e: Etat, clues: Clues, i: nat, q: Probe, abort: nat -> bool,
                 ghost start: Dict, ghost polls0: nat, polls: nat)
    returns (r: Outcome, polls': nat, probe: Probe, ghost seen: seq<Point>, ghost next: Point)
    requires Valid(start) && Valid(e.Value()) && Rolled(start, e.Value())
    requires Polled(abort, polls0, polls, Exhausted)
    requires Rectangular(clues) && i < |clues| && ProbeOk(q)
    modifies e
    ensures Valid(e.Value())
    ensures r == Exhausted ==> seen == RowScan(clues, i, |clues[i]|, q).0 && probe == RowScan(clues, i, |clues[i]|, q).1
    ensures r == Exhausted ==> Rolled(start, e.Value())
    ensures r != Exhausted ==> seen + [next] <= RowScan(clues, i, |clues[i]|, q).0
    ensures r != Exhausted ==> Kept(start, e.Value(), |clues|, |clues[0]|)
    ensures r == Found ==> AllSatisfied(clues, e.status) && exists w :: Degree(e.Value(), w) == 2
    ensures r == Found && DrawnSet(start.status) == {} ==> SingleLoop(e.Value())
    ensures Polled(abort, polls0, polls', r)
  {
    r, polls', probe, seen, next := Exhausted, polls, q, [], Point(0, 0);
    for j := 0 to |clues[i]|
      invariant Valid(e.Value()) && Rolled(start, e.Value())
      invariant seen == RowScan(clues, i, j, q).0
      invariant probe == RowScan(clues, i, j, q).1
      invariant r == Exhausted && Polled(abort, polls0, polls', Exhausted)
    {
      probe := Rebind(probe);
      if Matches(clues[i][j], probe) {
        var k;
        r, polls', k := TryCell(e, clues, i, j, abort, start, polls0, polls');
        if r != Exhausted {
          RowStop(clues, i, j, k, q);
          seen, next := seen + Corners(i, j)[..k], Corners(i, j)[k];
          return;
        }
        assert Corners(i, j)[..4] == Corners(i, j);
        seen := seen + Corners(i, j);
      }
    }
  }

  /**
   * One pass of the outer loop of selectionne_sommet: the rows are scanned
   * in order from the probe `level`; `seen` are the vertices exhausted in
   * this pass.
   */
  method Pass(e: Etat, clues: Clues, level: int, abort: nat -> bool,
              ghost start: Dict, ghost polls0: nat, polls: nat)
    returns (r: Outcome, polls': nat, ghost seen: seq<Point>)
    requires Valid(start) && Valid(e.Value()) && Rolled(start, e.Value())
    requires Polled(abort, polls0, polls, Exhausted)
    requires Rectangular(clues) && 0 <= level <= 3
    modifies e
    ensures Valid(e.Value())
    ensures r == Exhausted ==> seen == LevelSeeds(clues, level) && Rolled(start, e.Value())
    ensures r != Exhausted ==> seen < LevelSeeds(clues, level) && Kept(start, e.Value(), |clues|, |clues[0]|)
    ensures r == Found ==> AllSatisfied(clues, e.status) && exists w :: Degree(e.Value(), w) == 2
    ensures r == Found && DrawnSet(start.status) == {} ==> SingleLoop(e.Value())
    ensures Polled(abort, polls0, polls', r)
  {
    r, polls', seen := Exhausted, polls, [];
    var probe := Level(level);
    for i := 0 to |clues|
      invariant Valid(e.Value()) && Rolled(start, e.Value())
      invariant seen == GridScan(clues, i, Level(level)).0
      invariant probe == GridScan(clues, i, Level(level)).1
      invariant r == Exhausted && Polled(abort, polls0, polls', Exhausted)
    {
      ghost var row, next;
      r, polls', probe, row, next := RowPass(e, clues, i, probe, abort, start, polls0, polls');
      if r != Exhausted {
        GridPrefix(clues, i, row + [next], Level(level));
        assert seen + row + [next] <= LevelSeeds(clues, level);
        seen := seen + row;
        return;
      }
      seen := seen + row;
    }
  }

  /**
   * selectionne_sommet: starts the solver from the seeds in order and stops
   * at the first start that finds a solution or is stopped. `tried` are the
   * seeds whose search was exhausted before that.
   */
  method SelectionneSommet(e: Etat, clues: Clues, abort: nat -> bool, polls: nat)
    returns (r: Outcome, polls': nat, ghost tried: seq<Point>)
    requires Valid(e.Value()) && Rectangular(clues)
    modifies e
    ensures Valid(e.Value())
    ensures |clues| > 0 ==> Kept(old(e.Value()), e.Value(), |clues|, |clues[0]|)
    ensures r == Exhausted ==> tried == Seeds(clues) && Rolled(old(e.Value()), e.Value())
    ensures r != Exhausted ==> tried < Seeds(clues)
    ensures r == Found ==> AllSatisfied(clues, e.status) && exists w :: Degree(e.Value(), w) == 2
    ensures r == Found && DrawnSet(old(e.status)) == {} ==> SingleLoop(e.Value())
    ensures Polled(abort, polls, polls', r)
  {
    ghost var start := e.Value();
    RolledRefl(start);
    r, polls', tried := Exhausted, polls, [];
    var level := 3;
    while level >= 0
      invariant -1 <= level <= 3
      invariant Valid(e.Value()) && Rolled(start, e.Value())
      invariant tried == SeedsAbove(clues, level)
      invariant r == Exhausted && Polled(abort, polls, polls', Exhausted)
      decreases level + 1
    {
      ghost var seen;
      r, polls', seen := Pass(e, clues, level, abort, start, polls, polls');
      if r != Exhausted {
        LevelPrefix(clues, level, seen);
        LevelPrefix(clues, level, LevelSeeds(clues, level));
        tried := tried + seen;
        return;
      }
      tried := tried + seen;
      level := level - 1;
    }
    if |clues| > 0 {
      RolledKept(start, e.Value(), |clues|, |clues[0]|);
    }
  }
}
