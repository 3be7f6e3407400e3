/**
 * The constraint evaluator: drawn segments around a vertex, the status of a
 * clued cell, and the two whole-grid checks (slitherlink.py:218-299, 343-357,
 * 628-646).
 */
module Evaluator {
  import opened Wrappers
  import opened Lattice
  import opened Store

  /** The clue grid `indices`: one optional clue (0..3) per cell, row by row. */
  type Clues = seq<seq<Option<int>>>

  /** The keys of ks that lie in p, as a set. */
  function Among(ks: seq<Seg>, p: set<Seg>): set<Seg>
  {
    set b | b in ks && b in p
  }

  lemma AmongStep(ks: seq<Seg>, t: nat, p: set<Seg>)
    requires Distinct(ks) && t < |ks|
    ensures ks[t] !in Among(ks[..t], p)
    ensures Among(ks[..t + 1], p) == Among(ks[..t], p) + (if ks[t] in p then {ks[t]} else {})
  {
    assert ks[..t + 1] == ks[..t] + [ks[t]];
  }

  lemma AmongAll(d: Dict, p: set<Seg>)
    requires IsDict(d) && p <= d.status.Keys
    ensures Among(d.keys[..|d.keys|], p) == p
  {
    assert d.keys[..|d.keys|] == d.keys;
  }

  /**
   * The drawn keys of ks that touch v, in the order of ks: the list built by
   * segments_traces, and by the inner loop of longueur_boucle.
   */
  function DrawnAt(ks: seq<Seg>, status: map<Seg, int>, v: Point): (r: seq<Seg>)
    ensures forall s :: s in r <==> s in ks && s in status && status[s] == DRAWN && Has(s, v)
    ensures Distinct(ks) ==> Distinct(r)
    decreases |ks|
  {
    if ks == [] then []
    else
      var init := DrawnAt(ks[..|ks| - 1], status, v);
      var last := ks[|ks| - 1];
      assert forall s :: s in ks <==> s in ks[..|ks| - 1] || s == last by {
        assert ks == ks[..|ks| - 1] + [last];
      }
      if last in status && status[last] == DRAWN && Has(last, v) then
        assert Distinct(ks) ==> last !in ks[..|ks| - 1];
        init + [last]
      else
        init
  }

  /** segments_traces: the drawn segments around vertex v, in dict order. */
  method SegmentsTraces(d: Dict, v: Point) returns (r: seq<Seg>)
    requires IsDict(d)
    ensures r == DrawnAt(d.keys, d.status, v)
  {
    r := [];
    for t := 0 to |d.keys|
      invariant r == DrawnAt(d.keys[..t], d.status, v)
    {
      var s := d.keys[t];
      assert d.keys[..t + 1][..t] == d.keys[..t];
      if d.status[s] == DRAWN && Has(s, v) {
        r := r + [s];
      }
    }
    assert d.keys[..|d.keys|] == d.keys;
  }

  /** nombre_segments: how many keys have value 1. */
  method NombreSegments(d: Dict) returns (n: nat)
    requires IsDict(d)
    ensures n == |DrawnSet(d.status)|
  {
    n := 0;
    for t := 0 to |d.keys|
      invariant n == |Among(d.keys[..t], DrawnSet(d.status))|
    {
      AmongStep(d.keys, t, DrawnSet(d.status));
      if d.status[d.keys[t]] == DRAWN {
        n := n + 1;
      }
    }
    AmongAll(d, DrawnSet(d.status));
  }

  /** The drawn borders of cell (i, j). */
  function DrawnBorders(status: map<Seg, int>, i: int, j: int): set<Seg>
  {
    set b | b in Borders(i, j) && b in DrawnSet(status)
  }

  /** How many of the four borders of cell (i, j) are drawn. */
  function BorderCount(status: map<Seg, int>, i: int, j: int): nat
  {
    |DrawnBorders(status, i, j)|
  }

  predicate CellIn(clues: Clues, i: int, j: int)
  {
    0 <= i < |clues| && 0 <= j < |clues[i]|
  }

  /**
   * The status statut_case reports: None for an unclued cell, 0 when the
   * drawn borders match the clue, 1 when there are too many, -1 too few.
   */
  function CellStatus(clues: Clues, status: map<Seg, int>, i: int, j: int): (r: Option<int>)
    requires CellIn(clues, i, j)
    ensures r.None? <==> clues[i][j].None?
    ensures r.Some? ==> -1 <= r.value <= 1
    ensures r == Some(0) <==> clues[i][j] == Some(BorderCount(status, i, j))
  {
    match clues[i][j]
    case None => None
    case Some(c) =>
      var n := BorderCount(status, i, j);
      if c == n then Some(0) else if c < n then Some(1) else Some(-1)
  }

  /** statut_case: counts the drawn keys among the cell's four borders. */
  method StatutCase(clues: Clues, d: Dict, i: int, j: int) returns (r: Option<int>)
    requires IsDict(d) && CellIn(clues, i, j)
    ensures r == CellStatus(clues, d.status, i, j)
  {
    if clues[i][j].None? {
      return None;
    }
    var borders := Borders(i, j);
    ghost var target := DrawnBorders(d.status, i, j);
    var n := 0;
    for t := 0 to |d.keys|
      invariant n == |Among(d.keys[..t], target)|
    {
      AmongStep(d.keys, t, target);
      var s := d.keys[t];
      if s in borders && d.status[s] == DRAWN {
        n := n + 1;
      }
    }
    AmongAll(d, target);
    var c := clues[i][j].value;
    if c == n {
      r := Some(0);
    } else if c < n {
      r := Some(1);
    } else {
      r := Some(-1);
    }
  }

  /** Every clued cell is exactly satisfied (vacuously true without clues). */
  predicate AllSatisfied(clues: Clues, status: map<Seg, int>)
    ensures AllSatisfied(clues, status) <==>
      forall i, j :: CellIn(clues, i, j) && clues[i][j].Some? ==> clues[i][j].value == BorderCount(status, i, j)
  {
    forall i, j :: 0 <= i < |clues| && 0 <= j < |clues[i]| && clues[i][j].Some? ==> CellStatus(clues, status, i, j) == Some(0)
  }

  /** Some clued cell has more drawn borders than its clue. */
  predicate AnyOverfull(clues: Clues, status: map<Seg, int>)
    ensures AnyOverfull(clues, status) ==> !AllSatisfied(clues, status)
  {
    exists i, j :: 0 <= i < |clues| && 0 <= j < |clues[i]| && clues[i][j].Some? && CellStatus(clues, status, i, j) == Some(1)
  }

  ghost predicate SatisfiedBefore(clues: Clues, status: map<Seg, int>, i: int, j: int)
    requires 0 <= i < |clues|
  {
    (forall i', j' :: CellIn(clues, i', j') && i' < i && clues[i'][j'].Some? ==> CellStatus(clues, status, i', j') == Some(0)) &&
    (forall j' :: 0 <= j' < j && j' < |clues[i]| && clues[i][j'].Some? ==> CellStatus(clues, status, i, j') == Some(0))
  }

  /**
   * indices_satisfaits: collects the status of every clued cell, row by row,
   * then answers False at the first one that is not 0.
   */
  method IndicesSatisfaits(clues: Clues, d: Dict) returns (ok: bool)
    requires IsDict(d)
    ensures ok == AllSatisfied(clues, d.status)
  {
    var statuses: seq<Option<int>> := [];
    for i := 0 to |clues|
      invariant (forall k :: 0 <= k < |statuses| ==> statuses[k] == Some(0)) <==>
        (forall i', j' :: CellIn(clues, i', j') && i' < i && clues[i'][j'].Some? ==> CellStatus(clues, d.status, i', j') == Some(0))
    {
      for j := 0 to |clues[i]|
        invariant (forall k :: 0 <= k < |statuses| ==> statuses[k] == Some(0)) <==> SatisfiedBefore(clues, d.status, i, j)
      {
        if clues[i][j].Some? {
          var st := StatutCase(clues, d, i, j);
          ghost var before := statuses;
          statuses := statuses + [st];
          assert (forall k :: 0 <= k < |statuses| ==> statuses[k] == Some(0)) <==>
            (forall k :: 0 <= k < |before| ==> before[k] == Some(0)) && st == Some(0) by {
            assert forall k :: 0 <= k < |before| ==> statuses[k] == before[k];
            assert statuses[|before|] == st;
          }
        }
      }
    }
    for k := 0 to |statuses|
      invariant forall k' :: 0 <= k' < k ==> statuses[k'] == Some(0)
    {
      if statuses[k] != Some(0) {
        return false;
      }
    }
    return true;
  }

  /**
   * indices_insatisfaits: False as soon as a clued cell has status 1; when none
   * has, the Python function falls off its end and returns None, never True.
   */
  method IndicesInsatisfaits(clues: Clues, d: Dict) returns (r: Option<bool>)
    requires IsDict(d)
    ensures r == Some(false) <==> AnyOverfull(clues, d.status)
    ensures r == None <==> !AnyOverfull(clues, d.status)
  {
    for i := 0 to |clues|
      invariant forall i', j' :: CellIn(clues, i', j') && i' < i && clues[i'][j'].Some? ==> CellStatus(clues, d.status, i', j') != Some(1)
    {
      for j := 0 to |clues[i]|
        invariant forall i', j' :: CellIn(clues, i', j') && i' < i && clues[i'][j'].Some? ==> CellStatus(clues, d.status, i', j') != Some(1)
        invariant forall j' :: 0 <= j' < j && clues[i][j'].Some? ==> CellStatus(clues, d.status, i, j') != Some(1)
      {
        if clues[i][j].Some? {
          var st := StatutCase(clues, d, i, j);
          if st == Some(1) {
            return Some(false);
          }
        }
      }
    }
    return None;
  }

  lemma SubsetCard(a: set<Seg>, b: set<Seg>)
    requires a <= b
    ensures |a| <= |b|
  {
    assert b == a + (b - a);
  }

  /**
   * Drawing more segments never cures an overfull cell: once a clue has too
   * many drawn borders, every state that keeps those segments drawn still has.
   */
  lemma OverfullPersists(clues: Clues, s0: map<Seg, int>, s1: map<Seg, int>, i: int, j: int)
    requires CellIn(clues, i, j) && DrawnSet(s0) <= DrawnSet(s1)
    requires CellStatus(clues, s0, i, j) == Some(1)
    ensures CellStatus(clues, s1, i, j) == Some(1)
  {
    SubsetCard(DrawnBorders(s0, i, j), DrawnBorders(s1, i, j));
  }

  /**
   * The pruning at slitherlink.py:689 is sound: when indices_insatisfaits
   * reports an overfull clue, no state that keeps the drawn segments drawn
   * satisfies every clue.
   */
  lemma PruningSound(clues: Clues, s0: map<Seg, int>, s1: map<Seg, int>)
    requires AnyOverfull(clues, s0) && DrawnSet(s0) <= DrawnSet(s1)
    ensures !AllSatisfied(clues, s1)
  {
    var i, j :| CellIn(clues, i, j) && clues[i][j].Some? && CellStatus(clues, s0, i, j) == Some(1);
    OverfullPersists(clues, s0, s1, i, j);
  }
}
