/**
 * The backtracking solver: solveur explores from a vertex, gestion_solveur
 * draws one segment, recurses and erases it again on failure, and
 * selectionne_sommet chooses the start vertices (slitherlink.py:576-742).
 * The drawing is headless; the window's event queue is an oracle.
 */
module Solver {
  import opened Wrappers
  import opened Lattice
  import opened Store
  import opened Evaluator
  import opened Loop

  /**
   * How a search ends. The source returns True both for a solution and for a
   * stop requested through the window, and False (or the dict) otherwise.
   */
  datatype Outcome = Found | Aborted | Exhausted

  /** Number of drawn segments at vertex w. */
  function Degree(d: Dict, w: Point): nat
  {
    |DrawnAt(d.keys, d.status, w)|
  }

  // ---------------------------------------------------------------------
  // The event queue: gestion_ev is polled once per solveur call that does
  // not stop at once; poll number k answers abort(k).

  ghost predicate Quiet(abort: nat -> bool, from: nat, to: nat)
  {
    forall k :: from <= k < to ==> !abort(k)
  }

  /** The polls from `from` to `to` ended the search exactly when r is Aborted, at the last poll. */
  ghost predicate Polled(abort: nat -> bool, from: nat, to: nat, r: Outcome)
  {
    from <= to &&
    if r == Aborted then from < to && abort(to - 1) && Quiet(abort, from, to - 1)
    else Quiet(abort, from, to)
  }

  lemma PolledThen(abort: nat -> bool, a: nat, b: nat, c: nat, r: Outcome)
    requires Polled(abort, a, b, Exhausted) && Polled(abort, b, c, r)
    ensures Polled(abort, a, c, r)
  {
  }

  // ---------------------------------------------------------------------
  // What the search does to the store.

  /** The keys of ks that are in live, in their order. */
  function Keep(ks: seq<Seg>, live: set<Seg>): (r: seq<Seg>)
    ensures forall t :: t in r <==> t in ks && t in live
    ensures Distinct(ks) ==> Distinct(r)
    decreases |ks|
  {
    if ks == [] then []
    else
      assert Distinct(ks) ==> Distinct(ks[1..]) && ks[0] !in ks[1..];
      (if ks[0] in live then [ks[0]] else []) + Keep(ks[1..], live)
  }

  lemma {:induction false} KeepAll(ks: seq<Seg>, live: set<Seg>)
    requires forall t :: t in ks ==> t in live
    ensures Keep(ks, live) == ks
    decreases |ks|
  {
    if ks != [] {
      KeepAll(ks[1..], live);
    }
  }

  lemma {:induction false} KeepKeep(ks: seq<Seg>, b: set<Seg>, c: set<Seg>)
    ensures Keep(Keep(ks, b), c) == Keep(ks, b * c)
    decreases |ks|
  {
    if ks != [] {
      KeepKeep(ks[1..], b, c);
      var head := if ks[0] in b then [ks[0]] else [];
      assert Keep(ks, b) == head + Keep(ks[1..], b);
      KeepAppend(head, Keep(ks[1..], b), c);
      if ks[0] in b {
        assert Keep(head, c) == if ks[0] in c then [ks[0]] else [] by {
          assert head[1..] == [];
        }
      }
    }
  }

  lemma {:induction false} KeepAppend(xs: seq<Seg>, ys: seq<Seg>, live: set<Seg>)
    ensures Keep(xs + ys, live) == Keep(xs, live) + Keep(ys, live)
    decreases |xs|
  {
    if xs == [] {
      assert xs + ys == ys;
    } else {
      assert (xs + ys)[0] == xs[0];
      assert (xs + ys)[1..] == xs[1..] + ys;
      KeepAppend(xs[1..], ys, live);
    }
  }

  lemma {:induction false} RemoveKeyIsKeep(ks: seq<Seg>, s: Seg, live: set<Seg>)
    requires forall t :: t in ks ==> t in live
    ensures RemoveKey(ks, s) == Keep(ks, live - {s})
    decreases |ks|
  {
    if ks != [] {
      RemoveKeyIsKeep(ks[1..], s, live);
    }
  }

  /**
   * b is a store rolled back from a: the keys that remain keep their values
   * and their order, and the only keys gone are forbidden ones (a forbidden
   * segment that the search drew over and erased again loses its mark).
   */
  ghost predicate Rolled(a: Dict, b: Dict)
  {
    b.keys == Keep(a.keys, b.status.Keys) &&
    (forall s :: s in b.status ==> s in a.status && b.status[s] == a.status[s]) &&
    (forall s :: s in a.status && s !in b.status ==> a.status[s] == FORBIDDEN)
  }

  /**
   * b keeps every segment drawn in a, and every key of b either has its
   * value from a or is a drawn segment of the h x w lattice.
   */
  ghost predicate Kept(a: Dict, b: Dict, h: nat, w: nat)
  {
    (forall s :: s in a.status && a.status[s] == DRAWN ==> s in b.status && b.status[s] == DRAWN) &&
    (forall s :: s in b.status ==> (s in a.status && b.status[s] == a.status[s]) ||
                                   (b.status[s] == DRAWN && InLattice(s, h, w)))
  }

  lemma RolledRefl(a: Dict)
    requires IsDict(a)
    ensures Rolled(a, a)
  {
    KeepAll(a.keys, a.status.Keys);
  }

  lemma RolledThen(a: Dict, b: Dict, c: Dict)
    requires Rolled(a, b) && Rolled(b, c)
    ensures Rolled(a, c)
  {
    KeepKeep(a.keys, b.status.Keys, c.status.Keys);
    assert b.status.Keys * c.status.Keys == c.status.Keys;
  }

  /** A rollback keeps exactly the drawn segments. */
  lemma RolledSameDrawn(a: Dict, b: Dict)
    requires Rolled(a, b)
    ensures DrawnSet(b.status) == DrawnSet(a.status)
  {
  }

  lemma RolledKept(a: Dict, b: Dict, h: nat, w: nat)
    requires Rolled(a, b)
    ensures Kept(a, b, h, w)
  {
  }

  /** Without forbidden segments, a rollback gives back the very same store. */
  lemma RolledNoForbidden(a: Dict, b: Dict)
    requires IsDict(a) && NoForbidden(a) && Rolled(a, b)
    ensures b == a
  {
    assert b.status.Keys == a.status.Keys;
    KeepAll(a.keys, a.status.Keys);
  }

  lemma KeptThen(a: Dict, b: Dict, c: Dict, h: nat, w: nat)
    requires Kept(a, b, h, w) && Kept(b, c, h, w)
    ensures Kept(a, c, h, w)
  {
  }

  lemma EraseFromKept(ks: seq<Seg>, live: set<Seg>, s: Seg)
    ensures RemoveKey(Keep(ks, live), s) == Keep(ks, live - {s})
  {
    RemoveKeyIsKeep(Keep(ks, live), s, live);
    KeepKeep(ks, live, live - {s});
    assert live * (live - {s}) == live - {s};
  }

  lemma KeepDropLast(ks: seq<Seg>, s: Seg, live: set<Seg>)
    requires s !in live
    ensures Keep(ks + [s], live) == Keep(ks, live)
  {
    KeepAppend(ks, [s], live);
    assert Keep([s], live) == [] by {
      assert [s][1..] == [];
    }
    assert Keep(ks, live) + [] == Keep(ks, live);
  }

  /** The key order part of TraceEraseRolled. */
  lemma TraceEraseKeys(a: Dict, s: Seg, b: Dict)
    requires b.keys == Keep(Assign(a, s, DRAWN).keys, b.status.Keys)
    ensures RemoveKey(b.keys, s) == Keep(a.keys, b.status.Keys - {s})
  {
    var live := b.status.Keys;
    EraseFromKept(Assign(a, s, DRAWN).keys, live, s);
    if s !in a.status {
      KeepDropLast(a.keys, s, live - {s});
    }
  }

  /**
   * Drawing s over a store where it is not drawn, searching with a rollback
   * and then erasing s rolls the whole step back.
   */
  lemma TraceEraseRolled(a: Dict, s: Seg, b: Dict)
    requires Valid(a) && !IsDrawn(a, s) && Rolled(Assign(a, s, DRAWN), b)
    ensures s in b.status && Rolled(a, Pop(b, s))
  {
    var a1 := Assign(a, s, DRAWN);
    assert s in b.status;
    var c := Pop(b, s);
    TraceEraseKeys(a, s, b);
    assert c.status.Keys == b.status.Keys - {s};
    forall t | t in c.status
      ensures t in a.status && c.status[t] == a.status[t]
    {
      assert b.status[t] == a1.status[t];
    }
    forall t | t in a.status && t !in c.status
      ensures a.status[t] == FORBIDDEN
    {
      if t != s {
        assert t in a1.status && t !in b.status;
      }
    }
  }

  // ---------------------------------------------------------------------
  // Degrees.

  /** The degree of v counts the drawn segments at v. */
  lemma DegreeIsCount(d: Dict, v: Point)
    requires IsDict(d)
    ensures Degree(d, v) == |set s | s in DrawnSet(d.status) && Has(s, v)|
  {
    var r := DrawnAt(d.keys, d.status, v);
    assert (set s | s in r) == (set s | s in DrawnSet(d.status) && Has(s, v));
    DistinctSeqCard(r);
  }

  /** Stores with the same drawn segments have the same degrees. */
  lemma SameDrawnSameDegree(a: Dict, b: Dict, v: Point)
    requires IsDict(a) && IsDict(b) && DrawnSet(a.status) == DrawnSet(b.status)
    ensures Degree(a, v) == Degree(b, v)
  {
    DegreeIsCount(a, v);
    DegreeIsCount(b, v);
  }

  lemma DegreeAtLeast(d: Dict, v: Point, at: set<Seg>)
    requires IsDict(d) && at <= DrawnSet(d.status) && forall s :: s in at ==> Has(s, v)
    ensures Degree(d, v) >= |at|
  {
    DegreeIsCount(d, v);
    SubsetCard(at, set s | s in DrawnSet(d.status) && Has(s, v));
  }

  lemma DegreeAtMost(d: Dict, v: Point, at: set<Seg>)
    requires IsDict(d) && forall s :: s in DrawnSet(d.status) && Has(s, v) ==> s in at
    ensures Degree(d, v) <= |at|
  {
    DegreeIsCount(d, v);
    SubsetCard((set s | s in DrawnSet(d.status) && Has(s, v)), at);
  }

  // ---------------------------------------------------------------------
  // The path the solver draws from an empty store.

  /**
   * The solver's path so far: path runs from the start vertex to the
   * current vertex v (which may close back on an earlier vertex), edges[t]
   * joins path[t] to path[t + 1], and these are exactly the drawn segments.
   */
  ghost predicate Chain(d: Dict, v: Point, path: seq<Point>, edges: seq<Seg>)
  {
    |path| == |edges| + 1 && path[|path| - 1] == v &&
    DistinctPoints(path[..|path| - 1]) && Distinct(edges) &&
    (forall t :: 0 <= t < |edges| ==> WellFormed(edges[t]) && Joins(edges[t], path[t], path[t + 1])) &&
    Elements(edges) == DrawnSet(d.status)
  }

  /** A vertex of the path before the current one that is not its start has two drawn segments. */
  lemma InteriorDegree(d: Dict, v: Point, path: seq<Point>, edges: seq<Seg>, j: nat)
    requires IsDict(d) && Chain(d, v, path, edges) && 1 <= j < |edges|
    ensures Degree(d, path[j]) >= 2
  {
    assert Joins(edges[j - 1], path[j - 1], path[j]) && Joins(edges[j], path[j], path[j + 1]);
    DegreeAtLeast(d, path[j], {edges[j - 1], edges[j]});
  }

  /** The end of the path is the only drawn segment at a fresh current vertex. */
  lemma FreshDegree(d: Dict, v: Point, path: seq<Point>, edges: seq<Seg>)
    requires IsDict(d) && Chain(d, v, path, edges)
    requires forall j :: 0 <= j < |edges| ==> path[j] != v
    ensures Degree(d, v) <= 1
  {
    var k := |edges|;
    var at: set<Seg> := if k == 0 then {} else {edges[k - 1]};
    forall s | s in DrawnSet(d.status) && Has(s, v)
      ensures s in at
    {
      var t :| 0 <= t < k && edges[t] == s;
      assert Joins(edges[t], path[t], path[t + 1]);
      if t < k - 1 {
        NotEnd(s, path[t], path[t + 1], v);
      }
    }
    DegreeAtMost(d, v, at);
  }

  /** Back at the start vertex after at least two segments, the start has two drawn segments. */
  lemma StartDegree(d: Dict, v: Point, path: seq<Point>, edges: seq<Seg>)
    requires IsDict(d) && Chain(d, v, path, edges) && |edges| >= 2 && path[0] == v
    ensures Degree(d, v) >= 2
  {
    var k := |edges|;
    assert Joins(edges[0], path[0], path[1]) && Joins(edges[k - 1], path[k - 1], path[k]);
    DegreeAtLeast(d, v, {edges[0], edges[k - 1]});
  }

  /** While the current vertex has fewer than two drawn segments, it is not on the path yet. */
  lemma OpenEnd(d: Dict, v: Point, path: seq<Point>, edges: seq<Seg>)
    requires IsDict(d) && Chain(d, v, path, edges) && Degree(d, v) < 2
    ensures forall j :: 0 <= j < |edges| ==> path[j] != v
  {
    var k := |edges|;
    forall j | 0 <= j < k
      ensures path[j] != v
    {
      if j >= 1 {
        InteriorDegree(d, v, path, edges, j);
      } else if k >= 2 {
        if path[0] == v {
          StartDegree(d, v, path, edges);
        }
      } else {
        assert Joins(edges[0], path[0], path[1]);
      }
    }
  }

  /** A vertex with two drawn segments at the open end of the path is its start. */
  lemma ClosesAtStart(d: Dict, v: Point, path: seq<Point>, edges: seq<Seg>)
    requires IsDict(d) && Chain(d, v, path, edges) && Degree(d, v) == 2
    ensures |edges| >= 1 && path[0] == v
  {
    var k := |edges|;
    if !(exists j :: 0 <= j < k && path[j] == v) {
      FreshDegree(d, v, path, edges);
    }
    var j :| 0 <= j < k && path[j] == v;
    if j >= 1 {
      RevisitDegree(d, v, path, edges, j);
    }
  }

  /** Coming back to an inner vertex of the path would give it three drawn segments. */
  lemma RevisitDegree(d: Dict, v: Point, path: seq<Point>, edges: seq<Seg>, j: nat)
    requires IsDict(d) && Chain(d, v, path, edges) && 1 <= j < |edges| && path[j] == v
    ensures Degree(d, v) >= 3
  {
    var k := |edges|;
    InteriorDegree(d, v, path, edges, j);
    assert Joins(edges[k - 1], path[k - 1], path[k]);
    assert j < k - 1;
    assert Joins(edges[j - 1], path[j - 1], path[j]) && Joins(edges[j], path[j], path[j + 1]);
    NotEnd(edges[k - 1], path[k - 1], path[k], path[j - 1]);
    NotEnd(edges[k - 1], path[k - 1], path[k], path[j + 1]);
    DegreeAtLeast(d, v, {edges[j - 1], edges[j], edges[k - 1]});
  }

  /** A path that has come back to its start, without its last vertex, is a loop over the drawn segments. */
  lemma ChainLoop(d: Dict, v: Point, path: seq<Point>, edges: seq<Seg>)
    requires Chain(d, v, path, edges) && |edges| >= 1 && path[0] == v
    ensures LoopOf(d, path[..|edges|], edges)
  {
    var k := |edges|;
    assert Joins(edges[0], path[0], path[1]);
    if k == 2 {
      assert Joins(edges[1], path[1], path[2]);
      SameEndsSameSeg(edges[0], edges[1], path[0], path[1]);
    }
    var loop := path[..k];
    assert IsLoop(loop, edges) by {
      forall t | 0 <= t < k
        ensures Joins(edges[t], loop[t], loop[Succ(t, k)])
      {
        assert Joins(edges[t], path[t], path[t + 1]);
      }
    }
  }

  /**
   * When the current vertex has two drawn segments, the path has closed on
   * its start and the drawn segments form a single loop.
   */
  lemma ChainFound(d: Dict, v: Point, path: seq<Point>, edges: seq<Seg>)
    requires IsDict(d) && Chain(d, v, path, edges) && Degree(d, v) == 2
    ensures SingleLoop(d)
  {
    ClosesAtStart(d, v, path, edges);
    ChainLoop(d, v, path, edges);
  }

  /** Drawing a segment from the open end extends the path. */
  lemma ChainExtend(d: Dict, v: Point, path: seq<Point>, edges: seq<Seg>, s: Seg, w: Point)
    requires IsDict(d) && Chain(d, v, path, edges) && Degree(d, v) < 2
    requires !IsDrawn(d, s) && WellFormed(s) && Joins(s, v, w)
    ensures Chain(Assign(d, s, DRAWN), w, path + [w], edges + [s])
  {
    OpenEnd(d, v, path, edges);
    var path', edges' := path + [w], edges + [s];
    assert path'[..|path'| - 1] == path;
    assert DrawnSet(Assign(d, s, DRAWN).status) == DrawnSet(d.status) + {s};
    forall t | 0 <= t < |edges'|
      ensures WellFormed(edges'[t]) && Joins(edges'[t], path'[t], path'[t + 1])
    {
      if t < |edges| {
        assert edges'[t] == edges[t] && path'[t] == path[t] && path'[t + 1] == path[t + 1];
      }
    }
  }

  // ---------------------------------------------------------------------
  // The search.

  // The moves of solveur from v on a grid of h rows and w columns, each
  // allowed by its own test on the coordinates of v.

  function RightMove(v: Point, w: int): seq<Seg>
  {
    if v.col < w then [Seg(v, RightOf(v))] else []
  }

  function DownMove(v: Point, h: int): seq<Seg>
  {
    if v.row < h then [Seg(v, Below(v))] else []
  }

  function LeftMove(v: Point): seq<Seg>
  {
    if v.col > 0 then [Seg(Point(v.row, v.col - 1), v)] else []
  }

  function UpMove(v: Point): seq<Seg>
  {
    if v.row > 0 then [Seg(Point(v.row - 1, v.col), v)] else []
  }

  /** The moves back from v: left, then up. */
  function Backward(v: Point): seq<Seg>
  {
    LeftMove(v) + UpMove(v)
  }

  /** Every move solveur may try from v, in the order it tries them: right, down, left, up. */
  function Candidates(v: Point, h: int, w: int): seq<Seg>
  {
    RightMove(v, w) + (DownMove(v, h) + Backward(v))
  }

  /**
   * The moves tried so far, `done`, followed by the moves tried by the rest
   * of the search, `rest`: all of `done` and a prefix of the remaining ones.
   */
  lemma PrefixAfter(done: seq<Seg>, rest: seq<Seg>, later: seq<Seg>)
    requires rest <= later
    ensures done + rest <= done + later
  {
    assert (done + later)[..|done + rest|] == done + rest;
  }

  /** The vertex gestion_solveur moves to: segment[som]. */
  function Target(s: Seg, som: nat): Point
  {
    if som == 0 then s.p else s.q
  }

  /**
   * One step of a search that goes on: after an exhausted attempt the store
   * is rolled back, so the next attempt starts from the same drawn segments.
   */
  lemma StepOn(start: Dict, mid: Dict, v: Point, path: seq<Point>, edges: seq<Seg>)
    requires Valid(start) && Rolled(start, mid) && Valid(mid)
    ensures DrawnSet(mid.status) == DrawnSet(start.status)
    ensures Degree(mid, v) == Degree(start, v)
    ensures Chain(start, v, path, edges) ==> Chain(mid, v, path, edges)
  {
    RolledSameDrawn(start, mid);
    SameDrawnSameDegree(start, mid, v);
  }

  /**
   * solveur: stops with a solution when the current vertex has two drawn
   * segments and every clue is satisfied; otherwise polls the window; gives
   * up when the vertex already has two or more segments or a clue has too
   * many; otherwise tries the moves from the vertex (Explore).
   */
  method Solveur(e: Etat, clues: Clues, v: Point, abort: nat -> bool, polls: nat,
                 ghost path: seq<Point>, ghost edges: seq<Seg>)
    returns (r: Outcome, polls': nat)
    requires Valid(e.Value()) && |clues| > 0 && PointIn(v, |clues|, |clues[0]|)
    modifies e
    ensures Valid(e.Value()) && Kept(old(e.Value()), e.Value(), |clues|, |clues[0]|)
    ensures r == Exhausted ==> Rolled(old(e.Value()), e.Value())
    ensures r == Exhausted && NoForbidden(old(e.Value())) ==> e.Value() == old(e.Value())
    ensures r == Found ==> AllSatisfied(clues, e.status) && exists w :: Degree(e.Value(), w) == 2
    ensures r == Found && Chain(old(e.Value()), v, path, edges) ==> SingleLoop(e.Value())
    ensures Polled(abort, polls, polls', r)
    decreases LatticeEdges(|clues|, |clues[0]|) - DrawnSet(e.status), 6
  {
    ghost var start := e.Value();
    var around := SegmentsTraces(e.Value(), v);
    var satisfied := IndicesSatisfaits(clues, e.Value());
    if |around| == 2 && satisfied {
      if Chain(start, v, path, edges) {
        ChainFound(start, v, path, edges);
      }
      assert Degree(e.Value(), v) == 2;
      return Found, polls;
    }
    if abort(polls) {
      return Aborted, polls + 1;
    }
    var overfull := IndicesInsatisfaits(clues, e.Value());
    if |around| >= 2 || overfull == Some(false) {
      RolledRefl(start);
      return Exhausted, polls + 1;
    }
    ghost var tried;
    r, polls', tried := Explore(e, clues, v, abort, polls + 1, path, edges);
    if r == Exhausted && NoForbidden(start) {
      RolledNoForbidden(start, e.Value());
    }
  }

  /**
   * The moves of solveur from v, tried in order through gestion_solveur while
   * the lattice allows each and no earlier move has found a solution or been
   * stopped: first the segment to the right, then the rest (ExploreDown).
   */
  method Explore(e: Etat, clues: Clues, v: Point, abort: nat -> bool, polls: nat,
                 ghost path: seq<Point>, ghost edges: seq<Seg>)
    returns (r: Outcome, polls': nat, ghost tried: seq<Seg>)
    requires Valid(e.Value()) && |clues| > 0 && PointIn(v, |clues|, |clues[0]|)
    modifies e
    ensures r == Exhausted ==> tried == Candidates(v, |clues|, |clues[0]|)
    ensures r != Exhausted ==> 0 < |tried| && tried <= Candidates(v, |clues|, |clues[0]|)
    ensures Valid(e.Value()) && Kept(old(e.Value()), e.Value(), |clues|, |clues[0]|)
    ensures r == Exhausted ==> Rolled(old(e.Value()), e.Value())
    ensures r == Found ==> AllSatisfied(clues, e.status) && exists w :: Degree(e.Value(), w) == 2
    ensures (r == Found && Chain(old(e.Value()), v, path, edges) && Degree(old(e.Value()), v) < 2)
              ==> SingleLoop(e.Value())
    ensures Polled(abort, polls, polls', r)
    decreases LatticeEdges(|clues|, |clues[0]|) - DrawnSet(e.status), 5
  {
    ghost var start := e.Value();
    RolledRefl(start);
    r, polls' := Exhausted, polls;
    tried := [];
    if v.col < |clues[0]| {
      r, polls' := GestionSolveur(e, clues, Seg(v, RightOf(v)), 1, abort, polls', v, path, edges);
      tried := [Seg(v, RightOf(v))];
    }
    if r == Exhausted {
      RolledSameDrawn(start, e.Value());
      ghost var rest;
      r, polls', rest := ExploreDown(e, clues, v, abort, start, polls, polls', path, edges);
      PrefixAfter(tried, rest, DownMove(v, |clues|) + Backward(v));
      tried := tried + rest;
    }
  }

  /** The moves of solveur from v after the one to the right: down, then the moves back (ExploreBack). */
  method ExploreDown(e: Etat, clues: Clues, v: Point, abort: nat -> bool,
                     ghost start: Dict, ghost polls0: nat, polls: nat,
                     ghost path: seq<Point>, ghost edges: seq<Seg>)
    returns (r: Outcome, polls': nat, ghost tried: seq<Seg>)
    requires Valid(start) && Valid(e.Value()) && Rolled(start, e.Value())
    requires Polled(abort, polls0, polls, Exhausted)
    requires |clues| > 0 && PointIn(v, |clues|, |clues[0]|)
    modifies e
    ensures r == Exhausted ==> tried == DownMove(v, |clues|) + Backward(v)
    ensures r != Exhausted ==> 0 < |tried| && tried <= DownMove(v, |clues|) + Backward(v)
    ensures Valid(e.Value()) && Kept(start, e.Value(), |clues|, |clues[0]|)
    ensures r == Exhausted ==> Rolled(start, e.Value())
    ensures r == Found ==> AllSatisfied(clues, e.status) && exists w :: Degree(e.Value(), w) == 2
    ensures (r == Found && Chain(start, v, path, edges) && Degree(start, v) < 2) ==> SingleLoop(e.Value())
    ensures Polled(abort, polls0, polls', r)
    decreases LatticeEdges(|clues|, |clues[0]|) - DrawnSet(e.status), 4
  {
    r, polls' := Exhausted, polls;
    tried := [];
    if v.row < |clues| {
      r, polls' := Move(e, clues, Seg(v, Below(v)), 1, abort, start, polls0, polls', v, path, edges);
      tried := [Seg(v, Below(v))];
    }
    if r == Exhausted {
      RolledSameDrawn(start, e.Value());
      ghost var rest;
      r, polls', rest := ExploreBack(e, clues, v, abort, start, polls0, polls', path, edges);
      PrefixAfter(tried, rest, Backward(v));
      tried := tried + rest;
    }
  }

  /** The moves of solveur back from v: left, then up (ExploreUp). */
  method ExploreBack(e: Etat, clues: Clues, v: Point, abort: nat -> bool,
                     ghost start: Dict, ghost polls0: nat, polls: nat,
                     ghost path: seq<Point>, ghost edges: seq<Seg>)
    returns (r: Outcome, polls': nat, ghost tried: seq<Seg>)
    requires Valid(start) && Valid(e.Value()) && Rolled(start, e.Value())
    requires Polled(abort, polls0, polls, Exhausted)
    requires |clues| > 0 && PointIn(v, |clues|, |clues[0]|)
    modifies e
    ensures r == Exhausted ==> tried == Backward(v)
    ensures r != Exhausted ==> 0 < |tried| && tried <= Backward(v)
    ensures Valid(e.Value()) && Kept(start, e.Value(), |clues|, |clues[0]|)
    ensures r == Exhausted ==> Rolled(start, e.Value())
    ensures r == Found ==> AllSatisfied(clues, e.status) && exists w :: Degree(e.Value(), w) == 2
    ensures (r == Found && Chain(start, v, path, edges) && Degree(start, v) < 2) ==> SingleLoop(e.Value())
    ensures Polled(abort, polls0, polls', r)
    decreases LatticeEdges(|clues|, |clues[0]|) - DrawnSet(e.status), 3
  {
    r, polls' := Exhausted, polls;
    tried := [];
    if v.col > 0 {
      r, polls' := Move(e, clues, Seg(Point(v.row, v.col - 1), v), 0, abort, start, polls0, polls', v, path, edges);
      tried := [Seg(Point(v.row, v.col - 1), v)];
    }
    if r == Exhausted {
      RolledSameDrawn(start, e.Value());
      ghost var rest;
      r, polls', rest := ExploreUp(e, clues, v, abort, start, polls0, polls', path, edges);
      PrefixAfter(tried, rest, UpMove(v));
      tried := tried + rest;
    }
  }

  /** The last move of solveur from v: the segment above. */
  method ExploreUp(e: Etat, clues: Clues, v: Point, abort: nat -> bool,
                   ghost start: Dict, ghost polls0: nat, polls: nat,
                   ghost path: seq<Point>, ghost edges: seq<Seg>)
    returns (r: Outcome, polls': nat, ghost tried: seq<Seg>)
    requires Valid(start) && Valid(e.Value()) && Rolled(start, e.Value())
    requires Polled(abort, polls0, polls, Exhausted)
    requires |clues| > 0 && PointIn(v, |clues|, |clues[0]|)
    modifies e
    ensures r == Exhausted ==> tried == UpMove(v)
    ensures r != Exhausted ==> tried == UpMove(v) != []
    ensures Valid(e.Value()) && Kept(start, e.Value(), |clues|, |clues[0]|)
    ensures r == Exhausted ==> Rolled(start, e.Value())
    ensures r == Found ==> AllSatisfied(clues, e.status) && exists w :: Degree(e.Value(), w) == 2
    ensures (r == Found && Chain(start, v, path, edges) && Degree(start, v) < 2) ==> SingleLoop(e.Value())
    ensures Polled(abort, polls0, polls', r)
    decreases LatticeEdges(|clues|, |clues[0]|) - DrawnSet(e.status), 2
  {
    if v.row > 0 {
      r, polls' := Move(e, clues, Seg(Point(v.row - 1, v.col), v), 0, abort, start, polls0, polls, v, path, edges);
      tried := [Seg(Point(v.row - 1, v.col), v)];
    } else {
      RolledKept(start, e.Value(), |clues|, |clues[0]|);
      r, polls', tried := Exhausted, polls, [];
    }
  }

  /** A later move of Explore: gestion_solveur on a store rolled back to the one Explore started from. */
  method Move(e: Etat, clues: Clues, seg: Seg, som: nat, abort: nat -> bool,
              ghost start: Dict, ghost polls0: nat, polls: nat,
              ghost from: Point, ghost path: seq<Point>, ghost edges: seq<Seg>)
    returns (r: Outcome, polls': nat)
    requires Valid(start) && Valid(e.Value()) && Rolled(start, e.Value())
    requires Polled(abort, polls0, polls, Exhausted)
    requires |clues| > 0 && InLattice(seg, |clues|, |clues[0]|) && som <= 1
    modifies e
    ensures Valid(e.Value()) && Kept(start, e.Value(), |clues|, |clues[0]|)
    ensures r == Exhausted ==> Rolled(start, e.Value())
    ensures r == Found ==> AllSatisfied(clues, e.status) && exists w :: Degree(e.Value(), w) == 2
    ensures (r == Found && Chain(start, from, path, edges) && Degree(start, from) < 2 &&
             Joins(seg, from, Target(seg, som))) ==> SingleLoop(e.Value())
    ensures Polled(abort, polls0, polls', r)
    decreases LatticeEdges(|clues|, |clues[0]|) - DrawnSet(e.status), 1
  {
    ghost var mid := e.Value();
    StepOn(start, mid, from, path, edges);
    RolledKept(start, mid, |clues|, |clues[0]|);
    r, polls' := GestionSolveur(e, clues, seg, som, abort, polls, from, path, edges);
    PolledThen(abort, polls0, polls, polls', r);
    KeptThen(start, mid, e.Value(), |clues|, |clues[0]|);
    if r == Exhausted {
      RolledThen(start, mid, e.Value());
    }
  }

  /**
   * gestion_solveur: when the segment is not drawn yet, draws it and searches
   * from segment[som]; a search that neither finds nor is stopped erases the
   * segment again. A segment already drawn is left alone.
   */
  method GestionSolveur(e: Etat, clues: Clues, seg: Seg, som: nat, abort: nat -> bool, polls: nat,
                        ghost from: Point, ghost path: seq<Point>, ghost edges: seq<Seg>)
    returns (r: Outcome, polls': nat)
    requires Valid(e.Value()) && |clues| > 0 && InLattice(seg, |clues|, |clues[0]|) && som <= 1
    modifies e
    ensures IsDrawn(old(e.Value()), seg) ==> r == Exhausted && e.Value() == old(e.Value())
    ensures r == Exhausted && !IsDrawn(old(e.Value()), seg) ==> seg !in e.status
    ensures Valid(e.Value()) && Kept(old(e.Value()), e.Value(), |clues|, |clues[0]|)
    ensures r == Exhausted ==> Rolled(old(e.Value()), e.Value())
    ensures r == Found ==> AllSatisfied(clues, e.status) && exists w :: Degree(e.Value(), w) == 2
    ensures (r == Found && Chain(old(e.Value()), from, path, edges) && Degree(old(e.Value()), from) < 2 &&
             Joins(seg, from, Target(seg, som))) ==> SingleLoop(e.Value())
    ensures Polled(abort, polls, polls', r)
    decreases LatticeEdges(|clues|, |clues[0]|) - DrawnSet(e.status), 0
  {
    ghost var start := e.Value();
    RolledRefl(start);
    if IsDrawn(e.Value(), seg) {
      return Exhausted, polls;
    }
    e.Trace(seg);
    ghost var traced := e.Value();
    assert DrawnSet(traced.status) == DrawnSet(start.status) + {seg};
    if Chain(start, from, path, edges) && Degree(start, from) < 2 && Joins(seg, from, Target(seg, som)) {
      ChainExtend(start, from, path, edges, seg, Target(seg, som));
    }
    r, polls' := Solveur(e, clues, Target(seg, som), abort, polls,
                         path + [Target(seg, som)], edges + [seg]);
    KeptThen(start, traced, e.Value(), |clues|, |clues[0]|);
    if r == Exhausted {
      TraceEraseRolled(start, seg, e.Value());
      e.Erase(seg);
      RolledKept(start, e.Value(), |clues|, |clues[0]|);
    }
  }
}
