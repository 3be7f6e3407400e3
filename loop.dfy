/**
 * The loop analyser and the win check: longueur_boucle walks the drawn
 * segments from a start segment, nombre_segments counts them, victoire
 * combines both with the clue check (slitherlink.py:302-381).
 */
module Loop {
  import opened Wrappers
  import opened Lattice
  import opened Store
  import opened Evaluator

  /**
   * What longueur_boucle gives back: the loop length or None. The Python
   * while loop has no bound, so the model walks with fuel; Unfinished means
   * the fuel ran out while the walk was still going.
   */
  datatype LoopResult = Length(n: int) | NotALoop | Unfinished

  /** The endpoint of s other than v. */
  function Other(s: Seg, v: Point): Point
  {
    if s.q != v then s.q else s.p
  }

  /** s has the two distinct endpoints x and y. */
  ghost predicate Joins(s: Seg, x: Point, y: Point)
  {
    Has(s, x) && Has(s, y) && x != y
  }

  /**
   * One step of the walk, as the loop over segments_courant does it: each
   * segment that does not contain the previous vertex moves the walk along it
   * (precedent becomes courant, courant becomes its endpoint other than the
   * new precedent).
   */
  function Follow(segs: seq<Seg>, prev: Point, cur: Point): (Point, Point)
    decreases |segs|
  {
    if segs == [] then (prev, cur)
    else if Has(segs[0], prev) then Follow(segs[1..], prev, cur)
    else
      var cur' := if segs[0].q != cur then segs[0].q else if segs[0].p != cur then segs[0].p else cur;
      Follow(segs[1..], cur, cur')
  }

  /** When every segment holds the previous vertex, the step leaves the walk where it is. */
  lemma {:induction false} FollowStays(segs: seq<Seg>, prev: Point, cur: Point)
    requires forall k :: 0 <= k < |segs| ==> Has(segs[k], prev)
    ensures Follow(segs, prev, cur) == (prev, cur)
    decreases |segs|
  {
    if segs != [] {
      FollowStays(segs[1..], prev, cur);
    }
  }

  /**
   * The while loop of longueur_boucle from (precedent, courant) with nb_seg = n:
   * it stops at the start vertex and counts the closing segment; a vertex
   * whose drawn degree is not 2 gives None, even when the fuel is spent.
   */
  function Walk(d: Dict, depart: Point, prev: Point, cur: Point, n: nat, fuel: nat): LoopResult
    decreases fuel
  {
    if cur == depart then Length(n + 1)
    else
      var around := DrawnAt(d.keys, d.status, cur);
      if |around| != 2 then NotALoop
      else if fuel == 0 then Unfinished
      else
        var next := Follow(around, prev, cur);
        Walk(d, depart, next.0, next.1, n + 1, fuel - 1)
  }

  /** longueur_boucle, walking at most as many steps as there are drawn segments. */
  function LoopLength(d: Dict, s: Seg): LoopResult
  {
    Walk(d, s.p, s.p, s.q, 0, |DrawnSet(d.status)|)
  }

  /**
   * A length comes only from reaching the start: it counts the steps taken
   * and the closing segment, so it exceeds the count so far and is at most
   * one more than the steps allowed.
   */
  lemma {:induction false} WalkLengthBound(d: Dict, depart: Point, prev: Point, cur: Point, n: nat, fuel: nat)
    ensures Walk(d, depart, prev, cur, n, fuel).Length? ==>
              n < Walk(d, depart, prev, cur, n, fuel).n <= n + fuel + 1
    decreases fuel
  {
    if cur != depart && fuel > 0 {
      var around := DrawnAt(d.keys, d.status, cur);
      if |around| == 2 {
        var next := Follow(around, prev, cur);
        WalkLengthBound(d, depart, next.0, next.1, n + 1, fuel - 1);
      }
    }
  }

  /** longueur_boucle returns a positive length, at most one more than the drawn segments. */
  lemma LoopLengthBound(d: Dict, s: Seg)
    ensures LoopLength(d, s).Length? ==> 0 < LoopLength(d, s).n <= |DrawnSet(d.status)| + 1
  {
    WalkLengthBound(d, s.p, s.p, s.q, 0, |DrawnSet(d.status)|);
  }

  /**
   * victoire: a segment was clicked, every clue is satisfied and the walk
   * from the clicked segment is as long as the number of drawn segments.
   */
  function Victoire(d: Dict, clues: Clues, segment: Option<Seg>): (r: bool)
    ensures r ==> segment.Some? && AllSatisfied(clues, d.status) && DrawnSet(d.status) != {}
  {
    segment.Some? && AllSatisfied(clues, d.status) &&
    (LoopLengthBound(d, segment.value);
     LoopLength(d, segment.value) == Length(|DrawnSet(d.status)|))
  }

  // ---------------------------------------------------------------------
  // What a closed loop is, and why the walk from a drawn segment stops.

  ghost predicate DistinctPoints(path: seq<Point>)
  {
    forall a, b :: 0 <= a < b < |path| ==> path[a] != path[b]
  }

  /**
   * path is a cycle of at least three distinct vertices and edges[t] is the
   * segment from path[t] to the next vertex (the last one closing the cycle).
   */
  ghost predicate IsLoop(path: seq<Point>, edges: seq<Seg>)
  {
    |path| >= 3 && |edges| == |path| && DistinctPoints(path) &&
    forall t :: 0 <= t < |path| ==> Joins(edges[t], path[t], path[Succ(t, |path|)])
  }

  /** The index after t on a cycle of length m. */
  function Succ(t: nat, m: nat): nat
  {
    if t + 1 >= m then 0 else t + 1
  }

  /** The segments of a sequence, as a set. */
  function Elements(es: seq<Seg>): set<Seg>
  {
    set e | e in es
  }

  /** path and edges form a closed loop whose segments are exactly the drawn ones. */
  ghost predicate LoopOf(d: Dict, path: seq<Point>, edges: seq<Seg>)
  {
    IsLoop(path, edges) && Elements(edges) == DrawnSet(d.status)
  }

  /** The drawn segments are exactly the segments of one closed loop. */
  ghost predicate SingleLoop(d: Dict)
  {
    exists path, edges :: LoopOf(d, path, edges)
  }

  /**
   * The walk so far: path runs from the start vertex to courant, precedent is
   * the vertex before it, edges[t] is the drawn segment between path[t] and
   * path[t + 1], and every vertex left behind had drawn degree 2.
   */
  ghost predicate WalkState(d: Dict, depart: Point, prev: Point, cur: Point, n: nat, fuel: nat,
                            path: seq<Point>, edges: seq<Seg>)
  {
    |path| >= 2 && |edges| == |path| - 1 &&
    path[0] == depart && path[|path| - 1] == cur && path[|path| - 2] == prev &&
    n == |path| - 2 && fuel + n == |DrawnSet(d.status)| &&
    DistinctPoints(path) &&
    (forall t :: 0 <= t < |edges| ==> edges[t] in DrawnSet(d.status) && Joins(edges[t], path[t], path[t + 1])) &&
    (forall t :: 1 <= t < |path| - 1 ==> |DrawnAt(d.keys, d.status, path[t])| == 2)
  }

  lemma {:induction false} DistinctSeqCard(es: seq<Seg>)
    requires Distinct(es)
    ensures |Elements(es)| == |es|
  {
    if es != [] {
      var last := es[|es| - 1];
      var init := es[..|es| - 1];
      assert Elements(es) == Elements(init) + {last} by {
        assert es == init + [last];
      }
      assert last !in init;
      DistinctSeqCard(init);
    }
  }

  lemma SubsetSameCard(a: set<Seg>, b: set<Seg>)
    requires a <= b && |a| == |b|
    ensures a == b
  {
    assert b == a + (b - a);
    assert |b - a| == 0;
  }

  /** A segment joining x and y has no third endpoint. */
  lemma NotEnd(s: Seg, x: Point, y: Point, z: Point)
    requires Joins(s, x, y) && z != x && z != y
    ensures !Has(s, z)
  {
  }

  /** A drawn segment at v is listed by DrawnAt for v. */
  lemma DrawnIsListed(d: Dict, s: Seg, v: Point)
    requires IsDict(d) && s in DrawnSet(d.status) && Has(s, v)
    ensures s in DrawnAt(d.keys, d.status, v)
  {
  }

  /** A two-element sequence holding x and y holds nothing else. */
  lemma OnlyTwo(at: seq<Seg>, x: Seg, y: Seg, z: Seg)
    requires |at| == 2 && x in at && y in at && x != y && z != x && z != y
    ensures z !in at
  {
  }

  /** Segments between consecutive vertices of a path of distinct vertices are distinct. */
  lemma PathEdgesDistinct(path: seq<Point>, edges: seq<Seg>)
    requires |edges| == |path| - 1 && DistinctPoints(path)
    requires forall t :: 0 <= t < |edges| ==> Joins(edges[t], path[t], path[t + 1])
    ensures Distinct(edges)
  {
    forall a, b | 0 <= a < b < |edges|
      ensures edges[a] != edges[b]
    {
      NotEnd(edges[a], path[a], path[a + 1], path[b + 1]);
      assert Has(edges[b], path[b + 1]);
    }
  }

  /** One step from a vertex with two drawn segments, as Follow performs it. */
  lemma FollowTwo(around: seq<Seg>, prev: Point, cur: Point, back: Seg) returns (o: Seg)
    requires |around| == 2 && around[0] != around[1]
    requires WellFormed(around[0]) && WellFormed(around[1])
    requires Has(around[0], cur) && Has(around[1], cur)
    requires back in around && Joins(back, prev, cur)
    ensures o in around && o != back && WellFormed(o)
    ensures Joins(o, cur, Other(o, cur)) && !Has(o, prev)
    ensures Follow(around, prev, cur) == (cur, Other(o, cur))
  {
    o := if around[0] == back then around[1] else around[0];
    if Has(o, prev) {
      assert WellFormed(back);
      SameEndsSameSeg(o, back, prev, cur);
    }
    assert o.p != o.q;
    var step := if o.q != cur then o.q else if o.p != cur then o.p else cur;
    assert step == Other(o, cur);
    assert around[1..] == [around[1]];
    assert around[1..][1..] == [];
    if around[0] == back {
      assert Has(around[0], prev);
      assert Follow(around, prev, cur) == Follow([around[1]], prev, cur);
      assert Follow([around[1]], prev, cur) == Follow([], cur, step);
    } else {
      assert Follow(around, prev, cur) == Follow([around[1]], cur, step);
      assert Has(around[1], cur);
      assert Follow([around[1]], cur, step) == Follow([], cur, step);
    }
  }

  /**
   * The next vertex of a step is not already on the path: the vertices left
   * behind have their two drawn segments used up by the path itself.
   */
  lemma NextIsFresh(d: Dict, depart: Point, prev: Point, cur: Point, n: nat, fuel: nat,
                    path: seq<Point>, edges: seq<Seg>, o: Seg)
    requires Valid(d)
    requires WalkState(d, depart, prev, cur, n, fuel, path, edges)
    requires o in DrawnSet(d.status) && Joins(o, cur, Other(o, cur)) && !Has(o, prev)
    requires Other(o, cur) != depart
    ensures forall t :: 0 <= t < |path| ==> path[t] != Other(o, cur)
  {
    var k := |path| - 1;
    var next := Other(o, cur);
    PathEdgesDistinct(path, edges);
    forall t | 0 <= t < |path|
      ensures path[t] != next
    {
      if 1 <= t <= k - 2 {
        var at := DrawnAt(d.keys, d.status, path[t]);
        assert Joins(edges[t - 1], path[t - 1], path[t]) && edges[t - 1] in DrawnSet(d.status);
        assert Joins(edges[t], path[t], path[t + 1]) && edges[t] in DrawnSet(d.status);
        DrawnIsListed(d, edges[t - 1], path[t]);
        DrawnIsListed(d, edges[t], path[t]);
        NotEnd(edges[t - 1], path[t - 1], path[t], cur);
        NotEnd(edges[t], path[t], path[t + 1], cur);
        OnlyTwo(at, edges[t - 1], edges[t], o);
        assert !Has(o, path[t]);
      }
    }
  }

  /** A walk that closes after as many steps as there are drawn segments has gone round a single loop. */
  lemma CloseLoop(d: Dict, depart: Point, prev: Point, cur: Point, n: nat, fuel: nat,
                  path: seq<Point>, edges: seq<Seg>, o: Seg)
    requires WalkState(d, depart, prev, cur, n, fuel, path, edges)
    requires o in DrawnSet(d.status) && Joins(o, cur, depart) && !Has(o, prev)
    requires n + 2 == |DrawnSet(d.status)|
    ensures IsLoop(path, edges + [o]) && Elements(edges + [o]) == DrawnSet(d.status)
  {
    var drawn := DrawnSet(d.status);
    var k := |path| - 1;
    var loopEdges := edges + [o];
    assert depart != prev;
    assert |path| >= 3;
    assert IsLoop(path, loopEdges) by {
      forall t | 0 <= t < |path|
        ensures Joins(loopEdges[t], path[t], path[Succ(t, |path|)])
      {
        if t < k {
          assert loopEdges[t] == edges[t];
        }
      }
    }
    PathEdgesDistinct(path, edges);
    assert Distinct(loopEdges) by {
      forall t | 0 <= t < |edges|
        ensures edges[t] != o
      {
        var z := if t == 0 then path[1] else path[t];
        assert Joins(edges[t], path[t], path[t + 1]);
        assert Has(edges[t], z);
        NotEnd(o, cur, depart, z);
      }
    }
    DistinctSeqCard(loopEdges);
    assert Elements(loopEdges) <= drawn;
    SubsetSameCard(Elements(loopEdges), drawn);
  }

  /** Taking a step to a fresh vertex along a drawn segment extends the walk state. */
  lemma ExtendState(d: Dict, depart: Point, prev: Point, cur: Point, n: nat, fuel: nat,
                    path: seq<Point>, edges: seq<Seg>, o: Seg, next: Point)
    requires WalkState(d, depart, prev, cur, n, fuel, path, edges) && fuel > 0
    requires o in DrawnSet(d.status) && Joins(o, cur, next)
    requires |DrawnAt(d.keys, d.status, cur)| == 2
    requires forall t :: 0 <= t < |path| ==> path[t] != next
    ensures WalkState(d, depart, cur, next, n + 1, fuel - 1, path + [next], edges + [o])
  {
    var path' := path + [next];
    var edges' := edges + [o];
    forall a, b | 0 <= a < b < |path'|
      ensures path'[a] != path'[b]
    {
      if b < |path| {
        assert path'[a] == path[a] && path'[b] == path[b];
      }
    }
    forall t | 0 <= t < |edges'|
      ensures edges'[t] in DrawnSet(d.status) && Joins(edges'[t], path'[t], path'[t + 1])
    {
      if t < |edges| {
        assert edges'[t] == edges[t] && path'[t] == path[t] && path'[t + 1] == path[t + 1];
      }
    }
    forall t | 1 <= t < |path'| - 1
      ensures |DrawnAt(d.keys, d.status, path'[t])| == 2
    {
      assert path'[t] == path[t];
    }
  }

  /** With fuel plus steps equal to the number of drawn segments, a walk state always has fuel left. */
  lemma FuelLeft(d: Dict, depart: Point, prev: Point, cur: Point, n: nat, fuel: nat,
                 path: seq<Point>, edges: seq<Seg>)
    requires WalkState(d, depart, prev, cur, n, fuel, path, edges)
    ensures fuel > 0 && cur != depart
  {
    assert path[0] == depart && path[|path| - 1] == cur;
    PathEdgesDistinct(path, edges);
    DistinctSeqCard(edges);
    SubsetCard(Elements(edges), DrawnSet(d.status));
  }

  /** At a vertex with two drawn segments the walk leaves along the one it did not arrive by. */
  lemma NextSegment(d: Dict, depart: Point, prev: Point, cur: Point, n: nat, fuel: nat,
                    path: seq<Point>, edges: seq<Seg>) returns (o: Seg)
    requires Valid(d) && KeysWellFormed(d)
    requires WalkState(d, depart, prev, cur, n, fuel, path, edges)
    requires |DrawnAt(d.keys, d.status, cur)| == 2
    ensures o in DrawnSet(d.status) && Joins(o, cur, Other(o, cur)) && !Has(o, prev)
    ensures Follow(DrawnAt(d.keys, d.status, cur), prev, cur) == (cur, Other(o, cur))
    ensures fuel > 0 ==> Walk(d, depart, prev, cur, n, fuel) == Walk(d, depart, cur, Other(o, cur), n + 1, fuel - 1)
  {
    assert path[0] == depart && path[|path| - 1] == cur;
    var around := DrawnAt(d.keys, d.status, cur);
    var back := edges[|edges| - 1];
    assert Joins(back, prev, cur) && back in DrawnSet(d.status);
    DrawnIsListed(d, back, cur);
    assert around[0] in d.status && around[1] in d.status;
    o := FollowTwo(around, prev, cur, back);
  }

  /**
   * One step of the walk from a vertex with two drawn segments: the walk
   * leaves along segment o, and either reaches a fresh vertex (the walk state
   * grows by it) or closes at the start.
   */
  lemma StepFrom(d: Dict, depart: Point, prev: Point, cur: Point, n: nat, fuel: nat,
                 path: seq<Point>, edges: seq<Seg>) returns (o: Seg)
    requires Valid(d) && KeysWellFormed(d)
    requires WalkState(d, depart, prev, cur, n, fuel, path, edges)
    requires |DrawnAt(d.keys, d.status, cur)| == 2
    ensures fuel > 0
    ensures Walk(d, depart, prev, cur, n, fuel) == Walk(d, depart, cur, Other(o, cur), n + 1, fuel - 1)
    ensures Other(o, cur) != depart ==>
              WalkState(d, depart, cur, Other(o, cur), n + 1, fuel - 1, path + [Other(o, cur)], edges + [o])
    ensures Other(o, cur) == depart ==> Walk(d, depart, prev, cur, n, fuel) == Length(n + 2)
    ensures Other(o, cur) == depart && fuel == 2 ==> LoopOf(d, path, edges + [o])
  {
    FuelLeft(d, depart, prev, cur, n, fuel, path, edges);
    o := NextSegment(d, depart, prev, cur, n, fuel, path, edges);
    if Other(o, cur) != depart {
      NextIsFresh(d, depart, prev, cur, n, fuel, path, edges, o);
      ExtendState(d, depart, prev, cur, n, fuel, path, edges, o, Other(o, cur));
    } else if fuel == 2 {
      CloseLoop(d, depart, prev, cur, n, fuel, path, edges, o);
    }
  }

  /** At a vertex whose drawn degree is not 2 the walk reports no loop. */
  lemma WalkStops(d: Dict, depart: Point, prev: Point, cur: Point, n: nat, fuel: nat,
                  path: seq<Point>, edges: seq<Seg>)
    requires WalkState(d, depart, prev, cur, n, fuel, path, edges)
    requires |DrawnAt(d.keys, d.status, cur)| != 2
    ensures Walk(d, depart, prev, cur, n, fuel) == NotALoop
  {
    FuelLeft(d, depart, prev, cur, n, fuel, path, edges);
  }

  /**
   * One step of a walk that closes with as many steps as there are drawn
   * segments: it either closes the loop here or goes on to a walk state
   * that still closes with the same count.
   */
  lemma StepOrClose(d: Dict, depart: Point, prev: Point, cur: Point, n: nat, fuel: nat,
                    path: seq<Point>, edges: seq<Seg>) returns (o: Seg)
    requires Valid(d) && KeysWellFormed(d)
    requires WalkState(d, depart, prev, cur, n, fuel, path, edges)
    requires Walk(d, depart, prev, cur, n, fuel) == Length(n + fuel)
    ensures fuel > 0
    ensures Other(o, cur) != depart ==>
              WalkState(d, depart, cur, Other(o, cur), n + 1, fuel - 1, path + [Other(o, cur)], edges + [o]) &&
              Walk(d, depart, cur, Other(o, cur), n + 1, fuel - 1) == Length(n + 1 + (fuel - 1))
    ensures Other(o, cur) == depart ==> LoopOf(d, path, edges + [o])
  {
    FuelLeft(d, depart, prev, cur, n, fuel, path, edges);
    if |DrawnAt(d.keys, d.status, cur)| != 2 {
      WalkStops(d, depart, prev, cur, n, fuel, path, edges);
      assert false;
    }
    o := StepFrom(d, depart, prev, cur, n, fuel, path, edges);
  }

  /**
   * The heart of the termination argument: from a walk state the walk never
   * runs out of fuel, because it never revisits a vertex and each step uses a
   * fresh drawn segment.
   */
  lemma {:induction false} WalkFromState(d: Dict, depart: Point, prev: Point, cur: Point, n: nat, fuel: nat,
                                         path: seq<Point>, edges: seq<Seg>)
    requires Valid(d) && KeysWellFormed(d)
    requires WalkState(d, depart, prev, cur, n, fuel, path, edges)
    ensures Walk(d, depart, prev, cur, n, fuel) != Unfinished
    decreases fuel
  {
    FuelLeft(d, depart, prev, cur, n, fuel, path, edges);
    if |DrawnAt(d.keys, d.status, cur)| == 2 {
      var o := StepFrom(d, depart, prev, cur, n, fuel, path, edges);
      if Other(o, cur) != depart {
        WalkFromState(d, depart, cur, Other(o, cur), n + 1, fuel - 1, path + [Other(o, cur)], edges + [o]);
      }
    }
  }

  /**
   * When the walk from a walk state closes with as many steps as there are
   * drawn segments, those segments form a single loop.
   */
  lemma {:induction false} WalkClosesLoop(d: Dict, depart: Point, prev: Point, cur: Point, n: nat, fuel: nat,
                                          path: seq<Point>, edges: seq<Seg>)
    returns (loop: seq<Point>, around: seq<Seg>)
    requires Valid(d) && KeysWellFormed(d)
    requires WalkState(d, depart, prev, cur, n, fuel, path, edges)
    requires Walk(d, depart, prev, cur, n, fuel) == Length(n + fuel)
    ensures LoopOf(d, loop, around)
    decreases fuel
  {
    var o := StepOrClose(d, depart, prev, cur, n, fuel, path, edges);
    if Other(o, cur) != depart {
      loop, around := WalkClosesLoop(d, depart, cur, Other(o, cur), n + 1, fuel - 1,
                                     path + [Other(o, cur)], edges + [o]);
    } else {
      loop, around := path, edges + [o];
    }
  }

  /**
   * longueur_boucle returns (a length or None) whenever the start segment is
   * drawn: the walk never needs more steps than there are drawn segments.
   */
  lemma LoopLengthReturns(d: Dict, s: Seg)
    requires Valid(d) && KeysWellFormed(d) && IsDrawn(d, s)
    ensures LoopLength(d, s) != Unfinished
    ensures LoopLength(d, s) == Length(|DrawnSet(d.status)|) ==> SingleLoop(d)
  {
    assert WellFormed(s);
    WalkFromState(d, s.p, s.p, s.q, 0, |DrawnSet(d.status)|, [s.p, s.q], [s]);
    if LoopLength(d, s) == Length(|DrawnSet(d.status)|) {
      var loop, around := WalkClosesLoop(d, s.p, s.p, s.q, 0, |DrawnSet(d.status)|, [s.p, s.q], [s]);
    }
  }

  // ---------------------------------------------------------------------
  // The converse: around a single loop the walk comes back to its start.

  /** The index before t on a cycle of length m. */
  function Pred(t: nat, m: nat): nat
    requires t < m
  {
    if t == 0 then m - 1 else t - 1
  }

  /** Walking along a segment from one of its ends leads to the other end. */
  lemma OtherEnd(s: Seg, x: Point, y: Point)
    requires Joins(s, x, y)
    ensures Other(s, x) == y
  {
  }

  /** The loop segments at a vertex of the loop are the two beside it on the cycle. */
  lemma LoopIncidence(path: seq<Point>, edges: seq<Seg>, t: nat, s: Seg)
    requires IsLoop(path, edges) && t < |path| && s in edges && Has(s, path[t])
    ensures s == edges[t] || s == edges[Pred(t, |path|)]
  {
    var m := |path|;
    var u :| 0 <= u < m && edges[u] == s;
    assert Joins(edges[u], path[u], path[Succ(u, m)]);
    assert path[t] == path[u] || path[t] == path[Succ(u, m)];
    assert t == u || t == Succ(u, m);
  }

  /** A loop never uses a segment twice. */
  lemma LoopEdgesDistinct(path: seq<Point>, edges: seq<Seg>)
    requires IsLoop(path, edges)
    ensures Distinct(edges)
  {
    var m := |path|;
    forall a, b | 0 <= a < b < m
      ensures edges[a] != edges[b]
    {
      var z := if b != Succ(a, m) then path[b] else path[Succ(b, m)];
      assert Joins(edges[a], path[a], path[Succ(a, m)]);
      assert Joins(edges[b], path[b], path[Succ(b, m)]);
      NotEnd(edges[a], path[a], path[Succ(a, m)], z);
    }
  }

  /** Position t of the cycle read from position i. */
  function Shift(i: nat, t: nat, m: nat): nat
  {
    if i + t < m then i + t else i + t - m
  }

  /** The cycle read from position i. */
  function Rotate<T>(s: seq<T>, i: nat): (r: seq<T>)
    requires i < |s|
    ensures |r| == |s| && forall t :: 0 <= t < |s| ==> r[t] == s[Shift(i, t, |s|)]
  {
    seq(|s|, t requires 0 <= t < |s| => s[Shift(i, t, |s|)])
  }

  lemma ShiftSucc(i: nat, t: nat, m: nat)
    requires i < m && t < m
    ensures Shift(i, t, m) < m && Shift(i, Succ(t, m), m) == Succ(Shift(i, t, m), m)
  {
  }

  /** Reading a cycle from position i visits every position once. */
  lemma RotateDistinct(path: seq<Point>, i: nat)
    requires DistinctPoints(path) && i < |path|
    ensures DistinctPoints(Rotate(path, i))
  {
    var m := |path|;
    var p' := Rotate(path, i);
    forall a, b | 0 <= a < b < m
      ensures p'[a] != p'[b]
    {
      assert Shift(i, a, m) != Shift(i, b, m);
    }
  }

  /** Reading a cycle from position i keeps its elements. */
  lemma RotateElements(edges: seq<Seg>, i: nat)
    requires i < |edges|
    ensures Elements(Rotate(edges, i)) == Elements(edges)
  {
    var m := |edges|;
    var e' := Rotate(edges, i);
    forall e | e in edges
      ensures e in e'
    {
      var u :| 0 <= u < m && edges[u] == e;
      var t := if u >= i then u - i else u + m - i;
      assert Shift(i, t, m) == u;
      assert e'[t] == e;
    }
  }

  /** Reading a loop from another vertex gives a loop over the same segments. */
  lemma RotateLoop(path: seq<Point>, edges: seq<Seg>, i: nat)
    requires IsLoop(path, edges) && i < |path|
    ensures IsLoop(Rotate(path, i), Rotate(edges, i))
    ensures Elements(Rotate(edges, i)) == Elements(edges)
    ensures Rotate(path, i)[0] == path[i] && Rotate(path, i)[1] == path[Succ(i, |path|)]
  {
    var m := |path|;
    var p', e' := Rotate(path, i), Rotate(edges, i);
    RotateDistinct(path, i);
    forall t | 0 <= t < m
      ensures Joins(e'[t], p'[t], p'[Succ(t, m)])
    {
      ShiftSucc(i, t, m);
      assert Joins(edges[Shift(i, t, m)], path[Shift(i, t, m)], path[Succ(Shift(i, t, m), m)]);
    }
    RotateElements(edges, i);
    ShiftSucc(i, 0, m);
  }

  /** The cycle read backwards, keeping position 0 in place. */
  function ReversePath(path: seq<Point>): (r: seq<Point>)
    requires |path| > 0
    ensures |r| == |path| && r[0] == path[0]
    ensures forall t :: 0 < t < |path| ==> r[t] == path[|path| - t]
  {
    seq(|path|, t requires 0 <= t < |path| => if t == 0 then path[0] else path[|path| - t])
  }

  /** The segments of a reversed cycle, in their new order. */
  function ReverseEdges(edges: seq<Seg>): (r: seq<Seg>)
    ensures |r| == |edges| && forall t :: 0 <= t < |edges| ==> r[t] == edges[|edges| - 1 - t]
  {
    seq(|edges|, t requires 0 <= t < |edges| => edges[|edges| - 1 - t])
  }

  /** Reading distinct vertices backwards keeps them distinct. */
  lemma ReverseDistinct(path: seq<Point>)
    requires |path| > 0 && DistinctPoints(path)
    ensures DistinctPoints(ReversePath(path))
  {
    var m, p' := |path|, ReversePath(path);
    forall a, b | 0 <= a < b < m
      ensures p'[a] != p'[b]
    {
      assert p'[b] == path[m - b];
    }
  }

  /** Reversing a sequence of segments keeps the same segments. */
  lemma ReverseElements(edges: seq<Seg>)
    ensures Elements(ReverseEdges(edges)) == Elements(edges)
  {
    var m, e' := |edges|, ReverseEdges(edges);
    forall e | e in edges
      ensures e in e'
    {
      var u :| 0 <= u < m && edges[u] == e;
      assert e'[m - 1 - u] == e;
    }
  }

  /** Reading a loop the other way round gives a loop over the same segments. */
  lemma ReverseLoop(path: seq<Point>, edges: seq<Seg>)
    requires IsLoop(path, edges)
    ensures IsLoop(ReversePath(path), ReverseEdges(edges))
    ensures Elements(ReverseEdges(edges)) == Elements(edges)
  {
    var m := |path|;
    var p', e' := ReversePath(path), ReverseEdges(edges);
    ReverseDistinct(path);
    forall t | 0 <= t < m
      ensures Joins(e'[t], p'[t], p'[Succ(t, m)])
    {
      assert Joins(edges[m - 1 - t], path[m - 1 - t], path[Succ(m - 1 - t, m)]);
    }
    ReverseElements(edges);
  }

  /** A segment of a loop walked backwards can be made its first one, walked forwards. */
  lemma LoopFromBack(path: seq<Point>, edges: seq<Seg>, i: nat) returns (path': seq<Point>, edges': seq<Seg>)
    requires IsLoop(path, edges) && i < |path|
    ensures IsLoop(path', edges') && Elements(edges') == Elements(edges)
    ensures path'[0] == path[Succ(i, |path|)] && path'[1] == path[i]
  {
    var m := |path|;
    var rp, re := ReversePath(path), ReverseEdges(edges);
    ReverseLoop(path, edges);
    var j := m - 1 - i;
    assert rp[j] == path[Succ(i, m)] && rp[Succ(j, m)] == path[i];
    RotateLoop(rp, re, j);
    path', edges' := Rotate(rp, j), Rotate(re, j);
  }

  /** Any segment of a loop can be made its first one, walked in its own direction. */
  lemma LoopFrom(path: seq<Point>, edges: seq<Seg>, s: Seg) returns (path': seq<Point>, edges': seq<Seg>)
    requires IsLoop(path, edges) && s in edges && WellFormed(s)
    ensures IsLoop(path', edges') && Elements(edges') == Elements(edges)
    ensures path'[0] == s.p && path'[1] == s.q
  {
    var m := |path|;
    var i :| 0 <= i < m && edges[i] == s;
    assert Joins(s, path[i], path[Succ(i, m)]);
    if s.p == path[i] {
      RotateLoop(path, edges, i);
      path', edges' := Rotate(path, i), Rotate(edges, i);
    } else {
      path', edges' := LoopFromBack(path, edges, i);
    }
  }

  /** Around a loop, the vertex at position j has exactly the drawn segments before and after it. */
  lemma LoopVertexSegments(d: Dict, path: seq<Point>, edges: seq<Seg>, j: nat)
    requires Valid(d) && KeysWellFormed(d)
    requires LoopOf(d, path, edges)
    requires 1 <= j < |path|
    ensures |DrawnAt(d.keys, d.status, path[j])| == 2
    ensures forall s :: s in DrawnAt(d.keys, d.status, path[j]) <==> s == edges[j - 1] || s == edges[j]
  {
    var m := |path|;
    var around := DrawnAt(d.keys, d.status, path[j]);
    var before, after := edges[j - 1], edges[j];
    assert Joins(before, path[j - 1], path[j]);
    assert Joins(after, path[j], path[Succ(j, m)]);
    LoopEdgesDistinct(path, edges);
    assert before != after;
    forall s | s in around
      ensures s == before || s == after
    {
      assert s in DrawnSet(d.status);
      LoopIncidence(path, edges, j, s);
    }
    DrawnIsListed(d, before, path[j]);
    DrawnIsListed(d, after, path[j]);
    assert (set s | s in around) == {before, after};
    DistinctSeqCard(around);
  }

  /** Around a loop, the walk goes from position j on to the next position. */
  lemma LoopWalkStep(d: Dict, path: seq<Point>, edges: seq<Seg>, j: nat)
    requires Valid(d) && KeysWellFormed(d)
    requires LoopOf(d, path, edges)
    requires 1 <= j < |path|
    ensures Walk(d, path[0], path[j - 1], path[j], j - 1, |path| - (j - 1))
         == Walk(d, path[0], path[j], path[Succ(j, |path|)], j, |path| - j)
  {
    var m := |path|;
    var around := DrawnAt(d.keys, d.status, path[j]);
    LoopVertexSegments(d, path, edges, j);
    assert Joins(edges[j - 1], path[j - 1], path[j]);
    assert Joins(edges[j], path[j], path[Succ(j, m)]);
    assert around[0] in d.status && around[1] in d.status;
    var o := FollowTwo(around, path[j - 1], path[j], edges[j - 1]);
    assert o == edges[j];
    OtherEnd(edges[j], path[j], path[Succ(j, m)]);
  }

  /** Around a loop, the walk at position j comes back to position 0 after the remaining steps. */
  lemma {:induction false} WalkAroundLoop(d: Dict, path: seq<Point>, edges: seq<Seg>, j: nat)
    requires Valid(d) && KeysWellFormed(d)
    requires LoopOf(d, path, edges)
    requires 1 <= j < |path|
    ensures Walk(d, path[0], path[j - 1], path[j], j - 1, |path| - (j - 1)) == Length(|path|)
    decreases |path| - j
  {
    LoopWalkStep(d, path, edges, j);
    if j + 1 < |path| {
      WalkAroundLoop(d, path, edges, j + 1);
    }
  }

  /** Around a loop, the walk from its first segment comes back after as many steps as the loop is long. */
  lemma WalkRoundLoop(d: Dict, path: seq<Point>, edges: seq<Seg>)
    requires Valid(d) && KeysWellFormed(d)
    requires LoopOf(d, path, edges)
    ensures Walk(d, path[0], path[0], path[1], 0, |path|) == Length(|path|)
  {
    WalkAroundLoop(d, path, edges, 1);
  }

  /** longueur_boucle from any drawn segment of a single loop gives the number of drawn segments. */
  lemma LoopLengthOfSingleLoop(d: Dict, s: Seg)
    requires Valid(d) && KeysWellFormed(d) && IsDrawn(d, s) && SingleLoop(d)
    ensures LoopLength(d, s) == Length(|DrawnSet(d.status)|)
  {
    var path, edges :| LoopOf(d, path, edges);
    assert s in DrawnSet(d.status);
    var path', edges' := LoopFrom(path, edges, s);
    LoopEdgesDistinct(path', edges');
    DistinctSeqCard(edges');
    assert LoopOf(d, path', edges');
    WalkRoundLoop(d, path', edges');
  }

  /**
   * From a drawn segment, longueur_boucle equals nombre_segments exactly when
   * the drawn segments form a single closed loop.
   */
  lemma WinningWalk(d: Dict, s: Seg)
    requires Valid(d) && KeysWellFormed(d) && IsDrawn(d, s)
    ensures LoopLength(d, s) != Unfinished
    ensures LoopLength(d, s) == Length(|DrawnSet(d.status)|) <==> SingleLoop(d)
  {
    LoopLengthReturns(d, s);
    if SingleLoop(d) {
      LoopLengthOfSingleLoop(d, s);
    }
  }

  /** In a single loop, every vertex touched by a drawn segment is touched by a second one. */
  lemma SingleLoopDegree(d: Dict, s: Seg, v: Point) returns (s2: Seg)
    requires SingleLoop(d) && s in DrawnSet(d.status) && Has(s, v)
    ensures s2 in DrawnSet(d.status) && s2 != s && Has(s2, v)
  {
    var path, edges :| LoopOf(d, path, edges);
    var m := |path|;
    var u :| 0 <= u < m && edges[u] == s;
    assert Joins(s, path[u], path[Succ(u, m)]);
    var t := if v == path[u] then u else Succ(u, m);
    assert Joins(edges[t], path[t], path[Succ(t, m)]);
    assert Joins(edges[Pred(t, m)], path[Pred(t, m)], path[Succ(Pred(t, m), m)]);
    LoopEdgesDistinct(path, edges);
    s2 := if edges[t] != s then edges[t] else edges[Pred(t, m)];
  }

  // ---------------------------------------------------------------------
  // The examples of longueur_boucle and victoire.

  /** The unit square, keys in the order the first example inserts them. */
  function UnitSquare(): Dict
  {
    Dict([Across(0, 0), Down(0, 1), Across(1, 0), Down(0, 0)],
         map[Across(0, 0) := DRAWN, Down(0, 1) := DRAWN, Across(1, 0) := DRAWN, Down(0, 0) := DRAWN])
  }

  /** The walk length at a vertex is the number of drawn segments there. */
  lemma DegreeOf(d: Dict, v: Point, around: set<Seg>)
    requires IsDict(d)
    requires forall s :: s in around <==> s in DrawnSet(d.status) && Has(s, v)
    ensures |DrawnAt(d.keys, d.status, v)| == |around|
  {
    var r := DrawnAt(d.keys, d.status, v);
    assert (set s | s in r) == around;
    DistinctSeqCard(r);
  }

  /** A concrete loop witness gives the walk length of a drawn segment on it. */
  lemma LengthFromWitness(d: Dict, s: Seg, path: seq<Point>, edges: seq<Seg>)
    requires Valid(d) && KeysWellFormed(d) && IsDrawn(d, s)
    requires IsLoop(path, edges) && Elements(edges) == DrawnSet(d.status)
    ensures LoopLength(d, s) == Length(|edges|)
  {
    assert LoopOf(d, path, edges);
    LoopLengthOfSingleLoop(d, s);
    LoopEdgesDistinct(path, edges);
    DistinctSeqCard(edges);
  }

  /** The corners of the unit square, in the order its keys go round it. */
  function UnitSquarePath(): seq<Point>
  {
    [Point(0, 0), Point(0, 1), Point(1, 1), Point(1, 0)]
  }

  lemma UnitSquareIsLoop()
    ensures IsLoop(UnitSquarePath(), UnitSquare().keys)
  {
  }

  lemma UnitSquareStore()
    ensures Valid(UnitSquare()) && KeysWellFormed(UnitSquare())
    ensures DrawnSet(UnitSquare().status) == Elements(UnitSquare().keys)
  {
  }

  lemma UnitSquareLength()
    ensures LoopLength(UnitSquare(), Down(0, 0)) == Length(4)
  {
    UnitSquareIsLoop();
    UnitSquareStore();
    LengthFromWitness(UnitSquare(), Down(0, 0), UnitSquarePath(), UnitSquare().keys);
  }

  /** Two segments of the unit square: the walk reaches a vertex with one drawn segment. */
  lemma OpenPathIsNotALoop()
    ensures LoopLength(Dict([Across(0, 0), Down(0, 1)], map[Across(0, 0) := DRAWN, Down(0, 1) := DRAWN]),
                       Down(0, 1)) == NotALoop
  {
    var d := Dict([Across(0, 0), Down(0, 1)], map[Across(0, 0) := DRAWN, Down(0, 1) := DRAWN]);
    assert DrawnSet(d.status) == {Across(0, 0), Down(0, 1)};
    DegreeOf(d, Point(1, 1), {Down(0, 1)});
  }

  /**
   * With nothing drawn the first vertex reached has degree 0, so the walk
   * gives None at once, whatever the start segment.
   */
  lemma NothingDrawnIsNotALoop(d: Dict, s: Seg)
    requires IsDict(d) && DrawnSet(d.status) == {} && s.p != s.q
    ensures LoopLength(d, s) == NotALoop
  {
    DegreeOf(d, s.q, {});
  }

  /** The empty grid: a click on its top-left segment gives None. */
  lemma EmptyStoreIsNotALoop()
    ensures LoopLength(Dict([], map[]), Across(0, 0)) == NotALoop
  {
    NothingDrawnIsNotALoop(Dict([], map[]), Across(0, 0));
  }

  /** The 2x2 grid of the victoire example: its outline, every clue 2. */
  function Outline2x2(): Dict
  {
    Dict([Across(0, 0), Across(0, 1), Down(0, 2), Down(1, 2), Across(2, 1), Across(2, 0), Down(1, 0), Down(0, 0)],
         map[Across(0, 0) := DRAWN, Across(0, 1) := DRAWN, Down(0, 2) := DRAWN, Down(1, 2) := DRAWN,
             Across(2, 1) := DRAWN, Across(2, 0) := DRAWN, Down(1, 0) := DRAWN, Down(0, 0) := DRAWN])
  }

  function OutlinePath(): seq<Point>
  {
    [Point(0, 0), Point(0, 1), Point(0, 2), Point(1, 2), Point(2, 2), Point(2, 1), Point(2, 0), Point(1, 0)]
  }

  lemma OutlineIsLoop()
    ensures IsLoop(OutlinePath(), Outline2x2().keys)
  {
  }

  lemma OutlineKeysDistinct()
    ensures Distinct(Outline2x2().keys)
  {
  }

  lemma OutlineValues()
    ensures forall s :: s in Outline2x2().status <==> s in Outline2x2().keys
    ensures forall s :: s in Outline2x2().status ==> Outline2x2().status[s] == DRAWN && WellFormed(s)
  {
  }

  lemma OutlineStore()
    ensures Valid(Outline2x2()) && KeysWellFormed(Outline2x2())
    ensures DrawnSet(Outline2x2().status) == Elements(Outline2x2().keys)
  {
    OutlineKeysDistinct();
    OutlineValues();
  }

  lemma Outline2x2Loop()
    ensures LoopLength(Outline2x2(), Down(0, 0)) == Length(8)
    ensures |DrawnSet(Outline2x2().status)| == 8
  {
    OutlineIsLoop();
    OutlineStore();
    LengthFromWitness(Outline2x2(), Down(0, 0), OutlinePath(), Outline2x2().keys);
    LoopEdgesDistinct(OutlinePath(), Outline2x2().keys);
    DistinctSeqCard(Outline2x2().keys);
  }

  /** The drawn segments of the outline, as a set. */
  lemma OutlineDrawn()
    ensures DrawnSet(Outline2x2().status)
         == {Across(0, 0), Across(0, 1), Down(0, 2), Down(1, 2), Across(2, 1), Across(2, 0), Down(1, 0), Down(0, 0)}
  {
  }

  /** Cell (i, j) has exactly the two drawn borders x and y. */
  lemma TwoBorders(status: map<Seg, int>, i: int, j: int, x: Seg, y: Seg)
    requires DrawnBorders(status, i, j) == {x, y} && x != y
    ensures BorderCount(status, i, j) == 2
  {
  }

  lemma OutlineCell00()
    ensures BorderCount(Outline2x2().status, 0, 0) == 2
  {
    OutlineDrawn();
    assert DrawnBorders(Outline2x2().status, 0, 0) == {Across(0, 0), Down(0, 0)};
    TwoBorders(Outline2x2().status, 0, 0, Across(0, 0), Down(0, 0));
  }

  lemma OutlineCell01()
    ensures BorderCount(Outline2x2().status, 0, 1) == 2
  {
    OutlineDrawn();
    assert DrawnBorders(Outline2x2().status, 0, 1) == {Across(0, 1), Down(0, 2)};
    TwoBorders(Outline2x2().status, 0, 1, Across(0, 1), Down(0, 2));
  }

  lemma OutlineCell10()
    ensures BorderCount(Outline2x2().status, 1, 0) == 2
  {
    OutlineDrawn();
    assert DrawnBorders(Outline2x2().status, 1, 0) == {Down(1, 0), Across(2, 0)};
    TwoBorders(Outline2x2().status, 1, 0, Down(1, 0), Across(2, 0));
  }

  lemma OutlineCell11()
    ensures BorderCount(Outline2x2().status, 1, 1) == 2
  {
    OutlineDrawn();
    assert DrawnBorders(Outline2x2().status, 1, 1) == {Across(2, 1), Down(1, 2)};
    TwoBorders(Outline2x2().status, 1, 1, Across(2, 1), Down(1, 2));
  }

  lemma AllTwosSatisfied(status: map<Seg, int>)
    requires BorderCount(status, 0, 0) == 2 && BorderCount(status, 0, 1) == 2
    requires BorderCount(status, 1, 0) == 2 && BorderCount(status, 1, 1) == 2
    ensures AllSatisfied([[Some(2), Some(2)], [Some(2), Some(2)]], status)
  {
  }

  /** The outline satisfies the clue 2 in each of the four cells. */
  lemma OutlineSatisfied()
    ensures AllSatisfied([[Some(2), Some(2)], [Some(2), Some(2)]], Outline2x2().status)
  {
    OutlineCell00();
    OutlineCell01();
    OutlineCell10();
    OutlineCell11();
    AllTwosSatisfied(Outline2x2().status);
  }

  lemma WinIntro(d: Dict, clues: Clues, s: Seg, n: nat)
    requires AllSatisfied(clues, d.status) && |DrawnSet(d.status)| == n && LoopLength(d, s) == Length(n)
    ensures Victoire(d, clues, Some(s))
  {
  }

  lemma Outline2x2Wins()
    ensures Victoire(Outline2x2(), [[Some(2), Some(2)], [Some(2), Some(2)]], Some(Down(0, 0)))
  {
    Outline2x2Loop();
    OutlineSatisfied();
    WinIntro(Outline2x2(), [[Some(2), Some(2)], [Some(2), Some(2)]], Down(0, 0), 8);
  }

  // ---------------------------------------------------------------------
  // Walking from a segment that is not drawn.

  /** A walk step at a vertex with two drawn segments. */
  lemma WalkStep(d: Dict, depart: Point, prev: Point, cur: Point, n: nat, fuel: nat,
                 around: seq<Seg>, prev': Point, cur': Point)
    requires cur != depart && fuel > 0
    requires DrawnAt(d.keys, d.status, cur) == around && |around| == 2
    requires Follow(around, prev, cur) == (prev', cur')
    ensures Walk(d, depart, prev, cur, n, fuel) == Walk(d, depart, prev', cur', n + 1, fuel - 1)
  {
  }

  /** Reaching the start vertex ends the walk, counting the step that reached it. */
  lemma WalkArrives(d: Dict, depart: Point, prev: Point, n: nat, fuel: nat)
    ensures Walk(d, depart, prev, depart, n, fuel) == Length(n + 1)
  {
  }

  /**
   * At a vertex with drawn segments a and b, the walk leaves along b when a
   * is the one it arrived by, and along a when a does not touch the vertex
   * it came from.
   */
  lemma WalkAlong(d: Dict, depart: Point, prev: Point, cur: Point, n: nat, fuel: nat, a: Seg, b: Seg, next: Point)
    requires cur != depart && fuel > 0 && next != prev
    requires DrawnAt(d.keys, d.status, cur) == [a, b]
    requires (Joins(a, prev, cur) && Joins(b, cur, next)) || (!Has(a, prev) && Joins(a, cur, next) && Has(b, cur))
    ensures Walk(d, depart, prev, cur, n, fuel) == Walk(d, depart, cur, next, n + 1, fuel - 1)
  {
    assert [a, b][1..] == [b];
    if Has(a, prev) {
      assert !Has(b, prev);
      assert Follow([a, b], prev, cur) == Follow([b], prev, cur);
      assert Follow([b], prev, cur) == Follow([], cur, next);
    } else {
      assert Follow([a, b], prev, cur) == Follow([b], cur, next);
      assert Follow([b], cur, next) == Follow([], cur, next);
    }
    WalkStep(d, depart, prev, cur, n, fuel, [a, b], cur, next);
  }

  /**
   * A 1x2 grid after the top of cell (0, 0) was erased: three borders of
   * cell (0, 0) and the top of cell (0, 1) are drawn.
   */
  function AfterErase(): Dict
  {
    Dict([Down(0, 1), Across(1, 0), Down(0, 0), Across(0, 1)],
         map[Down(0, 1) := DRAWN, Across(1, 0) := DRAWN, Down(0, 0) := DRAWN, Across(0, 1) := DRAWN])
  }

  /** DrawnAt looks at one more key at the end. */
  lemma DrawnAtSnoc(ks: seq<Seg>, status: map<Seg, int>, v: Point, s: Seg)
    ensures DrawnAt(ks + [s], status, v)
         == DrawnAt(ks, status, v) + (if s in status && status[s] == DRAWN && Has(s, v) then [s] else [])
  {
    assert (ks + [s])[..|ks|] == ks;
  }

  /** DrawnAt over four keys, one at a time. */
  lemma DrawnAtFour(a: Seg, b: Seg, c: Seg, e: Seg, status: map<Seg, int>, v: Point)
    ensures DrawnAt([a, b, c, e], status, v)
         == (if a in status && status[a] == DRAWN && Has(a, v) then [a] else []) +
            (if b in status && status[b] == DRAWN && Has(b, v) then [b] else []) +
            (if c in status && status[c] == DRAWN && Has(c, v) then [c] else []) +
            (if e in status && status[e] == DRAWN && Has(e, v) then [e] else [])
  {
    assert [a] == [] + [a];
    assert [a, b] == [a] + [b];
    assert [a, b, c] == [a, b] + [c];
    assert [a, b, c, e] == [a, b, c] + [e];
    DrawnAtSnoc([], status, v, a);
    DrawnAtSnoc([a], status, v, b);
    DrawnAtSnoc([a, b], status, v, c);
    DrawnAtSnoc([a, b, c], status, v, e);
  }

  /** DrawnAt over four keys that are all drawn keeps those that touch v. */
  lemma DrawnAtFourDrawn(a: Seg, b: Seg, c: Seg, e: Seg, status: map<Seg, int>, v: Point)
    requires a in status && b in status && c in status && e in status
    requires status[a] == DRAWN && status[b] == DRAWN && status[c] == DRAWN && status[e] == DRAWN
    ensures DrawnAt([a, b, c, e], status, v)
         == (if Has(a, v) then [a] else []) + (if Has(b, v) then [b] else []) +
            (if Has(c, v) then [c] else []) + (if Has(e, v) then [e] else [])
  {
    DrawnAtFour(a, b, c, e, status, v);
  }

  /** Every key of a four-key store whose values are all DRAWN is drawn. */
  lemma FourDrawn(a: Seg, b: Seg, c: Seg, e: Seg)
    ensures var status := map[a := DRAWN, b := DRAWN, c := DRAWN, e := DRAWN];
            a in status && b in status && c in status && e in status &&
            status[a] == DRAWN && status[b] == DRAWN && status[c] == DRAWN && status[e] == DRAWN
  {
  }

  /** DrawnAt at vertex v of the store after the erase. */
  lemma AfterEraseAt(v: Point)
    ensures DrawnAt(AfterErase().keys, AfterErase().status, v)
         == (if Has(Down(0, 1), v) then [Down(0, 1)] else []) + (if Has(Across(1, 0), v) then [Across(1, 0)] else []) +
            (if Has(Down(0, 0), v) then [Down(0, 0)] else []) + (if Has(Across(0, 1), v) then [Across(0, 1)] else [])
  {
    FourDrawn(Down(0, 1), Across(1, 0), Down(0, 0), Across(0, 1));
    DrawnAtFourDrawn(Down(0, 1), Across(1, 0), Down(0, 0), Across(0, 1), AfterErase().status, v);
  }

  lemma AfterEraseAt01()
    ensures DrawnAt(AfterErase().keys, AfterErase().status, Point(0, 1)) == [Down(0, 1), Across(0, 1)]
  {
    AfterEraseAt(Point(0, 1));
  }

  lemma AfterEraseAt11()
    ensures DrawnAt(AfterErase().keys, AfterErase().status, Point(1, 1)) == [Down(0, 1), Across(1, 0)]
  {
    AfterEraseAt(Point(1, 1));
  }

  lemma AfterEraseAt10()
    ensures DrawnAt(AfterErase().keys, AfterErase().status, Point(1, 0)) == [Across(1, 0), Down(0, 0)]
  {
    AfterEraseAt(Point(1, 0));
  }

  lemma AfterEraseDrawn()
    ensures DrawnSet(AfterErase().status) == {Down(0, 1), Across(1, 0), Down(0, 0), Across(0, 1)}
    ensures |DrawnSet(AfterErase().status)| == 4
  {
    assert DrawnSet(AfterErase().status) == Elements(AfterErase().keys);
    DistinctSeqCard(AfterErase().keys);
  }

  /** A walk that goes round a square: three steps through vertices with two drawn segments, then back. */
  lemma WalkRoundSquare(d: Dict, depart: Point, v1: Point, v2: Point, v3: Point,
                        a1: Seg, b1: Seg, a2: Seg, b2: Seg, a3: Seg, b3: Seg, n: nat, fuel: nat)
    requires fuel >= 3
    requires depart != v1 && depart != v2 && depart != v3 && v1 != v3
    requires DrawnAt(d.keys, d.status, v1) == [a1, b1]
    requires DrawnAt(d.keys, d.status, v2) == [a2, b2]
    requires DrawnAt(d.keys, d.status, v3) == [a3, b3]
    requires !Has(a1, depart) && Joins(a1, v1, v2) && Has(b1, v1)
    requires Joins(a2, v1, v2) && Joins(b2, v2, v3)
    requires Joins(a3, v2, v3) && Joins(b3, v3, depart)
    ensures Walk(d, depart, depart, v1, n, fuel) == Length(n + 4)
  {
    WalkAlong(d, depart, depart, v1, n, fuel, a1, b1, v2);
    WalkMiddleCorner(d, depart, v1, v2, v3, a2, b2, a3, b3, n + 1, fuel - 1);
  }

  /** The two last corners of the square. */
  lemma WalkMiddleCorner(d: Dict, depart: Point, v1: Point, v2: Point, v3: Point,
                         a2: Seg, b2: Seg, a3: Seg, b3: Seg, n: nat, fuel: nat)
    requires fuel >= 2
    requires depart != v2 && depart != v3 && v1 != v3
    requires DrawnAt(d.keys, d.status, v2) == [a2, b2]
    requires DrawnAt(d.keys, d.status, v3) == [a3, b3]
    requires Joins(a2, v1, v2) && Joins(b2, v2, v3)
    requires Joins(a3, v2, v3) && Joins(b3, v3, depart)
    ensures Walk(d, depart, v1, v2, n, fuel) == Length(n + 3)
  {
    WalkAlong(d, depart, v1, v2, n, fuel, a2, b2, v3);
    WalkLastCorner(d, depart, v2, v3, a3, b3, n + 1, fuel - 1);
  }

  /** The last corner of the square: one step back to the start. */
  lemma WalkLastCorner(d: Dict, depart: Point, v2: Point, v3: Point, a3: Seg, b3: Seg, n: nat, fuel: nat)
    requires fuel >= 1
    requires depart != v3 && depart != v2
    requires DrawnAt(d.keys, d.status, v3) == [a3, b3]
    requires Joins(a3, v2, v3) && Joins(b3, v3, depart)
    ensures Walk(d, depart, v2, v3, n, fuel) == Length(n + 2)
  {
    WalkAlong(d, depart, v2, v3, n, fuel, a3, b3, depart);
    WalkArrives(d, depart, v3, n + 1, fuel - 1);
  }

  /** The walk of the finding, from what the store holds at the vertices it visits. */
  lemma AroundCellZero(d: Dict)
    requires DrawnAt(d.keys, d.status, Point(0, 1)) == [Down(0, 1), Across(0, 1)]
    requires DrawnAt(d.keys, d.status, Point(1, 1)) == [Down(0, 1), Across(1, 0)]
    requires DrawnAt(d.keys, d.status, Point(1, 0)) == [Across(1, 0), Down(0, 0)]
    ensures Walk(d, Point(0, 0), Point(0, 0), Point(0, 1), 0, 4) == Length(4)
  {
    WalkRoundSquare(d, Point(0, 0), Point(0, 1), Point(1, 1), Point(1, 0),
                    Down(0, 1), Across(0, 1), Down(0, 1), Across(1, 0), Across(1, 0), Down(0, 0), 0, 4);
  }

  /** longueur_boucle from s is the walk from its endpoints with the drawn-segment count as fuel. */
  lemma LengthFromWalk(d: Dict, s: Seg, n: nat)
    requires |DrawnSet(d.status)| == n && Walk(d, s.p, s.p, s.q, 0, n) == Length(n)
    ensures LoopLength(d, s) == Length(n)
  {
  }

  lemma AfterEraseWalk()
    ensures LoopLength(AfterErase(), Across(0, 0)) == Length(4)
    ensures |DrawnSet(AfterErase().status)| == 4
  {
    AfterEraseAt01();
    AfterEraseAt11();
    AfterEraseAt10();
    AfterEraseDrawn();
    AroundCellZero(AfterErase());
    LengthFromWalk(AfterErase(), Across(0, 0), 4);
  }

  lemma OneByTwoSatisfied(status: map<Seg, int>, a: int, b: int)
    requires BorderCount(status, 0, 0) == a && BorderCount(status, 0, 1) == b
    ensures AllSatisfied([[Some(a), Some(b)]], status)
  {
  }

  lemma AfterEraseClues()
    ensures AllSatisfied([[Some(3), Some(2)]], AfterErase().status)
  {
    assert DrawnBorders(AfterErase().status, 0, 0) == {Down(0, 0), Across(1, 0), Down(0, 1)};
    assert DrawnBorders(AfterErase().status, 0, 1) == {Across(0, 1), Down(0, 1)};
    OneByTwoSatisfied(AfterErase().status, 3, 2);
  }

  /** A drawn segment whose endpoint v has no other drawn segment rules out a single loop. */
  lemma DanglingEnd(d: Dict, s: Seg, v: Point)
    requires s in DrawnSet(d.status) && Has(s, v)
    requires forall s2 :: s2 in DrawnSet(d.status) && Has(s2, v) ==> s2 == s
    ensures !SingleLoop(d)
  {
    if SingleLoop(d) {
      var s2 := SingleLoopDegree(d, s, v);
      assert false;
    }
  }

  lemma AfterEraseNotALoop()
    ensures !SingleLoop(AfterErase())
  {
    var d := AfterErase();
    assert DrawnSet(d.status) == {Down(0, 1), Across(1, 0), Down(0, 0), Across(0, 1)};
    DanglingEnd(d, Across(0, 1), Point(0, 2));
  }

  lemma AfterEraseUndrawn()
    ensures !IsDrawn(AfterErase(), Across(0, 0))
  {
    assert Across(0, 0) !in AfterErase().status;
  }

  lemma AfterEraseWins()
    ensures Victoire(AfterErase(), [[Some(3), Some(2)]], Some(Across(0, 0)))
  {
    AfterEraseWalk();
    AfterEraseClues();
    WinIntro(AfterErase(), [[Some(3), Some(2)]], Across(0, 0), 4);
  }

  /**
   * victoire after the player erases the top of cell (0, 0) of a 1x2 grid
   * with clues 3 and 2: the walk from the erased segment goes round cell
   * (0, 0) and counts 4, as many as the drawn segments, so the game is won
   * while the top of cell (0, 1) hangs loose and no loop is closed.
   */
  lemma FalseVictoryAfterErase()
    ensures !IsDrawn(AfterErase(), Across(0, 0))
    ensures Victoire(AfterErase(), [[Some(3), Some(2)]], Some(Across(0, 0)))
    ensures !SingleLoop(AfterErase())
  {
    AfterEraseUndrawn();
    AfterEraseWins();
    AfterEraseNotALoop();
  }

  /** A 1x2 grid where only the four borders of cell (0, 1) are drawn. */
  function RightSquare(): Dict
  {
    Dict([Across(0, 1), Down(0, 1), Across(1, 1), Down(0, 2)],
         map[Across(0, 1) := DRAWN, Down(0, 1) := DRAWN, Across(1, 1) := DRAWN, Down(0, 2) := DRAWN])
  }

  /** The states (precedent, courant) the walk cycles through around cell (0, 1). */
  function CyclePrev(k: nat): Point
    requires k < 4
  {
    [Point(0, 1), Point(0, 2), Point(1, 2), Point(1, 1)][k]
  }

  function CycleCur(k: nat): Point
    requires k < 4
  {
    [Point(0, 2), Point(1, 2), Point(1, 1), Point(0, 1)][k]
  }

  /** DrawnAt at vertex v of the square of cell (0, 1). */
  lemma RightSquareAt(v: Point)
    ensures DrawnAt(RightSquare().keys, RightSquare().status, v)
         == (if Has(Across(0, 1), v) then [Across(0, 1)] else []) + (if Has(Down(0, 1), v) then [Down(0, 1)] else []) +
            (if Has(Across(1, 1), v) then [Across(1, 1)] else []) + (if Has(Down(0, 2), v) then [Down(0, 2)] else [])
  {
    FourDrawn(Across(0, 1), Down(0, 1), Across(1, 1), Down(0, 2));
    DrawnAtFourDrawn(Across(0, 1), Down(0, 1), Across(1, 1), Down(0, 2), RightSquare().status, v);
  }

  lemma RightSquareAt01()
    ensures DrawnAt(RightSquare().keys, RightSquare().status, Point(0, 1)) == [Across(0, 1), Down(0, 1)]
  {
    RightSquareAt(Point(0, 1));
  }

  lemma RightSquareAt02()
    ensures DrawnAt(RightSquare().keys, RightSquare().status, Point(0, 2)) == [Across(0, 1), Down(0, 2)]
  {
    RightSquareAt(Point(0, 2));
  }

  lemma RightSquareAt12()
    ensures DrawnAt(RightSquare().keys, RightSquare().status, Point(1, 2)) == [Across(1, 1), Down(0, 2)]
  {
    RightSquareAt(Point(1, 2));
  }

  lemma RightSquareAt11()
    ensures DrawnAt(RightSquare().keys, RightSquare().status, Point(1, 1)) == [Down(0, 1), Across(1, 1)]
  {
    RightSquareAt(Point(1, 1));
  }

  /** What the store holds at the four corners of cell (0, 1). */
  ghost predicate SquareAround(d: Dict)
  {
    DrawnAt(d.keys, d.status, Point(0, 1)) == [Across(0, 1), Down(0, 1)] &&
    DrawnAt(d.keys, d.status, Point(0, 2)) == [Across(0, 1), Down(0, 2)] &&
    DrawnAt(d.keys, d.status, Point(1, 2)) == [Across(1, 1), Down(0, 2)] &&
    DrawnAt(d.keys, d.status, Point(1, 1)) == [Down(0, 1), Across(1, 1)]
  }

  lemma RightSquareAround()
    ensures SquareAround(RightSquare())
  {
    RightSquareAt01();
    RightSquareAt02();
    RightSquareAt12();
    RightSquareAt11();
  }

  lemma CycleStep(d: Dict, k: nat, n: nat, fuel: nat)
    requires SquareAround(d) && k < 4 && fuel > 0
    ensures Walk(d, Point(0, 0), CyclePrev(k), CycleCur(k), n, fuel)
         == Walk(d, Point(0, 0), CyclePrev(Succ(k, 4)), CycleCur(Succ(k, 4)), n + 1, fuel - 1)
  {
    var p, v, p', v' := CyclePrev(k), CycleCur(k), CyclePrev(Succ(k, 4)), CycleCur(Succ(k, 4));
    var around := DrawnAt(d.keys, d.status, v);
    if k == 0 {
      assert Follow([Across(0, 1), Down(0, 2)], p, v) == (p', v');
    } else if k == 1 {
      assert Follow([Across(1, 1), Down(0, 2)], p, v) == (p', v');
    } else if k == 2 {
      assert Follow([Down(0, 1), Across(1, 1)], p, v) == (p', v');
    } else {
      assert Follow([Across(0, 1), Down(0, 1)], p, v) == (p', v');
    }
    WalkStep(d, Point(0, 0), p, v, n, fuel, around, p', v');
  }

  lemma {:induction false} CycleForever(d: Dict, k: nat, n: nat, fuel: nat)
    requires SquareAround(d) && k < 4
    ensures Walk(d, Point(0, 0), CyclePrev(k), CycleCur(k), n, fuel) == Unfinished
    decreases fuel
  {
    if fuel > 0 {
      CycleStep(d, k, n, fuel);
      CycleForever(d, Succ(k, 4), n + 1, fuel - 1);
    }
  }

  /** From vertex (0, 1) of the square of cell (0, 1) the walk never reaches vertex (0, 0). */
  lemma RightSquareStart(d: Dict, fuel: nat)
    requires SquareAround(d)
    ensures Walk(d, Point(0, 0), Point(0, 0), Point(0, 1), 0, fuel) == Unfinished
  {
    if fuel > 0 {
      WalkStep(d, Point(0, 0), Point(0, 0), Point(0, 1), 0, fuel, [Across(0, 1), Down(0, 1)], CyclePrev(0), CycleCur(0));
      CycleForever(d, 0, 1, fuel - 1);
    }
  }

  lemma RightSquareClues(d: Dict)
    requires d == RightSquare()
    ensures AllSatisfied([[Some(1), None]], d.status)
  {
    assert DrawnBorders(d.status, 0, 0) == {Down(0, 1)};
  }

  /**
   * On the grid with clues 1 and None, the square of cell (0, 1) satisfies
   * the clue 1 of cell (0, 0). A click that left the top of cell (0, 0)
   * undrawn starts the walk of longueur_boucle at vertex (0, 1) of that
   * square: whatever the number of steps allowed, it never comes back to
   * vertex (0, 0), so the while loop of the source never ends.
   */
  lemma UndrawnStartNeverReturns(fuel: nat)
    ensures !IsDrawn(RightSquare(), Across(0, 0))
    ensures AllSatisfied([[Some(1), None]], RightSquare().status)
    ensures Walk(RightSquare(), Point(0, 0), Point(0, 0), Point(0, 1), 0, fuel) == Unfinished
  {
    RightSquareClues(RightSquare());
    RightSquareAround();
    RightSquareStart(RightSquare(), fuel);
  }

  // ---------------------------------------------------------------------
  // The win check with the walk started from a drawn segment.

  /** The first drawn key in dict order. */
  function FirstDrawn(ks: seq<Seg>, status: map<Seg, int>): (r: Option<Seg>)
    ensures r.Some? ==> r.value in ks && r.value in status && status[r.value] == DRAWN
    ensures r.None? ==> forall s :: s in ks ==> !(s in status && status[s] == DRAWN)
    decreases |ks|
  {
    if ks == [] then None
    else if ks[0] in status && status[ks[0]] == DRAWN then Some(ks[0])
    else FirstDrawn(ks[1..], status)
  }

  /** Where the corrected check starts its walk: the clicked segment if drawn, else the first drawn key. */
  function WalkStart(d: Dict, clicked: Seg): Option<Seg>
  {
    if IsDrawn(d, clicked) then Some(clicked) else FirstDrawn(d.keys, d.status)
  }

  /** victoire, walking from a drawn segment so that the walk always ends and sees the whole loop. */
  function VictoireChecked(d: Dict, clues: Clues, segment: Option<Seg>): (r: bool)
    ensures r ==> segment.Some? && AllSatisfied(clues, d.status) && DrawnSet(d.status) != {}
  {
    segment.Some? && AllSatisfied(clues, d.status) &&
    match WalkStart(d, segment.value)
    case None => false
    case Some(s) => LoopLength(d, s) == Length(|DrawnSet(d.status)|)
  }

  /** When the clicked segment is drawn, victoire means: every clue satisfied and one closed loop. */
  lemma VictoireWhenDrawn(d: Dict, clues: Clues, s: Seg)
    requires Valid(d) && KeysWellFormed(d) && IsDrawn(d, s)
    ensures Victoire(d, clues, Some(s)) <==> AllSatisfied(clues, d.status) && SingleLoop(d)
  {
    WinningWalk(d, s);
  }

  /** A loop has a drawn key, so the corrected check always finds a start. */
  lemma LoopHasDrawnKey(d: Dict)
    requires IsDict(d)
    ensures SingleLoop(d) ==> FirstDrawn(d.keys, d.status).Some?
  {
    if SingleLoop(d) {
      var path, edges :| LoopOf(d, path, edges);
      assert edges[0] in DrawnSet(d.status);
    }
  }

  /**
   * The corrected check wins exactly when a segment was clicked, every clue
   * is satisfied and the drawn segments form one closed loop, and its walk
   * always ends.
   */
  lemma VictoireCheckedIffLoop(d: Dict, clues: Clues, segment: Option<Seg>)
    requires Valid(d) && KeysWellFormed(d)
    ensures segment.Some? && WalkStart(d, segment.value).Some? ==>
              LoopLength(d, WalkStart(d, segment.value).value) != Unfinished
    ensures VictoireChecked(d, clues, segment) <==>
              segment.Some? && AllSatisfied(clues, d.status) && SingleLoop(d)
  {
    if segment.Some? {
      match WalkStart(d, segment.value)
      case Some(s) =>
        assert IsDrawn(d, s);
        WinningWalk(d, s);
      case None =>
        LoopHasDrawnKey(d);
    }
  }
}
