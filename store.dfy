/**
 * The segment state store `etat`: a Python dict from segment keys to 1 (drawn)
 * or -1 (forbidden); an absent key is a blank segment (slitherlink.py:15-111).
 */
module Store {
  import opened Lattice

  const DRAWN: int := 1
  const FORBIDDEN: int := -1

  /**
   * A dict as Python keeps it: `keys` in iteration (insertion) order and the
   * value of each key in `status`.
   */
  datatype Dict = Dict(keys: seq<Seg>, status: map<Seg, int>)

  ghost predicate Distinct(ks: seq<Seg>)
  {
    forall a, b :: 0 <= a < b < |ks| ==> ks[a] != ks[b]
  }

  /** What every Python dict satisfies: each key listed once, the list and the map agree. */
  ghost predicate IsDict(d: Dict)
  {
    Distinct(d.keys) && forall s :: s in d.status <==> s in d.keys
  }

  /** A segment store: a dict whose values are DRAWN or FORBIDDEN. */
  ghost predicate Valid(d: Dict)
  {
    IsDict(d) && forall s :: s in d.status ==> d.status[s] == DRAWN || d.status[s] == FORBIDDEN
  }

  /** Every key is a canonical lattice-adjacent pair (what the solver and the click handler build). */
  ghost predicate KeysWellFormed(d: Dict)
  {
    forall s :: s in d.status ==> WellFormed(s)
  }

  /** No forbidden segment in the store (the solver's usual starting point). */
  ghost predicate NoForbidden(d: Dict)
  {
    forall s :: s in d.status ==> d.status[s] != FORBIDDEN
  }

  /** est_vierge: the key is absent. */
  function IsBlank(d: Dict, s: Seg): (r: bool)
    ensures Valid(d) ==> (r <==> !IsDrawn(d, s) && !IsForbidden(d, s))
  {
    s !in d.status
  }

  /** est_trace: the key is present with value 1. */
  function IsDrawn(d: Dict, s: Seg): (r: bool)
    ensures r ==> !IsForbidden(d, s) && s in d.status
  {
    s in d.status && d.status[s] == DRAWN
  }

  /** est_interdit: the key is present with value -1. */
  function IsForbidden(d: Dict, s: Seg): (r: bool)
    ensures r ==> s in d.status && d.status[s] != DRAWN
    ensures Valid(d) && s in d.status ==> (r <==> d.status[s] != DRAWN)
  {
    s in d.status && d.status[s] == FORBIDDEN
  }

  /** The set of drawn segments. */
  function DrawnSet(status: map<Seg, int>): set<Seg>
  {
    set s | s in status && status[s] == DRAWN
  }

  /**
   * `etat[s] = v`: s gets value v, every other key keeps its value, and the
   * iteration order is kept (a new key goes last).
   */
  function Assign(d: Dict, s: Seg, v: int): (r: Dict)
    ensures s in r.status && r.status[s] == v
    ensures forall t :: t != s ==> (t in r.status <==> t in d.status)
    ensures forall t :: t != s && t in d.status ==> r.status[t] == d.status[t]
    ensures d.keys <= r.keys
    ensures IsDict(d) ==> IsDict(r)
    ensures Valid(d) && (v == DRAWN || v == FORBIDDEN) ==> Valid(r)
  {
    if s in d.status then Dict(d.keys, d.status[s := v])
    else Dict(d.keys + [s], d.status[s := v])
  }

  /** The key list without s, the others in their order. */
  function RemoveKey(ks: seq<Seg>, s: Seg): (r: seq<Seg>)
    ensures forall t :: t in r <==> t in ks && t != s
    ensures Distinct(ks) ==> Distinct(r)
  {
    if ks == [] then []
    else if ks[0] == s then RemoveKey(ks[1..], s)
    else
      var rest := RemoveKey(ks[1..], s);
      assert Distinct(ks) ==> Distinct(ks[1..]) && ks[0] !in ks[1..];
      [ks[0]] + rest
  }

  /**
   * `etat.pop(s)`: s disappears, every other key keeps its value and its place.
   * Python raises KeyError when s is absent, hence the precondition.
   */
  function Pop(d: Dict, s: Seg): (r: Dict)
    requires s in d.status
    ensures s !in r.status
    ensures forall t :: t != s ==> (t in r.status <==> t in d.status)
    ensures forall t :: t != s && t in d.status ==> r.status[t] == d.status[t]
    ensures IsDict(d) ==> IsDict(r)
    ensures Valid(d) ==> Valid(r)
  {
    Dict(RemoveKey(d.keys, s), d.status - {s})
  }

  lemma {:induction false} RemoveLastKey(ks: seq<Seg>, s: Seg)
    requires s !in ks
    ensures RemoveKey(ks + [s], s) == ks
  {
    if ks != [] {
      assert (ks + [s])[1..] == ks[1..] + [s];
      RemoveLastKey(ks[1..], s);
    }
  }

  /**
   * Drawing (or forbidding) a blank segment and then erasing it gives back the
   * very same dict: same keys, same values, same iteration order.
   */
  lemma {:induction false} AssignPopRoundTrip(d: Dict, s: Seg, v: int)
    requires IsDict(d) && IsBlank(d, s)
    ensures Pop(Assign(d, s, v), s) == d
  {
    RemoveLastKey(d.keys, s);
    assert d.status[s := v] - {s} == d.status;
  }

  /**
   * The dict object `etat` that the game loop and the solver share and update
   * in place.
   */
  class Etat {
    var keys: seq<Seg>
    var status: map<Seg, int>

    function Value(): Dict
      reads this
    {
      Dict(keys, status)
    }

    constructor (d: Dict)
      ensures Value() == d
    {
      keys, status := d.keys, d.status;
    }

    /** tracer_segment: `etat[segment] = 1`. */
    method Trace(s: Seg)
      modifies this
      ensures Value() == Assign(old(Value()), s, DRAWN)
    {
      if s !in status {
        keys := keys + [s];
      }
      status := status[s := DRAWN];
    }

    /** interdire_segment: `etat[segment] = -1`. */
    method Forbid(s: Seg)
      modifies this
      ensures Value() == Assign(old(Value()), s, FORBIDDEN)
    {
      if s !in status {
        keys := keys + [s];
      }
      status := status[s := FORBIDDEN];
    }

    /** effacer_segment: `etat.pop(segment)`. */
    method Erase(s: Seg)
      requires s in status
      modifies this
      ensures Value() == Pop(old(Value()), s)
    {
      keys := RemoveKey(keys, s);
      status := status - {s};
    }
  }
}
