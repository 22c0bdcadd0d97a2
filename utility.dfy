/**
 * Utility::iterate and ComponentChecker (dom.h and Utility.h) over the
 * entities and their components, by type id. A run over a list of entities
 * visits them in list order, in one pass; the callback runs for an entity
 * exactly when it has every requested type, receives those components and
 * writes new values through them. The callback is a function from the
 * entity and the values it receives to the values it leaves behind.
 */
module Utilities {

  /** Every requested type is among the components c. */
  predicate HasAll<V>(c: map<nat, V>, ts: seq<nat>)
  {
    forall i :: 0 <= i < |ts| ==> ts[i] in c
  }

  /** A list of requested types is all present exactly when its first type and the rest are. */
  lemma HasAllCons<V>(c: map<nat, V>, ts: seq<nat>)
    requires ts != []
    ensures HasAll(c, ts) <==> ts[0] in c && HasAll(c, ts[1..])
  {
    assert forall i :: 1 <= i < |ts| ==> ts[1..][i - 1] == ts[i];
  }

  /** The rest of a list of type ids below n is below n too. */
  lemma BelowTail(ts: seq<nat>, n: nat)
    requires ts != [] && forall i :: 0 <= i < |ts| ==> ts[i] < n
    ensures forall i :: 0 <= i < |ts[1..]| ==> ts[1..][i] < n
  {
  }

  /** The values the callback receives: the component of each requested type, in request order. */
  function Gather<V>(c: map<nat, V>, ts: seq<nat>): (vs: seq<V>)
    requires HasAll(c, ts)
    ensures |vs| == |ts| && forall i :: 0 <= i < |ts| ==> vs[i] == c[ts[i]]
  {
    if ts == [] then [] else [c[ts[0]]] + Gather(c, ts[1..])
  }

  /** The callback's writes through its references, first to last: type ts[k] gets ws[k] while both lists last. */
  function Writes<V>(c: map<nat, V>, ts: seq<nat>, ws: seq<V>): map<nat, V>
    decreases |ts|
  {
    if ts == [] || ws == [] then c else Writes(c[ts[0] := ws[0]], ts[1..], ws[1..])
  }

  /**
   * The writes keep the types c had; a type no reference names keeps its
   * value, and a type gets the value of the last write to it.
   */
  lemma {:induction false} WritesLast<V>(c: map<nat, V>, ts: seq<nat>, ws: seq<V>)
    requires HasAll(c, ts)
    ensures Writes(c, ts, ws).Keys == c.Keys
    ensures forall t :: t in c && (forall k :: 0 <= k < |ts| && k < |ws| ==> ts[k] != t) ==> Writes(c, ts, ws)[t] == c[t]
    ensures forall k :: 0 <= k < |ts| && k < |ws| && (forall j :: k < j < |ts| && j < |ws| ==> ts[j] != ts[k]) ==>
              Writes(c, ts, ws)[ts[k]] == ws[k]
    decreases |ts|
  {
    if ts != [] && ws != [] {
      var c' := c[ts[0] := ws[0]];
      assert forall k :: 1 <= k < |ts| && k < |ws| ==> ts[1..][k - 1] == ts[k] && ws[1..][k - 1] == ws[k];
      WritesLast(c', ts[1..], ws[1..]);
    }
  }

  /**
   * The step of iterate for one entity e of the list: when e has every
   * requested type, the callback's writes replace those components.
   */
  function Visit<K, V>(v: map<K, map<nat, V>>, e: K, ts: seq<nat>, f: (K, seq<V>) -> seq<V>): map<K, map<nat, V>>
  {
    if e in v && HasAll(v[e], ts) then v[e := Writes(v[e], ts, f(e, Gather(v[e], ts)))] else v
  }

  /** iterate over the list es: the visits in list order. */
  function Run<K, V>(v: map<K, map<nat, V>>, es: seq<K>, ts: seq<nat>, f: (K, seq<V>) -> seq<V>): map<K, map<nat, V>>
    decreases |es|
  {
    if es == [] then v else Run(Visit(v, es[0], ts, f), es[1..], ts, f)
  }

  /** The entities of es the callback runs for, in list order. */
  function Visits<K, V>(v: map<K, map<nat, V>>, es: seq<K>, ts: seq<nat>): seq<K>
    decreases |es|
  {
    if es == [] then []
    else if es[0] in v && HasAll(v[es[0]], ts) then [es[0]] + Visits(v, es[1..], ts)
    else Visits(v, es[1..], ts)
  }

  /** A visit changes no entity's set of types. */
  lemma VisitKeepsKeys<K, V>(v: map<K, map<nat, V>>, e: K, ts: seq<nat>, f: (K, seq<V>) -> seq<V>)
    ensures Visit(v, e, ts, f).Keys == v.Keys
    ensures forall x :: x in v ==> Visit(v, e, ts, f)[x].Keys == v[x].Keys
  {
    if e in v && HasAll(v[e], ts) {
      WritesLast(v[e], ts, f(e, Gather(v[e], ts)));
    }
  }

  /**
   * iterate adds and removes no entity and no component: every entity keeps
   * its set of types.
   */
  lemma {:induction false} RunKeepsKeys<K, V>(v: map<K, map<nat, V>>, es: seq<K>, ts: seq<nat>, f: (K, seq<V>) -> seq<V>)
    ensures Run(v, es, ts, f).Keys == v.Keys
    ensures forall x :: x in v ==> Run(v, es, ts, f)[x].Keys == v[x].Keys
    decreases |es|
  {
    if es != [] {
      VisitKeepsKeys(v, es[0], ts, f);
      RunKeepsKeys(Visit(v, es[0], ts, f), es[1..], ts, f);
    }
  }

  /**
   * An entity the list does not name, or one that lacks a requested type,
   * is not touched.
   */
  lemma {:induction false} RunUntouched<K, V>(v: map<K, map<nat, V>>, es: seq<K>, ts: seq<nat>, f: (K, seq<V>) -> seq<V>, x: K)
    requires x in v && (x !in es || !HasAll(v[x], ts))
    ensures x in Run(v, es, ts, f) && Run(v, es, ts, f)[x] == v[x]
    decreases |es|
  {
    RunKeepsKeys(v, es, ts, f);
    if es != [] {
      var v' := Visit(v, es[0], ts, f);
      VisitKeepsKeys(v, es[0], ts, f);
      assert x !in es[1..] || !HasAll(v'[x], ts) by {
        if x in es[1..] { assert x in es; }
      }
      RunUntouched(v', es[1..], ts, f, x);
    }
  }

  /**
   * An entity the list names exactly once and that has every requested type
   * ends with the callback's writes applied to the components it had.
   */
  lemma {:induction false} RunVisitsOnce<K, V>(v: map<K, map<nat, V>>, es: seq<K>, ts: seq<nat>, f: (K, seq<V>) -> seq<V>,
                                               x: K, i: nat)
    requires i < |es| && es[i] == x && forall j :: 0 <= j < |es| && j != i ==> es[j] != x
    requires x in v && HasAll(v[x], ts)
    ensures x in Run(v, es, ts, f) && Run(v, es, ts, f)[x] == Writes(v[x], ts, f(x, Gather(v[x], ts)))
    decreases |es|
  {
    var v' := Visit(v, es[0], ts, f);
    VisitKeepsKeys(v, es[0], ts, f);
    RunKeepsKeys(v', es[1..], ts, f);
    if i == 0 {
      assert x !in es[1..] by {
        forall j | 0 <= j < |es[1..]| ensures es[1..][j] != x { assert es[1..][j] == es[j + 1]; }
      }
      RunUntouched(v', es[1..], ts, f, x);
    } else {
      assert es[1..][i - 1] == x;
      forall j | 0 <= j < |es[1..]| && j != i - 1 ensures es[1..][j] != x { assert es[1..][j] == es[j + 1]; }
      RunVisitsOnce(v', es[1..], ts, f, x, i - 1);
    }
  }

  /**
   * The callback runs for exactly the entities of the list that have every
   * requested type, in list order, once per occurrence.
   */
  lemma {:induction false} VisitsExactly<K, V>(v: map<K, map<nat, V>>, es: seq<K>, ts: seq<nat>)
    ensures |Visits(v, es, ts)| <= |es|
    ensures forall x :: x in Visits(v, es, ts) <==> x in es && x in v && HasAll(v[x], ts)
    decreases |es|
  {
    if es != [] {
      VisitsExactly(v, es[1..], ts);
      forall x ensures x in es <==> x == es[0] || x in es[1..] {
        if x in es && x != es[0] { var j :| 0 <= j < |es| && es[j] == x; assert es[1..][j - 1] == x; }
      }
    }
  }

  /** The visit of an entity that has every requested type applies the callback's writes. */
  lemma VisitApplies<K, V>(v: map<K, map<nat, V>>, e: K, ts: seq<nat>, f: (K, seq<V>) -> seq<V>, ws: seq<V>)
    requires e in v && HasAll(v[e], ts) && ws == f(e, Gather(v[e], ts))
    ensures Visit(v, e, ts, f) == v[e := Writes(v[e], ts, ws)]
  {
  }

  /** The visit of an entity that lacks a requested type changes nothing. */
  lemma VisitSkips<K, V>(v: map<K, map<nat, V>>, e: K, ts: seq<nat>, f: (K, seq<V>) -> seq<V>)
    requires !(e in v && HasAll(v[e], ts))
    ensures Visit(v, e, ts, f) == v
  {
  }

  /**
   * Where iterate stands after the first i entities of the list: the rest of
   * the run from the current view v reaches the final view, and the entities
   * visited so far followed by those still to visit are all the visits.
   */
  ghost predicate RunFrom<K, V>(v0: map<K, map<nat, V>>, v: map<K, map<nat, V>>, es: seq<K>, i: nat, ts: seq<nat>,
                                f: (K, seq<V>) -> seq<V>, visited: seq<K>)
  {
    i <= |es| && Run(v, es[i..], ts, f) == Run(v0, es, ts, f) && visited + Visits(v, es[i..], ts) == Visits(v0, es, ts)
  }

  /** iterate starts with nothing visited. */
  lemma RunFromStart<K, V>(v0: map<K, map<nat, V>>, es: seq<K>, ts: seq<nat>, f: (K, seq<V>) -> seq<V>)
    ensures RunFrom(v0, v0, es, 0, ts, f, [])
  {
    assert es[0..] == es;
  }

  /** iterate ends, after the whole list, with the run's view and its visits. */
  lemma RunFromEnd<K, V>(v0: map<K, map<nat, V>>, v: map<K, map<nat, V>>, es: seq<K>, ts: seq<nat>,
                         f: (K, seq<V>) -> seq<V>, visited: seq<K>)
    requires RunFrom(v0, v, es, |es|, ts, f, visited)
    ensures v == Run(v0, es, ts, f) && visited == Visits(v0, es, ts)
  {
    assert es[|es|..] == [];
  }

  /**
   * One step of iterate: visiting the next entity of the list, and recording
   * it when it has every requested type, moves on by one.
   */
  lemma IterateStep<K, V>(v0: map<K, map<nat, V>>, v: map<K, map<nat, V>>, es: seq<K>, i: nat, ts: seq<nat>,
                          f: (K, seq<V>) -> seq<V>, hit: bool, visited: seq<K>, visited': seq<K>)
    requires RunFrom(v0, v, es, i, ts, f, visited) && i < |es|
    requires hit == (es[i] in v && HasAll(v[es[i]], ts))
    requires visited' == if hit then visited + [es[i]] else visited
    ensures RunFrom(v0, Visit(v, es[i], ts, f), es, i + 1, ts, f, visited')
  {
    assert es[i..][1..] == es[i + 1..];
    VisitsAfterVisit(v, es[i], es[i + 1..], ts, f);
  }

  /** A visit changes no entity's set of types, so later checks see the same entities. */
  lemma {:induction false} VisitsAfterVisit<K, V>(v: map<K, map<nat, V>>, e: K, es: seq<K>, ts: seq<nat>, f: (K, seq<V>) -> seq<V>)
    ensures Visits(Visit(v, e, ts, f), es, ts) == Visits(v, es, ts)
    decreases |es|
  {
    VisitKeepsKeys(v, e, ts, f);
    if es != [] {
      VisitsAfterVisit(v, e, es[1..], ts, f);
    }
  }
}
