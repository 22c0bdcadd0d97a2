/**
 * Component masks (the std::bitset<COMP_TOTAL> of an entity) and the dense
 * packing derived from them: a type whose bit is set occupies the position in
 * the entity's handle list equal to the number of set bits below it.
 */
module Bitmask {

  /** Bit i is set iff a component of the type with id i is attached. */
  type Mask = seq<bool>

  /** A default-constructed bitset: n bits, none set. */
  function EmptyMask(n: nat): (m: Mask)
    ensures |m| == n && forall i :: 0 <= i < n ==> !m[i]
  {
    seq(n, _ => false)
  }

  /** The number of set bits strictly below position i. */
  function Rank(m: Mask, i: nat): (r: nat)
    requires i <= |m|
    ensures r <= i
  {
    if i == 0 then 0 else Rank(m, i - 1) + (if m[i - 1] then 1 else 0)
  }

  /** The number of set bits. */
  function Popcount(m: Mask): nat
  {
    Rank(m, |m|)
  }

  /** The dense index of every set bit, as the archetype descriptor stores it. */
  function Dense(m: Mask): map<nat, nat>
  {
    map i: nat | i < |m| && m[i] :: Rank(m, i)
  }

  /**
   * The type-to-handle view of a handle list laid out for mask m: type i's
   * handle is the list entry at i's dense index.
   */
  function Placement<H>(m: Mask, list: seq<H>): map<nat, H>
  {
    map i: nat | i < |m| && m[i] && Rank(m, i) < |list| :: list[Rank(m, i)]
  }

  lemma {:induction false} EmptyMaskHasNoBits(n: nat, i: nat)
    requires i <= n
    ensures Rank(EmptyMask(n), i) == 0
    decreases i
  {
    if i > 0 {
      EmptyMaskHasNoBits(n, i - 1);
    }
  }

  /** Rank is monotone, and strictly so past a set bit. */
  lemma {:induction false} RankMono(m: Mask, i: nat, j: nat)
    requires i <= j <= |m|
    ensures Rank(m, i) <= Rank(m, j)
    ensures i < j && m[i] ==> Rank(m, i) < Rank(m, j)
    decreases j
  {
    if i < j {
      RankMono(m, i, j - 1);
    }
  }

  /** Changing bit t moves the rank of the positions above t and of no other. */
  lemma {:induction false} RankUpdate(m: Mask, t: nat, b: bool, i: nat)
    requires t < |m| && i <= |m|
    ensures Rank(m[t := b], i) ==
      if i <= t then Rank(m, i)
      else Rank(m, i) - (if m[t] then 1 else 0) + (if b then 1 else 0)
    decreases i
  {
    if i > 0 {
      RankUpdate(m, t, b, i - 1);
      if i - 1 > t {
        RankMono(m, t, i - 1);
      }
    }
  }

  /**
   * The descriptor's dense indices pack the set bits: distinct types get
   * distinct indices, and the indices are exactly 0 .. Popcount(m) - 1.
   */
  lemma DenseIsPacking(m: Mask)
    ensures forall i :: i in Dense(m) <==> 0 <= i < |m| && m[i]
    ensures forall i :: i in Dense(m) ==> Dense(m)[i] < Popcount(m)
    ensures forall i, j :: i in Dense(m) && j in Dense(m) && i < j ==> Dense(m)[i] < Dense(m)[j]
    ensures forall k :: 0 <= k < Popcount(m) ==> k in Dense(m).Values
  {
    forall i | i in Dense(m)
      ensures Dense(m)[i] < Popcount(m)
    {
      RankMono(m, i, |m|);
    }
    forall i, j | i in Dense(m) && j in Dense(m) && i < j
      ensures Dense(m)[i] < Dense(m)[j]
    {
      RankMono(m, i, j);
    }
    forall k | 0 <= k < Popcount(m)
      ensures k in Dense(m).Values
    {
      var i := RankWitness(m, |m|, k);
      assert i in Dense(m) && Dense(m)[i] == k;
    }
  }

  /** Some set bit below j has rank k, for every k below Rank(m, j). */
  lemma {:induction false} RankWitness(m: Mask, j: nat, k: nat) returns (i: nat)
    requires j <= |m| && k < Rank(m, j)
    ensures i < j && m[i] && Rank(m, i) == k
    decreases j
  {
    if k < Rank(m, j - 1) {
      i := RankWitness(m, j - 1, k);
    } else {
      i := j - 1;
    }
  }

  /** The set bits below position i. */
  function BitsBelow(m: Mask, i: nat): set<nat>
    requires i <= |m|
  {
    set j: nat | j < i && m[j]
  }

  /** The rank of a position counts the set bits below it. */
  lemma {:induction false} RankIsCount(m: Mask, i: nat)
    requires i <= |m|
    ensures Rank(m, i) == |BitsBelow(m, i)|
    decreases i
  {
    if i > 0 {
      RankIsCount(m, i - 1);
      assert BitsBelow(m, i) == BitsBelow(m, i - 1) + if m[i - 1] then {i - 1} else {};
    }
  }

  /** A list of Popcount(m) entries places exactly the set bits. */
  lemma PlacementKeys<H>(m: Mask, list: seq<H>)
    requires |list| == Popcount(m)
    ensures forall i :: i in Placement(m, list) <==> 0 <= i < |m| && m[i]
  {
    forall i: nat | i < |m| && m[i]
      ensures i in Placement(m, list)
    {
      RankMono(m, i, |m|);
    }
  }

  /**
   * Inserting a new type's handle at its rank (what dom.h's insert does when
   * the position is correct) keeps every other type's handle where the
   * descriptor of the grown mask looks for it.
   */
  lemma InsertPlacement<H>(m: Mask, list: seq<H>, t: nat, h: H)
    requires |list| == Popcount(m) && t < |m| && !m[t]
    ensures Rank(m, t) <= |list|
    ensures |list[..Rank(m, t)] + [h] + list[Rank(m, t)..]| == Popcount(m[t := true])
    ensures Placement(m[t := true], list[..Rank(m, t)] + [h] + list[Rank(m, t)..]) == Placement(m, list)[t := h]
  {
    var r := Rank(m, t);
    RankMono(m, t, |m|);
    var m' := m[t := true];
    var list' := list[..r] + [h] + list[r..];
    RankUpdate(m, t, true, |m|);
    var p, p' := Placement(m, list), Placement(m', list');
    forall i: nat | i < |m|
      ensures (i in p') == (i in p[t := h])
      ensures i in p' ==> p'[i] == p[t := h][i]
    {
      RankUpdate(m, t, true, i);
      RankMono(m, i, |m|);
      RankMono(m', i, |m'|);
      if i < t {
        if m[i] {
          RankMono(m, i, t);
        }
      } else if i > t {
        RankMono(m, t, i);
      }
    }
    assert p'.Keys == p[t := h].Keys;
  }

  /** Erasing type t's entry (removeComponent) keeps every other type's handle placed. */
  lemma RemovePlacement<H>(m: Mask, list: seq<H>, t: nat)
    requires |list| == Popcount(m) && t < |m| && m[t]
    ensures Rank(m, t) < |list|
    ensures |list[..Rank(m, t)] + list[Rank(m, t) + 1..]| == Popcount(m[t := false])
    ensures Placement(m[t := false], list[..Rank(m, t)] + list[Rank(m, t) + 1..]) == Placement(m, list) - {t}
  {
    var r := Rank(m, t);
    RankMono(m, t, |m|);
    var m' := m[t := false];
    var list' := list[..r] + list[r + 1..];
    RankUpdate(m, t, false, |m|);
    var p, p' := Placement(m, list), Placement(m', list');
    forall i: nat | i < |m|
      ensures (i in p') == (i in p - {t})
      ensures i in p' ==> p'[i] == (p - {t})[i]
    {
      RankUpdate(m, t, false, i);
      RankMono(m, i, |m|);
      RankMono(m', i, |m'|);
      if i < t {
        if m[i] {
          RankMono(m, i, t);
        }
      } else if i > t {
        RankMono(m, t, i);
      }
    }
    assert p'.Keys == (p - {t}).Keys;
  }
}
