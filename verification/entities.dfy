/** Entities as the game panel sees them, and the fixed-capacity slot arrays
    that own them.

    The panel never looks inside an entity beyond its identity and its world
    Y coordinate (the key of the painter's ordering); everything else an
    entity carries is behind its own update/draw bodies, which are not part
    of this model.
 */
module Entities {

  /** An entity reduced to an identity and the world Y coordinate the draw
      order is keyed on. The coordinate is a Java `int` that the panel only
      compares, so no wrap-around can arise here. */
  datatype Entity = Entity(id: nat, worldY: int)

  /** One position of a slot array: Java's `null` is `Empty`. */
  datatype Slot = Empty | Holds(entity: Entity)

  /** The entities held by the occupied slots, in ascending slot index:
      what a `for (i = 0; i < a.length; i++) if (a[i] != null) ...` loop
      visits. */
  function Occupants(slots: seq<Slot>): (r: seq<Entity>)
    ensures |r| <= |slots|
    ensures forall e :: e in r ==> Holds(e) in slots
    ensures forall i :: 0 <= i < |slots| && slots[i].Holds? ==> slots[i].entity in r
  {
    if slots == [] then []
    else (if slots[0].Holds? then [slots[0].entity] else []) + Occupants(slots[1..])
  }

  /** The indices, ascending, of the occupied slots at or after `from`. */
  function OccupiedIndices(slots: seq<Slot>, from: nat): seq<nat>
    requires from <= |slots|
    decreases |slots| - from
  {
    if from == |slots| then []
    else (if slots[from].Holds? then [from] else []) + OccupiedIndices(slots, from + 1)
  }

  /** Ids of a sequence of entities, position by position. */
  function Ids(es: seq<Entity>): (r: seq<nat>)
    ensures |r| == |es|
    ensures forall k :: 0 <= k < |es| ==> r[k] == es[k].id
  {
    seq(|es|, k requires 0 <= k < |es| => es[k].id)
  }

  /** Visiting the slots one by one and appending the held entity extends
      the occupants of the prefix by that entity (the step of the panel's
      gathering loops). */
  lemma {:induction false} OccupantsSnoc(slots: seq<Slot>, s: Slot)
    ensures Occupants(slots + [s]) == Occupants(slots) + (if s.Holds? then [s.entity] else [])
    decreases |slots|
  {
    if slots == [] {
      assert slots + [s] == [s];
      assert [s][1..] == [];
    } else {
      assert (slots + [s])[1..] == slots[1..] + [s];
      OccupantsSnoc(slots[1..], s);
    }
  }

  /** The occupied indices at or after `from` ascend strictly, lie in
      range, and include every occupied index and no empty one. */
  lemma OccupiedIndicesAscendAndCover(slots: seq<Slot>, from: nat)
    requires from <= |slots|
    ensures forall k :: 0 <= k < |OccupiedIndices(slots, from)| ==>
              from <= OccupiedIndices(slots, from)[k] < |slots|
    ensures forall k, l :: 0 <= k < l < |OccupiedIndices(slots, from)| ==>
              OccupiedIndices(slots, from)[k] < OccupiedIndices(slots, from)[l]
    ensures forall i :: from <= i < |slots| ==>
              (slots[i].Holds? <==> i in OccupiedIndices(slots, from))
  {
    OccupiedIndicesAscend(slots, from);
    OccupiedIndicesCover(slots, from);
  }

  lemma {:induction false} OccupiedIndicesAscend(slots: seq<Slot>, from: nat)
    requires from <= |slots|
    ensures forall k :: 0 <= k < |OccupiedIndices(slots, from)| ==>
              from <= OccupiedIndices(slots, from)[k] < |slots|
    ensures forall k, l :: 0 <= k < l < |OccupiedIndices(slots, from)| ==>
              OccupiedIndices(slots, from)[k] < OccupiedIndices(slots, from)[l]
    decreases |slots| - from
  {
    if from < |slots| {
      OccupiedIndicesAscend(slots, from + 1);
      var ix, ix' := OccupiedIndices(slots, from), OccupiedIndices(slots, from + 1);
      if slots[from].Holds? {
        assert ix == [from] + ix';
        forall k | 0 < k < |ix|
          ensures ix[k] == ix'[k - 1]
        {
        }
      } else {
        assert ix == ix';
      }
    }
  }

  lemma {:induction false} OccupiedIndicesCover(slots: seq<Slot>, from: nat)
    requires from <= |slots|
    ensures forall i :: from <= i < |slots| ==>
              (slots[i].Holds? <==> i in OccupiedIndices(slots, from))
    decreases |slots| - from
  {
    if from < |slots| {
      OccupiedIndicesCover(slots, from + 1);
      OccupiedIndicesAscend(slots, from + 1);
      var ix, ix' := OccupiedIndices(slots, from), OccupiedIndices(slots, from + 1);
      assert from !in ix';
      if slots[from].Holds? {
        assert ix == [from] + ix';
      } else {
        assert ix == ix';
      }
    }
  }

  /** The occupants of `slots[from..]` are exactly the entities of the
      occupied slots at or after `from`, one per occupied slot, in the
      order of their indices. */
  lemma {:induction false} OccupantsFollowIndices(slots: seq<Slot>, from: nat)
    requires from <= |slots|
    ensures |OccupiedIndices(slots, from)| == |Occupants(slots[from..])|
    ensures forall k :: 0 <= k < |OccupiedIndices(slots, from)| ==>
              from <= OccupiedIndices(slots, from)[k] < |slots| &&
              slots[OccupiedIndices(slots, from)[k]] == Holds(Occupants(slots[from..])[k])
    decreases |slots| - from
  {
    OccupiedIndicesAscendAndCover(slots, from);
    if from < |slots| {
      OccupantsFollowIndices(slots, from + 1);
      var ix, ix' := OccupiedIndices(slots, from), OccupiedIndices(slots, from + 1);
      var occ, occ' := Occupants(slots[from..]), Occupants(slots[from + 1..]);
      assert slots[from..][1..] == slots[from + 1..];
      assert slots[from..][0] == slots[from];
      if slots[from].Holds? {
        assert ix == [from] + ix';
        assert occ == [slots[from].entity] + occ';
        forall k | 0 < k < |ix|
          ensures ix[k] == ix'[k - 1] && occ[k] == occ'[k - 1]
        {
        }
      } else {
        assert ix == ix';
        assert occ == occ';
      }
    }
  }

  /** Whole-array form: the occupants of a slot array are its occupied
      slots' entities, in index order, and there are exactly as many of
      them as occupied slots. */
  lemma OccupantsInIndexOrder(slots: seq<Slot>)
    ensures |Occupants(slots)| == |OccupiedIndices(slots, 0)|
    ensures forall k :: 0 <= k < |Occupants(slots)| ==>
              OccupiedIndices(slots, 0)[k] < |slots| &&
              slots[OccupiedIndices(slots, 0)[k]] == Holds(Occupants(slots)[k])
    ensures forall k, l :: 0 <= k < l < |OccupiedIndices(slots, 0)| ==>
              OccupiedIndices(slots, 0)[k] < OccupiedIndices(slots, 0)[l]
    ensures forall i :: 0 <= i < |slots| ==> (slots[i].Holds? <==> i in OccupiedIndices(slots, 0))
  {
    OccupantsFollowIndices(slots, 0);
    OccupiedIndicesAscendAndCover(slots, 0);
    assert slots[0..] == slots;
  }
}
