/** system_iterator.h: `System_iterator<First, Rest...>`, a cursor holding one index per
    queried type into that type's `ids` column. Each method is proved to perform the
    corresponding step of the `Join` functions, whose properties are proved there. */
module SystemIterator {
  import opened EcsImpl
  import opened Wrappers
  import opened Utility
  import opened SortedIds
  import opened Join
  import opened SystemBase

  class Cursor<V> {
    const sys: System<V>
    /** `First, Rest...` as written (not cvr-stripped). */
    const types: seq<TypeRef>
    /** `current_indexes`. */
    const currentIndexes: array<nat>

    /** The id columns of the queried types. */
    function Cols(): seq<seq<Id>>
      reads sys`ids
    {
      sys.Columns(types)
    }

    /** The queried columns are well formed, each with one component per real id, and
        every slot indexes into its column. */
    ghost predicate Valid()
      reads this, sys`ids, sys`components, currentIndexes
    {
      && |types| >= 1
      && currentIndexes.Length == |types|
      && ValidColumns(Cols())
      && (forall k :: 0 <= k < |types| ==> |Cols()[k]| == |sys.Components(types[k])| + 1)
      && InBounds(Cols(), currentIndexes[..])
    }

    /** All slots stand on the same id (the state `advance` leaves behind). */
    ghost predicate IsSettled()
      reads this, sys, currentIndexes
      requires Valid()
    {
      Settled(Cols(), currentIndexes[..])
    }

    /** The id under the first slot. */
    function CurrentId(): Id
      reads this, sys, currentIndexes
      requires Valid()
    {
      sys.Ids(types[0])[currentIndexes[0]]
    }

    /** A default-constructed cursor: `current_indexes{}` is all zeros. */
    constructor (sys: System<V>, types: seq<TypeRef>)
      requires sys.Valid() && |types| >= 1
      ensures this.sys == sys && this.types == types
      ensures fresh(currentIndexes) && Valid()
      ensures forall k :: 0 <= k < |types| ==> currentIndexes[k] == 0
    {
      this.sys := sys;
      this.types := types;
      currentIndexes := new nat[|types|](_ => 0);
      new;
      sys.ColumnsValid(types);
      forall k | 0 <= k < |types| ensures |Cols()[k]| == |sys.Components(types[k])| + 1 {
        assert |sys.IdsAt(SlotOf(types[k]))| == |sys.ComponentsAt(SlotOf(types[k]))| + 1;
      }
    }

    /** `operator bool`: the cursor is live while its first slot is not on the sentinel. */
    method IsLive() returns (b: bool)
      requires Valid()
      ensures b <==> CurrentId() != MAX_ID
      ensures b && IsSettled() ==> Joint(Cols(), CurrentId())
    {
      b := sys.Ids(types[0])[currentIndexes[0]] != MAX_ID;
    }

    /** The `while (ids.at(current_indexes[k]) < target) current_indexes[k]++;` walk. */
    method WalkSlot(k: nat, target: Id) returns (reached: Id)
      requires Valid() && k < |types|
      modifies currentIndexes
      ensures Valid()
      ensures currentIndexes[..] == old(currentIndexes[..])[k := FirstAtLeast(Cols()[k], old(currentIndexes[k]), target)]
      ensures reached == Cols()[k][currentIndexes[k]]
    {
      ghost var col := Cols()[k];
      ghost var goal := FirstAtLeast(col, currentIndexes[k], target);
      var ids := sys.Ids(types[k]);
      while ids[currentIndexes[k]] < target
        invariant currentIndexes[k] <= goal < |col|
        invariant FirstAtLeast(col, currentIndexes[k], target) == goal
        invariant forall m :: 0 <= m < |types| && m != k ==> currentIndexes[m] == old(currentIndexes[m])
        decreases goal - currentIndexes[k]
      {
        currentIndexes[k] := currentIndexes[k] + 1;
      }
      reached := ids[currentIndexes[k]];
      assert currentIndexes[..] == old(currentIndexes[..])[k := goal];
    }

    /** `get_advanced_index(target)` as intended: walks every slot in turn, each to the id
        the previous one reached, and returns the id the last slot reached. */
    method GetAdvancedIndex(target: Id) returns (newTarget: Id)
      requires Valid()
      modifies currentIndexes
      ensures Valid()
      ensures currentIndexes[..] == Pass(Cols(), old(currentIndexes[..]), target).idx
      ensures newTarget == Pass(Cols(), old(currentIndexes[..]), target).reached
    {
      ghost var cols := Cols();
      ghost var goal := Pass(cols, currentIndexes[..], target);
      var t := target;
      var k := 0;
      while k < |types|
        invariant 0 <= k <= |types|
        invariant Valid()
        invariant PassFrom(cols, currentIndexes[..], k, t) == goal
      {
        t := WalkSlot(k, t);
        k := k + 1;
      }
      newTarget := t;
    }

    /** `advance(target)`: one scan for a single queried type; otherwise scans repeated
        while the target moves. The source's loop also stops as soon as the new target is
        `max_id` (system_iterator.h:31); that exit is dropped here, see the findings. */
    method AdvanceTo(target: Id)
      requires Valid()
      modifies currentIndexes
      ensures Valid()
      ensures currentIndexes[..] == Join.Advance(Cols(), old(currentIndexes[..]), target)
    {
      ghost var start := currentIndexes[..];
      if |types| == 1 {
        var _ := GetAdvancedIndex(target);
      } else {
        var t := target;
        var newTarget := GetAdvancedIndex(t);
        while newTarget != t
          invariant Valid() && t <= newTarget
          invariant Settle(Cols(), Step(currentIndexes[..], newTarget), t) == Join.Advance(Cols(), start, target)
          decreases MAX_ID - t
        {
          t := newTarget;
          newTarget := GetAdvancedIndex(t);
        }
      }
    }

    /** `advance()`: steps past the current entity by re-targeting to its id + 1. From a
        settled cursor it lands on the next jointly held id, skipping none. */
    method Advance()
      requires Valid() && CurrentId() != MAX_ID
      modifies currentIndexes
      ensures Valid()
      ensures currentIndexes[..] == Join.Advance(Cols(), old(currentIndexes[..]), old(CurrentId()) + 1)
      ensures old(IsSettled()) ==>
        LandsOnNextJoint(Cols(), old(currentIndexes[..]), old(CurrentId()) + 1, currentIndexes[..])
    {
      ghost var cols := Cols();
      ghost var before := currentIndexes[..];
      var next := CurrentId() + 1;
      if IsSettled() {
        SettledIsBelowNext(cols, before);
        AdvanceCorrect(cols, before, next);
      }
      AdvanceTo(next);
    }

    /** `get<U>()`: the component of type `U` at the cursor, read through `.at`, which
        throws (here `None`) when that slot stands on the sentinel. `U` must be one of the
        queried types as written, else `get_index` does not compile. */
    method Get(u: TypeRef) returns (r: Option<V>)
      requires Valid() && u in types
      ensures var i := GetIndex(types, u).value;
        && (r.Some? <==> currentIndexes[i] < |sys.Components(u)|)
        && (r.Some? ==> r.value == sys.Components(u)[currentIndexes[i]])
      ensures IsSettled() && CurrentId() != MAX_ID ==>
        r.Some? && sys.Ids(u)[currentIndexes[GetIndex(types, u).value]] == CurrentId()
    {
      var i := GetIndex(types, u).value;
      var comps := sys.Components(u);
      assert sys.Ids(u) == Cols()[i];
      if currentIndexes[i] < |comps| {
        r := Some(comps[currentIndexes[i]]);
      } else {
        r := None;
      }
    }

    /** `get_entity_handle()` as intended: the id the cursor stands on (the source builds
        the handle from `current_indexes[0]`, an index; see the findings). */
    method GetEntityHandle() returns (e: Id)
      requires Valid()
      ensures e == CurrentId()
      ensures IsSettled() && e != MAX_ID ==> Joint(Cols(), e)
    {
      e := sys.Ids(types[0])[currentIndexes[0]];
    }
  }
}
