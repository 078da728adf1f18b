/** system.h: starting a join (`range`, `Range::begin`) and mapping a stored component
    back to the entity that owns it (`component_to_entity_handle`). */
module SystemRange {
  import opened EcsImpl
  import opened Utility
  import opened SortedIds
  import opened Join
  import opened SystemBase
  import opened SystemIterator

  /** `range<Components...>()`: a cursor with every index at 0, advanced to target 0. It
      stands on the smallest jointly held id, or on the sentinel when there is none. */
  method Range<V>(sys: System<V>, types: seq<TypeRef>) returns (c: Cursor<V>)
    requires sys.Valid() && |types| >= 1
    ensures fresh(c) && fresh(c.currentIndexes)
    ensures c.Valid() && c.sys == sys && c.types == types
    ensures c.currentIndexes[..] == Join.Advance(sys.Columns(types), seq(|types|, _ => 0), 0)
    ensures c.IsSettled()
    ensures NoJointIn(c.Cols(), 0, c.CurrentId())
    ensures c.CurrentId() != MAX_ID ==> Joint(c.Cols(), c.CurrentId())
  {
    c := new Cursor(sys, types);
    ghost var zeros := c.currentIndexes[..];
    assert zeros == seq(|types|, _ => 0);
    sys.ColumnsValid(types);
    AdvanceCorrect(c.Cols(), zeros, 0);
    c.AdvanceTo(0);
  }

  /** `Range<Components...>::begin()`: builds the same cursor as `range()`. */
  method RangeBegin<V>(sys: System<V>, types: seq<TypeRef>) returns (c: Cursor<V>)
    requires sys.Valid() && |types| >= 1
    ensures fresh(c) && fresh(c.currentIndexes)
    ensures c.Valid() && c.sys == sys && c.types == types
    ensures c.currentIndexes[..] == Join.Advance(sys.Columns(types), seq(|types|, _ => 0), 0)
    ensures c.IsSettled()
  {
    c := Range(sys, types);
  }

  /** A join over a type that holds no component is exhausted from the start. */
  lemma EmptyJoinIsExhausted(cols: seq<seq<Id>>, k: nat)
    requires ValidColumns(cols) && k < |cols| && cols[k] == [MAX_ID]
    ensures forall x: Id :: !Joint(cols, x)
    ensures JointIds(cols) == []
    ensures Current(cols, Join.Advance(cols, seq(|cols|, _ => 0), 0)) == MAX_ID
  {
    JointIdsSpec(cols);
    assert |JointIds(cols)| > 0 ==> JointIds(cols)[0] in JointIds(cols);
    var zeros := seq(|cols|, _ => 0);
    AdvanceCorrect(cols, zeros, 0);
    var r := Join.Advance(cols, zeros, 0);
    assert cols[k][r[k]] == MAX_ID;
  }

  /** `component_to_entity_handle(component)`: the component is given by its offset from
      `&components.front()`, which must lie within `[front, back]` of a non-empty column.
      The handle is `ids[offset]`: a real entity, and the one whose `get()` finds exactly
      this row, since rows of the two columns belong together. */
  method ComponentToEntityHandle<V>(sys: System<V>, t: TypeRef, offset: int) returns (e: Id)
    requires sys.Valid()
    requires |sys.Components(t)| > 0 && 0 <= offset <= |sys.Components(t)| - 1
    ensures e != MAX_ID && e in sys.Ids(t)
    ensures LowerBound(sys.Ids(t), e) == offset
  {
    var ids := sys.Ids(t);
    assert IsColumn(sys.IdsAt(SlotOf(t)));
    e := ids[offset];
    assert e < ids[|ids| - 1];
    LowerBoundFinds(ids, e);
  }
}
