/** Four places where system_iterator.h and entity_base.h, as written, do not do what the
    surrounding code and comments intend. Each is modelled here as written, with a
    concrete input on which it goes wrong; the rest of the model uses the intended
    behaviour (`Join.PassFrom`, `Join.Advance`, `SystemIterator.Cursor.GetEntityHandle`,
    `EntityBase.Entity.Remove`). */
module Findings {
  import opened EcsImpl
  import opened Wrappers
  import opened SortedIds
  import opened Join
  import opened EntityBase

  /** Columns whose indexes fit in an `Id_t`, as every `std::size_t` index does. */
  predicate Addressable(cols: seq<seq<Id>>)
  {
    forall k :: 0 <= k < |cols| ==> |cols[k]| <= MAX_ID
  }

  /** `get_advanced_index<k>(target)` as written (system_iterator.h:72-78): after the walk
      of slot k, the next slot receives the walked INDEX as its target, and the result is
      `std::max` of that index and the next slot's result. */
  function PassAsWritten(cols: seq<seq<Id>>, idx: seq<nat>, k: nat, t: Id): (r: Step)
    requires ValidColumns(cols) && Addressable(cols) && InBounds(cols, idx) && k < |cols|
    ensures InBounds(cols, r.idx)
    ensures forall m :: 0 <= m < |cols| ==> idx[m] <= r.idx[m]
    decreases |cols| - k
  {
    var j := FirstAtLeast(cols[k], idx[k], t);
    var idx' := idx[k := j];
    if k + 1 < |cols| then
      var rest := PassAsWritten(cols, idx', k + 1, j);
      Step(rest.idx, if j > rest.reached then j else rest.reached)
    else Step(idx', cols[k][j])
  }

  /** The loop of `advance(target)` as written (system_iterator.h:30-34) around
      `PassAsWritten`. Its termination rests on the indexes being bounded, not on the
      target growing, so the model runs it for at most `fuel` rounds. */
  function LoopAsWritten(cols: seq<seq<Id>>, s: Step, target: Id, fuel: nat): Option<seq<nat>>
    requires ValidColumns(cols) && Addressable(cols) && InBounds(cols, s.idx)
    decreases fuel
  {
    if s.reached == target || s.reached == MAX_ID then Some(s.idx)
    else if fuel == 0 then None
    else LoopAsWritten(cols, PassAsWritten(cols, s.idx, 0, s.reached), s.reached, fuel - 1)
  }

  /** `advance(target)` as written, for several queried types. */
  function AdvanceAsWritten(cols: seq<seq<Id>>, idx: seq<nat>, target: Id, fuel: nat): Option<seq<nat>>
    requires ValidColumns(cols) && Addressable(cols) && InBounds(cols, idx)
  {
    LoopAsWritten(cols, PassAsWritten(cols, idx, 0, target), target, fuel)
  }

  /** The columns of finding 1: entities 1 and 3 hold an A, entities 2 and 3 hold a B. */
  function Finding1Cols(): (cols: seq<seq<Id>>)
    ensures ValidColumns(cols) && Addressable(cols)
  {
    var cols := [[1, 3, MAX_ID], [2, 3, MAX_ID]];
    assert IsColumn(cols[0]) && IsColumn(cols[1]);
    cols
  }

  /** Finding 1, as written: the second scan hands index 1 instead of id 3 to B, which
      stays on entity 2, and the loop stops because the result, 2, equals its target. */
  lemma IndexAsTargetStopsUnsettled()
    ensures AdvanceAsWritten(Finding1Cols(), [0, 0], 0, 2) == Some([1, 0])
    ensures !Settled(Finding1Cols(), [1, 0]) && Current(Finding1Cols(), [1, 0]) == 3
    ensures Finding1Cols()[1][0] == 2
  {
    var cols := Finding1Cols();
    assert FirstAtLeast(cols[0], 0, 0) == 0;
    assert FirstAtLeast(cols[1], 0, 0) == 0;
    assert [0, 0][0 := 0] == [0, 0] && [0, 0][1 := 0] == [0, 0];
    assert PassAsWritten(cols, [0, 0], 1, 0) == Step([0, 0], 2);
    assert PassAsWritten(cols, [0, 0], 0, 0) == Step([0, 0], 2);
    assert FirstAtLeast(cols[0], 1, 2) == 1;
    assert FirstAtLeast(cols[0], 0, 2) == 1;
    assert FirstAtLeast(cols[1], 0, 1) == 0;
    assert [0, 0][0 := 1] == [1, 0] && [1, 0][1 := 0] == [1, 0];
    assert PassAsWritten(cols, [1, 0], 1, 1) == Step([1, 0], 2);
    assert PassAsWritten(cols, [0, 0], 0, 2) == Step([1, 0], 2);
  }

  /** The first two scans of the intended join on finding 1's columns. */
  lemma IntendedScansOnFinding1()
    ensures Pass(Finding1Cols(), [0, 0], 0) == Step([0, 0], 2)
    ensures Pass(Finding1Cols(), [0, 0], 2) == Step([1, 1], 3)
  {
    var cols := Finding1Cols();
    assert FirstAtLeast(cols[0], 0, 0) == 0;
    assert FirstAtLeast(cols[1], 0, 1) == 0;
    assert [0, 0][0 := 0] == [0, 0] && [0, 0][1 := 0] == [0, 0];
    assert PassFrom(cols, [0, 0], 1, 1) == Step([0, 0], 2);
    assert FirstAtLeast(cols[0], 1, 2) == 1;
    assert FirstAtLeast(cols[0], 0, 2) == 1;
    assert FirstAtLeast(cols[1], 1, 3) == 1;
    assert FirstAtLeast(cols[1], 0, 3) == 1;
    assert [0, 0][0 := 1] == [1, 0] && [1, 0][1 := 1] == [1, 1];
    assert PassFrom(cols, [1, 0], 1, 3) == Step([1, 1], 3);
  }

  /** Finding 1, intended: the scans pass ids along and both slots settle on entity 3. */
  lemma IntendedJoinSettlesOnThree()
    ensures Advance(Finding1Cols(), [0, 0], 0) == [1, 1] && Joint(Finding1Cols(), 3)
  {
    var cols := Finding1Cols();
    IntendedScansOnFinding1();
    assert FirstAtLeast(cols[0], 1, 3) == 1;
    assert FirstAtLeast(cols[1], 1, 3) == 1;
    assert [1, 1][0 := 1] == [1, 1] && [1, 1][1 := 1] == [1, 1];
    assert PassFrom(cols, [1, 1], 1, 3) == Step([1, 1], 3);
    assert Pass(cols, [1, 1], 3) == Step([1, 1], 3);
    assert Settle(cols, Step([1, 1], 3), 3) == [1, 1];
    assert Settle(cols, Step([0, 0], 2), 0) == [1, 1];
  }

  /** `advance(target)`'s loop as written around the intended scan: it also stops as soon
      as the new target is `max_id`, before the slots have caught up with it. */
  function LoopEarlyExit(cols: seq<seq<Id>>, s: Step, target: Id): seq<nat>
    requires ValidColumns(cols) && InBounds(cols, s.idx) && s.reached >= target
    decreases MAX_ID - target
  {
    if s.reached == target || s.reached == MAX_ID then s.idx
    else LoopEarlyExit(cols, Pass(cols, s.idx, s.reached), s.reached)
  }

  /** The columns of finding 2: entity 1 holds an A and no entity holds a B. */
  function Finding2Cols(): (cols: seq<seq<Id>>)
    ensures ValidColumns(cols) && Addressable(cols)
  {
    var cols := [[1, MAX_ID], [MAX_ID]];
    assert IsColumn(cols[0]) && IsColumn(cols[1]);
    cols
  }

  /** Finding 2, as written: the first scan reaches `max_id` and the loop stops, leaving
      a live cursor on entity 1, which holds no B, so a joined system would call `f`
      for it. This holds for the code exactly as written (`AdvanceAsWritten`) and for the
      `max_id` exit alone around the intended scan (`LoopEarlyExit`). */
  lemma MaxIdExitStopsTooEarly()
    ensures AdvanceAsWritten(Finding2Cols(), [0, 0], 0, 3) == Some([0, 0])
    ensures LoopEarlyExit(Finding2Cols(), Pass(Finding2Cols(), [0, 0], 0), 0) == [0, 0]
    ensures Current(Finding2Cols(), [0, 0]) == 1 && !Joint(Finding2Cols(), 1)
  {
    var cols := Finding2Cols();
    assert FirstAtLeast(cols[1], 0, 0) == 0;
    assert PassAsWritten(cols, [0, 0], 1, 0) == Step([0, 0], MAX_ID);
    assert PassAsWritten(cols, [0, 0], 0, 0) == Step([0, 0], MAX_ID);
    assert FirstAtLeast(cols[0], 0, 0) == 0;
    assert FirstAtLeast(cols[1], 0, 1) == 0;
    assert [0, 0][0 := 0] == [0, 0] && [0, 0][1 := 0] == [0, 0];
    assert PassFrom(cols, [0, 0], 1, 1) == Step([0, 0], MAX_ID);
    assert Pass(cols, [0, 0], 0) == Step([0, 0], MAX_ID);
    assert 1 !in cols[1];
  }

  /** Finding 2, intended: run to its fixpoint, the loop moves A onto the sentinel too and
      the join is exhausted. */
  lemma FixpointLoopIsExhausted()
    ensures Current(Finding2Cols(), Advance(Finding2Cols(), [0, 0], 0)) == MAX_ID
  {
    var cols := Finding2Cols();
    assert FirstAtLeast(cols[0], 0, 0) == 0;
    assert FirstAtLeast(cols[1], 0, 1) == 0;
    assert [0, 0][0 := 0] == [0, 0] && [0, 0][1 := 0] == [0, 0];
    assert PassFrom(cols, [0, 0], 1, 1) == Step([0, 0], MAX_ID);
    assert Pass(cols, [0, 0], 0) == Step([0, 0], MAX_ID);
    assert FirstAtLeast(cols[0], 1, MAX_ID) == 1;
    assert FirstAtLeast(cols[0], 0, MAX_ID) == 1;
    assert FirstAtLeast(cols[1], 0, MAX_ID) == 0;
    assert [0, 0][0 := 1] == [1, 0] && [1, 0][1 := 0] == [1, 0];
    assert PassFrom(cols, [1, 0], 1, MAX_ID) == Step([1, 0], MAX_ID);
    assert Pass(cols, [0, 0], MAX_ID) == Step([1, 0], MAX_ID);
    assert Settle(cols, Step([1, 0], MAX_ID), MAX_ID) == [1, 0];
    assert Advance(cols, [0, 0], 0) == [1, 0];
  }

  /** `get_entity_handle()` as written (system_iterator.h:58): the handle is built from the
      first slot's index, not from the id at that index. */
  function EntityHandleAsWritten(idx: seq<nat>): nat
    requires |idx| >= 1
  {
    idx[0]
  }

  /** Finding 3. With entity 7 the only holder of A, `range<A>()` stands on row 0, and the
      handle as written names entity 0 instead of entity 7. */
  lemma HandleFromIndexNamesWrongEntity()
    ensures var cols := [[7, MAX_ID]];
      && ValidColumns(cols)
      && Advance(cols, [0], 0) == [0]
      && Current(cols, [0]) == 7 && Joint(cols, 7)
      && EntityHandleAsWritten(Advance(cols, [0], 0)) == 0
  {
    var cols := [[7, MAX_ID]];
    assert IsColumn(cols[0]);
    assert FirstAtLeast(cols[0], 0, 0) == 0;
    assert PassFrom(cols, [0], 1, 7) == Step([0], 7);
    assert Pass(cols, [0], 0) == Step([0], 7);
  }

  /** `remove<T>()` as written (entity_base.h:72-74, 103-104): the record erased from
      `removers` is the one at the id's position in `ids<T>`. (The guard
      `id_pos != end(ids)` never fires: `lower_bound` always stops at the sentinel at the
      latest.) */
  function RemoveAsWrittenIndex(ids: seq<Id>, id: Id): nat
    requires IsColumn(ids)
  {
    LowerBound(ids, id)
  }

  /** Finding 4. Entity 1 holds an A (slot 0), entity 2 holds a B (slot 1). Removing B
      from entity 2 as written erases the ledger's record 0, whose destructor erases
      entity 1's A; entity 2 keeps its B. The intended lookup by `(id, remover<B>)` finds
      record 1. */
  lemma RemoveErasesWrongRecord()
    ensures var ledger := [Remover(EraseFrom(0), 1, "A"), Remover(EraseFrom(1), 2, "B")];
      var idsB := [2, MAX_ID];
      && KeySorted(ledger) && IsColumn(idsB)
      && RemoveAsWrittenIndex(idsB, 2) == 0
      && Effect(ledger[RemoveAsWrittenIndex(idsB, 2)]) == Some((0, 1))
      && KeyLowerBound(ledger, Remover(EraseFrom(1), 2, "")) == 1
      && Effect(ledger[1]) == Some((1, 2))
  {
    var ledger := [Remover(EraseFrom(0), 1, "A"), Remover(EraseFrom(1), 2, "B")];
    var idsB := [2, MAX_ID];
    assert IsColumn(idsB);
    assert FirstAtLeast(idsB, 0, 2) == 0;
    assert Less(ledger[0], ledger[1]);
    assert KeySorted(ledger);
    var probe := Remover(EraseFrom(1), 2, "");
    assert Less(ledger[0], probe) && !Less(ledger[1], probe);
  }
}
