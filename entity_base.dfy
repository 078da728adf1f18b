/** entity_base.h: the entity handle `Entity_base`, which inserts its components into and
    looks them up in the per-type columns of `SystemBase`, and the type-erased ledger of
    `Remover` records through which components are erased. */
module EntityBase {
  import opened EcsImpl
  import opened Wrappers
  import opened Utility
  import opened SortedIds
  import opened SystemBase

  /** The `void (*)(Id_t)` a `Remover` holds: `remover_dummy`, or a `remover<T>` that erases
      from slot `slot`. Spellings of `T` that share a slot (`remover<A>`, `remover<A&>`)
      are one value here, since they erase from the same store. */
  datatype RemoverFn = Dummy | EraseFrom(slot: nat)

  /** `Remover`: the function to call, the entity it is for, and the `type_name` tag
      (used only for logging). */
  datatype Remover = Remover(f: RemoverFn, id: Id, typeName: string)

  /** The order of function-pointer addresses that `std::tie` compares, fixed as
      `remover_dummy` first, then the `remover<T>` instances by slot. */
  function FnRank(f: RemoverFn): nat
  {
    match f
    case Dummy => 0
    case EraseFrom(s) => s + 1
  }

  /** `Remover::operator<(const Remover&)`: `std::tie(id, f) < std::tie(other.id, other.f)`. */
  predicate Less(a: Remover, b: Remover)
  {
    a.id < b.id || (a.id == b.id && FnRank(a.f) < FnRank(b.f))
  }

  /** `Remover::operator<(Id_t)`. */
  predicate IdBelow(r: Remover, x: Id)
  {
    r.id < x
  }

  /** `Remover::operator>(Id_t)`, and through it the free `operator<(Id_t, const Remover&)`. */
  predicate IdAbove(r: Remover, x: Id)
  {
    r.id > x
  }

  /** `operator<` is a strict total order on `(id, f)`, and the comparisons against a bare
      id agree with it, so a ledger sorted by `(id, f)` is also partitioned by id. */
  lemma LessIsStrictOrder(a: Remover, b: Remover, c: Remover)
    ensures !Less(a, a)
    ensures Less(a, b) && Less(b, c) ==> Less(a, c)
    ensures Less(a, b) || Less(b, a) || (a.id == b.id && a.f == b.f)
    ensures IdBelow(a, b.id) ==> Less(a, b)
    ensures IdAbove(b, a.id) ==> Less(a, b)
  {
    if FnRank(a.f) == FnRank(b.f) {
      assert a.f == b.f;
    }
  }

  /** What `~Remover()` does: nothing when `f` is `remover_dummy`, otherwise the one call
      `f(id)`, here the erase of row `id` from slot `f.slot`. */
  function Effect(r: Remover): Option<(nat, Id)>
  {
    if r.f.Dummy? then None else Some((r.f.slot, r.id))
  }

  /** `Remover(Remover&&)`: the new record (first) takes over `other`'s pending erase and
      the moved-from `other` (second) is left holding `remover_dummy`, so destroying it
      erases nothing. */
  function MoveConstruct(other: Remover): (r: (Remover, Remover))
    ensures r.0 == other && Effect(r.0) == Effect(other)
    ensures r.1.f == Dummy && Effect(r.1) == None
  {
    (other, other.(f := Dummy))
  }

  /** `Remover::operator=(Remover&&)`: swaps all three fields, so the two pending erases are
      exchanged, neither lost nor duplicated. */
  function MoveAssign(self: Remover, other: Remover): (r: (Remover, Remover))
    ensures r.0 == other && r.1 == self
    ensures multiset{Effect(r.0), Effect(r.1)} == multiset{Effect(self), Effect(other)}
  {
    (other, self)
  }

  /** `removers` is sorted by `operator<` with no two records for the same `(id, f)`. */
  predicate KeySorted(rs: seq<Remover>)
  {
    forall i, j :: 0 <= i < j < |rs| ==> Less(rs[i], rs[j])
  }

  /** Some record in `rs` will erase row `x` of slot `s`. */
  predicate HasRecord(rs: seq<Remover>, x: Id, s: nat)
  {
    exists i :: 0 <= i < |rs| && rs[i].id == x && rs[i].f == EraseFrom(s)
  }

  /** `std::lower_bound(begin(removers), end(removers), r)` from position `from`. */
  function KeyLowerBoundFrom(rs: seq<Remover>, r: Remover, from: nat): (i: nat)
    requires from <= |rs|
    ensures from <= i <= |rs|
    ensures forall k :: from <= k < i ==> Less(rs[k], r)
    ensures i < |rs| ==> !Less(rs[i], r)
    decreases |rs| - from
  {
    if from == |rs| || !Less(rs[from], r) then from else KeyLowerBoundFrom(rs, r, from + 1)
  }

  /** `std::lower_bound(begin(removers), end(removers), r)`: the records before it are
      below `r` and the rest are not. */
  function KeyLowerBound(rs: seq<Remover>, r: Remover): (i: nat)
    requires KeySorted(rs)
    ensures i <= |rs|
    ensures forall k :: 0 <= k < i ==> Less(rs[k], r)
    ensures forall k :: i <= k < |rs| ==> !Less(rs[k], r)
  {
    var i := KeyLowerBoundFrom(rs, r, 0);
    forall k | i <= k < |rs| ensures !Less(rs[k], r) {
      if k > i { assert Less(rs[i], rs[k]); }
    }
    i
  }

  /** Inserting a record for a new `(id, f)` at its `lower_bound` keeps the ledger sorted,
      and the ledger then holds that record's erase besides the old ones. */
  lemma {:induction false} InsertKeepsKeySorted(rs: seq<Remover>, r: Remover)
    requires KeySorted(rs)
    requires forall k :: 0 <= k < |rs| ==> !(rs[k].id == r.id && rs[k].f == r.f)
    ensures KeySorted(Inserted(rs, KeyLowerBound(rs, r), r))
    ensures forall x: Id, s: nat :: HasRecord(Inserted(rs, KeyLowerBound(rs, r), r), x, s) <==>
      HasRecord(rs, x, s) || (x == r.id && r.f == EraseFrom(s))
  {
    var q := KeyLowerBound(rs, r);
    var n := Inserted(rs, q, r);
    InsertedAt(rs, q, r);
    forall k | q <= k < |rs| ensures Less(r, rs[k]) {
      LessIsStrictOrder(rs[k], r, r);
    }
    forall i, j | 0 <= i < j < |n| ensures Less(n[i], n[j]) {
      if j < q {
      } else if j == q {
      } else if i < q {
        assert Less(rs[i], r) && Less(r, rs[j - 1]);
      } else if i > q {
        assert Less(rs[i - 1], rs[j - 1]);
      }
    }
    forall x: Id, s: nat ensures HasRecord(n, x, s) <==> HasRecord(rs, x, s) || (x == r.id && r.f == EraseFrom(s)) {
      if HasRecord(n, x, s) {
        var i :| 0 <= i < |n| && n[i].id == x && n[i].f == EraseFrom(s);
        if i < q { assert rs[i] == n[i]; } else if i > q { assert rs[i - 1] == n[i]; }
      }
      if HasRecord(rs, x, s) {
        var i :| 0 <= i < |rs| && rs[i].id == x && rs[i].f == EraseFrom(s);
        if i < q { assert n[i] == rs[i]; } else { assert n[i + 1] == rs[i]; }
      }
      if x == r.id && r.f == EraseFrom(s) {
        assert n[q] == r;
      }
    }
  }

  /** Erasing one record keeps the ledger sorted, and, keys being unique, exactly that
      record's erase leaves the ledger. */
  lemma EraseKeepsKeySorted(rs: seq<Remover>, i: nat)
    requires KeySorted(rs) && i < |rs|
    ensures KeySorted(Without(rs, i))
    ensures forall x: Id, s: nat :: HasRecord(Without(rs, i), x, s) <==>
      HasRecord(rs, x, s) && !(x == rs[i].id && rs[i].f == EraseFrom(s))
  {
    var n := Without(rs, i);
    WithoutAt(rs, i);
    forall a, b | 0 <= a < b < |n| ensures Less(n[a], n[b]) {
      var a' := if a < i then a else a + 1;
      var b' := if b < i then b else b + 1;
      assert n[a] == rs[a'] && n[b] == rs[b'];
    }
    forall x: Id, s: nat ensures HasRecord(n, x, s) <==> HasRecord(rs, x, s) && !(x == rs[i].id && rs[i].f == EraseFrom(s)) {
      if HasRecord(n, x, s) {
        var a :| 0 <= a < |n| && n[a].id == x && n[a].f == EraseFrom(s);
        var a' := if a < i then a else a + 1;
        assert n[a] == rs[a'] && a' != i;
      }
      if HasRecord(rs, x, s) && !(x == rs[i].id && rs[i].f == EraseFrom(s)) {
        var a :| 0 <= a < |rs| && rs[a].id == x && rs[a].f == EraseFrom(s);
        if a < i { assert n[a] == rs[a]; } else { assert n[a - 1] == rs[a]; }
      }
    }
  }

  /** In a sorted ledger, the records of one entity are contiguous. */
  lemma RecordsOfOneEntityContiguous(rs: seq<Remover>, i: nat, k: nat, j: nat)
    requires KeySorted(rs) && i <= k <= j < |rs| && rs[i].id == rs[j].id
    ensures rs[k].id == rs[i].id
  {
    if i < k < j {
      assert Less(rs[i], rs[k]) && Less(rs[k], rs[j]);
    }
  }

  /** The record of a sorted ledger that erases row `x` of slot `s` is found by
      `lower_bound`. */
  lemma KeyLowerBoundFinds(rs: seq<Remover>, x: Id, s: nat, name: string)
    requires KeySorted(rs) && HasRecord(rs, x, s)
    ensures var q := KeyLowerBound(rs, Remover(EraseFrom(s), x, name));
      q < |rs| && rs[q].id == x && rs[q].f == EraseFrom(s)
  {
    var r := Remover(EraseFrom(s), x, name);
    var q := KeyLowerBound(rs, r);
    var i :| 0 <= i < |rs| && rs[i].id == x && rs[i].f == EraseFrom(s);
    assert !Less(rs[i], r);
  }

  /** Every stored row has exactly one ledger record that erases it, and every record
      erases a stored row: `(x, remover<T>)` is in `removers` iff real id `x` is in the
      column of `T`. */
  ghost predicate Synced(ids: map<nat, seq<Id>>, rs: seq<Remover>)
  {
    forall s: nat, x: Id :: (x != MAX_ID && x in ColumnIn(ids, s)) <==> HasRecord(rs, x, s)
  }

  /** `get<T>()`, over the columns of `T`: `lower_bound`; absent when the id found is not
      this one; otherwise `components.at(pos)`, which throws `std::out_of_range` for the
      sentinel row (an invalid, moved-from entity). */
  datatype Lookup<V> = NoComponent | Found(row: nat, value: V) | OutOfRange

  function Get<V>(ids: seq<Id>, comps: seq<V>, id: Id): (r: Lookup<V>)
    requires IsColumn(ids) && |ids| == |comps| + 1
    ensures r.NoComponent? <==> id !in ids
    ensures r.OutOfRange? <==> id == MAX_ID
    ensures r.Found? ==> r.row < |comps| && ids[r.row] == id && r.value == comps[r.row]
  {
    LowerBoundFinds(ids, id);
    var p := LowerBound(ids, id);
    if ids[p] != id then NoComponent
    else if p < |comps| then Found(p, comps[p])
    else OutOfRange
  }

  /** After inserting `id` with `v` at its `lower_bound`, the columns still pair up and
      `get` finds `v` for `id`. */
  lemma GetAfterInsert<V>(ids: seq<Id>, comps: seq<V>, id: Id, v: V)
    requires IsColumn(ids) && |ids| == |comps| + 1 && id !in ids
    ensures var p := LowerBound(ids, id);
      && IsColumn(Inserted(ids, p, id)) && |Inserted(ids, p, id)| == |Inserted(comps, p, v)| + 1
      && Get(Inserted(ids, p, id), Inserted(comps, p, v), id) == Found(p, v)
  {
    var p := LowerBound(ids, id);
    InsertKeepsColumn(ids, id);
    InsertedAt(ids, p, id);
    InsertedAt(comps, p, v);
    LowerBoundFinds(Inserted(ids, p, id), id);
  }

  /** Inserting the row of `id` leaves what `get` finds for every other entity as it was,
      a found row moving up by one when it lay at or after the insertion point. */
  lemma GetAfterInsertOther<V>(ids: seq<Id>, comps: seq<V>, id: Id, v: V, other: Id)
    requires IsColumn(ids) && |ids| == |comps| + 1 && id !in ids && other != id
    ensures var p := LowerBound(ids, id);
      var before := Get(ids, comps, other);
      var after := Get(Inserted(ids, p, id), Inserted(comps, p, v), other);
      && (before.Found? ==> after == Found(if before.row < p then before.row else before.row + 1, before.value))
      && (!before.Found? ==> after == before)
  {
    var p := LowerBound(ids, id);
    var ids' := Inserted(ids, p, id);
    InsertKeepsColumn(ids, id);
    InsertedAt(ids, p, id);
    InsertedAt(comps, p, v);
    LowerBoundFinds(ids, other);
    LowerBoundFinds(ids', other);
    var before := Get(ids, comps, other);
    if before.Found? {
      assert ids'[if before.row < p then before.row else before.row + 1] == other;
    }
  }

  /** After erasing the row of `id`, the columns still pair up and `get` finds nothing
      for `id`. */
  lemma GetAfterErase<V>(ids: seq<Id>, comps: seq<V>, id: Id)
    requires IsColumn(ids) && |ids| == |comps| + 1 && id in ids && id != MAX_ID
    ensures var p := LowerBound(ids, id);
      && p < |comps|
      && IsColumn(Without(ids, p)) && |Without(ids, p)| == |Without(comps, p)| + 1
      && Get(Without(ids, p), Without(comps, p), id) == NoComponent
  {
    var p := LowerBound(ids, id);
    LowerBoundFinds(ids, id);
    EraseKeepsColumn(ids, p);
    WithoutAt(comps, p);
  }

  /** Erasing the row of `id` leaves what `get` finds for every other entity as it was, a
      found row moving down by one when it lay after the erased one. */
  lemma GetAfterEraseOther<V>(ids: seq<Id>, comps: seq<V>, id: Id, other: Id)
    requires IsColumn(ids) && |ids| == |comps| + 1 && id in ids && id != MAX_ID && other != id
    ensures var p := LowerBound(ids, id);
      p < |comps| &&
      var before := Get(ids, comps, other);
      var after := Get(Without(ids, p), Without(comps, p), other);
      && (before.Found? ==> after == Found(if before.row < p then before.row else before.row - 1, before.value))
      && (!before.Found? ==> after == before)
  {
    var p := LowerBound(ids, id);
    LowerBoundFinds(ids, id);
    var ids' := Without(ids, p);
    EraseKeepsColumn(ids, p);
    WithoutAt(ids, p);
    WithoutAt(comps, p);
    LowerBoundFinds(ids, other);
    LowerBoundFinds(ids', other);
    var before := Get(ids, comps, other);
    if before.Found? {
      assert ids'[if before.row < p then before.row else before.row - 1] == other;
    }
  }

  /** `emplace` keeps the ledger in step with the store: the new row of `id` in `slot`
      comes with the new record `(id, remover<T>)`. */
  lemma SyncedAfterInsert(ids: map<nat, seq<Id>>, rs: seq<Remover>, slot: nat, id: Id, typeName: string)
    requires Synced(ids, rs) && KeySorted(rs)
    requires IsColumn(ColumnIn(ids, slot)) && id !in ColumnIn(ids, slot)
    ensures var col := ColumnIn(ids, slot);
      var r := Remover(EraseFrom(slot), id, typeName);
      && (forall k :: 0 <= k < |rs| ==> !(rs[k].id == r.id && rs[k].f == r.f))
      && Synced(ids[slot := Inserted(col, LowerBound(col, id), id)], Inserted(rs, KeyLowerBound(rs, r), r))
  {
    var col := ColumnIn(ids, slot);
    var r := Remover(EraseFrom(slot), id, typeName);
    var ids' := ids[slot := Inserted(col, LowerBound(col, id), id)];
    assert id != MAX_ID;
    assert !HasRecord(rs, id, slot);
    InsertKeepsColumn(col, id);
    InsertKeepsKeySorted(rs, r);
    forall s: nat, x: Id
      ensures (x != MAX_ID && x in ColumnIn(ids', s)) <==> HasRecord(Inserted(rs, KeyLowerBound(rs, r), r), x, s)
    {
      if s != slot {
        assert ColumnIn(ids', s) == ColumnIn(ids, s);
      }
    }
  }

  /** Erasing record `i` together with the row it erases keeps the ledger in step with
      the store; that row is a real one present in its column. */
  lemma SyncedAfterErase(ids: map<nat, seq<Id>>, rs: seq<Remover>, i: nat)
    requires Synced(ids, rs) && KeySorted(rs) && i < |rs| && rs[i].f.EraseFrom?
    requires IsColumn(ColumnIn(ids, rs[i].f.slot))
    ensures var slot := rs[i].f.slot;
      var col := ColumnIn(ids, slot);
      && rs[i].id in col && rs[i].id != MAX_ID
      && Synced(ids[slot := Without(col, LowerBound(col, rs[i].id))], Without(rs, i))
  {
    var slot := rs[i].f.slot;
    var col := ColumnIn(ids, slot);
    var id := rs[i].id;
    assert HasRecord(rs, id, slot);
    LowerBoundFinds(col, id);
    var p := LowerBound(col, id);
    EraseKeepsColumn(col, p);
    EraseKeepsKeySorted(rs, i);
    var ids' := ids[slot := Without(col, p)];
    forall s: nat, x: Id
      ensures (x != MAX_ID && x in ColumnIn(ids', s)) <==> HasRecord(Without(rs, i), x, s)
    {
      if s != slot {
        assert ColumnIn(ids', s) == ColumnIn(ids, s);
      }
    }
  }

  /** The static `remover<T>(id)`: `lower_bound` for `id` in the column of `T`, then the
      row at that offset is erased from `components<T>` and from `ids<T>`. The source
      asserts that `id` is present; the sentinel is excluded too, since erasing
      `components` at `|components|` is undefined. */
  method EraseComponent<V>(sys: System<V>, slot: nat, id: Id)
    requires sys.Valid() && id in sys.IdsAt(slot) && id != MAX_ID
    modifies sys`ids, sys`components
    ensures sys.Valid()
    ensures var p := LowerBound(old(sys.IdsAt(slot)), id);
      && p < |old(sys.ComponentsAt(slot))|
      && sys.ids == old(sys.ids)[slot := Without(old(sys.IdsAt(slot)), p)]
      && sys.components == old(sys.components)[slot := Without(old(sys.ComponentsAt(slot)), p)]
  {
    var ids := sys.IdsAt(slot);
    var comps := sys.ComponentsAt(slot);
    var p := LowerBound(ids, id);
    GetAfterErase(ids, comps, id);
    sys.components := sys.components[slot := Without(comps, p)];
    sys.ids := sys.ids[slot := Without(ids, p)];
    forall s: nat ensures IsColumn(sys.IdsAt(s)) && |sys.IdsAt(s)| == |sys.ComponentsAt(s)| + 1 {
      if s != slot {
        assert sys.IdsAt(s) == old(sys.IdsAt(s)) && sys.ComponentsAt(s) == old(sys.ComponentsAt(s));
      }
    }
  }

  /** The column updates of `emplace<T>`: `id` and `v` are inserted at the id's
      `lower_bound` position in `ids<T>` and `components<T>`. */
  method InsertComponent<V>(sys: System<V>, slot: nat, id: Id, v: V) returns (row: nat)
    requires sys.Valid() && id !in sys.IdsAt(slot)
    modifies sys`ids, sys`components
    ensures sys.Valid()
    ensures row == LowerBound(old(sys.IdsAt(slot)), id)
    ensures sys.ids == old(sys.ids)[slot := Inserted(old(sys.IdsAt(slot)), row, id)]
    ensures sys.components == old(sys.components)[slot := Inserted(old(sys.ComponentsAt(slot)), row, v)]
    ensures Get(sys.IdsAt(slot), sys.ComponentsAt(slot), id) == Found(row, v)
  {
    var ids := sys.IdsAt(slot);
    var comps := sys.ComponentsAt(slot);
    row := LowerBound(ids, id);
    GetAfterInsert(ids, comps, id, v);
    sys.components := sys.components[slot := Inserted(comps, row, v)];
    sys.ids := sys.ids[slot := Inserted(ids, row, id)];
    forall s: nat ensures IsColumn(sys.IdsAt(s)) && |sys.IdsAt(s)| == |sys.ComponentsAt(s)| + 1 {
      if s != slot {
        assert sys.IdsAt(s) == old(sys.IdsAt(s)) && sys.ComponentsAt(s) == old(sys.ComponentsAt(s));
      }
    }
  }

  /** `~Remover()`: a live record runs its `remover<T>(id)`; a moved-from one, holding
      `remover_dummy`, changes nothing. */
  method DestroyRemover<V>(sys: System<V>, r: Remover)
    requires sys.Valid()
    requires r.f.EraseFrom? ==> r.id in sys.IdsAt(r.f.slot) && r.id != MAX_ID
    modifies sys`ids, sys`components
    ensures sys.Valid()
    ensures r.f.Dummy? ==> sys.ids == old(sys.ids) && sys.components == old(sys.components)
    ensures r.f.EraseFrom? ==> var p := LowerBound(old(sys.IdsAt(r.f.slot)), r.id);
      && p < |old(sys.ComponentsAt(r.f.slot))|
      && sys.ids == old(sys.ids)[r.f.slot := Without(old(sys.IdsAt(r.f.slot)), p)]
      && sys.components == old(sys.components)[r.f.slot := Without(old(sys.ComponentsAt(r.f.slot)), p)]
  {
    if r.f.EraseFrom? {
      EraseComponent(sys, r.f.slot, r.id);
    }
  }

  class Ledger {
    /** `Entity_base::removers`, one static vector shared by all entities. */
    var removers: seq<Remover>

    /** Sorted by `operator<`, and every record is live (moved-from records do not stay
        in the vector). */
    ghost predicate Valid()
      reads this`removers
    {
      KeySorted(removers) && forall i :: 0 <= i < |removers| ==> removers[i].f.EraseFrom?
    }

    /** The static `removers` starts empty. */
    constructor ()
      ensures removers == [] && Valid()
    {
      removers := [];
    }

    /** The move loop inside `vector::erase`: each record after `i` is move-assigned one
        place down; with the swapping move assignment the erased record travels to the
        back. */
    method ShiftToBack(i: nat)
      requires i < |removers|
      modifies this`removers
      ensures removers == Without(old(removers), i) + [old(removers)[i]]
    {
      ghost var rs := removers;
      var j := i;
      while j < |removers| - 1
        invariant i <= j < |removers| == |rs|
        invariant removers[..j] == rs[..i] + rs[i + 1..j + 1]
        invariant removers[j] == rs[i]
        invariant removers[j + 1..] == rs[j + 1..]
      {
        var moved := MoveAssign(removers[j], removers[j + 1]);
        assert rs[i + 1..j + 2] == rs[i + 1..j + 1] + [rs[j + 1]];
        removers := removers[j := moved.0][j + 1 := moved.1];
        assert removers[..j + 1] == rs[..i] + rs[i + 1..j + 2];
        assert removers[j + 2..] == rs[j + 2..];
        j := j + 1;
      }
      assert removers == removers[..j] + [removers[j]];
    }

    /** `removers.erase(begin(removers) + i)`: the records after `i` are shifted down one
        place each through the swapping move assignment, which carries the erased record
        to the back; destroying that last element then runs its `remover<T>(id)`, erasing
        the row the record stood for. */
    method EraseAt<V>(sys: System<V>, i: nat)
      requires Valid() && sys.Valid() && Synced(sys.ids, removers) && i < |removers|
      modifies this`removers, sys`ids, sys`components
      ensures Valid() && sys.Valid() && Synced(sys.ids, removers)
      ensures removers == Without(old(removers), i)
      ensures var slot := old(removers)[i].f.slot;
        var p := LowerBound(old(sys.IdsAt(slot)), old(removers)[i].id);
        && p < |old(sys.ComponentsAt(slot))|
        && sys.ids == old(sys.ids)[slot := Without(old(sys.IdsAt(slot)), p)]
        && sys.components == old(sys.components)[slot := Without(old(sys.ComponentsAt(slot)), p)]
    {
      ghost var rs := removers;
      ghost var slot := rs[i].f.slot;
      assert IsColumn(sys.IdsAt(slot));
      SyncedAfterErase(sys.ids, rs, i);
      EraseKeepsKeySorted(rs, i);
      ShiftToBack(i);
      var last := removers[|removers| - 1];
      removers := removers[..|removers| - 1];
      DestroyRemover(sys, last);
    }
  }

  class Entity {
    /** `Entity_base::id`; `max_id` once moved from. */
    var id: Id

    /** `Entity_base(Id_t id)`. */
    constructor (id: Id)
      ensures this.id == id
    {
      this.id := id;
    }

    /** `Entity_base(Entity_base&&)`: the new handle takes `other`'s id and `other` is
        left invalid. */
    constructor MoveFrom(other: Entity)
      modifies other
      ensures id == old(other.id) && other.id == MAX_ID && !other.IsValid()
    {
      id := other.id;
      new;
      other.id := MAX_ID;
    }

    /** `operator=(Entity_base&&)`: swaps the two ids. */
    method MoveAssign(other: Entity)
      modifies this, other
      ensures other != this ==> id == old(other.id) && other.id == old(id)
      ensures other == this ==> id == old(id)
    {
      id, other.id := other.id, id;
    }

    /** `is_valid()`: false exactly for a moved-from handle. */
    predicate IsValid()
      reads this
    {
      id != MAX_ID
    }

    /** `add_remover<T>()`: a record `(id, remover<T>)` is inserted at its `lower_bound`
        in `removers`, which stays sorted. */
    method AddRemover(ledger: Ledger, slot: nat, typeName: string)
      requires ledger.Valid()
      requires forall k :: 0 <= k < |ledger.removers| ==>
        !(ledger.removers[k].id == id && ledger.removers[k].f == EraseFrom(slot))
      modifies ledger`removers
      ensures ledger.Valid()
      ensures var r := Remover(EraseFrom(slot), id, typeName);
        ledger.removers == Inserted(old(ledger.removers), KeyLowerBound(old(ledger.removers), r), r)
    {
      var r := Remover(EraseFrom(slot), id, typeName);
      var pos := KeyLowerBound(ledger.removers, r);
      InsertKeepsKeySorted(ledger.removers, r);
      InsertedAt(ledger.removers, pos, r);
      ledger.removers := Inserted(ledger.removers, pos, r);
    }

    /** `emplace<T>(args...)`: the id and the component are inserted at the id's
        `lower_bound` position, so the column stays sorted and `components[i]` still
        belongs to `ids[i]`; then the ledger gets the record that will erase this row.
        The source asserts that the entity holds no `T` yet; `max_id` is always present,
        so an invalid handle is refused too. `typeName` is `typeid(T).name()`. */
    method Emplace<V>(sys: System<V>, ledger: Ledger, t: TypeRef, v: V, typeName: string) returns (row: nat)
      requires sys.Valid() && ledger.Valid() && Synced(sys.ids, ledger.removers)
      requires id !in sys.Ids(t)
      modifies sys`ids, sys`components, ledger`removers
      ensures sys.Valid() && ledger.Valid() && Synced(sys.ids, ledger.removers)
      ensures row == LowerBound(old(sys.Ids(t)), id)
      ensures sys.ids == old(sys.ids)[SlotOf(t) := Inserted(old(sys.Ids(t)), row, id)]
      ensures sys.components == old(sys.components)[SlotOf(t) := Inserted(old(sys.Components(t)), row, v)]
      ensures Get(sys.Ids(t), sys.Components(t), id) == Found(row, v)
      ensures var r := Remover(EraseFrom(SlotOf(t)), id, typeName);
        ledger.removers == Inserted(old(ledger.removers), KeyLowerBound(old(ledger.removers), r), r)
    {
      var slot := SlotOf(t);
      assert IsColumn(sys.IdsAt(slot));
      SyncedAfterInsert(sys.ids, ledger.removers, slot, id, typeName);
      row := InsertComponent(sys, slot, id, v);
      AddRemover(ledger, slot, typeName);
    }

    /** `add<T>(c)`: forwards to `emplace<T>`. */
    method Add<V>(sys: System<V>, ledger: Ledger, t: TypeRef, c: V, typeName: string) returns (row: nat)
      requires sys.Valid() && ledger.Valid() && Synced(sys.ids, ledger.removers)
      requires id !in sys.Ids(t)
      modifies sys`ids, sys`components, ledger`removers
      ensures sys.Valid() && ledger.Valid() && Synced(sys.ids, ledger.removers)
      ensures row == LowerBound(old(sys.Ids(t)), id)
      ensures sys.ids == old(sys.ids)[SlotOf(t) := Inserted(old(sys.Ids(t)), row, id)]
      ensures sys.components == old(sys.components)[SlotOf(t) := Inserted(old(sys.Components(t)), row, c)]
      ensures Get(sys.Ids(t), sys.Components(t), id) == Found(row, c)
      ensures var r := Remover(EraseFrom(SlotOf(t)), id, typeName);
        ledger.removers == Inserted(old(ledger.removers), KeyLowerBound(old(ledger.removers), r), r)
    {
      row := Emplace(sys, ledger, t, c, typeName);
    }

    /** `remove<T>()` as intended: the ledger record for this entity and `T`'s store,
        `(id, remover<remove_cvr<T>>)`, is found by `lower_bound` and erased, and its destructor erases this entity's row of `T`. (The
        source erases the record at the id's position in `ids<T>` instead; see the
        findings.) The entity must hold a `T`. */
    method Remove<V>(sys: System<V>, ledger: Ledger, t: TypeRef)
      requires sys.Valid() && ledger.Valid() && Synced(sys.ids, ledger.removers)
      requires id in sys.Ids(t) && id != MAX_ID
      modifies sys`ids, sys`components, ledger`removers
      ensures sys.Valid() && ledger.Valid() && Synced(sys.ids, ledger.removers)
      ensures var p := LowerBound(old(sys.Ids(t)), id);
        && sys.ids == old(sys.ids)[SlotOf(t) := Without(old(sys.Ids(t)), p)]
        && sys.components == old(sys.components)[SlotOf(t) := Without(old(sys.Components(t)), p)]
      ensures Get(sys.Ids(t), sys.Components(t), id) == NoComponent
      ensures var q := KeyLowerBound(old(ledger.removers), Remover(EraseFrom(SlotOf(t)), id, ""));
        && q < |old(ledger.removers)|
        && old(ledger.removers)[q].id == id && old(ledger.removers)[q].f == EraseFrom(SlotOf(t))
        && ledger.removers == Without(old(ledger.removers), q)
    {
      var slot := SlotOf(t);
      assert HasRecord(ledger.removers, id, slot);
      KeyLowerBoundFinds(ledger.removers, id, slot, "");
      var q := KeyLowerBound(ledger.removers, Remover(EraseFrom(slot), id, ""));
      GetAfterErase(sys.IdsAt(slot), sys.ComponentsAt(slot), id);
      ledger.EraseAt(sys, q);
    }
  }
}
