/** system_base.h: the per-type storage (`components<T>`, `ids<T>`), the two lists of
    registered systems, and what one tick of `run_systems` is specified to do. */
module SystemBase {
  import opened EcsImpl
  import opened Utility
  import opened SortedIds
  import opened Join

  /** Storage slot of a type: `get_ids<T>`/`get_components<T>` go through `remove_cvr<T>`,
      so every slot is keyed by a base type. */
  function SlotOf(t: TypeRef): nat
  {
    RemoveCvr(t).base
  }

  /** A callable registered as a system. Plain: a callable given to
      `add_independent_system`, `convertible` telling whether it converts to `void(*)()`.
      Joined / JoinedPrecompute: the capturing lambdas built by the two `add_system`
      overloads; `f` is called per entity, `pf` once per tick. */
  datatype Closure =
    | Plain(tag: nat, convertible: bool)
    | Joined(types: seq<TypeRef>, f: nat)
    | JoinedPrecompute(types: seq<TypeRef>, f: nat, pf: nat)

  /** A join needs at least one queried type (`System_iterator<First, Rest...>`). */
  predicate WellFormed(c: Closure)
  {
    !c.Plain? ==> |c.types| >= 1
  }

  /** `std::is_convertible<Function, void (*)()>`: only a plain callable without captures;
      the `add_system` lambdas capture `f` (and `pf`) and never convert. */
  predicate ConvertibleToFnPointer(c: Closure)
  {
    c.Plain? && c.convertible
  }

  /** Observable effect of running systems. The callbacks' own effects are not modelled;
      each call is recorded. `run` is the position in `function_systems` of the system
      that made the call, so a `CalledForWith` names the `Precomputed` call of the same
      run whose result it received. */
  datatype Event =
    | Called(system: nat)
    | CalledFor(system: nat, entity: Id)
    | Precomputed(system: nat, run: nat)
    | CalledForWith(system: nat, entity: Id, run: nat)

  /** One call per registered function pointer, in order. */
  function PlainCalls(tags: seq<nat>): (r: seq<Event>)
    ensures |r| == |tags| && forall i :: 0 <= i < |tags| ==> r[i] == Called(tags[i])
  {
    if tags == [] then [] else PlainCalls(tags[..|tags| - 1]) + [Called(tags[|tags| - 1])]
  }

  /** One per-entity call of `f` for each id, in order. */
  function CallsFor(f: nat, ids: seq<Id>): (r: seq<Event>)
    ensures |r| == |ids| && forall i :: 0 <= i < |ids| ==> r[i] == CalledFor(f, ids[i])
  {
    if ids == [] then [] else CallsFor(f, ids[..|ids| - 1]) + [CalledFor(f, ids[|ids| - 1])]
  }

  /** One per-entity call of `f` for each id, each receiving the value precomputed by
      run `run`. */
  function CallsWith(f: nat, ids: seq<Id>, run: nat): (r: seq<Event>)
    ensures |r| == |ids| && forall i :: 0 <= i < |ids| ==> r[i] == CalledForWith(f, ids[i], run)
  {
    if ids == [] then [] else CallsWith(f, ids[..|ids| - 1], run) + [CalledForWith(f, ids[|ids| - 1], run)]
  }

  /** The id column of slot `s` in the store `ids`; a slot never touched is still at its
      seed `{max_id}`. */
  function ColumnIn(ids: map<nat, seq<Id>>, s: nat): seq<Id>
  {
    if s in ids then ids[s] else [MAX_ID]
  }

  /** The id columns of the queried types, in query order. */
  function ColumnsIn(ids: map<nat, seq<Id>>, types: seq<TypeRef>): (cols: seq<seq<Id>>)
    ensures |cols| == |types|
    ensures forall k :: 0 <= k < |types| ==> cols[k] == ColumnIn(ids, SlotOf(types[k]))
  {
    if types == [] then [] else ColumnsIn(ids, types[..|types| - 1]) + [ColumnIn(ids, SlotOf(types[|types| - 1]))]
  }

  /** What the registered `std::function` system `c`, at position `run` of
      `function_systems`, does when run over the store `ids`: a plain callable is called
      once; a joined system calls `f` for each jointly held id in increasing order; the
      precompute variant first calls `pf` once and passes that one result to every
      per-entity call. */
  function SystemEvents(ids: map<nat, seq<Id>>, c: Closure, run: nat): seq<Event>
    requires WellFormed(c)
  {
    match c
    case Plain(tag, _) => [Called(tag)]
    case Joined(types, f) => CallsFor(f, JointIds(ColumnsIn(ids, types)))
    case JoinedPrecompute(types, f, pf) =>
      [Precomputed(pf, run)] + CallsWith(f, JointIds(ColumnsIn(ids, types)), run)
  }

  /** The registered `std::function` systems run one after another, in order. */
  function ClosureEvents(ids: map<nat, seq<Id>>, cs: seq<Closure>): seq<Event>
    requires forall c :: c in cs ==> WellFormed(c)
  {
    if cs == [] then []
    else ClosureEvents(ids, cs[..|cs| - 1]) + SystemEvents(ids, cs[|cs| - 1], |cs| - 1)
  }

  class System<V> {
    /** `ids<T>` per slot; a slot never touched is still at its seed `{max_id}`. */
    var ids: map<nat, seq<Id>>
    /** `components<T>` per slot; a slot never touched is still empty. */
    var components: map<nat, seq<V>>
    var functionPointerSystems: seq<nat>
    var functionSystems: seq<Closure>

    function IdsAt(s: nat): seq<Id>
      reads this`ids
    {
      ColumnIn(ids, s)
    }

    function ComponentsAt(s: nat): seq<V>
      reads this`components
    {
      if s in components then components[s] else []
    }

    /** `get_ids<T>()`. */
    function Ids(t: TypeRef): seq<Id>
      reads this`ids
    {
      IdsAt(SlotOf(t))
    }

    /** `get_components<T>()`. */
    function Components(t: TypeRef): seq<V>
      reads this`components
    {
      ComponentsAt(SlotOf(t))
    }

    /** Every slot: ids sorted with the sentinel last, and one component per real id,
        `components[i]` belonging to `ids[i]`. */
    ghost predicate Valid()
      reads this
    {
      && (forall s: nat :: IsColumn(IdsAt(s)) && |IdsAt(s)| == |ComponentsAt(s)| + 1)
      && (forall c :: c in functionSystems ==> WellFormed(c))
    }

    /** The static initialisers: every `ids<T>` is `{max_id}`, every `components<T>` is
        empty, and no system is registered. */
    constructor ()
      ensures Valid()
      ensures forall s: nat :: IdsAt(s) == [MAX_ID] && ComponentsAt(s) == []
      ensures functionPointerSystems == [] && functionSystems == []
    {
      ids := map[];
      components := map[];
      functionPointerSystems := [];
      functionSystems := [];
    }

    /** The id columns of the queried types, in query order. */
    function Columns(types: seq<TypeRef>): seq<seq<Id>>
      reads this`ids
    {
      ColumnsIn(ids, types)
    }

    lemma ColumnsValid(types: seq<TypeRef>)
      requires Valid() && |types| >= 1
      ensures ValidColumns(Columns(types))
    {
      forall k | 0 <= k < |types| ensures IsColumn(Columns(types)[k]) {
        assert IsColumn(IdsAt(SlotOf(types[k])));
      }
    }

    /** `add_to_system`: a callable convertible to `void(*)()` is appended to
        `function_pointer_systems`, any other to `function_systems`. */
    method AddToSystem(c: Closure)
      requires Valid() && WellFormed(c)
      modifies this
      ensures Valid()
      ensures ids == old(ids) && components == old(components)
      ensures ConvertibleToFnPointer(c) ==>
        functionPointerSystems == old(functionPointerSystems) + [c.tag] && functionSystems == old(functionSystems)
      ensures !ConvertibleToFnPointer(c) ==>
        functionSystems == old(functionSystems) + [c] && functionPointerSystems == old(functionPointerSystems)
    {
      if ConvertibleToFnPointer(c) {
        functionPointerSystems := functionPointerSystems + [c.tag];
      } else {
        functionSystems := functionSystems + [c];
      }
    }

    /** `add_system<Components...>(f)`: registers a per-entity callback over a join. */
    method AddSystem(types: seq<TypeRef>, f: nat)
      requires Valid() && |types| >= 1
      modifies this
      ensures Valid()
      ensures ids == old(ids) && components == old(components)
      ensures functionSystems == old(functionSystems) + [Joined(types, f)]
      ensures functionPointerSystems == old(functionPointerSystems)
    {
      AddToSystem(Joined(types, f));
    }

    /** `add_system<Components...>(f, pf)`: as above with a once-per-tick precompute. */
    method AddSystemPrecompute(types: seq<TypeRef>, f: nat, pf: nat)
      requires Valid() && |types| >= 1
      modifies this
      ensures Valid()
      ensures ids == old(ids) && components == old(components)
      ensures functionSystems == old(functionSystems) + [JoinedPrecompute(types, f, pf)]
      ensures functionPointerSystems == old(functionPointerSystems)
    {
      AddToSystem(JoinedPrecompute(types, f, pf));
    }

    /** `add_independent_system(f)`: forwards `f` unchanged to `add_to_system`. */
    method AddIndependentSystem(tag: nat, convertible: bool)
      requires Valid()
      modifies this
      ensures Valid()
      ensures ids == old(ids) && components == old(components)
      ensures convertible ==> functionPointerSystems == old(functionPointerSystems) + [tag]
                              && functionSystems == old(functionSystems)
      ensures !convertible ==> functionSystems == old(functionSystems) + [Plain(tag, false)]
                               && functionPointerSystems == old(functionPointerSystems)
    {
      AddToSystem(Plain(tag, convertible));
    }

    /** One tick of `run_systems`: every function-pointer system, then every
        `std::function` system, each in registration order. */
    function TickTrace(): seq<Event>
      reads this
      requires Valid()
    {
      PlainCalls(functionPointerSystems) + ClosureEvents(ids, functionSystems)
    }
  }

  /** `get_ids<T>()` and `get_components<T>()` go through `remove_cvr<T>`: two spellings
      of a type reach the same store exactly when they share a base type, so `T`,
      `const T&` and `T&&` see the same ids and the same components. */
  lemma SameStoreIffSameBase<V>(sys: System<V>, t: TypeRef, u: TypeRef)
    ensures SlotOf(t) == SlotOf(u) <==> t.base == u.base
    ensures t.base == u.base ==> sys.Ids(t) == sys.Ids(u) && sys.Components(t) == sys.Components(u)
  {
  }

  /** Running one more `std::function` system appends its events to the trace. */
  lemma ClosureEventsSnoc(ids: map<nat, seq<Id>>, fs: seq<Closure>, i: nat)
    requires i < |fs| && forall c :: c in fs ==> WellFormed(c)
    ensures ClosureEvents(ids, fs[..i + 1]) == ClosureEvents(ids, fs[..i]) + SystemEvents(ids, fs[i], i)
  {
    assert fs[..i + 1][..i] == fs[..i];
  }

  /** Tick ordering: the function-pointer systems' calls come first, one each, in
      registration order, and everything after them belongs to the `std::function`
      systems. */
  lemma TickRunsPointerSystemsFirst<V>(sys: System<V>)
    requires sys.Valid()
    ensures |sys.TickTrace()| >= |sys.functionPointerSystems|
    ensures forall i :: 0 <= i < |sys.functionPointerSystems| ==>
      sys.TickTrace()[i] == Called(sys.functionPointerSystems[i])
    ensures sys.TickTrace()[|sys.functionPointerSystems|..] == ClosureEvents(sys.ids, sys.functionSystems)
  {
  }

  /** A joined system calls `f` exactly once for every entity holding all queried types,
      never for any other, in strictly increasing id order. */
  lemma JoinedSystemVisitsJointIds<V>(sys: System<V>, types: seq<TypeRef>, f: nat, run: nat)
    requires sys.Valid() && |types| >= 1
    ensures var e := SystemEvents(sys.ids, Joined(types, f), run);
      && (forall i :: 0 <= i < |e| ==> e[i].CalledFor? && e[i].system == f)
      && (forall i, j :: 0 <= i < j < |e| ==> e[i].entity < e[j].entity)
      && (forall x: Id :: Joint(sys.Columns(types), x) <==> exists i :: 0 <= i < |e| && e[i].entity == x)
  {
    var v := JointIds(sys.Columns(types));
    sys.ColumnsValid(types);
    JointIdsSpec(sys.Columns(types));
    var e := SystemEvents(sys.ids, Joined(types, f), run);
    forall x: Id ensures Joint(sys.Columns(types), x) <==> exists i :: 0 <= i < |e| && e[i].entity == x {
      if x in v {
        var i :| 0 <= i < |v| && v[i] == x;
        assert e[i].entity == x;
      }
    }
  }

  /** The precompute variant calls `pf` once, first, and every per-entity call receives
      the result of that one call. */
  lemma PrecomputeRunsOnceFirst<V>(sys: System<V>, types: seq<TypeRef>, f: nat, pf: nat, run: nat)
    requires sys.Valid() && |types| >= 1
    ensures var e := SystemEvents(sys.ids, JoinedPrecompute(types, f, pf), run);
      && |e| >= 1 && e[0] == Precomputed(pf, run)
      && (forall i :: 1 <= i < |e| ==> e[i].CalledForWith? && e[i].system == f && e[i].run == run)
      && |e| - 1 == |JointIds(sys.Columns(types))|
  {
  }
}
