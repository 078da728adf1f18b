/** The bodies of `run_systems` and of the lambdas that the two `add_system` overloads
    register (system_base.h). Kept apart from `SystemBase` because they drive the cursor
    of system_iterator.h, which itself reads the storage of `SystemBase`. */
module Runner {
  import opened EcsImpl
  import opened Utility
  import opened SortedIds
  import opened Join
  import opened SystemBase
  import opened SystemIterator
  import opened SystemRange

  /** The loop `for (auto sit = range<Components...>(); sit; sit.advance())` calling
      `f(sit.get_entity_handle())`: it visits exactly the jointly held ids, in increasing
      order. */
  method VisitJoint<V>(sys: System<V>, types: seq<TypeRef>) returns (visited: seq<Id>)
    requires sys.Valid() && |types| >= 1
    ensures visited == JointIds(sys.Columns(types))
  {
    var c := Range(sys, types);
    visited := VisitRest(c);
  }

  /** The same loop from a settled cursor that has skipped no jointly held id: it visits
      every jointly held id from the current one on. */
  method VisitRest<V>(c: Cursor<V>) returns (visited: seq<Id>)
    requires c.Valid() && c.IsSettled()
    requires NoJointIn(c.Cols(), 0, c.CurrentId())
    requires c.CurrentId() != MAX_ID ==> Joint(c.Cols(), c.CurrentId())
    modifies c.currentIndexes
    ensures visited == JointIds(c.Cols())
  {
    ghost var cols := c.Cols();
    visited := [];
    var live := c.IsLive();
    while live
      invariant c.Valid() && c.Cols() == cols && c.IsSettled()
      invariant live == (c.CurrentId() != MAX_ID)
      invariant live ==> Joint(cols, c.CurrentId())
      invariant VisitedBelow(cols, visited, c.CurrentId())
      decreases MAX_ID - c.CurrentId()
    {
      var e := c.GetEntityHandle();
      c.Advance();
      VisitStep(cols, visited, e, c.CurrentId());
      visited := visited + [e];
      live := c.IsLive();
    }
    VisitedAllIsJointIds(cols, visited);
  }

  /** Runs the registered `std::function` system `c`, at position `run` of
      `function_systems`. */
  method RunClosure<V>(sys: System<V>, c: Closure, run: nat) returns (events: seq<Event>)
    requires sys.Valid() && WellFormed(c)
    ensures events == SystemEvents(sys.ids, c, run)
  {
    match c
    case Plain(tag, _) =>
      events := [Called(tag)];
    case Joined(types, f) =>
      var visited := VisitJoint(sys, types);
      events := CallsFor(f, visited);
    case JoinedPrecompute(types, f, pf) =>
      events := [Precomputed(pf, run)];
      var visited := VisitJoint(sys, types);
      events := events + CallsWith(f, visited, run);
  }

  /** The first loop of `run_systems()`: each function-pointer system once, in order. */
  method RunPointerSystems(fps: seq<nat>) returns (trace: seq<Event>)
    ensures trace == PlainCalls(fps)
  {
    trace := [];
    for i := 0 to |fps|
      invariant trace == PlainCalls(fps[..i])
    {
      assert fps[..i + 1][..i] == fps[..i];
      trace := trace + [Called(fps[i])];
    }
    assert fps[..|fps|] == fps;
  }

  /** The second loop of `run_systems()`: each `std::function` system once, in order. */
  method RunFunctionSystems<V>(sys: System<V>) returns (trace: seq<Event>)
    requires sys.Valid()
    ensures trace == ClosureEvents(sys.ids, sys.functionSystems)
  {
    var fs := sys.functionSystems;
    trace := [];
    for i := 0 to |fs|
      invariant trace == ClosureEvents(sys.ids, fs[..i])
    {
      var events := RunClosure(sys, fs[i], i);
      ClosureEventsSnoc(sys.ids, fs, i);
      trace := trace + events;
    }
    assert fs[..|fs|] == fs;
  }

  /** `run_systems()`: every function-pointer system, then every `std::function` system,
      each in registration order; the trace is exactly the tick specification. */
  method RunSystems<V>(sys: System<V>) returns (trace: seq<Event>)
    requires sys.Valid()
    ensures trace == sys.TickTrace()
  {
    var first := RunPointerSystems(sys.functionPointerSystems);
    var second := RunFunctionSystems(sys);
    trace := first + second;
  }
}
