/** Helpers of utility.h: the compile-time type list, remove_cvr, Move_only_pointer and RAII. */
module Utility {
  import opened Wrappers

  /** Reference category of a C++ type as written: `T`, `T&` or `T&&`. */
  datatype RefKind = NoRef | LRef | RRef

  /** A C++ type as written at a use site: an unqualified base type (identified by a
      number) together with its const/volatile qualifiers and reference category. */
  datatype TypeRef = TypeRef(base: nat, isConst: bool, isVolatile: bool, reference: RefKind)

  /** `remove_cvr<T>`: drops the reference, then the const and volatile qualifiers. */
  function RemoveCvr(t: TypeRef): TypeRef
  {
    TypeRef(t.base, false, false, NoRef)
  }

  /** Two types reach the same storage exactly when they agree after `remove_cvr`,
      that is, when they share their base type: `T`, `const T&` and `T&&` collide. */
  lemma RemoveCvrSameSlot(t: TypeRef, u: TypeRef)
    ensures RemoveCvr(t) == RemoveCvr(u) <==> t.base == u.base
    ensures RemoveCvr(RemoveCvr(t)) == RemoveCvr(t)
  {
  }

  /** `Type_list<T...>::size`. */
  function Size(list: seq<TypeRef>): (n: nat)
    ensures n == |list|
  {
    if list == [] then 0 else 1 + Size(list[1..])
  }

  /** `Type_list<T...>::get_index<U, type_index>()`: scans from `from` for the first entry
      that is exactly `u` (std::is_same, no cvr stripping). A scan that runs off the end is
      the `static_assert` failure, here `None`. */
  function GetIndexFrom(list: seq<TypeRef>, u: TypeRef, from: nat): (r: Option<nat>)
    requires from < |list|
    ensures r.Some? ==> from <= r.value < |list| && list[r.value] == u
    ensures r.Some? ==> forall j :: from <= j < r.value ==> list[j] != u
    ensures r.None? ==> forall j :: from <= j < |list| ==> list[j] != u
    decreases |list| - from
  {
    if list[from] == u then Some(from)
    else if from + 1 < |list| then GetIndexFrom(list, u, from + 1)
    else None
  }

  /** `get_index<U>()` with its default start 0; an empty list has no `nth<0>`. */
  function GetIndex(list: seq<TypeRef>, u: TypeRef): (r: Option<nat>)
    ensures r.Some? <==> u in list
    ensures r.Some? ==> r.value < |list| && list[r.value] == u
    ensures r.Some? ==> forall j :: 0 <= j < r.value ==> list[j] != u
  {
    if |list| == 0 then None else GetIndexFrom(list, u, 0)
  }

  /** `Type_list<T...>::has<U, type_index>()`. */
  function HasFrom(list: seq<TypeRef>, u: TypeRef, from: nat): bool
    requires from <= |list|
    decreases |list| - from
  {
    if from == |list| then false
    else if list[from] == u then true
    else HasFrom(list, u, from + 1)
  }

  /** `has<U>()` is true exactly when some listed type is `u`. */
  lemma {:induction false} HasFromIffListed(list: seq<TypeRef>, u: TypeRef, from: nat)
    requires from <= |list|
    ensures HasFrom(list, u, from) <==> exists j :: from <= j < |list| && list[j] == u
    decreases |list| - from
  {
    if from < |list| && list[from] != u {
      HasFromIffListed(list, u, from + 1);
    }
  }

  /** `has<U>()` and `get_index<U>()` agree: a type is listed iff its index is defined. */
  lemma HasIffGetIndex(list: seq<TypeRef>, u: TypeRef)
    ensures HasFrom(list, u, 0) <==> GetIndex(list, u).Some?
  {
    HasFromIffListed(list, u, 0);
  }

  /** A raw pointer value: null or some address. */
  datatype Ptr = Null | Address(addr: nat)

  /** `Move_only_pointer<T>`: a pointer that can be moved but not copied (the copy
      constructor and copy assignment are deleted, so there are no such members here). */
  class MoveOnlyPointer {
    var t: Ptr

    /** Default construction holds null. */
    constructor Empty()
      ensures t == Null && !IsSet()
    {
      t := Null;
    }

    /** Construction from a raw pointer. */
    constructor FromRaw(p: Ptr)
      ensures t == p
    {
      t := p;
    }

    /** Move construction takes the source's pointer and leaves the source null. */
    constructor MoveFrom(other: MoveOnlyPointer)
      modifies other
      ensures t == old(other.t) && other.t == Null && !other.IsSet()
    {
      t := other.t;
      other.t := Null;
    }

    /** Move assignment swaps the two pointers. */
    method MoveAssign(other: MoveOnlyPointer)
      modifies this, other
      ensures other != this ==> t == old(other.t) && other.t == old(t)
      ensures other == this ==> t == old(t)
    {
      t, other.t := other.t, t;
    }

    /** Assignment from a raw pointer overwrites the held pointer. */
    method AssignRaw(p: Ptr)
      modifies this
      ensures t == p
    {
      t := p;
    }

    /** `operator->`: the held pointer. */
    function Arrow(): Ptr
      reads this
    {
      t
    }

    /** `operator bool`: whether the held pointer is non-null. */
    predicate IsSet()
      reads this
    {
      t != Null
    }
  }

  /** `RAII<Function>`: holds a callback and invokes it once, when destroyed. The callback
      is identified by a number; invoking it is reported by returning that number. */
  class Raii {
    const f: nat
    var destroyed: bool

    constructor (f: nat)
      ensures this.f == f && !destroyed
    {
      this.f := f;
      destroyed := false;
    }

    /** `~RAII()`: runs the stored function exactly once. */
    method Destroy() returns (invoked: seq<nat>)
      requires !destroyed
      modifies this
      ensures destroyed && invoked == [f]
    {
      invoked := [f];
      destroyed := true;
    }
  }
}
